/** The rotation of the epoch cache agrees with rebuilding it, over whole runs. */
module Rotation {
  import opened Params
  import opened Shuffle
  import opened Sampling
  import opened EpochShuffling
  import opened Registry
  import opened Cache

  /** `getEffectiveBalanceIncrementsWithLen`: lengths are rounded up to a multiple of 1024. */
  function PaddedLength(validatorCount: nat): (r: nat)
    ensures r >= validatorCount && r % 1024 == 0
  {
    1024 * ((validatorCount + 1023) / 1024)
  }

  /** The zero-padded array of increments of a fresh context. */
  function PaddedIncrements(c: Config, vs: seq<Validator>): (r: seq<nat>)
    ensures |r| == PaddedLength(|vs|)
    ensures Records(c, vs, r)
  {
    IncrementsOf(c, vs) + seq(PaddedLength(|vs|) - |vs|, _ => 0)
  }

  /** The cache that `createFromState` builds. */
  function Fresh(c: Config, st: BeaconState): Cache
    requires |st.randaoMixes| == c.epochsPerHistoricalVector
  {
    var e := c.EpochAtSlot(st.slot);
    var latest := LatestExit(st.validators, c.ActivationExitEpoch(e));
    var churn := ExitsAt(st.validators, latest);
    var limit := ChurnLimit(c, |ActiveIndices(st.validators, e)|);
    Cache(
      e,
      c.SyncPeriodAtEpoch(e),
      ShufflingAt(c, st, c.PreviousEpoch(e)),
      ShufflingAt(c, st, e),
      ShufflingAt(c, st, e + 1),
      ProposersAt(c, st, e),
      PaddedIncrements(c, st.validators),
      Max(1, ActiveStake(c, st.validators, e)),
      limit,
      if churn >= limit then latest + 1 else latest,
      if churn >= limit then 0 else churn)
  }

  /** The cache after `afterProcessEpoch`, given what epoch processing collected. */
  function Rotate(c: Config, k: Cache, st: BeaconState, nextShufflingIndices: seq<nat>, nextTotal: nat): Cache
    requires |st.randaoMixes| == c.epochsPerHistoricalVector
    requires k.nextShuffling.activeIndices != []
  {
    var currEpoch := k.nextShuffling.epoch;
    var floor := c.ActivationExitEpoch(currEpoch);
    var epoch := c.EpochAtSlot(st.slot);
    Cache(
      epoch,
      c.SyncPeriodAtEpoch(epoch),
      k.currentShuffling,
      k.nextShuffling,
      ShufflingSpec(c, st.randaoMixes, nextShufflingIndices, currEpoch + 1),
      ProposersSpec(c, st.randaoMixes, currEpoch, k.nextShuffling.activeIndices, k.effectiveBalanceIncrements),
      k.effectiveBalanceIncrements,
      nextTotal,
      ChurnLimit(c, |k.nextShuffling.activeIndices|),
      if floor > k.exitQueueEpoch then floor else k.exitQueueEpoch,
      if floor > k.exitQueueEpoch then 0 else k.exitQueueChurn)
  }

  /** The cache agrees with the state: every field is what a rebuild would give, but for the
      exit queue, which keeps what `QueueKept` says, and the total, which may be unclamped. */
  ghost predicate Coherent(c: Config, st: BeaconState, k: Cache)
    requires |st.randaoMixes| == c.epochsPerHistoricalVector
  {
    var e := c.EpochAtSlot(st.slot);
    var active := ActiveIndices(st.validators, e);
    && k.epoch == e
    && k.syncPeriod == c.SyncPeriodAtEpoch(e)
    && WindowCurrent(c, st, k)
    && (active != [] ==> k.proposers == ProposersAt(c, st, e))
    && Records(c, st.validators, k.effectiveBalanceIncrements)
    && k.totalActiveBalanceIncrements in {ActiveStake(c, st.validators, e), Max(1, ActiveStake(c, st.validators, e))}
    && k.churnLimit == ChurnLimit(c, |active|)
    && QueueKept(c, st.validators, e, k.exitQueueEpoch, k.exitQueueChurn)
  }

  lemma FreshCoherent(c: Config, st: BeaconState)
    requires |st.randaoMixes| == c.epochsPerHistoricalVector
    ensures Coherent(c, st, Fresh(c, st))
    ensures Fresh(c, st).exitQueueChurn < Fresh(c, st).churnLimit
  {
    hide ShufflingAt, ActiveIndices, LatestExit, ExitsAt, QueueKept;
    QueueFresh(c, st.validators, c.EpochAtSlot(st.slot));
  }

  /** The total of a cache that was last rotated, or else last built. */
  ghost predicate TotalIs(c: Config, vs: seq<Validator>, k: Cache, rotated: bool) {
    var stake := ActiveStake(c, vs, k.epoch);
    k.totalActiveBalanceIncrements == if rotated then stake else Max(1, stake)
  }

  /** How far a coherent cache is from a rebuilt one: not at all in the window, the proposers and
      the churn limit; in the total exactly when it was last rotated and nothing is at stake; in the
      next exit epoch exactly when the cached queue skips room. */
  lemma CoherentAgainstFresh(c: Config, st: BeaconState, k: Cache, rotated: bool)
    requires |st.randaoMixes| == c.epochsPerHistoricalVector
    requires Coherent(c, st, k) && TotalIs(c, st.validators, k, rotated)
    requires ActiveIndices(st.validators, k.epoch) != []
    ensures var f := Fresh(c, st);
      && k.(effectiveBalanceIncrements := [], totalActiveBalanceIncrements := 0, exitQueueEpoch := 0, exitQueueChurn := 0)
      == f.(effectiveBalanceIncrements := [], totalActiveBalanceIncrements := 0, exitQueueEpoch := 0, exitQueueChurn := 0)
      && (forall i :: 0 <= i < |st.validators| ==> k.effectiveBalanceIncrements[i] == f.effectiveBalanceIncrements[i])
      && (k.totalActiveBalanceIncrements == f.totalActiveBalanceIncrements
          <==> !rotated || ActiveStake(c, st.validators, k.epoch) >= 1)
      && (NextExitEpoch(k.exitQueueEpoch, k.exitQueueChurn, k.churnLimit)
          == NextExitEpoch(f.exitQueueEpoch, f.exitQueueChurn, f.churnLimit)
          <==> !SkipsRoom(c, st.validators, k.epoch, k.exitQueueEpoch))
  {
    hide ShufflingAt, ActiveIndices, LatestExit, ExitsAt, QueueKept, ProposersAt;
    QueueAgrees(c, st.validators, k.epoch, k.exitQueueEpoch, k.exitQueueChurn);
    QueueFresh(c, st.validators, k.epoch);
    assert NextExitEpoch(Fresh(c, st).exitQueueEpoch, Fresh(c, st).exitQueueChurn, k.churnLimit)
        == SpecExitEpoch(c, st.validators, k.epoch);
  }

  lemma ShufflingEpochs(c: Config, st: BeaconState, k: Cache)
    requires |st.randaoMixes| == c.epochsPerHistoricalVector && Coherent(c, st, k)
    ensures k.epoch == c.EpochAtSlot(st.slot) == k.currentShuffling.epoch
    ensures k.previousShuffling.epoch == c.PreviousEpoch(k.epoch)
    ensures k.nextShuffling.activeIndices == ActiveIndices(st.validators, k.epoch + 1)
    ensures k.nextShuffling.epoch == k.epoch + 1
  {
  }

  /** The window of every coherent cache: the epochs around the one that the slot lies in. */
  lemma CoherentWindow(c: Config, st: BeaconState, k: Cache)
    requires |st.randaoMixes| == c.epochsPerHistoricalVector && Coherent(c, st, k)
    ensures var e := st.slot / c.slotsPerEpoch;
      && k.previousShuffling.epoch == (if e == 0 then 0 else e - 1)
      && k.currentShuffling.epoch == k.epoch == e && k.nextShuffling.epoch == e + 1
      && k.syncPeriod == e / c.epochsPerSyncCommitteePeriod
  {
    hide ActiveIndices, QueueKept, ProposersAt, ActiveStake, CommitteesSpec, Seed;
  }

  lemma CoherentQueue(c: Config, st: BeaconState, k: Cache)
    requires |st.randaoMixes| == c.epochsPerHistoricalVector && Coherent(c, st, k)
    ensures QueueKept(c, st.validators, k.epoch, k.exitQueueEpoch, k.exitQueueChurn)
    ensures k.churnLimit == ChurnLimit(c, |ActiveIndices(st.validators, k.epoch)|) > 0
    ensures WindowCurrent(c, st, k) && Records(c, st.validators, k.effectiveBalanceIncrements)
  {
  }

  // ----- Changes within an epoch -----

  /** What a change within an epoch may do to the state. */
  ghost predicate WithinEpoch(c: Config, st: BeaconState, st': BeaconState) {
    var e := c.EpochAtSlot(st.slot);
    && |st.randaoMixes| == |st'.randaoMixes| == c.epochsPerHistoricalVector
    && c.EpochAtSlot(st'.slot) == e
    && RegistryRules(c, e, st.validators, st'.validators)
    && MixRules(c, e, st.randaoMixes, st'.randaoMixes, false)
    && (forall i :: 0 <= i < |st.validators| ==> Increments(c, st'.validators[i]) == Increments(c, st.validators[i]))
  }

  lemma ActiveBelow(vs: seq<Validator>, e: nat)
    ensures forall v: nat :: v in ActiveIndices(vs, e) ==> v < |vs| && IsActive(vs[v], e)
  {
    SelectMembers(vs, ActiveAt(e));
  }

  lemma WithinProposers(c: Config, st: BeaconState, st': BeaconState)
    requires WithinEpoch(c, st, st') && c.maxSeedLookahead >= 1
    ensures ProposersAt(c, st, c.EpochAtSlot(st.slot)) == ProposersAt(c, st', c.EpochAtSlot(st.slot))
  {
    hide ActiveIndices, Seed, MixRules, Increments, ProposersSpec;
    var e := c.EpochAtSlot(st.slot);
    RulesActiveSame(c, e, st.validators, st'.validators, e);
    RulesSeedSame(c, e, st.randaoMixes, st'.randaoMixes, false, e, DOMAIN_BEACON_PROPOSER);
    ActiveBelow(st.validators, e);
    var active := ActiveIndices(st.validators, e);
    if active != [] {
      ProposersSame(c, st.randaoMixes, st'.randaoMixes, e, active,
                    IncrementsOf(c, st.validators), IncrementsOf(c, st'.validators));
    }
  }

  lemma WithinStake(c: Config, st: BeaconState, st': BeaconState)
    requires WithinEpoch(c, st, st')
    ensures ActiveStake(c, st.validators, c.EpochAtSlot(st.slot)) == ActiveStake(c, st'.validators, c.EpochAtSlot(st.slot))
  {
    hide MixRules, Increments;
    var e := c.EpochAtSlot(st.slot);
    StakeSame(c, st.validators, ActiveAt(e), st'.validators, ActiveAt(e));
  }

  lemma WithinWindow(c: Config, st: BeaconState, st': BeaconState, k: Cache, k': Cache)
    requires WithinEpoch(c, st, st') && c.maxSeedLookahead >= 1
    requires WindowCurrent(c, st, k)
    requires k'.previousShuffling == k.previousShuffling && k'.currentShuffling == k.currentShuffling
    requires k'.nextShuffling == k.nextShuffling
    ensures WindowCurrent(c, st', k')
  {
    hide ShufflingAt, RegistryRules, MixRules;
    var e := c.EpochAtSlot(st.slot);
    RulesShufflingSame(c, e, st, st', false, c.PreviousEpoch(e));
    RulesShufflingSame(c, e, st, st', false, e);
    RulesShufflingSame(c, e, st, st', false, e + 1);
  }

  /** Changes within an epoch keep the cache coherent when they keep the increments recorded and
      the exit queue. */
  lemma WithinCoherent(c: Config, st: BeaconState, st': BeaconState, k: Cache, k': Cache)
    requires |st.randaoMixes| == |st'.randaoMixes| == c.epochsPerHistoricalVector
    requires WithinEpoch(c, st, st') && c.maxSeedLookahead >= 1
    requires Coherent(c, st, k)
    requires k' == k.(effectiveBalanceIncrements := k'.effectiveBalanceIncrements,
                      exitQueueEpoch := k'.exitQueueEpoch, exitQueueChurn := k'.exitQueueChurn)
    requires Records(c, st'.validators, k'.effectiveBalanceIncrements)
    requires QueueKept(c, st'.validators, k.epoch, k'.exitQueueEpoch, k'.exitQueueChurn)
    ensures Coherent(c, st', k')
  {
    hide RegistryRules, MixRules, WindowCurrent, QueueKept, ProposersAt, ActiveStake, ActiveIndices, Increments;
    WithinWindow(c, st, st', k, k');
    WithinProposers(c, st, st');
    WithinStake(c, st, st');
    RulesActiveSame(c, k.epoch, st.validators, st'.validators, k.epoch);
  }

  // ----- Across an epoch boundary -----

  /** From the state `st` that epoch processing starts on to the state `st'` that the rotation
      sees, with the active set and the total that epoch processing collected on the way. */
  ghost predicate Boundary(c: Config, st: BeaconState, st': BeaconState, nextShufflingIndices: seq<nat>, nextTotal: nat) {
    var e := c.EpochAtSlot(st.slot);
    && c.EpochAtSlot(st'.slot) == e + 1
    && RegistryRules(c, e, st.validators, st'.validators)
    && MixRules(c, e, st.randaoMixes, st'.randaoMixes, true)
    && nextShufflingIndices == ActiveIndices(st.validators, e + 2)
    && nextTotal == Stake(c, st'.validators, ActiveAt(e + 1))
  }

  lemma ShufflingEpoch(c: Config, st: BeaconState, epoch: nat)
    requires |st.randaoMixes| == c.epochsPerHistoricalVector
    ensures ShufflingAt(c, st, epoch).epoch == epoch
  {
    hide ActiveIndices, CommitteesSpec, CommitteeCount, Seed;
  }

  lemma BoundaryWindow(c: Config, st: BeaconState, st': BeaconState, k: Cache, nextShufflingIndices: seq<nat>, nextTotal: nat)
    requires |st.randaoMixes| == |st'.randaoMixes| == c.epochsPerHistoricalVector
    requires Boundary(c, st, st', nextShufflingIndices, nextTotal) && c.maxSeedLookahead >= 2
    requires WindowCurrent(c, st, k) && k.nextShuffling.activeIndices != []
    ensures WindowCurrent(c, st', Rotate(c, k, st', nextShufflingIndices, nextTotal))
  {
    hide RegistryRules, MixRules, ProposersSpec, Stake, ShufflingSpec, ActiveIndices;
    var e := c.EpochAtSlot(st.slot);
    ShufflingEpoch(c, st, e + 1);
    RulesShufflingSame(c, e, st, st', true, e);
    RulesShufflingSame(c, e, st, st', true, e + 1);
    RulesActiveSame(c, e, st.validators, st'.validators, e + 2);
  }

  lemma RotatedProposers(c: Config, st: BeaconState, increments: seq<nat>, epoch: nat)
    requires |st.randaoMixes| == c.epochsPerHistoricalVector
    requires Records(c, st.validators, increments)
    requires ActiveIndices(st.validators, epoch) != []
    ensures ProposersSpec(c, st.randaoMixes, epoch, ActiveIndices(st.validators, epoch), increments)
         == ProposersAt(c, st, epoch)
  {
    hide ActiveIndices, ProposersSpec, Increments, Seed;
    ActiveBelow(st.validators, epoch);
    ProposersSame(c, st.randaoMixes, st.randaoMixes, epoch, ActiveIndices(st.validators, epoch),
                  increments, IncrementsOf(c, st.validators));
  }

  /** Rotating a coherent cache at an epoch boundary gives a coherent cache: the three shufflings,
      the proposers, the churn limit, the exit queue and the total all fit the new state. */
  lemma RotateCoherent(c: Config, st: BeaconState, st': BeaconState, k: Cache, nextShufflingIndices: seq<nat>, nextTotal: nat)
    requires |st.randaoMixes| == |st'.randaoMixes| == c.epochsPerHistoricalVector
    requires c.maxSeedLookahead >= 2
    requires Boundary(c, st, st', nextShufflingIndices, nextTotal)
    requires WindowCurrent(c, st, k)
    requires Records(c, st'.validators, k.effectiveBalanceIncrements)
    requires QueueKept(c, st'.validators, c.EpochAtSlot(st.slot), k.exitQueueEpoch, k.exitQueueChurn)
    requires k.nextShuffling.activeIndices != []
    ensures Coherent(c, st', Rotate(c, k, st', nextShufflingIndices, nextTotal))
    ensures Rotate(c, k, st', nextShufflingIndices, nextTotal).totalActiveBalanceIncrements
         == ActiveStake(c, st'.validators, c.EpochAtSlot(st'.slot))
    ensures Rotate(c, k, st', nextShufflingIndices, nextTotal).exitQueueEpoch >= k.exitQueueEpoch
  {
    hide RegistryRules, MixRules, ProposersSpec, CommitteesSpec, CommitteeCount, ActiveIndices, QueueKept, Increments;
    var e := c.EpochAtSlot(st.slot);
    BoundaryWindow(c, st, st', k, nextShufflingIndices, nextTotal);
    assert k.nextShuffling.activeIndices == ActiveIndices(st.validators, e + 1);
    RulesActiveSame(c, e, st.validators, st'.validators, e + 1);
    RotatedProposers(c, st', k.effectiveBalanceIncrements, e + 1);
    QueueNextEpoch(c, st'.validators, e, k.exitQueueEpoch, k.exitQueueChurn);
  }

  // ----- Where the rotated cache and a rebuilt one part -----

  /** A rotated cache keeps the total of an active set without stake at 0, a rebuilt one at 1. */
  lemma TotalsPart(c: Config, st: BeaconState, k: Cache, nextShufflingIndices: seq<nat>)
    requires |st.randaoMixes| == c.epochsPerHistoricalVector
    requires k.nextShuffling.activeIndices != []
    ensures var total := ActiveStake(c, st.validators, c.EpochAtSlot(st.slot));
      var rotated := Rotate(c, k, st, nextShufflingIndices, total);
      rotated.totalActiveBalanceIncrements == Fresh(c, st).totalActiveBalanceIncrements <==> total >= 1
  {
  }

  /** A queue that skips no room skips none after a rotation, unless the churn limit rose. */
  lemma RotationSkipsNoRoom(c: Config, vs: seq<Validator>, epoch: nat, queueEpoch: nat, queueChurn: nat)
    requires QueueKept(c, vs, epoch, queueEpoch, queueChurn)
    requires !SkipsRoom(c, vs, epoch, queueEpoch)
    requires ChurnLimit(c, |ActiveIndices(vs, epoch + 1)|) <= ChurnLimit(c, |ActiveIndices(vs, epoch)|)
    ensures var floor := c.ActivationExitEpoch(epoch + 1);
      !SkipsRoom(c, vs, epoch + 1, if floor > queueEpoch then floor else queueEpoch)
  {
    var low, floor := c.ActivationExitEpoch(epoch), c.ActivationExitEpoch(epoch + 1);
    LatestExitBounds(vs, low);
    LatestExitBounds(vs, floor);
    if floor > queueEpoch {
      LatestExitUnique(vs, floor, floor);
    } else if LatestExit(vs, low) >= floor {
      LatestExitUnique(vs, floor, LatestExit(vs, low));
    }
  }

  /** The queue epoch after a rotation. */
  function RotatedQueueEpoch(c: Config, epoch: nat, queueEpoch: nat): nat {
    Max(queueEpoch, c.ActivationExitEpoch(epoch + 1))
  }

  /** Whatever happened since the cache was built: after a rotation the queue skips room if and only
      if it had moved past its latest exit, that exit lies no earlier than the new floor, and there
      are fewer exits at it than the new churn limit. */
  lemma RotatedSkipsRoom(c: Config, vs: seq<Validator>, epoch: nat, queueEpoch: nat, queueChurn: nat)
    requires QueueKept(c, vs, epoch, queueEpoch, queueChurn)
    ensures var latest := LatestExit(vs, c.ActivationExitEpoch(epoch));
      SkipsRoom(c, vs, epoch + 1, RotatedQueueEpoch(c, epoch, queueEpoch))
      <==> queueEpoch > latest >= c.ActivationExitEpoch(epoch + 1)
           && ExitsAt(vs, latest) < ChurnLimit(c, |ActiveIndices(vs, epoch + 1)|)
  {
    hide ActiveIndices, ChurnLimit;
    var low, floor := c.ActivationExitEpoch(epoch), c.ActivationExitEpoch(epoch + 1);
    LatestExitBounds(vs, low);
    LatestExitBounds(vs, floor);
    if LatestExit(vs, low) >= floor {
      LatestExitUnique(vs, floor, LatestExit(vs, low));
    } else {
      LatestExitUnique(vs, floor, floor);
    }
  }

  /** In particular for a registry that did not change since the cache was built: the build must have
      found the queue full, and the churn limit must have risen since. */
  lemma BuiltThenRotatedSkipsRoom(c: Config, vs: seq<Validator>, epoch: nat)
    ensures var latest := LatestExit(vs, c.ActivationExitEpoch(epoch));
      var limit, limit' := ChurnLimit(c, |ActiveIndices(vs, epoch)|), ChurnLimit(c, |ActiveIndices(vs, epoch + 1)|);
      var built := if ExitsAt(vs, latest) >= limit then latest + 1 else latest;
      SkipsRoom(c, vs, epoch + 1, RotatedQueueEpoch(c, epoch, built))
      <==> latest >= c.ActivationExitEpoch(epoch + 1) && limit <= ExitsAt(vs, latest) < limit'
  {
    hide ActiveIndices, ChurnLimit, LatestExit, ExitsAt, SkipsRoom, QueueKept;
    var latest := LatestExit(vs, c.ActivationExitEpoch(epoch));
    QueueFresh(c, vs, epoch);
    RotatedSkipsRoom(c, vs, epoch, latest, ExitsAt(vs, latest));
    RotatedSkipsRoom(c, vs, epoch, latest + 1, 0);
  }
}
