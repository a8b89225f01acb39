/** What the epoch cache must hold: the values a fresh `EpochContext.createFromState` computes
    from the state, the effect of a rotation, and when the two agree. */
module Cache {
  import opened Bytes
  import opened Params
  import opened Shuffle
  import opened Sampling
  import opened EpochShuffling
  import opened Registry

  /** The part of the beacon state that the cache depends on. */
  datatype BeaconState = BeaconState(
    slot: nat,
    validators: seq<Validator>,
    randaoMixes: seq<Digest>,
    finalizedEpoch: nat)

  ghost predicate WellFormed(c: Config, st: BeaconState) {
    && |st.randaoMixes| == c.epochsPerHistoricalVector
    && |st.validators| <= MAX_LIST
    && Bounded(c, st.validators)
  }

  /** The fields of an `EpochContext`. */
  datatype Cache = Cache(
    epoch: nat,
    syncPeriod: nat,
    previousShuffling: EpochShuffling,
    currentShuffling: EpochShuffling,
    nextShuffling: EpochShuffling,
    proposers: seq<int>,
    effectiveBalanceIncrements: seq<nat>,
    totalActiveBalanceIncrements: nat,
    churnLimit: nat,
    exitQueueEpoch: nat,
    exitQueueChurn: nat)

  // ----- Recomputation from the state -----

  function ShufflingAt(c: Config, st: BeaconState, epoch: nat): EpochShuffling
    requires |st.randaoMixes| == c.epochsPerHistoricalVector
  {
    ShufflingSpec(c, st.randaoMixes, ActiveIndices(st.validators, epoch), epoch)
  }

  function IncrementsOf(c: Config, vs: seq<Validator>): (r: seq<nat>)
    ensures |r| == |vs| && forall k :: 0 <= k < |vs| ==> r[k] == Increments(c, vs[k])
  {
    seq(|vs|, k requires 0 <= k < |vs| => Increments(c, vs[k]))
  }

  /** The increments array may be longer than the registry; the rest is never read. */
  ghost predicate Records(c: Config, vs: seq<Validator>, increments: seq<nat>) {
    && |vs| <= |increments|
    && forall k :: 0 <= k < |vs| ==> increments[k] == Increments(c, vs[k])
  }

  /** The three shufflings of the window. */
  ghost predicate WindowCurrent(c: Config, st: BeaconState, k: Cache)
    requires |st.randaoMixes| == c.epochsPerHistoricalVector
  {
    var e := c.EpochAtSlot(st.slot);
    && k.previousShuffling == ShufflingAt(c, st, c.PreviousEpoch(e))
    && k.currentShuffling == ShufflingAt(c, st, e)
    && k.nextShuffling == ShufflingAt(c, st, e + 1)
  }

  function ProposersAt(c: Config, st: BeaconState, epoch: nat): seq<int>
    requires |st.randaoMixes| == c.epochsPerHistoricalVector
  {
    var active := ActiveIndices(st.validators, epoch);
    if active == [] then [] else
      ProposersSpec(c, st.randaoMixes, epoch, active, IncrementsOf(c, st.validators))
  }

  function ActiveStake(c: Config, vs: seq<Validator>, epoch: nat): nat {
    Stake(c, vs, ActiveAt(epoch))
  }

  // ----- The exit queue -----

  /** `initiate_validator_exit` of the phase0 specification recomputes this for every exit. */
  function SpecExitEpoch(c: Config, vs: seq<Validator>, epoch: nat): nat {
    var queueEpoch := LatestExit(vs, c.ActivationExitEpoch(epoch));
    if ExitsAt(vs, queueEpoch) >= ChurnLimit(c, |ActiveIndices(vs, epoch)|) then queueEpoch + 1 else queueEpoch
  }

  /** What the cached queue keeps: a bound on every exit, the exact count at that bound, and at
      most one epoch of lead over the queue of the specification. */
  ghost predicate QueueKept(c: Config, vs: seq<Validator>, epoch: nat, queueEpoch: nat, queueChurn: nat) {
    && NoExitAfter(vs, queueEpoch)
    && queueChurn == ExitsAt(vs, queueEpoch)
    && LatestExit(vs, c.ActivationExitEpoch(epoch)) <= queueEpoch
    && queueEpoch <= LatestExit(vs, c.ActivationExitEpoch(epoch)) + 1
  }

  /** The epoch that the cached queue gives to the next exit. */
  function NextExitEpoch(queueEpoch: nat, queueChurn: nat, churnLimit: nat): nat {
    if queueChurn >= churnLimit then queueEpoch + 1 else queueEpoch
  }

  /** The cached queue runs ahead of a queue epoch that still has room. */
  ghost predicate SkipsRoom(c: Config, vs: seq<Validator>, epoch: nat, queueEpoch: nat) {
    var latest := LatestExit(vs, c.ActivationExitEpoch(epoch));
    queueEpoch > latest && ExitsAt(vs, latest) < ChurnLimit(c, |ActiveIndices(vs, epoch)|)
  }

  /** The cached queue stands at the latest exit, or at the floor if that is later. */
  ghost predicate AtLatest(c: Config, vs: seq<Validator>, epoch: nat, queueEpoch: nat) {
    queueEpoch == LatestExit(vs, c.ActivationExitEpoch(epoch))
  }

  /** The cached queue assigns the epoch of the specification exactly when it skips no room. */
  lemma QueueAgrees(c: Config, vs: seq<Validator>, epoch: nat, queueEpoch: nat, queueChurn: nat)
    requires QueueKept(c, vs, epoch, queueEpoch, queueChurn)
    ensures NextExitEpoch(queueEpoch, queueChurn, ChurnLimit(c, |ActiveIndices(vs, epoch)|)) == SpecExitEpoch(c, vs, epoch)
            <==> !SkipsRoom(c, vs, epoch, queueEpoch)
  {
    var latest := LatestExit(vs, c.ActivationExitEpoch(epoch));
    if queueEpoch > latest {
      LatestExitBounds(vs, c.ActivationExitEpoch(epoch));
      NoExitsBeyond(vs, latest, queueEpoch);
    }
  }

  /** One exit, as the specification assigns it. */
  function ExitAt(c: Config, v: Validator, epoch: nat): Validator {
    v.(exitEpoch := At(epoch), withdrawableEpoch := At(epoch + c.minValidatorWithdrawabilityDelay))
  }

  /** After an exit the cached queue stands where the specification's does: it skips nothing. */
  lemma QueueAfterExit(c: Config, vs: seq<Validator>, epoch: nat, queueEpoch: nat, queueChurn: nat, limit: nat, k: nat)
    requires QueueKept(c, vs, epoch, queueEpoch, queueChurn)
    requires k < |vs| && vs[k].exitEpoch.Never? && limit > 0
    ensures var x := NextExitEpoch(queueEpoch, queueChurn, limit);
      var ws := vs[k := ExitAt(c, vs[k], x)];
      && QueueKept(c, ws, epoch, x, if queueChurn >= limit then 1 else queueChurn + 1)
      && AtLatest(c, ws, epoch, x)
      && !SkipsRoom(c, ws, epoch, x)
  {
    var x := NextExitEpoch(queueEpoch, queueChurn, limit);
    var ws := vs[k := ExitAt(c, vs[k], x)];
    ExitsUpdated(vs, k, ws[k], x);
    if x > queueEpoch {
      NoExitsBeyond(vs, queueEpoch, x);
    }
    LatestExitBounds(vs, c.ActivationExitEpoch(epoch));
    assert ws[k].exitEpoch == At(x);
    LatestExitUnique(ws, c.ActivationExitEpoch(epoch), x);
  }

  /** `createFromState` and the rotation: the queue of the next epoch. */
  lemma QueueNextEpoch(c: Config, vs: seq<Validator>, epoch: nat, queueEpoch: nat, queueChurn: nat)
    requires QueueKept(c, vs, epoch, queueEpoch, queueChurn)
    ensures var floor := c.ActivationExitEpoch(epoch + 1);
      if floor > queueEpoch then QueueKept(c, vs, epoch + 1, floor, 0)
      else QueueKept(c, vs, epoch + 1, queueEpoch, queueChurn)
  {
    var low, floor := c.ActivationExitEpoch(epoch), c.ActivationExitEpoch(epoch + 1);
    LatestExitBounds(vs, low);
    LatestExitBounds(vs, floor);
    if floor > queueEpoch {
      LatestExitUnique(vs, floor, floor);
      NoExitsBeyond(vs, queueEpoch, floor);
    }
  }

  /** The queue of a fresh context: the specification's, moved on at once when full. */
  lemma QueueFresh(c: Config, vs: seq<Validator>, epoch: nat)
    ensures var latest := LatestExit(vs, c.ActivationExitEpoch(epoch));
      && QueueKept(c, vs, epoch, latest, ExitsAt(vs, latest))
      && QueueKept(c, vs, epoch, latest + 1, 0)
  {
    var latest := LatestExit(vs, c.ActivationExitEpoch(epoch));
    LatestExitBounds(vs, c.ActivationExitEpoch(epoch));
    NoExitsBeyond(vs, latest, latest + 1);
  }

  // ----- What may change during an epoch -----

  /** An activation or exit epoch is set at most once, and then far enough in the future. */
  ghost predicate Deferred(c: Config, epoch: nat, was: When, now: When) {
    now == was || (was.Never? && now.At? && now.epoch >= c.ActivationExitEpoch(epoch))
  }

  /** The rules that the comment on churn limits gives for changes made in `epoch`. */
  ghost predicate RegistryRules(c: Config, epoch: nat, vs: seq<Validator>, ws: seq<Validator>) {
    && |vs| <= |ws|
    && (forall k :: 0 <= k < |vs| ==>
          Deferred(c, epoch, vs[k].activationEpoch, ws[k].activationEpoch) &&
          Deferred(c, epoch, vs[k].exitEpoch, ws[k].exitEpoch))
    && (forall k :: |vs| <= k < |ws| ==>
          Deferred(c, epoch, Never, ws[k].activationEpoch) && Deferred(c, epoch, Never, ws[k].exitEpoch))
  }

  lemma RulesCompose(c: Config, epoch: nat, us: seq<Validator>, vs: seq<Validator>, ws: seq<Validator>)
    requires RegistryRules(c, epoch, us, vs) && RegistryRules(c, epoch, vs, ws)
    ensures RegistryRules(c, epoch, us, ws)
  {
  }

  lemma RulesActiveSame(c: Config, epoch: nat, vs: seq<Validator>, ws: seq<Validator>, f: nat)
    requires RegistryRules(c, epoch, vs, ws) && f < c.ActivationExitEpoch(epoch)
    ensures ActiveIndices(vs, f) == ActiveIndices(ws, f)
  {
    SelectSame(vs, ActiveAt(f), ws, ActiveAt(f));
  }

  /** Whether the queue skips room depends on exits and on the active set only. */
  lemma SkipsSame(c: Config, vs: seq<Validator>, ws: seq<Validator>, epoch: nat, queueEpoch: nat)
    requires RegistryRules(c, epoch, vs, ws)
    requires forall k :: 0 <= k < |vs| ==> ws[k].exitEpoch == vs[k].exitEpoch
    requires forall k :: |vs| <= k < |ws| ==> ws[k].exitEpoch.Never?
    ensures SkipsRoom(c, ws, epoch, queueEpoch) == SkipsRoom(c, vs, epoch, queueEpoch)
  {
    hide ActiveIndices;
    var low := c.ActivationExitEpoch(epoch);
    RulesActiveSame(c, epoch, vs, ws, epoch);
    ExitsSame(vs, ws, LatestExit(vs, low), low);
  }

  /** The registry scanned before epoch processing predicts the active set two epochs ahead,
      whatever the rules let happen, exactly when MAX_SEED_LOOKAHEAD is at least 2. */
  lemma LookaheadDomain(c: Config)
    ensures (forall epoch: nat, vs, ws :: RegistryRules(c, epoch, vs, ws) ==>
               ActiveIndices(vs, epoch + 2) == ActiveIndices(ws, epoch + 2))
            <==> c.maxSeedLookahead >= 2
  {
    if c.maxSeedLookahead >= 2 {
      forall epoch: nat, vs, ws | RegistryRules(c, epoch, vs, ws)
        ensures ActiveIndices(vs, epoch + 2) == ActiveIndices(ws, epoch + 2)
      {
        RulesActiveSame(c, epoch, vs, ws, epoch + 2);
      }
    } else {
      var v := Validator(0, false, At(0), At(0), Never, Never);
      var vs, ws := [v], [v.(exitEpoch := At(2))];
      assert RegistryRules(c, 0, vs, ws);
      SelectMembers(vs, ActiveAt(2));
      SelectMembers(ws, ActiveAt(2));
      assert 0 in ActiveIndices(vs, 0 + 2) && 0 !in ActiveIndices(ws, 0 + 2);
    }
  }

  /** Ring slots other than those of `epoch` and, if `boundary`, `epoch + 1` are not written. */
  ghost predicate MixRules(c: Config, epoch: nat, ms: seq<Digest>, ns: seq<Digest>, boundary: bool) {
    && |ms| == |ns| == c.epochsPerHistoricalVector
    && forall k :: 0 <= k < |ms| && k != epoch % |ms| && !(boundary && k == (epoch + 1) % |ms|) ==> ns[k] == ms[k]
  }

  /** Seeds of the window survive the writes of an epoch. */
  lemma RulesSeedSame(c: Config, epoch: nat, ms: seq<Digest>, ns: seq<Digest>, boundary: bool, f: nat, domain: seq<byte>)
    requires MixRules(c, epoch, ms, ns, boundary)
    requires epoch <= f + (if boundary then 0 else 1) && f <= epoch + 1
    ensures Seed(c, ms, f, domain) == Seed(c, ns, f, domain)
  {
    SeedSlot(c, f, epoch);
    if boundary {
      SeedSlot(c, f, epoch + 1);
    }
  }

  lemma RulesShufflingSame(c: Config, epoch: nat, st: BeaconState, st': BeaconState, boundary: bool, f: nat)
    requires RegistryRules(c, epoch, st.validators, st'.validators)
    requires MixRules(c, epoch, st.randaoMixes, st'.randaoMixes, boundary)
    requires epoch <= f + (if boundary then 0 else 1) && f <= epoch + 1
    requires c.maxSeedLookahead >= 1
    ensures ShufflingAt(c, st, f) == ShufflingAt(c, st', f)
  {
    hide Seed, ActiveIndices, CommitteesSpec, CommitteeCount, RegistryRules, MixRules;
    RulesActiveSame(c, epoch, st.validators, st'.validators, f);
    RulesSeedSame(c, epoch, st.randaoMixes, st'.randaoMixes, boundary, f, DOMAIN_BEACON_ATTESTER);
  }

  // ----- Proposers do not depend on increments outside the active set -----

  lemma {:induction false} FirstAcceptedSame(d: Draws, increments: seq<nat>, i: nat)
    requires d.indices != [] && i <= |d.indices|
    requires forall v :: v in d.indices ==>
      v < |d.increments| && v < |increments| && d.increments[v] == increments[v]
    ensures d.FirstAccepted(i) == d.(increments := increments).FirstAccepted(i)
    decreases |d.indices| - i
  {
    if i < |d.indices| {
      var d' := d.(increments := increments);
      assert d'.Candidate(i) == d.Candidate(i);
      assert d'.Accepts(i) == d.Accepts(i);
      FirstAcceptedSame(d, increments, i + 1);
    }
  }

  lemma {:induction false} TakenSame(d: Draws, increments: seq<nat>, n: nat)
    requires d.indices != []
    requires forall v :: v in d.indices ==>
      v < |d.increments| && v < |increments| && d.increments[v] == increments[v]
    ensures d.Taken(n) == d.(increments := increments).Taken(n)
  {
    if n > 0 {
      var d' := d.(increments := increments);
      assert d'.Candidate(n - 1) == d.Candidate(n - 1);
      assert d'.Accepts(n - 1) == d.Accepts(n - 1);
      TakenSame(d, increments, n - 1);
    }
  }

  lemma ProposersSame(c: Config, ms: seq<Digest>, ns: seq<Digest>, epoch: nat, active: seq<nat>,
                      xs: seq<nat>, ys: seq<nat>)
    requires |ms| == |ns| == c.epochsPerHistoricalVector
    requires Seed(c, ms, epoch, DOMAIN_BEACON_PROPOSER) == Seed(c, ns, epoch, DOMAIN_BEACON_PROPOSER)
    requires active != []
    requires forall v :: v in active ==> v < |xs| && v < |ys| && xs[v] == ys[v]
    ensures ProposersSpec(c, ms, epoch, active, xs) == ProposersSpec(c, ns, epoch, active, ys)
  {
    hide Seed, Draws.FirstAccepted;
    var a, b := ProposersSpec(c, ms, epoch, active, xs), ProposersSpec(c, ns, epoch, active, ys);
    forall k | 0 <= k < c.slotsPerEpoch ensures a[k] == b[k] {
      var seed := ProposerSeed(c, Seed(c, ms, epoch, DOMAIN_BEACON_PROPOSER), c.StartSlotAtEpoch(epoch) + k);
      FirstAcceptedSame(DrawsOf(c, seed, active, xs), ys, 0);
    }
  }
}
