/** What happens to a cached state, on values: the steps, what each of them does, and what whole
    runs of them keep. */
module Runs {
  import opened Bytes
  import opened Params
  import opened Shuffle
  import opened Sampling
  import opened Registry
  import opened Cache
  import opened Rotation
  import opened AttesterStatus
  import opened EpochProcess
  import opened EffectiveBalances
  import opened RegistryUpdates
  import opened RegistryEffects
  import Arith

  /** A validator as a deposit adds it. */
  function NewValidator(c: Config, amount: nat): Validator {
    Validator(Rounded(c, amount), false, Never, Never, Never, Never)
  }

  /** It is as yet neither eligible, active nor exiting, and counts for all whole increments of the deposit. */
  lemma NewValidatorWaits(c: Config, amount: nat)
    ensures var v := NewValidator(c, amount);
      && LargestWhole(c, amount, v.effectiveBalance) && !v.slashed
      && v.activationEligibilityEpoch == v.activationEpoch == v.exitEpoch == v.withdrawableEpoch == Never
  {
    hide Rounded, LargestWhole;
    RoundedIsLargest(c, amount);
  }

  /** `effectiveBalanceIncrementsSet`: writes one increment, growing the array if it must. */
  function IncrementsSet(c: Config, increments: seq<nat>, index: nat, effectiveBalance: nat): (r: seq<nat>)
    ensures index < |r| && |increments| <= |r|
    ensures r[index] == effectiveBalance / c.effectiveBalanceIncrement % 256
    ensures forall k :: 0 <= k < |increments| && k != index ==> r[k] == increments[k]
  {
    var grown := if index >= |increments| && PaddedLength(index + 1) >= |increments|
                 then increments + seq(PaddedLength(index + 1) - |increments|, _ => 0) else increments;
    grown[index := effectiveBalance / c.effectiveBalanceIncrement % 256]
  }

  /** The unseen parts of one epoch transition: the stored participation, what justification
      finalizes, and the balances that rewards, penalties and slashings leave. */
  datatype EpochInputs = EpochInputs(
    previousParticipation: seq<Flags>,
    currentParticipation: seq<Flags>,
    finalizedEpoch: nat,
    balances: seq<nat>)

  /** What can happen to a cached state: the writes of blocks, a slot, an epoch boundary, and the
      rebuild of a fork upgrade. */
  datatype Step =
    | Exit(index: nat)
    | Randao(mix: Digest)
    | Deposit(amount: nat)
    | Slot
    | Epoch(inputs: EpochInputs)
    | Upgrade

  /** `processRandaoMixesReset`: the mix of the current epoch is copied to the next one's slot. */
  function RandaoReset(c: Config, currentEpoch: nat, mixes: seq<Digest>): (r: seq<Digest>)
    requires |mixes| == c.epochsPerHistoricalVector
    ensures MixRules(c, currentEpoch, mixes, r, true)
    ensures forall k :: 0 <= k < |mixes| && k != (currentEpoch + 1) % |mixes| ==> r[k] == mixes[k]
    ensures RandaoMix(c, r, currentEpoch + 1) == RandaoMix(c, mixes, currentEpoch)
  {
    mixes[(currentEpoch + 1) % c.epochsPerHistoricalVector := RandaoMix(c, mixes, currentEpoch)]
  }

  /** Epoch, sync period, the three shufflings, proposers and churn limit are those of a rebuild, and
      so is the recorded increment of every validator. */
  ghost predicate AsRebuilt(c: Config, st: BeaconState, k: Cache)
    requires |st.randaoMixes| == c.epochsPerHistoricalVector
  {
    var f := Fresh(c, st);
    && k.epoch == f.epoch && k.syncPeriod == f.syncPeriod
    && k.previousShuffling == f.previousShuffling
    && k.currentShuffling == f.currentShuffling
    && k.nextShuffling == f.nextShuffling
    && k.churnLimit == f.churnLimit
    && (ActiveIndices(st.validators, k.epoch) != [] ==> k.proposers == f.proposers)
    && |st.validators| <= |k.effectiveBalanceIncrements|
    && forall i :: 0 <= i < |st.validators| ==> k.effectiveBalanceIncrements[i] == f.effectiveBalanceIncrements[i]
  }

  lemma CoherentAsRebuilt(c: Config, st: BeaconState, k: Cache)
    requires |st.randaoMixes| == c.epochsPerHistoricalVector && Coherent(c, st, k)
    ensures AsRebuilt(c, st, k)
  {
    hide ShufflingAt, ActiveIndices, LatestExit, ExitsAt, QueueKept, ProposersAt;
  }

  // ----- The specification of an epoch -----

  /** The registry update is the specification's if and only if the exits agree. */
  ghost predicate FollowsSpec(c: Config, vs: seq<Validator>, epoch: nat, queueEpoch: nat, finalized: nat,
                              ws: seq<Validator>)
  {
    finalized <= epoch ==>
      (ws == SpecRegistryUpdates(c, vs, epoch, finalized) <==> ExitsAgree(c, vs, epoch, queueEpoch))
  }

  /** So are the registry and balance updates, one after the other. */
  ghost predicate EpochFollowsSpec(c: Config, vs: seq<Validator>, epoch: nat, queueEpoch: nat, inputs: EpochInputs,
                                   ws: seq<Validator>)
    requires |inputs.balances| == |vs|
  {
    inputs.finalizedEpoch <= epoch ==>
      (ws == SpecBalanceUpdates(c, SpecRegistryUpdates(c, vs, epoch, inputs.finalizedEpoch), inputs.balances)
       <==> ExitsAgree(c, vs, epoch, queueEpoch))
  }

  /** Balance updates hide no difference in the rest of the registry. */
  lemma BalancesFollowSpec(c: Config, vs: seq<Validator>, epoch: nat, queueEpoch: nat, inputs: EpochInputs, us: seq<Validator>)
    requires |inputs.balances| == |vs| && Keeps(c, epoch, vs, us)
    requires FollowsSpec(c, vs, epoch, queueEpoch, inputs.finalizedEpoch, us)
    ensures EpochFollowsSpec(c, vs, epoch, queueEpoch, inputs, SpecBalanceUpdates(c, us, inputs.balances))
  {
    hide SpecRegistryUpdates, ExitsAgree, RegistryRules, SpecEffectiveBalance, SpecBalanceUpdates;
    if inputs.finalizedEpoch <= epoch {
      var spec := SpecRegistryUpdates(c, vs, epoch, inputs.finalizedEpoch);
      SpecKeepsBalances(c, vs, epoch, inputs.finalizedEpoch);
      BalanceUpdatesApart(c, us, spec, inputs.balances);
    }
  }

  lemma SpecKeepsBalances(c: Config, vs: seq<Validator>, epoch: nat, finalized: nat)
    ensures forall k :: 0 <= k < |vs| ==>
      SpecRegistryUpdates(c, vs, epoch, finalized)[k].effectiveBalance == vs[k].effectiveBalance
  {
    hide SpecRegistryUpdates, Select, ToEject, SpecExits;
    SpecExitEpochs(c, vs, epoch, finalized);
  }

  lemma BalanceUpdatesApart(c: Config, us: seq<Validator>, ws: seq<Validator>, balances: seq<nat>)
    requires |us| == |ws| == |balances|
    requires forall k :: 0 <= k < |us| ==> us[k].effectiveBalance == ws[k].effectiveBalance
    ensures SpecBalanceUpdates(c, us, balances) == SpecBalanceUpdates(c, ws, balances) ==> us == ws
  {
    hide SpecEffectiveBalance;
    var us', ws' := SpecBalanceUpdates(c, us, balances), SpecBalanceUpdates(c, ws, balances);
    if us' == ws' {
      forall k | 0 <= k < |us| ensures us[k] == ws[k] {
        assert us'[k] == ws'[k];
        assert us[k] == us'[k].(effectiveBalance := us[k].effectiveBalance);
        assert ws[k] == ws'[k].(effectiveBalance := ws[k].effectiveBalance);
      }
    }
  }

  // ----- Steps -----

  /** A state and its cache at one point of a run. */
  datatype Moment = Moment(state: BeaconState, cache: Cache)

  /** The state is well formed, its registry staged, and the cache coherent with it. */
  ghost predicate Sound(c: Config, m: Moment) {
    && c.maxSeedLookahead >= 2
    && WellFormed(c, m.state) && Staged(m.state.validators)
    && Coherent(c, m.state, m.cache)
  }

  function QueueOf(m: Moment): QueuedRegistry {
    QueuedRegistry(m.state.validators, m.cache.exitQueueEpoch, m.cache.exitQueueChurn)
  }

  /** The cached exit queue runs ahead of an epoch with room. */
  ghost predicate Skips(c: Config, m: Moment) {
    SkipsRoom(c, m.state.validators, m.cache.epoch, m.cache.exitQueueEpoch)
  }

  /** Steps that fit the state: known validators, slots and epochs in their places, inputs of the
      right size. */
  predicate Fits(c: Config, st: BeaconState, step: Step) {
    match step
    case Exit(index) => index < |st.validators|
    case Randao(_) => true
    case Deposit(_) => |st.validators| < MAX_LIST
    case Slot => (st.slot + 1) % c.slotsPerEpoch != 0
    case Epoch(inputs) =>
      && (st.slot + 1) % c.slotsPerEpoch == 0
      && Participation(st.validators, inputs.previousParticipation)
      && Participation(st.validators, inputs.currentParticipation)
      && |inputs.balances| == |st.validators|
    case Upgrade => true
  }

  /** The step needs proposers for an epoch in which nobody is active, and throws. */
  ghost predicate Stops(c: Config, st: BeaconState, step: Step) {
    match step
    case Epoch(_) => ActiveIndices(st.validators, c.EpochAtSlot(st.slot) + 1) == []
    case Upgrade => st.validators != [] && ActiveIndices(st.validators, c.EpochAtSlot(st.slot)) == []
    case _ => false
  }

  /** The steps within an epoch, and the rebuild. */
  function After(c: Config, m: Moment, step: Step): Moment
    requires |m.state.randaoMixes| == c.epochsPerHistoricalVector
    requires Fits(c, m.state, step) && !step.Epoch?
  {
    match step
    case Exit(index) =>
      var q := InitiateExit(c, QueueOf(m), m.cache.churnLimit, index);
      Moment(m.state.(validators := q.vs), m.cache.(exitQueueEpoch := q.queueEpoch, exitQueueChurn := q.queueChurn))
    case Randao(mix) =>
      var slot := m.cache.currentShuffling.epoch % c.epochsPerHistoricalVector;
      Moment(m.state.(randaoMixes := m.state.randaoMixes[slot := mix]), m.cache)
    case Deposit(amount) =>
      Moment(m.state.(validators := m.state.validators + [NewValidator(c, amount)]),
             m.cache.(effectiveBalanceIncrements := IncrementsSet(c, m.cache.effectiveBalanceIncrements,
                                                                  |m.state.validators|, Rounded(c, amount))))
    case Slot => Moment(m.state.(slot := m.state.slot + 1), m.cache)
    case Upgrade => Moment(m.state, Fresh(c, m.state))
  }

  /** Crossing an epoch boundary with the given inputs leads from `a` to `b`. */
  ghost predicate Crossed(c: Config, a: Moment, inputs: EpochInputs, b: Moment)
    requires |a.state.randaoMixes| == c.epochsPerHistoricalVector
    requires |inputs.balances| == |a.state.validators|
  {
    && b.state.slot == a.state.slot + 1 && b.state.finalizedEpoch == inputs.finalizedEpoch
    && b.state.randaoMixes == RandaoReset(c, a.cache.epoch, a.state.randaoMixes)
    && |b.state.validators| == |a.state.validators|
    && EpochFollowsSpec(c, a.state.validators, a.cache.epoch, a.cache.exitQueueEpoch, inputs, b.state.validators)
    && b.cache.totalActiveBalanceIncrements == ActiveStake(c, b.state.validators, b.cache.epoch)
    && b.cache.exitQueueEpoch >= a.cache.exitQueueEpoch
    && (!Skips(c, a) && b.cache.churnLimit <= a.cache.churnLimit ==> !Skips(c, b))
    && ActiveIndices(b.state.validators, b.cache.epoch) == ActiveIndices(a.state.validators, a.cache.epoch + 1)
    && QueueCrossed(c, a, b)
    && EpochMoved(c, a.cache.epoch, a.cache.churnLimit, inputs.finalizedEpoch, a.state.validators, inputs.balances,
                  b.state.validators)
  }

  /** With nobody to eject the exits stay, and the queue but for its floor; otherwise it ends up at
      the latest exit. */
  ghost predicate QueueCrossed(c: Config, a: Moment, b: Moment) {
    var vs, ws := a.state.validators, b.state.validators;
    && |ws| == |vs| && b.cache.epoch == a.cache.epoch + 1
    && if Select(vs, ToEject(c, a.cache.epoch)) == []
       then b.cache.exitQueueEpoch == RotatedQueueEpoch(c, a.cache.epoch, a.cache.exitQueueEpoch)
            && forall k :: 0 <= k < |vs| ==> ws[k].exitEpoch == vs[k].exitEpoch
       else AtLatest(c, ws, b.cache.epoch, b.cache.exitQueueEpoch)
  }

  /** One step leads from `a` to `b`. */
  ghost predicate Took(c: Config, step: Step, a: Moment, b: Moment) {
    && Sound(c, a) && Sound(c, b) && Fits(c, a.state, step) && !Stops(c, a.state, step)
    && if step.Epoch? then Crossed(c, a, step.inputs, b) else b == After(c, a, step)
  }

  /** Setting one exit is a change within the epoch. */
  lemma ExitWithin(c: Config, st: BeaconState, st': BeaconState, index: nat, at: nat)
    requires |st.randaoMixes| == c.epochsPerHistoricalVector
    requires index < |st.validators| && st.validators[index].exitEpoch.Never?
    requires at >= c.ActivationExitEpoch(c.EpochAtSlot(st.slot))
    requires st' == st.(validators := st.validators[index := ExitAt(c, st.validators[index], at)])
    ensures WithinEpoch(c, st, st')
  {
  }

  lemma DepositWithin(c: Config, st: BeaconState, amount: nat)
    requires |st.randaoMixes| == c.epochsPerHistoricalVector
    ensures WithinEpoch(c, st, st.(validators := st.validators + [NewValidator(c, amount)]))
  {
  }

  /** Exits, reveals, deposits and slots are changes within an epoch. */
  lemma StepsWithin(c: Config, m: Moment, step: Step)
    requires Sound(c, m) && Fits(c, m.state, step) && !step.Epoch? && !step.Upgrade?
    ensures WithinEpoch(c, m.state, After(c, m, step).state)
  {
    hide Bounded, WindowCurrent, ProposersAt, ActiveStake, ActiveIndices, Increments, Rounded, IncrementsSet;
    ShufflingEpochs(c, m.state, m.cache);
    match step {
      case Exit(index) =>
        LatestAtLeast(m.state.validators, c.ActivationExitEpoch(m.cache.epoch));
        if m.state.validators[index].exitEpoch.Never? {
          ExitWithin(c, m.state, After(c, m, step).state, index, After(c, m, step).cache.exitQueueEpoch);
        }
      case Deposit(amount) => DepositWithin(c, m.state, amount);
      case Slot => Arith.NextQuotient(m.state.slot, c.slotsPerEpoch);
      case Randao(_) =>
    }
  }

  // ----- The exit queue over a run -----

  /** A built cache skips no room. */
  lemma FreshSkipsNoRoom(c: Config, st: BeaconState)
    requires |st.randaoMixes| == c.epochsPerHistoricalVector
    ensures !Skips(c, Moment(st, Fresh(c, st)))
  {
    hide ShufflingAt, ActiveIndices, LatestExit, ExitsAt, ProposersAt;
  }

  lemma QueueParts(c: Config, m: Moment)
    requires Sound(c, m)
    ensures |m.state.randaoMixes| == c.epochsPerHistoricalVector
    ensures m.cache.epoch == c.EpochAtSlot(m.state.slot)
    ensures QueueKept(c, m.state.validators, m.cache.epoch, m.cache.exitQueueEpoch, m.cache.exitQueueChurn)
    ensures m.cache.churnLimit == ChurnLimit(c, |ActiveIndices(m.state.validators, m.cache.epoch)|)
  {
  }

  /** The step sets an exit epoch: it exits a validator, or ejects some. */
  ghost predicate SetsExit(c: Config, step: Step, a: Moment) {
    match step
    case Exit(index) => index < |a.state.validators| && a.state.validators[index].exitEpoch.Never?
    case Epoch(_) => Select(a.state.validators, ToEject(c, a.cache.epoch)) != []
    case _ => false
  }

  /** Where an exit queue stands: at its latest exit, or past an epoch `latest` that no exit lies
      behind and that has so many exits. */
  datatype Stand = Reached | Past(latest: nat, exits: nat)

  /** Where it stands, read off the registry. */
  function StandOf(c: Config, m: Moment): Stand {
    var latest := LatestExit(m.state.validators, c.ActivationExitEpoch(m.cache.epoch));
    if m.cache.exitQueueEpoch == latest then Reached else Past(latest, ExitsAt(m.state.validators, latest))
  }

  /** The queue still stands there, the floor aside. */
  ghost predicate Stands(c: Config, m: Moment, s: Stand) {
    var vs, low := m.state.validators, c.ActivationExitEpoch(m.cache.epoch);
    match s
    case Reached => AtLatest(c, vs, m.cache.epoch, m.cache.exitQueueEpoch)
    case Past(x, n) =>
      && NoExitAfter(vs, x) && ExitsAt(vs, x) == n
      && (n > 0 || x <= low)
      && m.cache.exitQueueEpoch == Max(x + 1, low)
  }

  /** From there the queue skips room: the epoch it has passed is not below the floor, and has fewer
      exits than the churn limit. */
  predicate SkipsFrom(c: Config, m: Moment, s: Stand) {
    s.Past? && s.latest >= c.ActivationExitEpoch(m.cache.epoch) && s.exits < m.cache.churnLimit
  }

  /** A built queue stands past its latest exit exactly when the build finds it full. */
  lemma BuiltStand(c: Config, st: BeaconState)
    requires |st.randaoMixes| == c.epochsPerHistoricalVector
    ensures var e := c.EpochAtSlot(st.slot);
      var latest := LatestExit(st.validators, c.ActivationExitEpoch(e));
      StandOf(c, Moment(st, Fresh(c, st)))
      == if ExitsAt(st.validators, latest) >= ChurnLimit(c, |ActiveIndices(st.validators, e)|)
         then Past(latest, ExitsAt(st.validators, latest)) else Reached
  {
    hide ShufflingAt, ActiveIndices, LatestExit, ExitsAt, ProposersAt;
  }

  lemma StandHolds(c: Config, m: Moment)
    requires Sound(c, m)
    ensures Stands(c, m, StandOf(c, m))
  {
    hide Coherent, WellFormed, Staged, LatestExit, ExitsAt, ActiveIndices;
    QueueParts(c, m);
    var vs, low := m.state.validators, c.ActivationExitEpoch(m.cache.epoch);
    var latest := LatestExit(vs, low);
    LatestExitBounds(vs, low);
    if latest != low {
      var k :| 0 <= k < |vs| && vs[k].exitEpoch == At(latest);
      ExitsPositive(vs, latest, k);
    }
  }

  lemma StandSkips(c: Config, m: Moment, s: Stand)
    requires Sound(c, m) && Stands(c, m, s)
    ensures Skips(c, m) <==> SkipsFrom(c, m, s)
  {
    hide Coherent, WellFormed, Staged, LatestExit, ExitsAt, ActiveIndices, QueueKept;
    QueueParts(c, m);
    var vs, low := m.state.validators, c.ActivationExitEpoch(m.cache.epoch);
    if s.Past? {
      if s.latest > low {
        SomeExitAt(vs, s.latest);
      }
      LatestExitUnique(vs, low, Max(s.latest, low));
    }
  }

  /** Steps that leave exits and queue alone, the floor aside, leave the stand alone. */
  lemma StandStays(c: Config, a: Moment, b: Moment, s: Stand)
    requires Stands(c, a, s) && a.cache.epoch <= b.cache.epoch
    requires b.cache.exitQueueEpoch == Max(a.cache.exitQueueEpoch, c.ActivationExitEpoch(b.cache.epoch))
    requires var vs, ws := a.state.validators, b.state.validators;
      && |vs| <= |ws|
      && (forall k :: 0 <= k < |vs| ==> ws[k].exitEpoch == vs[k].exitEpoch)
      && forall k :: |vs| <= k < |ws| ==> ws[k].exitEpoch.Never?
    ensures Stands(c, b, s)
  {
    hide LatestExit, ExitsAt;
    var vs, low, floor := a.state.validators, c.ActivationExitEpoch(a.cache.epoch), c.ActivationExitEpoch(b.cache.epoch);
    ExitsSame(vs, b.state.validators, if s.Past? then s.latest else 0, floor);
    LatestExitRises(vs, low, floor);
  }

  /** Every step but a rebuild leaves the queue where it stands, or sets an exit and leaves it at the
      latest exit. */
  lemma StepStands(c: Config, step: Step, a: Moment, b: Moment, s: Stand)
    requires Took(c, step, a, b) && Stands(c, a, s) && !step.Upgrade?
    ensures Stands(c, b, if SetsExit(c, step, a) then Reached else s)
  {
    hide Coherent, WellFormed, Staged, SkipsRoom, QueueKept, ActiveIndices, EpochFollowsSpec, RandaoReset, ActiveStake,
      IncrementsSet, Stands, Select, ToEject, LatestExit, AtLatest;
    QueueParts(c, a);
    var vs, k := a.state.validators, a.cache;
    QueueFloor(c, vs, k.epoch, k.exitQueueEpoch, k.exitQueueChurn);
    if step.Exit? && vs[step.index].exitEpoch.Never? {
      QueueAfterExit(c, vs, k.epoch, k.exitQueueEpoch, k.exitQueueChurn, k.churnLimit, step.index);
      ReachedStands(c, b);
    } else if step.Epoch? && SetsExit(c, step, a) {
      ReachedStands(c, b);
    } else {
      StandStays(c, a, b, s);
    }
  }

  lemma ReachedStands(c: Config, m: Moment)
    requires AtLatest(c, m.state.validators, m.cache.epoch, m.cache.exitQueueEpoch)
    ensures Stands(c, m, Reached)
  {
  }

  lemma QueueFloor(c: Config, vs: seq<Validator>, epoch: nat, queueEpoch: nat, queueChurn: nat)
    requires QueueKept(c, vs, epoch, queueEpoch, queueChurn)
    ensures queueEpoch >= c.ActivationExitEpoch(epoch)
  {
    LatestExitBounds(vs, c.ActivationExitEpoch(epoch));
  }

  /** No step makes the queue skip room, except a boundary at which the churn limit rises. */
  lemma StepSkipsNoRoom(c: Config, step: Step, a: Moment, b: Moment)
    requires Took(c, step, a, b) && !Skips(c, a)
    requires step.Epoch? ==> b.cache.churnLimit <= a.cache.churnLimit
    ensures !Skips(c, b)
  {
    hide Coherent, WellFormed, Staged, SkipsRoom, QueueKept, ActiveIndices, EpochFollowsSpec, RandaoReset, ActiveStake, IncrementsSet,
      NewValidator, Fresh, QueueCrossed, EpochMoved;
    var vs, k := a.state.validators, a.cache;
    QueueParts(c, a);
    match step {
      case Exit(index) =>
        if vs[index].exitEpoch.Never? {
          QueueAfterExit(c, vs, k.epoch, k.exitQueueEpoch, k.exitQueueChurn, k.churnLimit, index);
        }
      case Deposit(amount) => DepositSkips(c, vs, amount, k.epoch, k.exitQueueEpoch);
      case Upgrade => FreshSkipsNoRoom(c, a.state);
      case _ =>
    }
  }

  lemma DepositSkips(c: Config, vs: seq<Validator>, amount: nat, epoch: nat, queueEpoch: nat)
    ensures SkipsRoom(c, vs + [NewValidator(c, amount)], epoch, queueEpoch) == SkipsRoom(c, vs, epoch, queueEpoch)
  {
    SkipsSame(c, vs, vs + [NewValidator(c, amount)], epoch, queueEpoch);
  }

  // ----- Whole runs -----

  /** The moments of a run of the given steps. */
  ghost predicate IsTrace(c: Config, steps: seq<Step>, trace: seq<Moment>) {
    && |trace| == |steps| + 1
    && (forall i :: 0 <= i < |trace| ==> Sound(c, trace[i]))
    && (forall i :: 0 <= i < |steps| ==> Took(c, steps[i], trace[i], trace[i + 1]))
  }

  /** The churn limit rises at no boundary of the run. */
  ghost predicate NeverRises(steps: seq<Step>, trace: seq<Moment>)
    requires |trace| == |steps| + 1
  {
    forall i :: 0 <= i < |steps| && steps[i].Epoch? ==> trace[i + 1].cache.churnLimit <= trace[i].cache.churnLimit
  }

  /** The step did to the registry what the specification does. */
  ghost predicate AsSpecified(c: Config, step: Step, a: Moment, b: Moment)
    requires Fits(c, a.state, step)
  {
    match step
    case Exit(index) => b.state.validators == SpecInitiateExit(c, a.state.validators, a.cache.epoch, index)
    case Epoch(inputs) =>
      b.state.validators == SpecBalanceUpdates(c,
        SpecRegistryUpdates(c, a.state.validators, a.cache.epoch, inputs.finalizedEpoch), inputs.balances)
    case Deposit(amount) => b.state.validators == a.state.validators + [NewValidator(c, amount)]
    case _ => b.state.validators == a.state.validators
  }

  /** Finality from the future, which justification never gives. */
  predicate Late(step: Step, a: Moment) {
    step.Epoch? && step.inputs.finalizedEpoch > a.cache.epoch
  }

  /** A step is the specification's if and only if it sets no exit or the queue skips no room. */
  lemma StepAsSpecified(c: Config, step: Step, a: Moment, b: Moment)
    requires Took(c, step, a, b) && !Late(step, a)
    ensures AsSpecified(c, step, a, b) <==> !(Skips(c, a) && SetsExit(c, step, a))
  {
    hide Coherent, WellFormed, Staged, SkipsRoom, QueueKept, ActiveIndices, RandaoReset, ActiveStake, IncrementsSet, SpecExitEpoch,
      NewValidator, Fresh, ExitsAgree, SpecRegistryUpdates, SpecBalanceUpdates, Select, ToEject, QueueCrossed, EpochMoved;
    var vs, k := a.state.validators, a.cache;
    QueueParts(c, a);
    match step {
      case Exit(index) =>
        QueueAgrees(c, vs, k.epoch, k.exitQueueEpoch, k.exitQueueChurn);
        if vs[index].exitEpoch.Never? {
          assert b.state.validators[index].exitEpoch == At(NextExitEpoch(k.exitQueueEpoch, k.exitQueueChurn, k.churnLimit));
        }
      case Epoch(inputs) =>
        RefinesUnlessRoomIsSkipped(c, vs, k.epoch, k.exitQueueEpoch);
      case _ =>
    }
  }

  /** Where the queue stands after `i` steps: where the last build left it, unless an exit was set
      since then. */
  ghost function StandAt(c: Config, steps: seq<Step>, trace: seq<Moment>, i: nat): Stand
    requires i <= |steps| && |trace| == |steps| + 1
  {
    if i == 0 || steps[i - 1].Upgrade? then StandOf(c, trace[i])
    else if SetsExit(c, steps[i - 1], trace[i - 1]) then Reached
    else StandAt(c, steps, trace, i - 1)
  }

  lemma {:induction false} RunStands(c: Config, steps: seq<Step>, trace: seq<Moment>, i: nat)
    requires IsTrace(c, steps, trace) && i <= |steps|
    ensures Stands(c, trace[i], StandAt(c, steps, trace, i))
  {
    hide Sound, Took, Stands, StandOf, SetsExit;
    if i == 0 || steps[i - 1].Upgrade? {
      StandHolds(c, trace[i]);
    } else {
      RunStands(c, steps, trace, i - 1);
      StepStands(c, steps[i - 1], trace[i - 1], trace[i], StandAt(c, steps, trace, i - 1));
    }
  }

  /** On every run, whatever the churn limit does: the queue skips room if and only if no exit was set
      since the last build, that build found the queue full, and the latest exit it found is not below
      the floor by now and has fewer exits than the churn limit has become. */
  lemma RunSkips(c: Config, steps: seq<Step>, trace: seq<Moment>, i: nat)
    requires IsTrace(c, steps, trace) && i <= |steps|
    ensures Skips(c, trace[i]) <==> SkipsFrom(c, trace[i], StandAt(c, steps, trace, i))
  {
    hide Took, Skips, SkipsFrom, Stands, StandAt;
    RunStands(c, steps, trace, i);
    StandSkips(c, trace[i], StandAt(c, steps, trace, i));
  }

  /** From moment `j` on up to `i` nothing is rebuilt and no exit set. */
  ghost predicate Quiet(c: Config, steps: seq<Step>, trace: seq<Moment>, j: nat, i: nat)
    requires |trace| == |steps| + 1 && i <= |steps|
  {
    forall k :: j <= k < i ==> !steps[k].Upgrade? && !SetsExit(c, steps[k], trace[k])
  }

  lemma {:induction false} StandsSince(c: Config, steps: seq<Step>, trace: seq<Moment>, j: nat, i: nat)
    requires IsTrace(c, steps, trace) && j <= i <= |steps| && Quiet(c, steps, trace, j, i)
    ensures Stands(c, trace[i], StandOf(c, trace[j]))
  {
    hide Sound, Took, Stands, StandOf, SetsExit;
    if i == j {
      StandHolds(c, trace[j]);
    } else {
      StandsSince(c, steps, trace, j, i - 1);
      StepStands(c, steps[i - 1], trace[i - 1], trace[i], StandOf(c, trace[j]));
    }
  }

  /** The same in numbers of the registry: from a build until the next exit, the queue skips room if and
      only if the latest exit that the build found lies no earlier than the floor by now, and the exits
      at it filled the churn limit of the build and do not fill the one of now. */
  lemma SkipsSinceBuild(c: Config, steps: seq<Step>, trace: seq<Moment>, j: nat, i: nat)
    requires IsTrace(c, steps, trace) && j <= i <= |steps| && Quiet(c, steps, trace, j, i)
    requires |trace[j].state.randaoMixes| == c.epochsPerHistoricalVector && trace[j].cache == Fresh(c, trace[j].state)
    ensures var vs := trace[j].state.validators;
      var latest := LatestExit(vs, c.ActivationExitEpoch(trace[j].cache.epoch));
      Skips(c, trace[i])
      <==> latest >= c.ActivationExitEpoch(trace[i].cache.epoch)
           && trace[j].cache.churnLimit <= ExitsAt(vs, latest) < trace[i].cache.churnLimit
  {
    hide Took, Skips, Stands, StandOf, Quiet, Coherent, WellFormed, Staged, Fresh, LatestExit, ExitsAt, ActiveIndices;
    StandsSince(c, steps, trace, j, i);
    StandSkips(c, trace[i], StandOf(c, trace[j]));
    BuiltStand(c, trace[j].state);
    QueueParts(c, trace[j]);
    assert trace[j] == Moment(trace[j].state, Fresh(c, trace[j].state));
  }

  /** And every step of the run is the specification's, except those that set an exit just then. */
  lemma RunAsSpecified(c: Config, steps: seq<Step>, trace: seq<Moment>, i: nat)
    requires IsTrace(c, steps, trace) && i < |steps| && !Late(steps[i], trace[i])
    ensures AsSpecified(c, steps[i], trace[i], trace[i + 1])
            <==> !(SkipsFrom(c, trace[i], StandAt(c, steps, trace, i)) && SetsExit(c, steps[i], trace[i]))
  {
    hide Sound, Took, AsSpecified, Skips, SkipsFrom, StandAt, SetsExit;
    RunSkips(c, steps, trace, i);
    StepAsSpecified(c, steps[i], trace[i], trace[i + 1]);
  }

  /** No build of the run, its start included, leaves the queue past its latest exit. */
  ghost predicate BuildsReach(c: Config, steps: seq<Step>, trace: seq<Moment>)
    requires |trace| == |steps| + 1
  {
    && StandOf(c, trace[0]).Reached?
    && forall i :: 0 <= i < |steps| && steps[i].Upgrade? ==> StandOf(c, trace[i + 1]).Reached?
  }

  /** So a run whose builds find the queue with room is the specification's throughout, and its queue
      always stands at the latest exit, however the churn limit rises. */
  lemma {:induction false} RunReaches(c: Config, steps: seq<Step>, trace: seq<Moment>, i: nat)
    requires IsTrace(c, steps, trace) && BuildsReach(c, steps, trace) && i <= |steps|
    ensures StandAt(c, steps, trace, i).Reached?
    ensures AtLatest(c, trace[i].state.validators, trace[i].cache.epoch, trace[i].cache.exitQueueEpoch)
    ensures i < |steps| && !Late(steps[i], trace[i]) ==> AsSpecified(c, steps[i], trace[i], trace[i + 1])
  {
    hide Sound, Took, AsSpecified, StandOf, SetsExit;
    if i > 0 {
      RunReaches(c, steps, trace, i - 1);
    }
    RunStands(c, steps, trace, i);
    if i < |steps| && !Late(steps[i], trace[i]) {
      RunAsSpecified(c, steps, trace, i);
    }
  }

  /** The same from any cache that skips no room, such as a built one, where the churn limit rises at
      no boundary. */
  lemma {:induction false} SteadyRunAsSpecified(c: Config, steps: seq<Step>, trace: seq<Moment>, i: nat)
    requires IsTrace(c, steps, trace) && NeverRises(steps, trace) && i <= |steps|
    requires !Skips(c, trace[0])
    ensures !Skips(c, trace[i])
    ensures i < |steps| && !Late(steps[i], trace[i]) ==> AsSpecified(c, steps[i], trace[i], trace[i + 1])
  {
    hide Sound, Took, AsSpecified, Skips, SetsExit;
    if i > 0 {
      SteadyRunAsSpecified(c, steps, trace, i - 1);
      StepSkipsNoRoom(c, steps[i - 1], trace[i - 1], trace[i]);
    }
    if i < |steps| && !Late(steps[i], trace[i]) {
      StepAsSpecified(c, steps[i], trace[i], trace[i + 1]);
    }
  }

  // ----- The total over a run -----

  /** Whether the last boundary or rebuild of a run was a boundary. */
  function EndsRotated(start: bool, steps: seq<Step>): bool {
    if steps == [] then start
    else match steps[|steps| - 1]
      case Epoch(_) => true
      case Upgrade => false
      case _ => EndsRotated(start, steps[..|steps| - 1])
  }

  lemma StepTotal(c: Config, step: Step, a: Moment, b: Moment, rotated: bool)
    requires Took(c, step, a, b) && TotalIs(c, a.state.validators, a.cache, rotated)
    ensures TotalIs(c, b.state.validators, b.cache, if step.Epoch? then true else if step.Upgrade? then false else rotated)
  {
    hide Coherent, WellFormed, SkipsRoom, ActiveIndices, EpochFollowsSpec, RandaoReset, ActiveStake, IncrementsSet, NewValidator,
      ShufflingAt, ProposersAt, LatestExit, ExitsAt, InitiateExit, WithinEpoch;
    QueueParts(c, a);
    if !step.Epoch? && !step.Upgrade? {
      StepsWithin(c, a, step);
      WithinStake(c, a.state, b.state);
      assert b.cache.epoch == a.cache.epoch;
    }
  }

  /** The cached total is the stake of the active set after a rotation and that stake, but at least
      1, after a build, however many changes follow within the epoch. */
  lemma {:induction false} RunTotal(c: Config, steps: seq<Step>, trace: seq<Moment>, start: bool, i: nat)
    requires IsTrace(c, steps, trace) && i < |trace|
    requires TotalIs(c, trace[0].state.validators, trace[0].cache, start)
    ensures TotalIs(c, trace[i].state.validators, trace[i].cache, EndsRotated(start, steps[..i]))
  {
    hide Sound, Took, TotalIs;
    if i > 0 {
      RunTotal(c, steps, trace, start, i - 1);
      StepTotal(c, steps[i - 1], trace[i - 1], trace[i], EndsRotated(start, steps[..i - 1]));
      assert steps[..i][..i - 1] == steps[..i - 1];
    }
  }
}
