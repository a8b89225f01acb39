/** The cached beacon state: the operations that write to the state and to its epoch cache, each
    keeping the two coherent, and whole runs of them. */
module CachedState {
  import opened Bytes
  import opened Params
  import opened Shuffle
  import opened Sampling
  import opened Registry
  import opened Cache
  import opened Rotation
  import opened ActivationQueue
  import opened EpochProcess
  import opened EffectiveBalances
  import opened RegistryUpdates
  import opened RegistryEffects
  import opened EpochContext
  import opened Wrappers
  import opened Runs
  import opened SlotRuns
  import SlotProcessing
  import Arith

  datatype Outcome = Done | Refused | Threw

  class CachedBeaconState {
    const config: Config
    var state: BeaconState
    var epochCtx: EpochContext

    /** The state is well formed, its registry staged, and its cache coherent; `LookaheadDomain` shows
        what the bound on the lookahead is for. */
    ghost predicate Valid()
      reads this, epochCtx
    {
      && epochCtx.config == config
      && config.maxSeedLookahead >= 2
      && WellFormed(config, state) && Staged(state.validators)
      && Coherent(config, state, epochCtx.View())
    }

    /** The registry with the cached exit queue. */
    ghost function Queue(): QueuedRegistry
      reads this, epochCtx
    {
      QueuedRegistry(state.validators, epochCtx.exitQueueEpoch, epochCtx.exitQueueChurn)
    }

    ghost function Now(): Moment
      reads this, epochCtx
    {
      Moment(state, epochCtx.View())
    }

    constructor (config: Config, state: BeaconState, epochCtx: EpochContext)
      requires epochCtx.config == config && config.maxSeedLookahead >= 2
      requires WellFormed(config, state) && Staged(state.validators) && epochCtx.View() == Fresh(config, state)
      ensures this.config == config && this.state == state && this.epochCtx == epochCtx
      ensures Valid()
    {
      this.config := config;
      this.state := state;
      this.epochCtx := epochCtx;
      FreshCoherent(config, state);
    }

    /** `createCachedBeaconState` around the same state, as a fork upgrade does; false where the
        build throws. */
    method Rebuild() returns (ok: bool)
      requires Valid()
      modifies this
      ensures Valid() && state == old(state)
      ensures ok <==> state.validators == [] || ActiveIndices(state.validators, config.EpochAtSlot(state.slot)) != []
      ensures ok ==> fresh(epochCtx) && epochCtx.View() == Fresh(config, state)
      ensures !ok ==> epochCtx == old(epochCtx) && epochCtx.View() == old(epochCtx.View())
    {
      hide Coherent, Fresh, ActiveIndices;
      var ctx := EpochContext.CreateFromState(config, state);
      if ctx == null {
        return false;
      }
      FreshCoherent(config, state);
      epochCtx := ctx;
      return true;
    }

    // ----- Changes within an epoch -----

    /** `initiateValidatorExit` */
    method InitiateValidatorExit(index: nat)
      requires Valid() && index < |state.validators|
      modifies this`state, epochCtx`exitQueueEpoch, epochCtx`exitQueueChurn
      ensures Valid()
      ensures Queue() == InitiateExit(config, old(Queue()), epochCtx.churnLimit, index)
      ensures state == old(state).(validators := state.validators)
      ensures state.validators == SpecInitiateExit(config, old(state).validators, epochCtx.epoch, index) <==>
        !SkipsRoom(config, old(state).validators, epochCtx.epoch, old(epochCtx.exitQueueEpoch))
        || old(state).validators[index].exitEpoch.At?
      ensures old(state).validators[index].exitEpoch.Never? ==> Exited(config, epochCtx.epoch, state.validators[index])
      ensures FillsQueue(epochCtx.churnLimit, old(Queue()), Queue())
    {
      hide QueueKept, WindowCurrent, ProposersAt, ActiveStake, SkipsRoom, SpecExitEpoch, ActiveIndices, RegistryRules,
        Increments, WholeBalance, FillsQueue;
      var v := state.validators[index];
      if v.exitEpoch.At? {
        SameQueue(epochCtx.churnLimit, Queue());
        return;
      }
      ghost var before, k := state, epochCtx.View();
      ghost var r := Queue();
      if epochCtx.exitQueueChurn >= epochCtx.churnLimit {
        epochCtx.exitQueueEpoch := epochCtx.exitQueueEpoch + 1;
        epochCtx.exitQueueChurn := 1;
      } else {
        epochCtx.exitQueueChurn := epochCtx.exitQueueChurn + 1;
      }
      state := state.(validators := state.validators[index := ExitAt(config, v, epochCtx.exitQueueEpoch)]);
      QueueFloor(config, before.validators, k.epoch, k.exitQueueEpoch, k.exitQueueChurn);
      ExitKeeps(config, epochCtx.epoch, epochCtx.churnLimit, r, index);
      ExitFillsQueue(config, epochCtx.epoch, epochCtx.churnLimit, r, index);
      BoundedSame(config, before.validators, state.validators);
      ExitWithin(config, before, state, index, epochCtx.exitQueueEpoch);
      WithinCoherent(config, before, state, k, epochCtx.View());
      QueueAgrees(config, before.validators, k.epoch, k.exitQueueEpoch, k.exitQueueChurn);
    }

    /** `processRandao`: the reveal is mixed into the slot of the current epoch. */
    method ProcessRandao(mix: Digest)
      requires Valid()
      modifies this`state
      ensures Valid()
      ensures state == old(state).(randaoMixes :=
        old(state).randaoMixes[epochCtx.currentShuffling.epoch % config.epochsPerHistoricalVector := mix])
    {
      hide QueueKept, ProposersAt, ActiveStake, ActiveIndices, Increments, WholeBalance;
      ghost var before, k := state, epochCtx.View();
      var epoch := epochCtx.currentShuffling.epoch;
      state := state.(randaoMixes := state.randaoMixes[epoch % config.epochsPerHistoricalVector := mix]);
      WithinCoherent(config, before, state, k, k);
    }

    /** `processDeposit` for a new public key: registry, balances and increments grow together. */
    method ProcessDeposit(amount: nat)
      requires Valid() && |state.validators| < MAX_LIST
      modifies this`state, epochCtx`effectiveBalanceIncrements
      ensures Valid()
      ensures state == old(state).(validators := old(state).validators + [NewValidator(config, amount)])
      ensures epochCtx.effectiveBalanceIncrements == IncrementsSet(config, old(epochCtx.effectiveBalanceIncrements),
                                                                   |old(state).validators|, Rounded(config, amount))
    {
      hide QueueKept, WindowCurrent, ProposersAt, ActiveStake, ActiveIndices, IncrementsSet, Rounded;
      ghost var before, k := state, epochCtx.View();
      var index := |state.validators|;
      var validator := NewValidator(config, amount);
      DepositWhole(config, amount);
      IncrementsBound(config, validator);
      state := state.(validators := state.validators + [validator]);
      epochCtx.effectiveBalanceIncrements :=
        IncrementsSet(config, epochCtx.effectiveBalanceIncrements, index, validator.effectiveBalance);
      QueueKeptSame(config, before.validators, state.validators, k.epoch, k.exitQueueEpoch, k.exitQueueChurn);
      WithinCoherent(config, before, state, k, epochCtx.View());
    }

    /** A slot without an epoch boundary. */
    method AdvanceSlot()
      requires Valid() && (state.slot + 1) % config.slotsPerEpoch != 0
      modifies this`state
      ensures Valid() && state == old(state).(slot := old(state).slot + 1)
    {
      hide QueueKept, ProposersAt, ActiveStake, ActiveIndices, Increments, WholeBalance;
      ghost var before, k := state, epochCtx.View();
      state := state.(slot := state.slot + 1);
      Arith.NextQuotient(before.slot, config.slotsPerEpoch);
      WithinCoherent(config, before, state, k, k);
    }

    // ----- The epoch transition -----

    /** The ejections of `processRegistryUpdates`. */
    method EjectAll(ks: seq<nat>)
      requires Valid() && Below(ks, |state.validators|)
      modifies this`state, epochCtx`exitQueueEpoch, epochCtx`exitQueueChurn
      ensures Valid()
      ensures Queue() == InitiateExits(config, old(Queue()), epochCtx.churnLimit, ks)
      ensures state == old(state).(validators := state.validators)
      ensures epochCtx.View() == old(epochCtx.View()).(exitQueueEpoch := epochCtx.exitQueueEpoch,
                                                       exitQueueChurn := epochCtx.exitQueueChurn)
    {
      hide Coherent, WellFormed, Staged, InitiateExit, SpecInitiateExit, SkipsRoom, Exited, FillsQueue;
      ghost var r, before, k := Queue(), state, epochCtx.View();
      var i: nat := 0;
      while i < |ks|
        invariant i <= |ks|
        invariant Valid()
        invariant Queue() == InitiateExits(config, r, epochCtx.churnLimit, ks[..i])
        invariant state == before.(validators := state.validators)
        invariant epochCtx.View() == k.(exitQueueEpoch := epochCtx.exitQueueEpoch, exitQueueChurn := epochCtx.exitQueueChurn)
      {
        assert ks[..i + 1][..i] == ks[..i];
        InitiateValidatorExit(ks[i]);
        i := i + 1;
      }
      assert ks[..i] == ks;
    }

    /** The new activation eligibilities. */
    method MarkAll(ks: seq<nat>, at: nat)
      requires Below(ks, |state.validators|)
      modifies this`state
      ensures state == old(state).(validators := MarkEligible(old(state).validators, ks, at))
    {
      ghost var before := state;
      var i: nat := 0;
      while i < |ks|
        invariant i <= |ks|
        invariant state == before.(validators := MarkEligible(before.validators, ks[..i], at))
      {
        assert ks[..i + 1][..i] == ks[..i];
        state := state.(validators := state.validators[ks[i] := state.validators[ks[i]].(activationEligibilityEpoch := At(at))]);
        i := i + 1;
      }
      assert ks[..i] == ks;
    }

    /** The activations, up to the churn limit and no further than the finalized epoch. */
    method ActivateUpTo(q: seq<nat>, at: nat)
      requires Below(q, |state.validators|)
      modifies this`state
      ensures state == old(state).(validators := Activate(old(state).validators,
        Dequeued(old(state).validators, q, epochCtx.churnLimit, old(state).finalizedEpoch), at))
    {
      hide Activate, EligibleHead, Take, When.By, RawConfig.Valid;
      ghost var before := state;
      var batch := Take(q, epochCtx.churnLimit);
      var f := state.finalizedEpoch;
      var i: nat := 0;
      NoneActivated(before.validators, batch[..0], at);
      while i < |batch|
        invariant i <= |batch|
        invariant state == before.(validators := Activate(before.validators, batch[..i], at))
        invariant forall j :: 0 <= j < i ==> before.validators[batch[j]].activationEligibilityEpoch.By(f)
      {
        ActivateEligibility(before.validators, batch[..i], at);
        ActivateStep(before.validators, batch, i, at);
        var index := batch[i];
        if !state.validators[index].activationEligibilityEpoch.By(f) {
          break;
        }
        state := state.(validators := state.validators[index := state.validators[index].(activationEpoch := At(at))]);
        i := i + 1;
      }
      HeadIs(before.validators, batch, f, i);
    }

    /** `processRegistryUpdates`, from the lists of `beforeProcessEpoch`. */
    method ProcessRegistryUpdates(p: EpochProcess)
      requires Valid() && p.currentEpoch == epochCtx.epoch
      requires Below(p.indicesToEject, |state.validators|)
      requires Below(p.indicesEligibleForActivationQueue, |state.validators|)
      requires Below(p.indicesEligibleForActivation, |state.validators|)
      requires forall i :: 0 <= i < |p.indicesEligibleForActivation| ==>
        state.validators[p.indicesEligibleForActivation[i]].activationEpoch.Never?
      modifies this`state, epochCtx`exitQueueEpoch, epochCtx`exitQueueChurn
      ensures Valid()
      ensures Queue() == FastRegistryUpdates(config, old(Queue()), epochCtx.churnLimit, p, old(state).finalizedEpoch)
      ensures state == old(state).(validators := state.validators)
      ensures epochCtx.View() == old(epochCtx.View()).(exitQueueEpoch := epochCtx.exitQueueEpoch,
                                                       exitQueueChurn := epochCtx.exitQueueChurn)
      ensures Keeps(config, p.currentEpoch, old(state).validators, state.validators)
    {
      hide Coherent, Bounded, Staged, InitiateExits, MarkEligible, Activate, Dequeued, Keeps, QueueKept;
      ghost var before, k, r := state, epochCtx.View(), Queue();
      EjectAll(p.indicesToEject);
      ShufflingEpochs(config, before, k);
      MarkAll(p.indicesEligibleForActivationQueue, epochCtx.currentShuffling.epoch + 1);
      ActivateUpTo(p.indicesEligibleForActivation, config.ActivationExitEpoch(p.currentEpoch));
      assert Queue() == FastRegistryUpdates(config, r, epochCtx.churnLimit, p, before.finalizedEpoch);
      CoherentQueue(config, before, k);
      FastKeeps(config, r, epochCtx.churnLimit, p, before.finalizedEpoch);
      FastKeepsStaged(config, r, epochCtx.churnLimit, p, before.finalizedEpoch);
      KeptCoherent(config, before, state, k, epochCtx.View());
    }

    /** `beforeProcessEpoch`, the finality that justification leaves, and the registry updates. */
    method PrepareAndUpdateRegistry(inputs: EpochInputs) returns (p: EpochProcess)
      requires Valid()
      requires Participation(state.validators, inputs.previousParticipation)
      requires Participation(state.validators, inputs.currentParticipation)
      modifies this`state, epochCtx`exitQueueEpoch, epochCtx`exitQueueChurn
      ensures Valid()
      ensures Prepares(config, config.PreviousEpoch(epochCtx.epoch), epochCtx.epoch, old(state).validators,
                       inputs.previousParticipation, inputs.currentParticipation, p)
      ensures state == old(state).(validators := state.validators, finalizedEpoch := inputs.finalizedEpoch)
      ensures Keeps(config, epochCtx.epoch, old(state).validators, state.validators)
      ensures epochCtx.exitQueueEpoch >= old(epochCtx.exitQueueEpoch)
      ensures FollowsSpec(config, old(state).validators, epochCtx.epoch, old(epochCtx.exitQueueEpoch),
                          inputs.finalizedEpoch, state.validators)
      ensures !old(Skips(config, Now())) ==> !Skips(config, Now())
      ensures EjectsInto(config, epochCtx.epoch, old(Queue()), Queue())
      ensures RegistryMoved(config, epochCtx.epoch, epochCtx.churnLimit, inputs.finalizedEpoch, old(Queue()), Queue())
    {
      hide RegistryMoved, Coherent, Staged, SkipsRoom, ExitsAgree, EjectsInto, ToEject, SpecRegistryUpdates, ReachesEject,
        EligibleForQueue, SpecQueue, Select, FastRegistryUpdates, Keeps, QueueKept, Stake, Bounded, ParticipatingStake, FlagsOf, ActiveIndices;
      ghost var before, k, r := state, epochCtx.View(), Queue();
      ShufflingEpochs(config, before, k);
      CoherentQueue(config, before, k);
      var prepared := BeforeProcessEpoch(config, epochCtx.previousShuffling.epoch, epochCtx.currentShuffling.epoch,
                                         state.validators, inputs.previousParticipation, inputs.currentParticipation);
      p := prepared.value;
      PreparedBelow(config, before.validators, p);
      state := state.(finalizedEpoch := inputs.finalizedEpoch);
      FinalityCoherent(config, before, state, k);
      ProcessRegistryUpdates(p);
      QueueAdvances(config, r, k.churnLimit, p, inputs.finalizedEpoch);
      if inputs.finalizedEpoch <= k.epoch {
        RegistryUpdatesRefine(config, r, k.churnLimit, p, inputs.finalizedEpoch);
      }
      if !SkipsRoom(config, r.vs, k.epoch, r.queueEpoch) {
        QueueInStep(config, k.epoch, k.churnLimit, r);
        FastKeepsRoom(config, r, k.churnLimit, p, inputs.finalizedEpoch);
      }
      StagedLosesNothing(config, r.vs, k.epoch);
      FastEjectsInto(config, r, k.churnLimit, p, inputs.finalizedEpoch);
      FastMoves(config, r, k.churnLimit, p, inputs.finalizedEpoch);
    }

    /** `beforeProcessEpoch` and `processEpoch`: the registry and the balances follow the
        specification, and what they collect on the way is what the rotation needs. */
    method ProcessEpoch(inputs: EpochInputs) returns (nextShufflingIndices: seq<nat>, nextTotal: nat)
      requires Valid() && (state.slot + 1) % config.slotsPerEpoch == 0
      requires Participation(state.validators, inputs.previousParticipation)
      requires Participation(state.validators, inputs.currentParticipation)
      requires |inputs.balances| == |state.validators|
      modifies this`state
      modifies epochCtx`exitQueueEpoch, epochCtx`exitQueueChurn, epochCtx`effectiveBalanceIncrements
      ensures state.slot == old(state).slot && state.finalizedEpoch == inputs.finalizedEpoch
      ensures state.randaoMixes == RandaoReset(config, epochCtx.epoch, old(state).randaoMixes)
      ensures WellFormed(config, state) && Staged(state.validators)
      ensures EjectsInto(config, epochCtx.epoch, old(Queue()), Queue())
      ensures Boundary(config, old(state), state.(slot := state.slot + 1), nextShufflingIndices, nextTotal)
      ensures Records(config, state.validators, epochCtx.effectiveBalanceIncrements)
      ensures QueueKept(config, state.validators, epochCtx.epoch, epochCtx.exitQueueEpoch, epochCtx.exitQueueChurn)
      ensures epochCtx.exitQueueEpoch >= old(epochCtx.exitQueueEpoch)
      ensures EpochFollowsSpec(config, old(state).validators, epochCtx.epoch, old(epochCtx.exitQueueEpoch), inputs,
                               state.validators)
      ensures |state.validators| == |old(state).validators|
      ensures !old(Skips(config, Now())) ==> !Skips(config, Now())
      ensures SeatsSyncCommittee(config, state, epochCtx.View())
      ensures EpochMoved(config, epochCtx.epoch, epochCtx.churnLimit, inputs.finalizedEpoch, old(state).validators,
                         inputs.balances, state.validators)
      ensures FillsQueue(epochCtx.churnLimit, old(Queue()), Queue())
    {
      hide RegistryMoved, EpochMoved, FillsQueue, Coherent, Staged, EjectsInto, FollowsSpec, EpochFollowsSpec, ReachesEject, EligibleForQueue,
        SpecQueue, Select, RegistryRules, QueueKept, SpecRegistryUpdates, SkipsRoom, Stake, Bounded, WindowCurrent, ParticipatingStake, FlagsOf, Keeps, ActiveIndices;
      ghost var before, k := state, epochCtx.View();
      ShufflingEpochs(config, before, k);
      var p := PrepareAndUpdateRegistry(inputs);
      ghost var updated := state;
      CoherentQueue(config, state, epochCtx.View());
      KeepsRules(config, k.epoch, before.validators, updated.validators);
      ActiveAhead(config, k.epoch, before.validators, updated.validators, p.isActiveNextEpoch);
      var vs, increments, total := UpdateEffectiveBalances(config, state.validators, inputs.balances,
        epochCtx.effectiveBalanceIncrements, p.isActiveNextEpoch, k.epoch + 1);
      state := state.(validators := vs);
      epochCtx.effectiveBalanceIncrements := increments;
      state := state.(randaoMixes := RandaoReset(config, p.currentEpoch, state.randaoMixes));
      nextShufflingIndices, nextTotal := p.nextShufflingIndices, total;
      BalancesKeep(config, k.epoch, updated.validators, vs, inputs.balances, epochCtx.exitQueueEpoch, epochCtx.exitQueueChurn);
      UpdatesMove(config, k.epoch, k.churnLimit, inputs.finalizedEpoch,
                  QueuedRegistry(before.validators, k.exitQueueEpoch, k.exitQueueChurn),
                  QueuedRegistry(updated.validators, epochCtx.exitQueueEpoch, epochCtx.exitQueueChurn), inputs.balances, vs);
      RulesCompose(config, k.epoch, before.validators, updated.validators, vs);
      BalancesFollowSpec(config, before.validators, k.epoch, k.exitQueueEpoch, inputs, updated.validators);
      BalancesSkip(config, updated.validators, vs, inputs.balances, k.epoch, epochCtx.exitQueueEpoch);
      RulesActiveSame(config, k.epoch, before.validators, vs, k.epoch + 1);
      BalancesEject(config, k.epoch, QueuedRegistry(before.validators, k.exitQueueEpoch, k.exitQueueChurn),
                    QueuedRegistry(updated.validators, epochCtx.exitQueueEpoch, epochCtx.exitQueueChurn), Queue(), inputs.balances);
      Arith.NextQuotient(before.slot, config.slotsPerEpoch);
    }

    /** `processSyncCommitteeUpdates`, on what the rest of `ProcessEpoch` leaves: whether a period ends,
        and then the next committee, `None` where the drawing throws. From the active set of the cache and
        its increments, it is the committee that the specification draws from the registry. */
    method ProcessSyncCommitteeUpdates() returns (due: bool, committee: Option<seq<nat>>)
      requires SeatsSyncCommittee(config, state, epochCtx.View())
      requires config.syncCommitteeSize > 0 && 0 < |SyncDraws(config, state).indices| <= MAX_COUNT ==>
        SyncDraws(config, state).Fills(config.syncCommitteeSize)
      ensures due <==> (epochCtx.epoch + 1) % config.epochsPerSyncCommitteePeriod == 0
      ensures due ==> (committee.None? <==> config.syncCommitteeSize > 0 && !(0 < |SyncDraws(config, state).indices| <= MAX_COUNT))
      ensures due && committee.Some? && config.syncCommitteeSize > 0 ==>
        exists n :: FilledAt(SyncDraws(config, state), n, config.syncCommitteeSize, committee.value)
    {
      hide Draws.Taken, Seed, ActiveIndices, Increments;
      due, committee := (epochCtx.epoch + 1) % config.epochsPerSyncCommitteePeriod == 0, None;
      if due {
        ghost var cached, size := CachedSyncDraws(config, state, epochCtx.View()), config.syncCommitteeSize;
        if size > 0 && 0 < |cached.indices| <= MAX_COUNT {
          SyncDrawsSame(config, state, epochCtx.View());
          ghost var n :| |SyncDraws(config, state).Taken(n)| >= size;
          assert |cached.Taken(n)| >= size;
        }
        committee := GetNextSyncCommitteeIndices(config, state.randaoMixes, state.slot,
                                                 epochCtx.nextShuffling.activeIndices, epochCtx.effectiveBalanceIncrements);
        if size > 0 && committee.Some? {
          ghost var n :| FilledAt(cached, n, size, committee.value);
          SameCommittee(config, state, epochCtx.View(), n, committee.value);
        }
      }
    }

    /** One epoch boundary as `processSlotsWithTransientCache` crosses it: prepare, process the
        epoch, advance the slot, rotate the cache. False where the rotation throws. */
    method CrossEpoch(inputs: EpochInputs) returns (ok: bool)
      requires Valid() && (state.slot + 1) % config.slotsPerEpoch == 0
      requires Participation(state.validators, inputs.previousParticipation)
      requires Participation(state.validators, inputs.currentParticipation)
      requires |inputs.balances| == |state.validators|
      modifies this`state, epochCtx
      ensures ok <==> ActiveIndices(old(state).validators, old(epochCtx.epoch) + 1) != []
      ensures state.slot == old(state).slot + 1 && state.finalizedEpoch == inputs.finalizedEpoch
      ensures state.randaoMixes == RandaoReset(config, old(epochCtx.epoch), old(state).randaoMixes)
      ensures ok <==> ActiveIndices(state.validators, config.EpochAtSlot(state.slot)) != []
      ensures |state.validators| == |old(state).validators|
      ensures ok ==> Valid() && Crossed(config, old(Now()), inputs, Now())
      ensures EpochFollowsSpec(config, old(state).validators, old(epochCtx.epoch), old(epochCtx.exitQueueEpoch), inputs,
                               state.validators)
    {
      hide Coherent, Staged, ActiveIndices, RegistryRules, QueueKept, EpochFollowsSpec, Bounded, WindowCurrent, Rotate, Boundary,
        RandaoReset, Records, ActiveStake, SkipsRoom, EjectsInto, QueueCrossed, EpochMoved, FillsQueue;
      ghost var before, k := state, epochCtx.View();
      ShufflingEpochs(config, before, k);
      CoherentQueue(config, before, k);
      var nextShufflingIndices, nextTotal := ProcessEpoch(inputs);
      ghost var k' := epochCtx.View();
      WindowFields(config, before, k, k');
      state := state.(slot := state.slot + 1);
      BoundaryCount(config, before, state, nextShufflingIndices, nextTotal);
      BoundaryActive(config, before, state, nextShufflingIndices, nextTotal);
      ActiveCount(before.validators, k.epoch + 1);
      ok := epochCtx.AfterProcessEpoch(state, nextShufflingIndices, nextTotal);
      if ok {
        RotateCoherent(config, before, state, k', nextShufflingIndices, nextTotal);
        ShufflingEpochs(config, state, epochCtx.View());
        CoherentQueue(config, state, epochCtx.View());
        BoundaryQueue(config, before, state, k, k', epochCtx.View(), nextShufflingIndices, nextTotal);
        if !SkipsRoom(config, before.validators, k.epoch, k.exitQueueEpoch) {
          BoundaryRoom(config, before, state, k, k', epochCtx.View(), nextShufflingIndices, nextTotal);
        }
      }
    }

    // ----- Runs -----

    /** One step, if it fits. */
    method Advance(step: Step) returns (outcome: Outcome)
      requires Valid()
      modifies this, epochCtx
      ensures outcome.Refused? <==> !old(Fits(config, state, step))
      ensures outcome.Threw? <==> old(Fits(config, state, step) && Stops(config, state, step))
      ensures outcome.Done? ==> Valid() && Took(config, step, old(Now()), Now())
      ensures outcome.Refused? ==> Now() == old(Now()) && Valid()
      ensures epochCtx == old(epochCtx) || fresh(epochCtx)
    {
      hide Bounded, Staged, Coherent, Participation, ActiveIndices, Fresh, NewValidator, IncrementsSet, InitiateExit, SkipsRoom,
        SpecInitiateExit, EpochFollowsSpec, RandaoReset, ActiveStake, Crossed;
      ghost var k := epochCtx.View();
      ShufflingEpochs(config, state, k);
      if !Fits(config, state, step) {
        return Refused;
      }
      var ok := true;
      match step {
        case Exit(index) => InitiateValidatorExit(index);
        case Randao(mix) => ProcessRandao(mix);
        case Deposit(amount) => ProcessDeposit(amount);
        case Slot => AdvanceSlot();
        case Epoch(inputs) => ok := CrossEpoch(inputs);
        case Upgrade => ok := Rebuild();
      }
      return if ok then Done else Threw;
    }

    /** Any run, stopped by the first step that does not fit or throws. Its moments are those of the
        steps on values, so what `Runs` proves of traces holds of it; and at its end the cache is the
        one that a rebuild from the state would give, apart from the total (`RunTotal`) and the exit
        queue (`RunSkips`). */
    method Run(steps: seq<Step>) returns (taken: nat, outcome: Outcome, ghost trace: seq<Moment>)
      requires Valid()
      modifies this, epochCtx
      ensures taken <= |steps| && (outcome.Done? <==> taken == |steps|)
      ensures IsTrace(config, steps[..taken], trace) && trace[0] == old(Now())
      ensures outcome.Refused? ==> !Fits(config, state, steps[taken])
      ensures outcome.Threw? ==> Stops(config, trace[taken].state, steps[taken])
      ensures !outcome.Threw? ==> Valid() && trace[taken] == Now()
      ensures !outcome.Threw? ==> AsRebuilt(config, state, epochCtx.View())
    {
      hide Coherent, WellFormed, Fits, Took, AsRebuilt, ActiveIndices;
      taken := 0;
      trace := [Now()];
      while taken < |steps|
        invariant taken <= |steps|
        invariant Valid()
        invariant epochCtx == old(epochCtx) || fresh(epochCtx)
        invariant IsTrace(config, steps[..taken], trace)
        invariant trace[0] == old(Now()) && trace[taken] == Now()
      {
        assert steps[..taken + 1] == steps[..taken] + [steps[taken]];
        outcome := Advance(steps[taken]);
        if !outcome.Done? {
          if outcome.Refused? {
            ValidAsRebuilt();
          }
          return;
        }
        trace := trace + [Now()];
        taken := taken + 1;
      }
      outcome := Done;
      assert steps[..taken] == steps;
      ValidAsRebuilt();
    }

    /** One step that fits, and the moments of a run up to and with it; false where it throws. */
    method GoOn(step: Step, ghost steps: seq<Step>, ghost before: seq<Moment>) returns (ok: bool, ghost trace: seq<Moment>)
      requires Valid() && Fits(config, state, step)
      requires IsTrace(config, steps, before) && before[|before| - 1] == Now()
      modifies this, epochCtx
      ensures epochCtx == old(epochCtx) || fresh(epochCtx)
      ensures ok <==> !old(Stops(config, state, step))
      ensures trace == if ok then before + [Now()] else before
      ensures ok ==> Valid() && IsTrace(config, steps + [step], trace) && Took(config, step, old(Now()), Now())
    {
      hide Coherent, WellFormed, Staged, Took, Stops, Fits;
      var outcome := Advance(step);
      if outcome.Threw? {
        return false, before;
      }
      TraceExtends(config, steps, before, step, Now());
      return true, before + [Now()];
    }

    /** The last slot of an epoch. */
    method EndEpoch(inputs: EpochInputs, ghost steps: seq<Step>, ghost before: seq<Moment>) returns (ok: bool, ghost trace: seq<Moment>)
      requires Valid() && Sized(inputs, |state.validators|) && (state.slot + 1) % config.slotsPerEpoch == 0
      requires IsTrace(config, steps, before) && before[|before| - 1] == Now()
      modifies this, epochCtx
      ensures epochCtx == old(epochCtx) || fresh(epochCtx)
      ensures !ok <==> ActiveIndices(old(state).validators, config.EpochAtSlot(old(state).slot) + 1) == []
      ensures !ok ==> trace == before
      ensures ok ==> Valid() && state.slot == old(state).slot + 1 && |state.validators| == |old(state).validators|
      ensures ok ==> !Stops(config, state, Upgrade)
      ensures ok ==> IsTrace(config, steps + [Epoch(inputs)], trace)
      ensures ok ==> before <= trace && trace[|trace| - 1] == Now()
    {
      hide Coherent, WellFormed, Staged, ActiveIndices, Took, IsTrace, Sized, Participation;
      ghost var was := Now();
      SizedFits(config, state, inputs);
      ok, trace := GoOn(Epoch(inputs), steps, before);
      if ok {
        EpochTook(config, inputs, was, Now());
      }
    }

    /** A slot within an epoch. */
    method PassSlot(ghost steps: seq<Step>, ghost before: seq<Moment>) returns (ghost trace: seq<Moment>)
      requires Valid() && (state.slot + 1) % config.slotsPerEpoch != 0
      requires IsTrace(config, steps, before) && before[|before| - 1] == Now()
      modifies this, epochCtx
      ensures epochCtx == old(epochCtx) || fresh(epochCtx)
      ensures Valid() && state == old(state).(slot := old(state).slot + 1)
      ensures IsTrace(config, steps + [Slot], trace)
      ensures before <= trace && trace[|trace| - 1] == Now()
    {
      hide Coherent, WellFormed, Staged, ActiveIndices, Took, IsTrace;
      ghost var was := Now();
      var ok;
      ok, trace := GoOn(Slot, steps, before);
      OthersTook(config, Slot, was, Now());
    }

    /** A fork upgrade where one is due; behind a crossed boundary it cannot throw. */
    method UpgradeIf(due: bool, ghost steps: seq<Step>, ghost before: seq<Moment>) returns (ghost trace: seq<Moment>)
      requires Valid() && !Stops(config, state, Upgrade)
      requires IsTrace(config, steps, before) && before[|before| - 1] == Now()
      modifies this, epochCtx
      ensures epochCtx == old(epochCtx) || fresh(epochCtx)
      ensures Valid() && state == old(state)
      ensures IsTrace(config, steps + If(due, Upgrade), trace)
      ensures before <= trace && trace[|trace| - 1] == Now()
    {
      hide Coherent, WellFormed, Staged, Took, Stops, IsTrace;
      trace := before;
      if due {
        var ok;
        ghost var was := Now();
        ok, trace := GoOn(Upgrade, steps, before);
        OthersTook(config, Upgrade, was, Now());
      } else {
        assert steps + [] == steps;
      }
    }

    /** One iteration of `processSlotsWithTransientCache`, with what each epoch finds in `inputs`. The
        moments of its steps are added to those before; it throws exactly where an epoch ends behind
        which nobody is active. */
    method ProcessSlot(sch: SlotProcessing.Schedule, inputs: nat -> EpochInputs, ghost taken: seq<Step>, ghost before: seq<Moment>)
      returns (ok: bool, ghost trace: seq<Moment>)
      requires Valid() && sch.slotsPerEpoch == config.slotsPerEpoch
      requires forall epoch: nat :: Sized(inputs(epoch), |state.validators|)
      requires IsTrace(config, taken, before) && before[|before| - 1] == Now()
      modifies this, epochCtx
      ensures epochCtx == old(epochCtx) || fresh(epochCtx)
      ensures !ok <==> sch.EndsEpoch(old(state).slot) &&
                       ActiveIndices(old(state).validators, sch.EpochOf(old(state).slot) + 1) == []
      ensures !ok ==> trace == before
      ensures ok ==> Valid() && state.slot == old(state).slot + 1 && |state.validators| == |old(state).validators|
      ensures ok ==> IsTrace(config, taken + StepsIn(sch, inputs, old(state).slot), trace)
      ensures ok ==> before <= trace && trace[|trace| - 1] == Now()
    {
      hide Coherent, WellFormed, Staged, ActiveIndices, IsTrace, StepsIn, Sized, If, Stops,
        SlotProcessing.Schedule.EpochOf, RawConfig.EpochAtSlot, RawConfig.Valid, Valid, Now, EpochContext.View;
      SlotEpochs(config, sch, state.slot);
      SlotSteps(sch, inputs, state.slot);
      if (state.slot + 1) % sch.slotsPerEpoch == 0 {
        var epochInputs := inputs(sch.EpochOf(state.slot));
        ok, trace := EndEpoch(epochInputs, taken, before);
        if !ok {
          return;
        }
        var stateEpoch := sch.EpochOf(state.slot);
        var altair, bellatrix := At(stateEpoch) == sch.altairEpoch, At(stateEpoch) == sch.bellatrixEpoch;
        trace := UpgradeIf(altair, taken + [Epoch(epochInputs)], trace);
        trace := UpgradeIf(bellatrix, taken + [Epoch(epochInputs)] + If(altair, Upgrade), trace);
        Regroup(taken, [Epoch(epochInputs)], If(altair, Upgrade), If(bellatrix, Upgrade));
      } else {
        trace := PassSlot(taken, before);
        ok := true;
      }
    }

    /** `processSlotsWithTransientCache` on a cached state. It ends with the moments of a run of exactly
        the steps of the scheduled events, one after the other, so that what `Runs` proves of runs holds
        of it; or it throws: for a slot in the past, or, after a run up to there, exactly at an epoch
        that ends and behind which nobody is active. */
    method ProcessSlots(sch: SlotProcessing.Schedule, slot: nat, inputs: nat -> EpochInputs)
      returns (ok: bool, ghost trace: seq<Moment>)
      requires Valid() && sch.slotsPerEpoch == config.slotsPerEpoch
      requires forall epoch: nat :: Sized(inputs(epoch), |state.validators|)
      modifies this, epochCtx
      ensures old(state).slot > slot ==> !ok && Now() == old(Now()) && trace == []
      ensures old(state).slot <= slot ==> trace != [] && trace[0] == old(Now())
      ensures ok ==> Valid() && state.slot == slot
      ensures ok ==> IsTrace(config, StepsBetween(sch, inputs, old(state).slot, slot), trace) && trace[|trace| - 1] == Now()
      ensures ok ==> AsRebuilt(config, state, epochCtx.View())
      ensures !ok && old(state).slot <= slot ==>
        var last := trace[|trace| - 1].state;
        && old(state).slot <= last.slot < slot
        && IsTrace(config, StepsBetween(sch, inputs, old(state).slot, last.slot), trace)
        && sch.EndsEpoch(last.slot) && ActiveIndices(last.validators, sch.EpochOf(last.slot) + 1) == []
    {
      hide Coherent, WellFormed, Staged, AsRebuilt, ActiveIndices, Took, Sized, StepsIn, StepsBetween, IsTrace;
      ok, trace := true, [];
      if state.slot > slot {
        return false, [];
      }
      ghost var start := state.slot;
      trace := [Now()];
      NoSlots(config, sch, inputs, start, Now());
      while state.slot < slot
        invariant ok && Valid() && start <= state.slot <= slot
        invariant epochCtx == old(epochCtx) || fresh(epochCtx)
        invariant |state.validators| == |old(state).validators|
        invariant trace != [] && trace[0] == old(Now()) && trace[|trace| - 1] == Now()
        invariant IsTrace(config, StepsBetween(sch, inputs, start, state.slot), trace)
      {
        TraceLength(config, StepsBetween(sch, inputs, start, state.slot), trace);
        NextSlotSteps(sch, inputs, start, state.slot);
        ok, trace := ProcessSlot(sch, inputs, StepsBetween(sch, inputs, start, state.slot), trace);
        if !ok {
          return;
        }
      }
      ValidAsRebuilt();
    }

    lemma ValidAsRebuilt()
      requires Valid()
      ensures AsRebuilt(config, state, epochCtx.View())
    {
      hide Bounded, Coherent, AsRebuilt;
      CoherentAsRebuilt(config, state, epochCtx.View());
    }
  }

  /** The draws of `get_next_sync_committee_indices` of the altair specification. */
  function SyncDraws(c: Config, st: BeaconState): Draws
    requires |st.randaoMixes| == c.epochsPerHistoricalVector
  {
    NextSyncCommitteeDraws(c, st.randaoMixes, st.slot, ActiveIndices(st.validators, c.EpochAtSlot(st.slot) + 1),
                           IncrementsOf(c, st.validators))
  }

  /** The draws that the code makes from its cache. */
  function CachedSyncDraws(c: Config, st: BeaconState, k: Cache): Draws
    requires |st.randaoMixes| == c.epochsPerHistoricalVector
  {
    NextSyncCommitteeDraws(c, st.randaoMixes, st.slot, k.nextShuffling.activeIndices, k.effectiveBalanceIncrements)
  }

  /** The cache knows the next epoch's active set and the increments of the registry. */
  ghost predicate SeatsSyncCommittee(c: Config, st: BeaconState, k: Cache) {
    && |st.randaoMixes| == c.epochsPerHistoricalVector
    && k.epoch == c.EpochAtSlot(st.slot)
    && k.nextShuffling.activeIndices == ActiveIndices(st.validators, k.epoch + 1)
    && Records(c, st.validators, k.effectiveBalanceIncrements)
  }

  lemma SyncDrawsSame(c: Config, st: BeaconState, k: Cache)
    requires SeatsSyncCommittee(c, st, k) && k.nextShuffling.activeIndices != []
    ensures CachedSyncDraws(c, st, k).indices == SyncDraws(c, st).indices
    ensures forall n: nat :: CachedSyncDraws(c, st, k).Taken(n) == SyncDraws(c, st).Taken(n)
  {
    hide Draws.Taken, Seed, ActiveIndices, Increments;
    ActiveBelow(st.validators, k.epoch + 1);
    forall n: nat ensures CachedSyncDraws(c, st, k).Taken(n) == SyncDraws(c, st).Taken(n) {
      TakenSame(CachedSyncDraws(c, st, k), IncrementsOf(c, st.validators), n);
    }
  }

  lemma SameCommittee(c: Config, st: BeaconState, k: Cache, n: nat, committee: seq<nat>)
    requires SeatsSyncCommittee(c, st, k) && k.nextShuffling.activeIndices != []
    requires FilledAt(CachedSyncDraws(c, st, k), n, c.syncCommitteeSize, committee)
    ensures FilledAt(SyncDraws(c, st), n, c.syncCommitteeSize, committee)
  {
    hide Draws.Taken, Seed, ActiveIndices, Increments;
    SyncDrawsSame(c, st, k);
    assert CachedSyncDraws(c, st, k).Taken(n - 1) == SyncDraws(c, st).Taken(n - 1);
  }

  /** Inputs for a registry of `n` validators. */
  ghost predicate Sized(inputs: EpochInputs, n: nat) {
    && |inputs.previousParticipation| == |inputs.currentParticipation| == |inputs.balances| == n
    && forall k :: 0 <= k < n ==> inputs.previousParticipation[k] < 8 && inputs.currentParticipation[k] < 8
  }

  lemma SizedFits(c: Config, st: BeaconState, inputs: EpochInputs)
    requires Sized(inputs, |st.validators|) && (st.slot + 1) % c.slotsPerEpoch == 0
    ensures Fits(c, st, Epoch(inputs))
  {
  }

  /** Behind a crossed boundary a rebuild does not throw. */
  lemma EpochTook(c: Config, inputs: EpochInputs, a: Moment, b: Moment)
    requires Took(c, Epoch(inputs), a, b)
    ensures b.state.slot == a.state.slot + 1 && |b.state.validators| == |a.state.validators|
    ensures !Stops(c, b.state, Upgrade)
  {
    hide ActiveIndices, WellFormed, Staged, EpochFollowsSpec, RandaoReset, ActiveStake, SkipsRoom, QueueCrossed, EpochMoved, Coherent;
    QueueParts(c, a);
    QueueParts(c, b);
  }

  lemma OthersTook(c: Config, step: Step, a: Moment, b: Moment)
    requires Took(c, step, a, b) && (step.Slot? || step.Upgrade?)
    ensures b.state == if step.Slot? then a.state.(slot := a.state.slot + 1) else a.state
  {
    hide Coherent, WellFormed, Staged, Fresh, Stops;
  }

  lemma TraceLength(c: Config, steps: seq<Step>, trace: seq<Moment>)
    requires IsTrace(c, steps, trace)
    ensures |trace| == |steps| + 1
  {
  }

  lemma NoSlots(c: Config, sch: SlotProcessing.Schedule, inputs: nat -> EpochInputs, slot: nat, m: Moment)
    requires Sound(c, m)
    ensures IsTrace(c, StepsBetween(sch, inputs, slot, slot), [m])
  {
    hide Sound;
    assert SlotProcessing.Events(sch, slot, slot) == [];
  }

  /** The active set of the new epoch is the one foreseen before the transition. */
  lemma BoundaryActive(c: Config, st: BeaconState, st': BeaconState, nextShufflingIndices: seq<nat>, nextTotal: nat)
    requires Boundary(c, st, st', nextShufflingIndices, nextTotal) && c.maxSeedLookahead >= 1
    ensures ActiveIndices(st'.validators, c.EpochAtSlot(st'.slot)) == ActiveIndices(st.validators, c.EpochAtSlot(st.slot) + 1)
  {
    hide ActiveIndices, RegistryRules;
    var e := c.EpochAtSlot(st.slot);
    RulesActiveSame(c, e, st.validators, st'.validators, e + 1);
  }

  /** Effective balances leave exits, queue and staging alone. */
  lemma BalancesEject(c: Config, epoch: nat, r: QueuedRegistry, s: QueuedRegistry, t: QueuedRegistry, balances: seq<nat>)
    requires |balances| == |s.vs| && t == s.(vs := SpecBalanceUpdates(c, s.vs, balances))
    requires EjectsInto(c, epoch, r, s) && Staged(s.vs)
    ensures EjectsInto(c, epoch, r, t) && Staged(t.vs)
  {
    hide SpecEffectiveBalance, Select, ToEject;
    ExitsSame(s.vs, t.vs, 0, c.ActivationExitEpoch(epoch));
  }

  /** Effective balances leave the exit queue alone. */
  lemma BalancesSkip(c: Config, vs: seq<Validator>, ws: seq<Validator>, balances: seq<nat>, epoch: nat, queueEpoch: nat)
    requires |balances| == |vs| && ws == SpecBalanceUpdates(c, vs, balances)
    ensures SkipsRoom(c, ws, epoch, queueEpoch) == SkipsRoom(c, vs, epoch, queueEpoch)
  {
    hide SpecEffectiveBalance, SkipsRoom;
    SkipsSame(c, vs, ws, epoch, queueEpoch);
  }

  /** The rotation moves the queue up to the new floor. */
  lemma BoundaryQueue(c: Config, st: BeaconState, st': BeaconState, k: Cache, k': Cache, rotated: Cache,
                      nextShufflingIndices: seq<nat>, nextTotal: nat)
    requires |st'.randaoMixes| == c.epochsPerHistoricalVector
    requires k'.nextShuffling.activeIndices != [] && k'.nextShuffling.epoch == k.epoch + 1 == rotated.epoch
    requires rotated == Rotate(c, k', st', nextShufflingIndices, nextTotal)
    requires EjectsInto(c, k.epoch, QueueOf(Moment(st, k)), QueueOf(Moment(st', k')))
    ensures QueueCrossed(c, Moment(st, k), Moment(st', rotated))
  {
    hide ProposersSpec, Select, ToEject, ActiveIndices;
    LatestExitRises(st'.validators, c.ActivationExitEpoch(k.epoch), c.ActivationExitEpoch(k.epoch + 1));
  }

  /** The rotation lets the queue skip room only where the churn limit rises. */
  lemma BoundaryRoom(c: Config, st: BeaconState, st': BeaconState, k: Cache, k': Cache, rotated: Cache,
                     nextShufflingIndices: seq<nat>, nextTotal: nat)
    requires |st.randaoMixes| == |st'.randaoMixes| == c.epochsPerHistoricalVector
    requires Boundary(c, st, st', nextShufflingIndices, nextTotal)
    requires k.epoch == c.EpochAtSlot(st.slot) && k'.nextShuffling.epoch == k.epoch + 1
    requires k'.nextShuffling.activeIndices != []
    requires rotated == Rotate(c, k', st', nextShufflingIndices, nextTotal)
    requires QueueKept(c, st'.validators, k.epoch, k'.exitQueueEpoch, k'.exitQueueChurn)
    requires k.churnLimit == ChurnLimit(c, |ActiveIndices(st.validators, k.epoch)|)
    requires rotated.churnLimit == ChurnLimit(c, |ActiveIndices(st'.validators, k.epoch + 1)|)
    requires !SkipsRoom(c, st'.validators, k.epoch, k'.exitQueueEpoch)
    ensures rotated.churnLimit <= k.churnLimit ==>
      !SkipsRoom(c, st'.validators, rotated.epoch, rotated.exitQueueEpoch)
  {
    hide ActiveIndices, SkipsRoom, QueueKept, RegistryRules, ProposersSpec, Stake;
    RulesActiveSame(c, k.epoch, st.validators, st'.validators, k.epoch);
    if rotated.churnLimit <= k.churnLimit {
      RotationSkipsNoRoom(c, st'.validators, k.epoch, k'.exitQueueEpoch, k'.exitQueueChurn);
    }
  }

  /** The exit queue never moves back. */
  lemma QueueAdvances(c: Config, r: QueuedRegistry, limit: nat, p: EpochProcess, finalized: nat)
    requires Below(p.indicesToEject, |r.vs|)
    requires Below(p.indicesEligibleForActivationQueue, |r.vs|)
    requires Below(p.indicesEligibleForActivation, |r.vs|)
    ensures FastRegistryUpdates(c, r, limit, p, finalized).queueEpoch >= r.queueEpoch
  {
    hide MarkEligible, Activate, Dequeued, InitiateExits;
  }

  lemma BoundaryCount(c: Config, st: BeaconState, st': BeaconState, nextShufflingIndices: seq<nat>, nextTotal: nat)
    requires Boundary(c, st, st', nextShufflingIndices, nextTotal)
    ensures c.EpochAtSlot(st'.slot) == c.EpochAtSlot(st.slot) + 1
    ensures |nextShufflingIndices| <= |st.validators|
  {
    ActiveCount(st.validators, c.EpochAtSlot(st.slot) + 2);
  }

  lemma WindowFields(c: Config, st: BeaconState, k: Cache, k': Cache)
    requires |st.randaoMixes| == c.epochsPerHistoricalVector && WindowCurrent(c, st, k)
    requires k'.previousShuffling == k.previousShuffling && k'.currentShuffling == k.currentShuffling
    requires k'.nextShuffling == k.nextShuffling
    ensures WindowCurrent(c, st, k')
  {
  }

  lemma KeepsRules(c: Config, epoch: nat, vs: seq<Validator>, ws: seq<Validator>)
    requires Keeps(c, epoch, vs, ws)
    ensures RegistryRules(c, epoch, vs, ws) && |ws| == |vs|
  {
  }

  lemma QueueInStep(c: Config, epoch: nat, limit: nat, r: QueuedRegistry)
    requires QueueKept(c, r.vs, epoch, r.queueEpoch, r.queueChurn)
    requires !SkipsRoom(c, r.vs, epoch, r.queueEpoch)
    requires limit == ChurnLimit(c, |ActiveIndices(r.vs, epoch)|)
    ensures InStep(c, epoch, limit, r)
  {
  }

  lemma FinalityCoherent(c: Config, st: BeaconState, st': BeaconState, k: Cache)
    requires WellFormed(c, st) && Coherent(c, st, k)
    requires st' == st.(finalizedEpoch := st'.finalizedEpoch)
    ensures WellFormed(c, st') && Coherent(c, st', k)
  {
  }

  /** The prepared lists hold indices of the registry, and the queue only unactivated ones. */
  lemma PreparedBelow(c: Config, vs: seq<Validator>, p: EpochProcess)
    requires p.indicesToEject == Select(vs, ReachesEject(c, p.currentEpoch))
    requires p.indicesEligibleForActivationQueue == Select(vs, EligibleForQueue(c))
    requires p.indicesEligibleForActivation == SpecQueue(vs, p.currentEpoch)
    ensures Below(p.indicesToEject, |vs|)
    ensures Below(p.indicesEligibleForActivationQueue, |vs|)
    ensures Below(p.indicesEligibleForActivation, |vs|)
    ensures forall i :: 0 <= i < |p.indicesEligibleForActivation| ==>
      vs[p.indicesEligibleForActivation[i]].activationEpoch.Never?
  {
    hide SpecQueue, Select;
    SelectedBelow(vs, ReachesEject(c, p.currentEpoch));
    SelectedBelow(vs, EligibleForQueue(c));
    QueueMembers(vs, p.currentEpoch);
    var q := p.indicesEligibleForActivation;
    forall i | 0 <= i < |q| ensures vs[q[i]].activationEpoch.Never? {
      assert q[i] in q;
    }
  }

  lemma ActiveAhead(c: Config, epoch: nat, vs: seq<Validator>, ws: seq<Validator>, isActiveNextEpoch: seq<bool>)
    requires Keeps(c, epoch, vs, ws) && c.maxSeedLookahead >= 1
    requires |isActiveNextEpoch| == |vs|
    requires forall k :: 0 <= k < |vs| ==> isActiveNextEpoch[k] == IsActive(vs[k], epoch + 1)
    ensures forall k :: 0 <= k < |ws| ==> isActiveNextEpoch[k] == IsActive(ws[k], epoch + 1)
  {
  }

  /** New effective balances leave the queue and the registry rules alone. */
  lemma BalancesKeep(c: Config, epoch: nat, vs: seq<Validator>, ws: seq<Validator>, balances: seq<nat>,
                     queueEpoch: nat, queueChurn: nat)
    requires |balances| == |vs| && ws == SpecBalanceUpdates(c, vs, balances)
    requires QueueKept(c, vs, epoch, queueEpoch, queueChurn)
    ensures RegistryRules(c, epoch, vs, ws)
    ensures QueueKept(c, ws, epoch, queueEpoch, queueChurn)
  {
    hide QueueKept, SpecEffectiveBalance;
    QueueKeptSame(c, vs, ws, epoch, queueEpoch, queueChurn);
  }

  /** A registry change that keeps the rules and the queue keeps the whole cache coherent. */
  lemma KeptCoherent(c: Config, st: BeaconState, st': BeaconState, k: Cache, k': Cache)
    requires c.maxSeedLookahead >= 1 && WellFormed(c, st) && Coherent(c, st, k)
    requires st' == st.(validators := st'.validators)
    requires Keeps(c, k.epoch, st.validators, st'.validators)
    requires k' == k.(exitQueueEpoch := k'.exitQueueEpoch, exitQueueChurn := k'.exitQueueChurn)
    requires QueueKept(c, st'.validators, k.epoch, k'.exitQueueEpoch, k'.exitQueueChurn)
    ensures WellFormed(c, st') && Coherent(c, st', k')
  {
    hide Coherent, QueueKept, RegistryRules;
    ShufflingEpochs(c, st, k);
    CoherentQueue(c, st, k);
    BoundedSame(c, st.validators, st'.validators);
    WithinCoherent(c, st, st', k, k');
  }

  lemma {:induction false} ActivateEligibility(vs: seq<Validator>, ks: seq<nat>, at: nat)
    requires Below(ks, |vs|)
    ensures forall k :: 0 <= k < |vs| ==>
      Activate(vs, ks, at)[k].activationEligibilityEpoch == vs[k].activationEligibilityEpoch
  {
    if ks != [] {
      ActivateEligibility(vs, ks[..|ks| - 1], at);
    }
  }

  lemma NoneActivated(vs: seq<Validator>, ks: seq<nat>, at: nat)
    requires ks == []
    ensures Activate(vs, ks, at) == vs
  {
  }

  lemma ActivateStep(vs: seq<Validator>, ks: seq<nat>, i: nat, at: nat)
    requires Below(ks, |vs|) && i < |ks|
    ensures var done := Activate(vs, ks[..i], at);
      Activate(vs, ks[..i + 1], at) == done[ks[i] := done[ks[i]].(activationEpoch := At(at))]
  {
    assert ks[..i + 1][..i] == ks[..i];
  }

  lemma {:induction false} HeadIs(vs: seq<Validator>, q: seq<nat>, f: nat, m: nat)
    requires Below(q, |vs|) && m <= |q|
    requires forall j :: 0 <= j < m ==> vs[q[j]].activationEligibilityEpoch.By(f)
    requires m < |q| ==> !vs[q[m]].activationEligibilityEpoch.By(f)
    ensures EligibleHead(vs, q, f) == m
  {
    if m > 0 {
      HeadIs(vs, q[1..], f, m - 1);
    }
  }

  lemma BoundedSame(c: Config, vs: seq<Validator>, ws: seq<Validator>)
    requires Bounded(c, vs) && |ws| == |vs|
    requires forall k :: 0 <= k < |vs| ==> ws[k].effectiveBalance == vs[k].effectiveBalance
    ensures Bounded(c, ws)
  {
  }

  lemma DepositWhole(c: Config, amount: nat)
    ensures WholeBalance(c, NewValidator(c, amount))
  {
    RoundedWhole(c, amount);
  }
}
