/** The class `EpochContext`: built from a state, rotated at epoch boundaries, and queried. */
module EpochContext {
  import opened Params
  import opened Permutations
  import opened Shuffle
  import opened Sampling
  import opened EpochShuffling
  import opened Registry
  import opened Cache
  import opened Rotation
  import opened Duties
  import opened Wrappers
  import Arith

  // ----- The one pass over the validators -----

  /** One step of the exit queue scan. */
  lemma QueueScanStep(vs: seq<Validator>, low: nat, i: nat)
    requires i < |vs|
    ensures var a, b := LatestExit(vs[..i], low), LatestExit(vs[..i + 1], low);
      match vs[i].exitEpoch
      case Never => b == a && ExitsAt(vs[..i + 1], b) == ExitsAt(vs[..i], a)
      case At(x) =>
        && b == Max(a, x)
        && ExitsAt(vs[..i + 1], b) == if x > a then 1 else if x == a then ExitsAt(vs[..i], a) + 1 else ExitsAt(vs[..i], a)
  {
    assert vs[..i + 1][..i] == vs[..i];
    var a, b := LatestExit(vs[..i], low), LatestExit(vs[..i + 1], low);
    LatestExitBounds(vs[..i], low);
    if b > a {
      NoExitsBeyond(vs[..i], a, b);
    }
  }

  /** What the loop of `createFromState` accumulates. */
  datatype Scan = Scan(
    previousActive: seq<nat>,
    currentActive: seq<nat>,
    nextActive: seq<nat>,
    increments: seq<nat>,
    totalIncrements: nat,
    exitQueueEpoch: nat,
    exitQueueChurn: nat)

  /** The loop of `createFromState`: active sets of three epochs, increments, total stake and exit
      queue in one pass. The store of increments holds bytes, so each is taken modulo 256. */
  method ScanValidators(c: Config, vs: seq<Validator>, previousEpoch: nat, currentEpoch: nat, nextEpoch: nat)
    returns (r: Scan)
    requires Bounded(c, vs)
    ensures r.previousActive == ActiveIndices(vs, previousEpoch)
    ensures r.currentActive == ActiveIndices(vs, currentEpoch)
    ensures r.nextActive == ActiveIndices(vs, nextEpoch)
    ensures r.increments == PaddedIncrements(c, vs)
    ensures r.totalIncrements == ActiveStake(c, vs, currentEpoch) <= 256 * |vs|
    ensures r.exitQueueEpoch == LatestExit(vs, c.ActivationExitEpoch(currentEpoch))
    ensures r.exitQueueChurn == ExitsAt(vs, r.exitQueueEpoch)
  {
    hide Select, Stake, PaddedIncrements, LatestExit, ExitsAt;
    var previous: seq<nat>, current: seq<nat>, next: seq<nat>, total: nat := [], [], [], 0;
    var low := c.ActivationExitEpoch(currentEpoch);
    var exitQueueEpoch, exitQueueChurn := low, 0;
    var increments: seq<nat> := seq(PaddedLength(|vs|), _ => 0);
    NothingSelected(c, vs[..0]);
    EmptyScan(vs[..0], low);
    var i: nat := 0;
    while i < |vs|
      invariant i <= |vs|
      invariant previous == Select(vs[..i], ActiveAt(previousEpoch))
      invariant current == Select(vs[..i], ActiveAt(currentEpoch))
      invariant next == Select(vs[..i], ActiveAt(nextEpoch))
      invariant total == Stake(c, vs[..i], ActiveAt(currentEpoch))
      invariant |increments| == PaddedLength(|vs|)
      invariant forall k :: 0 <= k < i ==> increments[k] == Increments(c, vs[k])
      invariant forall k :: i <= k < |increments| ==> increments[k] == 0
      invariant exitQueueEpoch == LatestExit(vs[..i], low)
      invariant exitQueueChurn == ExitsAt(vs[..i], exitQueueEpoch)
    {
      SelectStep(vs, ActiveAt(previousEpoch), i);
      SelectStep(vs, ActiveAt(currentEpoch), i);
      SelectStep(vs, ActiveAt(nextEpoch), i);
      StakeStep(c, vs, ActiveAt(currentEpoch), i);
      QueueScanStep(vs, low, i);
      IncrementsBound(c, vs[i]);
      var validator := vs[i];
      increments := increments[i := validator.effectiveBalance / c.effectiveBalanceIncrement % 256];
      if IsActive(validator, previousEpoch) {
        previous := previous + [i];
      }
      if IsActive(validator, currentEpoch) {
        current := current + [i];
        total := total + increments[i];
      }
      if IsActive(validator, nextEpoch) {
        next := next + [i];
      }
      var exitEpoch := validator.exitEpoch;
      if exitEpoch.At? {
        if exitEpoch.epoch > exitQueueEpoch {
          exitQueueEpoch := exitEpoch.epoch;
          exitQueueChurn := 1;
        } else if exitEpoch.epoch == exitQueueEpoch {
          exitQueueChurn := exitQueueChurn + 1;
        }
      }
      i := i + 1;
    }
    assert vs[..i] == vs;
    PaddedAt(c, vs, increments);
    StakeBound(c, vs, ActiveAt(currentEpoch));
    return Scan(previous, current, next, increments, total, exitQueueEpoch, exitQueueChurn);
  }

  lemma EmptyScan(vs: seq<Validator>, low: nat)
    requires vs == []
    ensures LatestExit(vs, low) == low && ExitsAt(vs, low) == 0
  {
  }

  lemma PaddedAt(c: Config, vs: seq<Validator>, increments: seq<nat>)
    requires |increments| == PaddedLength(|vs|)
    requires forall k :: 0 <= k < |vs| ==> increments[k] == Increments(c, vs[k])
    requires forall k :: |vs| <= k < |increments| ==> increments[k] == 0
    ensures increments == PaddedIncrements(c, vs)
  {
  }

  /** `CommitteeAssignment`, or why there is none. */
  datatype Assignment =
    | OutOfRange
    | NoAssignment
    | Assigned(validators: seq<nat>, committeeIndex: nat, slot: nat)

  class EpochContext {
    const config: Config
    var epoch: nat
    var syncPeriod: nat
    var previousShuffling: EpochShuffling
    var currentShuffling: EpochShuffling
    var nextShuffling: EpochShuffling
    var proposers: seq<int>
    var effectiveBalanceIncrements: seq<nat>
    var totalActiveBalanceIncrements: nat
    var churnLimit: nat
    var exitQueueEpoch: nat
    var exitQueueChurn: nat

    /** All fields as one value. */
    ghost function View(): Cache
      reads this
    {
      Cache(epoch, syncPeriod, previousShuffling, currentShuffling, nextShuffling, proposers,
            effectiveBalanceIncrements, totalActiveBalanceIncrements, churnLimit,
            exitQueueEpoch, exitQueueChurn)
    }

    constructor (config: Config, data: Cache)
      ensures this.config == config && View() == data
    {
      this.config := config;
      epoch := data.epoch;
      syncPeriod := data.syncPeriod;
      previousShuffling := data.previousShuffling;
      currentShuffling := data.currentShuffling;
      nextShuffling := data.nextShuffling;
      proposers := data.proposers;
      effectiveBalanceIncrements := data.effectiveBalanceIncrements;
      totalActiveBalanceIncrements := data.totalActiveBalanceIncrements;
      churnLimit := data.churnLimit;
      exitQueueEpoch := data.exitQueueEpoch;
      exitQueueChurn := data.exitQueueChurn;
    }

    /** `createFromState`; null where an error is thrown. */
    static method CreateFromState(config: Config, state: BeaconState) returns (ctx: EpochContext?)
      requires WellFormed(config, state)
      ensures ctx == null <==>
        state.validators != [] && ActiveIndices(state.validators, config.EpochAtSlot(state.slot)) == []
      ensures ctx != null ==> fresh(ctx) && ctx.config == config && ctx.View() == Fresh(config, state)
    {
      hide ActiveIndices, ActiveStake, Stake, PaddedIncrements, LatestExit, ExitsAt, Seed, ProposersSpec,
        CommitteesSpec, CommitteeCount, ChurnLimit;
      var vs := state.validators;
      var currentEpoch := config.EpochAtSlot(state.slot);
      var isGenesis := currentEpoch == 0;
      var previousEpoch := if isGenesis then 0 else currentEpoch - 1;
      var nextEpoch := currentEpoch + 1;
      var scan := ScanValidators(config, vs, previousEpoch, currentEpoch, nextEpoch);
      var total := scan.totalIncrements;
      if total < 1 {
        total := 1;
      } else if total >= MAX_SAFE_INTEGER {
        return null;
      }
      ActiveCount(vs, currentEpoch);
      ActiveCount(vs, previousEpoch);
      ActiveCount(vs, nextEpoch);
      var current := ComputeEpochShuffling(config, state.randaoMixes, scan.currentActive, currentEpoch);
      var previous := current;
      if !isGenesis {
        previous := ComputeEpochShuffling(config, state.randaoMixes, scan.previousActive, previousEpoch);
      }
      var next := ComputeEpochShuffling(config, state.randaoMixes, scan.nextActive, nextEpoch);
      var proposers := [];
      if |vs| > 0 {
        var computed := ComputeProposers(config, state.randaoMixes, currentEpoch, scan.currentActive,
                                         scan.increments);
        if computed.None? {
          return null;
        }
        proposers := computed.value;
        RotatedProposers(config, state, scan.increments, currentEpoch);
      }
      var limit := ChurnLimit(config, |scan.currentActive|);
      var queueEpoch, queueChurn := scan.exitQueueEpoch, scan.exitQueueChurn;
      if queueChurn >= limit {
        queueEpoch := queueEpoch + 1;
        queueChurn := 0;
      }
      ctx := new EpochContext(config, Cache(
        currentEpoch, config.SyncPeriodAtEpoch(currentEpoch), previous.value, current.value, next.value,
        proposers, scan.increments, total, limit, queueEpoch, queueChurn));
    }

    /** The first half of `afterProcessEpoch`: the window moves on by one epoch. */
    method ShiftShufflings(state: BeaconState, nextShufflingIndices: seq<nat>)
      requires |state.randaoMixes| == config.epochsPerHistoricalVector
      requires |nextShufflingIndices| <= MAX_LIST
      modifies this
      ensures View() == old(View()).(
        previousShuffling := old(currentShuffling),
        currentShuffling := old(nextShuffling),
        nextShuffling := ShufflingSpec(config, state.randaoMixes, nextShufflingIndices, old(nextShuffling.epoch) + 1))
    {
      hide ShufflingSpec;
      previousShuffling := currentShuffling;
      currentShuffling := nextShuffling;
      var currEpoch := currentShuffling.epoch;
      var nextEpoch := currEpoch + 1;
      var next := ComputeEpochShuffling(config, state.randaoMixes, nextShufflingIndices, nextEpoch);
      nextShuffling := next.value;
    }

    /** `afterProcessEpoch`; `ok` is false where an error is thrown, after the shufflings moved. */
    method AfterProcessEpoch(state: BeaconState, nextShufflingIndices: seq<nat>, nextTotal: nat) returns (ok: bool)
      requires |state.randaoMixes| == config.epochsPerHistoricalVector
      requires |nextShufflingIndices| <= MAX_LIST && |nextShuffling.activeIndices| <= MAX_LIST
      modifies this
      ensures ok <==> old(nextShuffling.activeIndices) != []
      ensures ok ==> View() == Rotate(config, old(View()), state, nextShufflingIndices, nextTotal)
      ensures !ok ==> View() == old(View()).(
        previousShuffling := old(currentShuffling),
        currentShuffling := old(nextShuffling),
        nextShuffling := ShufflingSpec(config, state.randaoMixes, nextShufflingIndices, old(nextShuffling.epoch) + 1))
    {
      hide ProposersSpec, SlotProposer, ShufflingSpec, ChurnLimit;
      ShiftShufflings(state, nextShufflingIndices);
      var currEpoch := currentShuffling.epoch;
      var computed := ComputeProposers(config, state.randaoMixes, currEpoch, currentShuffling.activeIndices,
                                       effectiveBalanceIncrements);
      if computed.None? {
        return false;
      }
      proposers := computed.value;
      churnLimit := ChurnLimit(config, |currentShuffling.activeIndices|);
      var floor := config.ActivationExitEpoch(currEpoch);
      if floor > exitQueueEpoch {
        exitQueueEpoch := floor;
        exitQueueChurn := 0;
      }
      totalActiveBalanceIncrements := nextTotal;
      epoch := config.EpochAtSlot(state.slot);
      syncPeriod := config.SyncPeriodAtEpoch(epoch);
      return true;
    }

    // ----- Lookups -----

    /** `getShufflingAtEpoch`; `None` where an error is thrown. */
    function ShufflingAtEpoch(epoch: nat): (r: Option<EpochShuffling>)
      reads this
      ensures r.Some? <==> epoch in {previousShuffling.epoch, currentShuffling.epoch, nextShuffling.epoch}
      ensures r.Some? ==> r.value.epoch == epoch
    {
      if epoch == previousShuffling.epoch then Some(previousShuffling)
      else if epoch == currentShuffling.epoch then Some(currentShuffling)
      else if epoch == nextShuffling.epoch then Some(nextShuffling)
      else None
    }

    /** `getBeaconCommittee`; `None` where an error is thrown. */
    function BeaconCommittee(slot: nat, index: nat): (r: Option<seq<nat>>)
      requires WindowCut()
      reads this
    {
      var s := ShufflingAtEpoch(config.EpochAtSlot(slot));
      if s.None? then None else
        WellCutShape(config, s.value);
        var slotCommittees := s.value.committees[slot % config.slotsPerEpoch];
        if index >= |slotCommittees| then None else Some(slotCommittees[index])
    }

    ghost predicate WindowCut()
      reads this
    {
      WellCut(config, previousShuffling) && WellCut(config, currentShuffling) && WellCut(config, nextShuffling)
    }

    /** `getCommitteeAssignments`; `None` where an error is thrown. */
    method GetCommitteeAssignments(epoch: nat, requested: seq<nat>) returns (r: Option<map<nat, Duty>>)
      requires WindowCut()
      ensures r.Some? <==> ShufflingAtEpoch(epoch).Some?
      ensures r.Some? ==> AllPointBack(config, ShufflingAtEpoch(epoch).value, r.value)
      ensures r.Some? ==>
        forall v :: v in r.value <==> v in requested && v in ShufflingAtEpoch(epoch).value.activeIndices
    {
      hide WellCut, AllPointBack;
      var requestedSet := set v | v in requested;
      var s := ShufflingAtEpoch(epoch);
      if s.None? {
        return None;
      }
      var duties := EpochDuties(config, s.value, requestedSet);
      return Some(duties);
    }

    lemma SlotInEpoch(epoch: nat, slot: nat)
      requires config.StartSlotAtEpoch(epoch) <= slot < config.StartSlotAtEpoch(epoch) + config.slotsPerEpoch
      ensures config.EpochAtSlot(slot) == epoch
      ensures slot % config.slotsPerEpoch == slot - config.StartSlotAtEpoch(epoch)
    {
      Arith.DivUnique(slot, config.slotsPerEpoch, epoch);
    }

    /** The search of one slot for the committee of a validator. */
    method SearchSlot(epoch: nat, slot: nat, validatorIndex: nat) returns (r: Option<nat>)
      requires WindowCut() && ShufflingAtEpoch(epoch).Some?
      requires config.StartSlotAtEpoch(epoch) <= slot < config.StartSlotAtEpoch(epoch) + config.slotsPerEpoch
      ensures |ShufflingAtEpoch(epoch).value.committees| == config.slotsPerEpoch
      ensures var committees := ShufflingAtEpoch(epoch).value.committees[slot - config.StartSlotAtEpoch(epoch)];
        match r
        case Some(i) => i < |committees| && validatorIndex in committees[i] && BeaconCommittee(slot, i) == Some(committees[i])
        case None => forall i :: 0 <= i < |committees| ==> validatorIndex !in committees[i]
    {
      hide WellCut;
      SlotInEpoch(epoch, slot);
      var s := ShufflingAtEpoch(epoch).value;
      WellCutShape(config, s);
      ghost var committees := s.committees[slot - config.StartSlotAtEpoch(epoch)];
      var i: nat := 0;
      while i < s.committeesPerSlot
        invariant i <= s.committeesPerSlot
        invariant forall k :: 0 <= k < i ==> validatorIndex !in committees[k]
      {
        var committee := BeaconCommittee(slot, i);
        if validatorIndex in committee.value {
          return Some(i);
        }
        i := i + 1;
      }
      return None;
    }

    /** `getCommitteeAssignment` */
    method GetCommitteeAssignment(epoch: nat, validatorIndex: nat) returns (r: Assignment)
      requires WindowCut()
      ensures r.OutOfRange? <==> epoch > currentShuffling.epoch + 1 || ShufflingAtEpoch(epoch).None?
      ensures !r.OutOfRange? ==> (r.Assigned? <==> validatorIndex in ShufflingAtEpoch(epoch).value.activeIndices)
      ensures r.Assigned? ==>
        var s, start := ShufflingAtEpoch(epoch).value, config.StartSlotAtEpoch(epoch);
        && start <= r.slot < start + |s.committees|
        && r.committeeIndex < |s.committees[r.slot - start]|
        && r.validators == s.committees[r.slot - start][r.committeeIndex]
        && validatorIndex in r.validators
    {
      hide WellCut, RawConfig.Valid, RawConfig.StartSlotAtEpoch, NoSeatBefore;
      if epoch > currentShuffling.epoch + 1 {
        return OutOfRange;
      }
      var epochStartSlot := config.StartSlotAtEpoch(epoch);
      var found := ShufflingAtEpoch(epoch);
      if found.None? {
        return OutOfRange;
      }
      ghost var s := found.value;
      WellCutShape(config, s);
      NoSeatYet(s, validatorIndex);
      var slot: nat := epochStartSlot;
      while slot < epochStartSlot + config.slotsPerEpoch
        invariant epochStartSlot <= slot <= epochStartSlot + config.slotsPerEpoch
        invariant NoSeatBefore(s, validatorIndex, slot - epochStartSlot)
      {
        var inSlot := SearchSlot(epoch, slot, validatorIndex);
        if inSlot.Some? {
          var committee := BeaconCommittee(slot, inSlot.value);
          SeatIsActive(s, slot - epochStartSlot, inSlot.value, validatorIndex);
          return Assigned(committee.value, inSlot.value, slot);
        }
        NoSeatInSlot(s, validatorIndex, slot - epochStartSlot);
        slot := slot + 1;
      }
      NoSeatAtAll(s, validatorIndex);
      return NoAssignment;
    }

    ghost predicate NoSeatBefore(s: EpochShuffling, v: nat, slots: nat) {
      forall k, i :: 0 <= k < slots && k < |s.committees| && 0 <= i < |s.committees[k]| ==> v !in s.committees[k][i]
    }

    lemma NoSeatYet(s: EpochShuffling, v: nat)
      ensures NoSeatBefore(s, v, 0)
    {
    }

    lemma NoSeatInSlot(s: EpochShuffling, v: nat, slot: nat)
      requires NoSeatBefore(s, v, slot) && slot < |s.committees|
      requires forall i :: 0 <= i < |s.committees[slot]| ==> v !in s.committees[slot][i]
      ensures NoSeatBefore(s, v, slot + 1)
    {
    }

    lemma NoSeatAtAll(s: EpochShuffling, v: nat)
      requires WellCut(config, s) && NoSeatBefore(s, v, |s.committees|)
      ensures v !in s.activeIndices
    {
      hide WellCut;
      SomeSeat(config, s, v);
    }

    lemma SeatIsActive(s: EpochShuffling, slot: nat, i: nat, v: nat)
      requires WellCut(config, s)
      requires slot < |s.committees| && i < |s.committees[slot]| && v in s.committees[slot][i]
      ensures v in s.activeIndices
    {
      var j :| 0 <= j < |s.committees[slot][i]| && s.committees[slot][i][j] == v;
      assert Sits(s, v, slot, i, j);
      SomeSeat(config, s, v);
    }
  }

  lemma ActiveCount(vs: seq<Validator>, epoch: nat)
    ensures |ActiveIndices(vs, epoch)| <= |vs|
    ensures StrictlyIncreasing(ActiveIndices(vs, epoch))
    ensures vs == [] ==> ActiveIndices(vs, epoch) == []
  {
    SelectMembers(vs, ActiveAt(epoch));
  }

  /** A coherent cache has a well cut window. */
  lemma WindowWellCut(c: Config, st: BeaconState, k: Cache)
    requires |st.randaoMixes| == c.epochsPerHistoricalVector
    requires WindowCurrent(c, st, k)
    ensures WellCut(c, k.previousShuffling) && WellCut(c, k.currentShuffling) && WellCut(c, k.nextShuffling)
  {
    hide WellCut, ShufflingSpec, ActiveIndices;
    var e := c.EpochAtSlot(st.slot);
    forall f: nat ensures WellCut(c, ShufflingAt(c, st, f)) {
      ActiveCount(st.validators, f);
      ShufflingWellCut(c, st.randaoMixes, ActiveIndices(st.validators, f), f);
    }
  }

  /** The duty map and the linear search name the same slot and committee. */
  lemma AssignmentMatchesDuty(c: Config, s: EpochShuffling, v: nat, d: Duty, slot: nat, i: nat)
    requires WellCut(c, s) && PointsBack(c, s, v, d)
    requires slot < |s.committees| && i < |s.committees[slot]| && v in s.committees[slot][i]
    ensures d.slot == c.StartSlotAtEpoch(s.epoch) + slot && d.committeeIndex == i
  {
    hide WellCut;
    var j :| 0 <= j < |s.committees[slot][i]| && s.committees[slot][i][j] == v;
    assert Sits(s, v, slot, i, j);
    OneSeat(c, s, v, slot, i, j, d.slot - c.StartSlotAtEpoch(s.epoch), d.committeeIndex, d.validatorCommitteeIndex);
  }
}
