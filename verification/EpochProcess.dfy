/** `beforeProcessEpoch` on its altair branch: one pass over the validators that prepares every
    list, flag and stake sum that epoch processing needs. */
module EpochProcess {
  import opened Params
  import opened Shuffle
  import opened Registry
  import opened Cache
  import opened ActivationQueue
  import opened AttesterStatus
  import opened Wrappers

  /** `IAttesterStatus`, without the two fields only the phase0 branch uses. */
  datatype Status = Status(flags: Flags, active: bool)

  datatype EpochProcess = EpochProcess(
    prevEpoch: nat,
    currentEpoch: nat,
    totalActiveStake: nat,
    prevSourceStake: nat,
    prevTargetStake: nat,
    prevHeadStake: nat,
    currTargetStake: nat,
    indicesToSlash: seq<nat>,
    indicesEligibleForActivationQueue: seq<nat>,
    indicesEligibleForActivation: seq<nat>,
    indicesToEject: seq<nat>,
    nextShufflingIndices: seq<nat>,
    isActiveNextEpoch: seq<bool>,
    statuses: seq<Status>)

  // ----- The filters -----

  function ToSlash(c: Config, epoch: nat): Validator -> bool {
    (v: Validator) => v.slashed && v.withdrawableEpoch == At(epoch + c.epochsPerSlashingsVector / 2)
  }

  /** `is_eligible_for_activation_queue` of the phase0 specification. */
  function EligibleForQueue(c: Config): Validator -> bool {
    (v: Validator) => v.activationEligibilityEpoch.Never? && v.effectiveBalance == c.maxEffectiveBalance
  }

  /** Active validators that the specification ejects, and whose exit is not yet initiated. */
  function ToEject(c: Config, epoch: nat): Validator -> bool {
    (v: Validator) => IsActive(v, epoch) && v.exitEpoch.Never? && v.effectiveBalance <= c.ejectionBalance
  }

  /** What reaches the last branch of the `else if` chain. */
  function ReachesEject(c: Config, epoch: nat): Validator -> bool {
    (v: Validator) => !EligibleForQueue(c)(v) && !EligibleBy(epoch)(v) && ToEject(c, epoch)(v)
  }

  /** The chain loses no ejection on any registry whatever, exactly when the ejection balance is
      below the maximum effective balance; `StagedLosesNothing` is about those of the chain. */
  lemma ChainDomain(c: Config, epoch: nat)
    ensures (forall vs :: Select(vs, ReachesEject(c, epoch)) == Select(vs, ToEject(c, epoch)))
            <==> c.ejectionBalance < c.maxEffectiveBalance
  {
    if c.ejectionBalance < c.maxEffectiveBalance {
      forall vs ensures Select(vs, ReachesEject(c, epoch)) == Select(vs, ToEject(c, epoch)) {
        SelectSame(vs, ReachesEject(c, epoch), vs, ToEject(c, epoch));
      }
    } else {
      var vs := [Validator(c.maxEffectiveBalance, false, Never, At(0), Never, Never)];
      SelectMembers(vs, ReachesEject(c, epoch));
      SelectMembers(vs, ToEject(c, epoch));
      assert 0 in Select(vs, ToEject(c, epoch)) && 0 !in Select(vs, ReachesEject(c, epoch));
    }
  }

  /** An activation epoch is set only behind an eligibility epoch. Whatever sets one sees to it:
      genesis sets both, and only eligible validators enter the activation queue. */
  ghost predicate Staged(vs: seq<Validator>) {
    forall k :: 0 <= k < |vs| && vs[k].activationEpoch.At? ==> vs[k].activationEligibilityEpoch.At?
  }

  /** On such a registry the chain loses no ejection, whatever the two balances are. */
  lemma {:induction false} StagedLosesNothing(c: Config, vs: seq<Validator>, epoch: nat)
    requires Staged(vs)
    ensures Select(vs, ReachesEject(c, epoch)) == Select(vs, ToEject(c, epoch))
  {
    SelectSame(vs, ReachesEject(c, epoch), vs, ToEject(c, epoch));
  }

  predicate Eligible(v: Validator, prevEpoch: nat) {
    IsActive(v, prevEpoch) || (v.slashed && !v.withdrawableEpoch.By(prevEpoch + 1))
  }

  /** A slashed validator is listed for its penalty in the one epoch that lies half the slashings vector,
      rounded down, before it can withdraw. */
  lemma SlashedHalfway(c: Config, vs: seq<Validator>, epoch: nat, k: nat)
    ensures k in Select(vs, ToSlash(c, epoch)) <==>
      && k < |vs| && vs[k].slashed && vs[k].withdrawableEpoch != Never
      && c.epochsPerSlashingsVector - 1 <= 2 * (vs[k].withdrawableEpoch.epoch - epoch) <= c.epochsPerSlashingsVector
  {
    hide Select;
    SelectMembers(vs, ToSlash(c, epoch));
  }

  // ----- The loop over the validators -----

  datatype Classified = Classified(
    toSlash: seq<nat>,
    eligibleForQueue: seq<nat>,
    eligibleForActivation: seq<nat>,
    toEject: seq<nat>,
    nextShuffling: seq<nat>,
    isActivePrevEpoch: seq<bool>,
    isActiveNextEpoch: seq<bool>,
    statuses: seq<Status>,
    increments: seq<nat>,
    totalActiveStake: nat)

  method ClassifyValidators(c: Config, prevEpoch: nat, currentEpoch: nat, vs: seq<Validator>) returns (r: Classified)
    ensures r.toSlash == Select(vs, ToSlash(c, currentEpoch))
    ensures r.eligibleForQueue == Select(vs, EligibleForQueue(c))
    ensures r.eligibleForActivation == Select(vs, EligibleBy(currentEpoch))
    ensures r.toEject == Select(vs, ReachesEject(c, currentEpoch))
    ensures r.nextShuffling == Select(vs, ActiveAt(currentEpoch + 2))
    ensures |r.isActivePrevEpoch| == |r.isActiveNextEpoch| == |r.statuses| == |r.increments| == |vs|
    ensures forall k :: 0 <= k < |vs| ==>
      && r.isActivePrevEpoch[k] == IsActive(vs[k], prevEpoch)
      && r.isActiveNextEpoch[k] == IsActive(vs[k], currentEpoch + 1)
      && r.statuses[k] == Status(BaseFlags(!vs[k].slashed, Eligible(vs[k], prevEpoch)), IsActive(vs[k], currentEpoch))
      && r.increments[k] == Increments(c, vs[k])
    ensures r.totalActiveStake == ActiveStake(c, vs, currentEpoch)
  {
    hide Select, Stake;
    var slashingsEpoch := currentEpoch + c.epochsPerSlashingsVector / 2;
    var toSlash, queue, activation, eject, next: seq<nat> := [], [], [], [], [];
    var activePrevs: seq<bool>, activeNexts: seq<bool>, statuses: seq<Status>, increments: seq<nat> := [], [], [], [];
    var total: nat := 0;
    NothingSelected(c, vs[..0]);
    var i: nat := 0;
    while i < |vs|
      invariant i <= |vs|
      invariant toSlash == Select(vs[..i], ToSlash(c, currentEpoch))
      invariant queue == Select(vs[..i], EligibleForQueue(c))
      invariant activation == Select(vs[..i], EligibleBy(currentEpoch))
      invariant eject == Select(vs[..i], ReachesEject(c, currentEpoch))
      invariant next == Select(vs[..i], ActiveAt(currentEpoch + 2))
      invariant |activePrevs| == |activeNexts| == |statuses| == |increments| == i
      invariant forall k :: 0 <= k < i ==>
        && activePrevs[k] == IsActive(vs[k], prevEpoch)
        && activeNexts[k] == IsActive(vs[k], currentEpoch + 1)
        && statuses[k] == Status(BaseFlags(!vs[k].slashed, Eligible(vs[k], prevEpoch)), IsActive(vs[k], currentEpoch))
        && increments[k] == Increments(c, vs[k])
      invariant total == Stake(c, vs[..i], ActiveAt(currentEpoch))
    {
      var validator := vs[i];
      SelectStep(vs, ToSlash(c, currentEpoch), i);
      SelectStep(vs, EligibleForQueue(c), i);
      SelectStep(vs, EligibleBy(currentEpoch), i);
      SelectStep(vs, ReachesEject(c, currentEpoch), i);
      SelectStep(vs, ActiveAt(currentEpoch + 2), i);
      StakeStep(c, vs, ActiveAt(currentEpoch), i);
      var flags: Flags := 0;
      if validator.slashed {
        if validator.withdrawableEpoch == At(slashingsEpoch) {
          toSlash := toSlash + [i];
        }
      } else {
        flags := flags | FLAG_UNSLASHED;
      }
      var activePrev := IsActive(validator, prevEpoch);
      activePrevs := activePrevs + [activePrev];
      if activePrev || (validator.slashed && !validator.withdrawableEpoch.By(prevEpoch + 1)) {
        flags := flags | FLAG_ELIGIBLE_ATTESTER;
      }
      var active := IsActive(validator, currentEpoch);
      var increment := validator.effectiveBalance / c.effectiveBalanceIncrement;
      increments := increments + [increment];
      if active {
        total := total + increment;
      }
      if validator.activationEligibilityEpoch.Never? && validator.effectiveBalance == c.maxEffectiveBalance {
        queue := queue + [i];
      } else if validator.activationEpoch.Never? && validator.activationEligibilityEpoch.By(currentEpoch) {
        activation := activation + [i];
      } else if active && validator.exitEpoch.Never? && validator.effectiveBalance <= c.ejectionBalance {
        eject := eject + [i];
      }
      statuses := statuses + [Status(flags, active)];
      activeNexts := activeNexts + [IsActive(validator, currentEpoch + 1)];
      if IsActive(validator, currentEpoch + 2) {
        next := next + [i];
      }
      i := i + 1;
    }
    assert vs[..i] == vs;
    return Classified(toSlash, queue, activation, eject, next, activePrevs, activeNexts, statuses, increments, total);
  }

  // ----- Participation -----

  /** Stored participation of the registry; the altair code only ever stores three flags. */
  predicate Participation(vs: seq<Validator>, parts: seq<Flags>) {
    |parts| == |vs| && forall k :: 0 <= k < |parts| ==> parts[k] < 8
  }

  /** A validator past the end of the list has no flags. */
  function FlagsAt(parts: seq<Flags>, k: nat): Flags {
    if k < |parts| then parts[k] else 0
  }

  lemma NothingToMerge(flags: Flags, active: bool)
    ensures MergePrevious(flags, active, 0) == flags == MergeCurrent(flags, active, 0)
  {
  }

  /** The two loops that merge the stored participation into the flags, for lists of any length: `None`
      where the second one reads a status that does not exist. */
  method MergeParticipation(before: seq<Status>, isActivePrevEpoch: seq<bool>, prev: seq<Flags>, curr: seq<Flags>)
    returns (r: Option<seq<Status>>)
    requires |before| == |isActivePrevEpoch|
    ensures r.None? <==> |curr| > |before|
    ensures r.Some? ==> |r.value| == |before| && forall k :: 0 <= k < |before| ==> r.value[k] == Status(
      MergeCurrent(MergePrevious(before[k].flags, isActivePrevEpoch[k], FlagsAt(prev, k)), before[k].active, FlagsAt(curr, k)),
      before[k].active)
  {
    hide MergePrevious, MergeCurrent;
    forall k | 0 <= k < |before| ensures MergePrevious(before[k].flags, isActivePrevEpoch[k], 0) == before[k].flags {
      NothingToMerge(before[k].flags, isActivePrevEpoch[k]);
    }
    var statuses := before;
    for i := 0 to |prev|
      invariant |statuses| == |before|
      invariant forall k :: 0 <= k < |before| && k < i ==>
        statuses[k] == before[k].(flags := MergePrevious(before[k].flags, isActivePrevEpoch[k], prev[k]))
      invariant forall k :: i <= k < |before| ==> statuses[k] == before[k]
    {
      if i < |isActivePrevEpoch| {
        statuses := statuses[i := statuses[i].(flags := MergePrevious(statuses[i].flags, isActivePrevEpoch[i], prev[i]))];
      }
    }
    ghost var middle := statuses;
    forall k | 0 <= k < |before| ensures MergeCurrent(middle[k].flags, middle[k].active, 0) == middle[k].flags {
      NothingToMerge(middle[k].flags, middle[k].active);
    }
    for i := 0 to |curr|
      invariant |statuses| == |before| && i <= |before|
      invariant forall k :: 0 <= k < i ==>
        statuses[k] == middle[k].(flags := MergeCurrent(middle[k].flags, middle[k].active, curr[k]))
      invariant forall k :: i <= k < |before| ==> statuses[k] == middle[k]
    {
      if i >= |statuses| {
        return None;
      }
      statuses := statuses[i := statuses[i].(flags := MergeCurrent(statuses[i].flags, statuses[i].active, curr[i]))];
    }
    return Some(statuses);
  }

  /** `get_unslashed_participating_indices` of the altair specification, one validator at a time. */
  predicate Participates(v: Validator, epoch: nat, participation: Flags, flag: Flags) {
    !v.slashed && IsActive(v, epoch) && HasFlag(participation, flag)
  }

  /** Increments of the unslashed validators active in `epoch` that have `flag` set. */
  function ParticipatingStake(c: Config, vs: seq<Validator>, parts: seq<Flags>, epoch: nat, flag: Flags): nat
    requires |parts| == |vs|
  {
    if vs == [] then 0
    else
      var n := |vs| - 1;
      ParticipatingStake(c, vs[..n], parts[..n], epoch, flag)
        + if Participates(vs[n], epoch, parts[n], flag) then Increments(c, vs[n]) else 0
  }

  lemma ParticipatingStep(c: Config, vs: seq<Validator>, parts: seq<Flags>, epoch: nat, flag: Flags, i: nat)
    requires |parts| == |vs| && i < |vs|
    ensures ParticipatingStake(c, vs[..i + 1], parts[..i + 1], epoch, flag)
         == ParticipatingStake(c, vs[..i], parts[..i], epoch, flag)
            + if Participates(vs[i], epoch, parts[i], flag) then Increments(c, vs[i]) else 0
  {
    assert vs[..i + 1][..i] == vs[..i] && parts[..i + 1][..i] == parts[..i];
  }

  /** The final flags of validator `k`. */
  function FlagsOf(v: Validator, prevEpoch: nat, currentEpoch: nat, prev: Flags, curr: Flags): Flags {
    FinalFlags(!v.slashed, Eligible(v, prevEpoch), IsActive(v, prevEpoch), IsActive(v, currentEpoch), prev, curr)
  }

  /** The marker tests on the final flags are the specification's filters. */
  lemma MarkersFilter(v: Validator, prevEpoch: nat, currentEpoch: nat, prev: Flags, curr: Flags)
    requires prev < 8 && curr < 8
    ensures var flags := FlagsOf(v, prevEpoch, currentEpoch, prev, curr);
      && HasMarkers(flags, FLAG_PREV_SOURCE_ATTESTER | FLAG_UNSLASHED) == Participates(v, prevEpoch, prev, TIMELY_SOURCE)
      && HasMarkers(flags, FLAG_PREV_TARGET_ATTESTER | FLAG_UNSLASHED) == Participates(v, prevEpoch, prev, TIMELY_TARGET)
      && HasMarkers(flags, FLAG_PREV_HEAD_ATTESTER | FLAG_UNSLASHED) == Participates(v, prevEpoch, prev, TIMELY_HEAD)
      && HasMarkers(flags, FLAG_CURR_TARGET_ATTESTER | FLAG_UNSLASHED) == Participates(v, currentEpoch, curr, TIMELY_TARGET)
  {
    hide FinalFlags, HasMarkers, HasFlag, Eligible;
    SmallFlagsApart(!v.slashed, Eligible(v, prevEpoch), IsActive(v, prevEpoch), IsActive(v, currentEpoch), prev, curr);
  }

  /** Active from the activation epoch up to the exit epoch, that one excluded. */
  predicate ActiveIn(v: Validator, epoch: nat) {
    && v.activationEpoch != Never && v.activationEpoch.epoch <= epoch
    && (v.exitEpoch == Never || epoch < v.exitEpoch.epoch)
  }

  /** What the eight flags of a validator say in the end. */
  lemma FlagsMean(v: Validator, prevEpoch: nat, currentEpoch: nat, prev: Flags, curr: Flags)
    requires prev < 8 && curr < 8
    ensures ParseAttesterFlags(FlagsOf(v, prevEpoch, currentEpoch, prev, curr)) == AttesterFlags(
      ActiveIn(v, prevEpoch) && prev & 1 != 0,
      ActiveIn(v, prevEpoch) && prev & 2 != 0,
      ActiveIn(v, prevEpoch) && prev & 4 != 0,
      ActiveIn(v, currentEpoch) && curr & 1 != 0,
      ActiveIn(v, currentEpoch) && curr & 2 != 0,
      ActiveIn(v, currentEpoch) && curr & 4 != 0,
      !v.slashed,
      ActiveIn(v, prevEpoch)
      || (v.slashed && (v.withdrawableEpoch == Never || prevEpoch + 1 < v.withdrawableEpoch.epoch)))
  {
    hide ParseAttesterFlags, FinalFlags, HasFlag;
    FinalFlagsParse(!v.slashed, Eligible(v, prevEpoch), IsActive(v, prevEpoch), IsActive(v, currentEpoch), prev, curr);
    LowFlags(prev);
    LowFlags(curr);
  }

  lemma LowFlags(participation: Flags)
    ensures HasFlag(participation, TIMELY_SOURCE) <==> participation & 1 != 0
    ensures HasFlag(participation, TIMELY_TARGET) <==> participation & 2 != 0
    ensures HasFlag(participation, TIMELY_HEAD) <==> participation & 4 != 0
  {
  }

  /** And whose increments each of the four totals counts. */
  lemma ParticipatesMeans(v: Validator, epoch: nat, participation: Flags)
    ensures Participates(v, epoch, participation, TIMELY_SOURCE) <==> !v.slashed && ActiveIn(v, epoch) && participation & 1 != 0
    ensures Participates(v, epoch, participation, TIMELY_TARGET) <==> !v.slashed && ActiveIn(v, epoch) && participation & 2 != 0
    ensures Participates(v, epoch, participation, TIMELY_HEAD) <==> !v.slashed && ActiveIn(v, epoch) && participation & 4 != 0
  {
    hide HasFlag;
    LowFlags(participation);
  }

  datatype Stakes = Stakes(prevSource: nat, prevTarget: nat, prevHead: nat, currTarget: nat)

  /** The loop over the statuses. */
  method SumStakes(c: Config, vs: seq<Validator>, prevEpoch: nat, currentEpoch: nat,
                   ghost prev: seq<Flags>, ghost curr: seq<Flags>, statuses: seq<Status>, increments: seq<nat>)
    returns (r: Stakes)
    requires Participation(vs, prev) && Participation(vs, curr)
    requires |statuses| == |increments| == |vs|
    requires forall k :: 0 <= k < |vs| ==> statuses[k].flags == FlagsOf(vs[k], prevEpoch, currentEpoch, prev[k], curr[k])
    requires forall k :: 0 <= k < |vs| ==> increments[k] == Increments(c, vs[k])
    ensures r.prevSource == Max(1, ParticipatingStake(c, vs, prev, prevEpoch, TIMELY_SOURCE))
    ensures r.prevTarget == Max(1, ParticipatingStake(c, vs, prev, prevEpoch, TIMELY_TARGET))
    ensures r.prevHead == Max(1, ParticipatingStake(c, vs, prev, prevEpoch, TIMELY_HEAD))
    ensures r.currTarget == Max(1, ParticipatingStake(c, vs, curr, currentEpoch, TIMELY_TARGET))
  {
    hide HasMarkers, HasFlag, FlagsOf, Participates, Increments;
    var prevSource: nat, prevTarget: nat, prevHead: nat, currTarget: nat := 0, 0, 0, 0;
    var i: nat := 0;
    while i < |statuses|
      invariant i <= |statuses|
      invariant prevSource == ParticipatingStake(c, vs[..i], prev[..i], prevEpoch, TIMELY_SOURCE)
      invariant prevTarget == ParticipatingStake(c, vs[..i], prev[..i], prevEpoch, TIMELY_TARGET)
      invariant prevHead == ParticipatingStake(c, vs[..i], prev[..i], prevEpoch, TIMELY_HEAD)
      invariant currTarget == ParticipatingStake(c, vs[..i], curr[..i], currentEpoch, TIMELY_TARGET)
    {
      MarkersFilter(vs[i], prevEpoch, currentEpoch, prev[i], curr[i]);
      ParticipatingStep(c, vs, prev, prevEpoch, TIMELY_SOURCE, i);
      ParticipatingStep(c, vs, prev, prevEpoch, TIMELY_TARGET, i);
      ParticipatingStep(c, vs, prev, prevEpoch, TIMELY_HEAD, i);
      ParticipatingStep(c, vs, curr, currentEpoch, TIMELY_TARGET, i);
      var flags := statuses[i].flags;
      if HasMarkers(flags, FLAG_PREV_SOURCE_ATTESTER | FLAG_UNSLASHED) {
        prevSource := prevSource + increments[i];
      }
      if HasMarkers(flags, FLAG_PREV_TARGET_ATTESTER | FLAG_UNSLASHED) {
        prevTarget := prevTarget + increments[i];
      }
      if HasMarkers(flags, FLAG_PREV_HEAD_ATTESTER | FLAG_UNSLASHED) {
        prevHead := prevHead + increments[i];
      }
      if HasMarkers(flags, FLAG_CURR_TARGET_ATTESTER | FLAG_UNSLASHED) {
        currTarget := currTarget + increments[i];
      }
      i := i + 1;
    }
    assert vs[..i] == vs && prev[..i] == prev && curr[..i] == curr;
    return Stakes(if prevSource < 1 then 1 else prevSource, if prevTarget < 1 then 1 else prevTarget,
                  if prevHead < 1 then 1 else prevHead, if currTarget < 1 then 1 else currTarget);
  }

  // ----- The whole -----

  /** What `beforeProcessEpoch` must return. */
  ghost predicate Prepares(c: Config, prevEpoch: nat, currentEpoch: nat, vs: seq<Validator>,
                           prev: seq<Flags>, curr: seq<Flags>, p: EpochProcess)
    requires Participation(vs, prev) && Participation(vs, curr)
  {
    && p.prevEpoch == prevEpoch && p.currentEpoch == currentEpoch
    && p.totalActiveStake == Max(1, ActiveStake(c, vs, currentEpoch))
    && p.prevSourceStake == Max(1, ParticipatingStake(c, vs, prev, prevEpoch, TIMELY_SOURCE))
    && p.prevTargetStake == Max(1, ParticipatingStake(c, vs, prev, prevEpoch, TIMELY_TARGET))
    && p.prevHeadStake == Max(1, ParticipatingStake(c, vs, prev, prevEpoch, TIMELY_HEAD))
    && p.currTargetStake == Max(1, ParticipatingStake(c, vs, curr, currentEpoch, TIMELY_TARGET))
    && p.indicesToSlash == Select(vs, ToSlash(c, currentEpoch))
    && p.indicesEligibleForActivationQueue == Select(vs, EligibleForQueue(c))
    && p.indicesEligibleForActivation == SpecQueue(vs, currentEpoch)
    && p.indicesToEject == Select(vs, ReachesEject(c, currentEpoch))
    && p.nextShufflingIndices == ActiveIndices(vs, currentEpoch + 2)
    && |p.isActiveNextEpoch| == |p.statuses| == |vs|
    && (forall k :: 0 <= k < |vs| ==>
          p.isActiveNextEpoch[k] == IsActive(vs[k], currentEpoch + 1) &&
          p.statuses[k] == Status(FlagsOf(vs[k], prevEpoch, currentEpoch, prev[k], curr[k]), IsActive(vs[k], currentEpoch)))
  }

  /** `beforeProcessEpoch`, altair branch; the safe-integer error is unreachable. */
  method BeforeProcessEpoch(c: Config, prevEpoch: nat, currentEpoch: nat, vs: seq<Validator>,
                            prev: seq<Flags>, curr: seq<Flags>) returns (r: Option<EpochProcess>)
    requires |vs| <= MAX_LIST && Bounded(c, vs)
    requires Participation(vs, prev) && Participation(vs, curr)
    ensures r.Some? && Prepares(c, prevEpoch, currentEpoch, vs, prev, curr, r.value)
  {
    hide Select, Stake, FinalFlags, MergeCurrent, MergePrevious, ParticipatingStake, Sort;
    var scan := ClassifyValidators(c, prevEpoch, currentEpoch, vs);
    var total := scan.totalActiveStake;
    StakeBound(c, vs, ActiveAt(currentEpoch));
    if total < 1 {
      total := 1;
    } else if total >= MAX_SAFE_INTEGER {
      return None;
    }
    SelectedQueued(vs, currentEpoch);
    var eligible := Sort(vs, scan.eligibleForActivation);
    var merged := MergeParticipation(scan.statuses, scan.isActivePrevEpoch, prev, curr);
    var statuses := merged.value;
    forall k | 0 <= k < |vs|
      ensures statuses[k].flags == FlagsOf(vs[k], prevEpoch, currentEpoch, prev[k], curr[k])
    {
      FinalFlagsMerge(!vs[k].slashed, Eligible(vs[k], prevEpoch), IsActive(vs[k], prevEpoch),
                      IsActive(vs[k], currentEpoch), prev[k], curr[k]);
    }
    var stakes := SumStakes(c, vs, prevEpoch, currentEpoch, prev, curr, statuses, scan.increments);
    return Some(EpochProcess(
      prevEpoch, currentEpoch, total, stakes.prevSource, stakes.prevTarget, stakes.prevHead, stakes.currTarget,
      scan.toSlash, scan.eligibleForQueue, eligible, scan.toEject, scan.nextShuffling,
      scan.isActiveNextEpoch, statuses));
  }

  lemma FinalFlagsMerge(unslashed: bool, eligible: bool, activePrev: bool, active: bool, prev: Flags, curr: Flags)
    ensures FinalFlags(unslashed, eligible, activePrev, active, prev, curr)
         == MergeCurrent(MergePrevious(BaseFlags(unslashed, eligible), activePrev, prev), active, curr)
  {
  }
}
