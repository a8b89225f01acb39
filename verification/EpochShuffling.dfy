/** Committees of an epoch: the unshuffled active set cut into slices. */
module EpochShuffling {
  import opened Bytes
  import opened JsInt
  import opened Shuffle
  import opened ShuffleList
  import opened Wrappers
  import opened Params
  import opened Sampling
  import Arith

  /** `IEpochShuffling` */
  datatype EpochShuffling = EpochShuffling(
    epoch: nat,
    activeIndices: seq<nat>,
    shuffling: seq<nat>,
    committees: seq<seq<seq<nat>>>,
    committeesPerSlot: nat)

  /** `computeCommitteeCount` */
  function CommitteeCount(c: Config, activeValidatorCount: nat): (r: nat)
    ensures r > 0
  {
    var validatorsPerSlot := activeValidatorCount / c.slotsPerEpoch;
    var committeesPerSlot := validatorsPerSlot / c.targetCommitteeSize;
    Max(1, if c.maxCommitteesPerSlot < committeesPerSlot then c.maxCommitteesPerSlot else committeesPerSlot)
  }

  // ----- Slices -----

  /** Where committee `index` of `count` starts in a list of `n`. */
  function Offset(n: nat, index: nat, count: nat): nat
    requires count > 0
  {
    n * index / count
  }

  lemma OffsetOrder(n: nat, index: nat, count: nat)
    requires index < count
    ensures Offset(n, index, count) <= Offset(n, index + 1, count) <= n
  {
    Arith.MulMono(index, index + 1, n);
    Arith.DivMono(n * index, n * (index + 1), count);
    Arith.MulMono(index + 1, count, n);
    Arith.DivMono(n * (index + 1), n * count, count);
    OffsetEnds(n, count);
  }

  lemma OffsetEnds(n: nat, count: nat)
    requires count > 0
    ensures Offset(n, 0, count) == 0 && Offset(n, count, count) == n
  {
    assert n * 0 == 0;
    Arith.DivUnique(n * count, count, n);
  }

  lemma {:induction false} OffsetMono(n: nat, i: nat, j: nat, count: nat)
    requires i <= j <= count && count > 0
    ensures Offset(n, i, count) <= Offset(n, j, count) <= n
  {
    hide Offset;
    if i < j {
      OffsetMono(n, i, j - 1, count);
      OffsetOrder(n, j - 1, count);
    } else if j < count {
      OffsetOrder(n, j, count);
    } else {
      OffsetEnds(n, count);
    }
  }

  /** Sizes of committees differ by at most one. */
  lemma SliceSize(n: nat, index: nat, count: nat)
    requires index < count
    ensures n / count <= Offset(n, index + 1, count) - Offset(n, index, count) <= n / count + 1
  {
    assert n * (index + 1) == n * index + n;
    Arith.DivSum(n * index, n, count);
  }

  /** Once every slot can fill a committee of the target size, every committee reaches it. */
  lemma TargetSizeReached(c: Config, n: nat)
    requires n >= c.slotsPerEpoch * c.targetCommitteeSize
    ensures n / (CommitteeCount(c, n) * c.slotsPerEpoch) >= c.targetCommitteeSize
  {
    hide RawConfig.Valid;
    ConfigPositive(c);
    Arith.DivAtLeast(n, c.slotsPerEpoch, c.targetCommitteeSize);
    Arith.DivAtLeast(n / c.slotsPerEpoch, c.targetCommitteeSize, 1);
    SizeReached(n, c.slotsPerEpoch, c.targetCommitteeSize, CommitteeCount(c, n));
  }

  lemma SizeReached(n: nat, slots: nat, target: nat, cps: nat)
    requires slots > 0 && target > 0 && 0 < cps <= n / slots / target
    ensures cps * slots > 0 && n / (cps * slots) >= target
  {
    var perSlot := n / slots;
    Arith.MulMono(cps, perSlot / target, target);
    assert cps * target <= perSlot;
    Arith.MulMono(cps * target, perSlot, slots);
    Arith.MulMono(1, cps, slots);
    assert target * (cps * slots) == cps * target * slots;
    Arith.DivAtLeast(n, cps * slots, target);
  }

  /** The number of committees per slot is the largest one allowed whose committees all reach the
      target size, and at least one. */
  lemma CommitteeCountIsLargest(c: Config, n: nat, k: nat)
    requires 0 < k
    ensures k <= CommitteeCount(c, n) <==>
      k == 1 || (k <= c.maxCommitteesPerSlot && k * (c.slotsPerEpoch * c.targetCommitteeSize) <= n)
  {
    hide RawConfig.Valid;
    ConfigPositive(c);
    QuotientAtLeast(n, c.slotsPerEpoch, c.targetCommitteeSize, k);
  }

  lemma QuotientAtLeast(n: nat, a: nat, b: nat, k: nat)
    requires a > 0 && b > 0
    ensures k <= n / a / b <==> k * (a * b) <= n
  {
    assert k * (a * b) == k * b * a;
    if k <= n / a / b {
      Arith.MulMono(k, n / a / b, b);
      Arith.MulMono(k * b, n / a, a);
    }
    if k * b * a <= n {
      Arith.DivAtLeast(n, a, k * b);
      Arith.DivAtLeast(n / a, b, k);
    }
  }

  function Committee(shuffling: seq<nat>, index: nat, count: nat): (r: seq<nat>)
    requires index < count
    ensures Offset(|shuffling|, index, count) <= Offset(|shuffling|, index + 1, count) <= |shuffling|
    ensures |r| == Offset(|shuffling|, index + 1, count) - Offset(|shuffling|, index, count)
    ensures forall j :: 0 <= j < |r| ==> r[j] == shuffling[Offset(|shuffling|, index, count) + j]
  {
    OffsetOrder(|shuffling|, index, count);
    shuffling[Offset(|shuffling|, index, count)..Offset(|shuffling|, index + 1, count)]
  }

  /** The number of the committee of a slot, counted through the epoch. */
  lemma IndexInRange(slot: nat, slots: nat, i: nat, cps: nat)
    requires slot < slots && i < cps
    ensures slot * cps + i < slots * cps && slot * cps + i < cps * slots
  {
    Arith.MulMono(slot + 1, slots, cps);
  }

  /** Committee `i` of a slot. */
  function SlotCommittee(shuffling: seq<nat>, slot: nat, slots: nat, cps: nat, i: nat): (r: seq<nat>)
    requires slot < slots && i < cps
    ensures slot * cps + i < cps * slots
    ensures r == Committee(shuffling, slot * cps + i, cps * slots)
  {
    IndexInRange(slot, slots, i, cps);
    Committee(shuffling, slot * cps + i, cps * slots)
  }

  function SlotCommittees(shuffling: seq<nat>, slot: nat, slots: nat, cps: nat): (r: seq<seq<nat>>)
    requires slot < slots && cps > 0
    ensures |r| == cps
    ensures forall i :: 0 <= i < cps ==> r[i] == SlotCommittee(shuffling, slot, slots, cps, i)
  {
    seq(cps, i requires 0 <= i < cps => SlotCommittee(shuffling, slot, slots, cps, i))
  }

  function CommitteesSpec(shuffling: seq<nat>, slots: nat, cps: nat): (r: seq<seq<seq<nat>>>)
    requires cps > 0
    ensures |r| == slots
    ensures forall slot :: 0 <= slot < slots ==> r[slot] == SlotCommittees(shuffling, slot, slots, cps)
  {
    seq(slots, slot requires 0 <= slot < slots => SlotCommittees(shuffling, slot, slots, cps))
  }

  /** What `computeEpochShuffling` computes. */
  function ShufflingSpec(c: Config, mixes: seq<Digest>, activeIndices: seq<nat>, epoch: nat): (r: EpochShuffling)
    requires |mixes| == c.epochsPerHistoricalVector
    ensures r.epoch == epoch && r.activeIndices == activeIndices
  {
    var seed := Seed(c, mixes, epoch, DOMAIN_BEACON_ATTESTER);
    var shuffling := Shuffler(c.hash, seed, c.shuffleRoundCount).UnshuffleSpec(activeIndices);
    var cps := CommitteeCount(c, |activeIndices|);
    EpochShuffling(epoch, activeIndices, shuffling, CommitteesSpec(shuffling, c.slotsPerEpoch, cps), cps)
  }

  // ----- The committees partition the shuffled list -----

  function Flatten<T>(xss: seq<seq<T>>): seq<T> {
    if xss == [] then [] else Flatten(xss[..|xss| - 1]) + xss[|xss| - 1]
  }

  function FlattenSlots<T>(xsss: seq<seq<seq<T>>>): seq<T> {
    if xsss == [] then [] else FlattenSlots(xsss[..|xsss| - 1]) + Flatten(xsss[|xsss| - 1])
  }

  lemma {:induction false} SlotConcatenation(shuffling: seq<nat>, slot: nat, slots: nat, cps: nat, i: nat)
    requires slot < slots && 0 < cps && i <= cps
    ensures slot * cps + i <= cps * slots
    ensures Offset(|shuffling|, slot * cps, cps * slots) <= Offset(|shuffling|, slot * cps + i, cps * slots) <= |shuffling|
    ensures Flatten(SlotCommittees(shuffling, slot, slots, cps)[..i])
         == shuffling[Offset(|shuffling|, slot * cps, cps * slots)..Offset(|shuffling|, slot * cps + i, cps * slots)]
  {
    hide Offset, SlotCommittees;
    var n, count := |shuffling|, cps * slots;
    Arith.MulMono(slot + 1, slots, cps);
    OffsetMono(n, slot * cps, slot * cps + i, count);
    var here := SlotCommittees(shuffling, slot, slots, cps);
    if i > 0 {
      SlotConcatenation(shuffling, slot, slots, cps, i - 1);
      assert here[..i][..i - 1] == here[..i - 1];
      OffsetOrder(n, slot * cps + i - 1, count);
    }
  }

  lemma WholeSlot(shuffling: seq<nat>, slot: nat, slots: nat, cps: nat)
    requires slot < slots && 0 < cps
    ensures (slot + 1) * cps <= cps * slots && slot * cps <= (slot + 1) * cps
    ensures Offset(|shuffling|, slot * cps, cps * slots) <= Offset(|shuffling|, (slot + 1) * cps, cps * slots) <= |shuffling|
    ensures Flatten(SlotCommittees(shuffling, slot, slots, cps))
         == shuffling[Offset(|shuffling|, slot * cps, cps * slots)..Offset(|shuffling|, (slot + 1) * cps, cps * slots)]
  {
    hide Offset, SlotCommittees, Flatten;
    assert slot * cps + cps == (slot + 1) * cps;
    SlotConcatenation(shuffling, slot, slots, cps, cps);
    var here := SlotCommittees(shuffling, slot, slots, cps);
    assert here[..cps] == here;
  }

  lemma {:induction false} SlotsConcatenation(shuffling: seq<nat>, slots: nat, cps: nat, k: nat)
    requires 0 < cps && 0 < slots && k <= slots
    ensures k * cps <= cps * slots
    ensures Offset(|shuffling|, k * cps, cps * slots) <= |shuffling|
    ensures FlattenSlots(CommitteesSpec(shuffling, slots, cps)[..k])
         == shuffling[..Offset(|shuffling|, k * cps, cps * slots)]
  {
    hide Offset, CommitteesSpec, SlotCommittees, Flatten;
    var n, count := |shuffling|, cps * slots;
    Arith.MulMono(k, slots, cps);
    OffsetMono(n, k * cps, k * cps, count);
    var all := CommitteesSpec(shuffling, slots, cps);
    if k > 0 {
      SlotsConcatenation(shuffling, slots, cps, k - 1);
      assert all[..k][..k - 1] == all[..k - 1];
      WholeSlot(shuffling, k - 1, slots, cps);
      assert all[..k][k - 1] == SlotCommittees(shuffling, k - 1, slots, cps);
    } else {
      OffsetEnds(n, count);
    }
  }

  /** Concatenated in slot and index order, the committees give back the shuffled active set. */
  lemma CommitteesPartition(c: Config, mixes: seq<Digest>, activeIndices: seq<nat>, epoch: nat)
    requires |mixes| == c.epochsPerHistoricalVector
    ensures var s := ShufflingSpec(c, mixes, activeIndices, epoch);
      && FlattenSlots(s.committees) == s.shuffling
      && multiset(s.shuffling) == multiset(activeIndices)
  {
    hide CommitteesSpec, Offset, CommitteeCount, Seed;
    var s := ShufflingSpec(c, mixes, activeIndices, epoch);
    var slots, cps := c.slotsPerEpoch, s.committeesPerSlot;
    SlotsConcatenation(s.shuffling, slots, cps, slots);
    assert s.committees[..slots] == s.committees;
    assert slots * cps == cps * slots;
    OffsetEnds(|s.shuffling|, cps * slots);
    Shuffler(c.hash, Seed(c, mixes, epoch, DOMAIN_BEACON_ATTESTER), c.shuffleRoundCount)
      .ShufflesKeepItems(activeIndices);
  }

  /** Committee sizes differ by at most one, and reach the target on a large active set. */
  lemma CommitteeSizes(c: Config, mixes: seq<Digest>, activeIndices: seq<nat>, epoch: nat, slot: nat, i: nat)
    requires |mixes| == c.epochsPerHistoricalVector
    requires slot < c.slotsPerEpoch && i < CommitteeCount(c, |activeIndices|)
    ensures var s := ShufflingSpec(c, mixes, activeIndices, epoch);
      var floor := |activeIndices| / (s.committeesPerSlot * c.slotsPerEpoch);
      && |s.committees| == c.slotsPerEpoch && |s.committees[slot]| == s.committeesPerSlot
      && floor <= |s.committees[slot][i]| <= floor + 1
      && (|activeIndices| >= c.slotsPerEpoch * c.targetCommitteeSize ==>
            |s.committees[slot][i]| >= c.targetCommitteeSize)
  {
    hide Offset, CommitteesSpec, SlotCommittees;
    var s := ShufflingSpec(c, mixes, activeIndices, epoch);
    var count := s.committeesPerSlot * c.slotsPerEpoch;
    IndexInRange(slot, c.slotsPerEpoch, i, s.committeesPerSlot);
    SliceSize(|activeIndices|, slot * s.committeesPerSlot + i, count);
    if |activeIndices| >= c.slotsPerEpoch * c.targetCommitteeSize {
      TargetSizeReached(c, |activeIndices|);
    }
  }

  // ----- The loops -----

  /** The committees of one slot; `None` if an "Invalid offsets" error were thrown. */
  method CutSlot(shuffling: seq<nat>, slot: nat, slots: nat, committeesPerSlot: nat) returns (r: Option<seq<seq<nat>>>)
    requires slot < slots && committeesPerSlot > 0
    ensures r == Some(SlotCommittees(shuffling, slot, slots, committeesPerSlot))
  {
    hide Offset, SlotCommittees;
    var activeValidatorCount := |shuffling|;
    var committeeCount := committeesPerSlot * slots;
    var slotCommittees: seq<seq<nat>> := [];
    var committeeIndex: nat := 0;
    while committeeIndex < committeesPerSlot
      invariant committeeIndex <= committeesPerSlot
      invariant slotCommittees == SlotCommittees(shuffling, slot, slots, committeesPerSlot)[..committeeIndex]
    {
      IndexInRange(slot, slots, committeeIndex, committeesPerSlot);
      var index := slot * committeesPerSlot + committeeIndex;
      var startOffset := Offset(activeValidatorCount, index, committeeCount);
      var endOffset := Offset(activeValidatorCount, index + 1, committeeCount);
      OffsetOrder(activeValidatorCount, index, committeeCount);
      if !(startOffset <= endOffset) {
        return None;
      }
      slotCommittees := slotCommittees + [shuffling[startOffset..endOffset]];
      committeeIndex := committeeIndex + 1;
    }
    assert slotCommittees == SlotCommittees(shuffling, slot, slots, committeesPerSlot);
    return Some(slotCommittees);
  }

  /** `computeEpochShuffling`; the offsets error is unreachable. */
  method ComputeEpochShuffling(c: Config, mixes: seq<Digest>, activeIndices: seq<nat>, epoch: nat)
    returns (r: Option<EpochShuffling>)
    requires |mixes| == c.epochsPerHistoricalVector
    requires |activeIndices| < TWO_32
    ensures r.Some?
    ensures |activeIndices| <= MAX_LIST ==> r == Some(ShufflingSpec(c, mixes, activeIndices, epoch))
  {
    hide Seed, CommitteesSpec, SlotCommittees, CommitteeCount;
    var seed := Seed(c, mixes, epoch, DOMAIN_BEACON_ATTESTER);
    var copy := new nat[|activeIndices|](i requires 0 <= i < |activeIndices| => activeIndices[i]);
    assert copy[..] == activeIndices;
    UnshuffleList(Shuffler(c.hash, seed, c.shuffleRoundCount), copy);
    var shuffling := copy[..];
    var committeesPerSlot := CommitteeCount(c, |activeIndices|);
    var committees: seq<seq<seq<nat>>> := [];
    var slot: nat := 0;
    while slot < c.slotsPerEpoch
      invariant slot <= c.slotsPerEpoch
      invariant committees == CommitteesSpec(shuffling, c.slotsPerEpoch, committeesPerSlot)[..slot]
    {
      var slotCommittees := CutSlot(shuffling, slot, c.slotsPerEpoch, committeesPerSlot);
      if slotCommittees.None? {
        return None;
      }
      committees := committees + [slotCommittees.value];
      slot := slot + 1;
    }
    assert committees == CommitteesSpec(shuffling, c.slotsPerEpoch, committeesPerSlot);
    return Some(EpochShuffling(epoch, activeIndices, shuffling, committees, committeesPerSlot));
  }
}
