/** Attester duties: which committee of an epoch each validator sits in. */
module Duties {
  import opened Bytes
  import opened Params
  import opened Permutations
  import opened Shuffle
  import opened Sampling
  import opened EpochShuffling
  import Arith

  /** `AttesterDuty` */
  datatype Duty = Duty(
    validatorIndex: nat,
    committeeIndex: nat,
    committeeLength: nat,
    committeesAtSlot: nat,
    validatorCommitteeIndex: nat,
    slot: nat)

  /** The committees are the slices of a list without repetitions. */
  ghost predicate WellCut(c: Config, s: EpochShuffling) {
    && s.committeesPerSlot > 0
    && s.committees == CommitteesSpec(s.shuffling, c.slotsPerEpoch, s.committeesPerSlot)
    && Distinct(s.shuffling)
    && forall v :: v in s.shuffling <==> v in s.activeIndices
  }

  lemma WellCutShape(c: Config, s: EpochShuffling)
    requires WellCut(c, s)
    ensures |s.committees| == c.slotsPerEpoch
    ensures forall slot :: 0 <= slot < |s.committees| ==> |s.committees[slot]| == s.committeesPerSlot
  {
  }

  lemma ShufflingWellCut(c: Config, mixes: seq<Digest>, activeIndices: seq<nat>, epoch: nat)
    requires |mixes| == c.epochsPerHistoricalVector
    requires StrictlyIncreasing(activeIndices)
    ensures WellCut(c, ShufflingSpec(c, mixes, activeIndices, epoch))
  {
    hide Seed, CommitteesSpec, CommitteeCount;
    var s := ShufflingSpec(c, mixes, activeIndices, epoch);
    Shuffler(c.hash, Seed(c, mixes, epoch, DOMAIN_BEACON_ATTESTER), c.shuffleRoundCount)
      .ShufflesKeepItems(activeIndices);
    DistinctByMultiset(activeIndices, s.shuffling);
    SameMembers(s.shuffling, activeIndices);
  }

  /** `v` is member `j` of committee `i` of the epoch's slot number `slot`. */
  ghost predicate Sits(s: EpochShuffling, v: nat, slot: nat, i: nat, j: nat) {
    slot < |s.committees| && i < |s.committees[slot]| && j < |s.committees[slot][i]|
    && s.committees[slot][i][j] == v
  }

  /** The position in the shuffled list behind a seat. */
  lemma SeatPosition(c: Config, s: EpochShuffling, v: nat, slot: nat, i: nat, j: nat)
    requires WellCut(c, s)
    ensures Sits(s, v, slot, i, j) ==>
      var count := s.committeesPerSlot * c.slotsPerEpoch;
      var index := slot * s.committeesPerSlot + i;
      && slot < c.slotsPerEpoch && i < s.committeesPerSlot && index < count
      && Offset(|s.shuffling|, index, count) + j < Offset(|s.shuffling|, index + 1, count) <= |s.shuffling|
      && s.shuffling[Offset(|s.shuffling|, index, count) + j] == v
  {
    hide Offset, Distinct;
    if Sits(s, v, slot, i, j) {
      IndexInRange(slot, c.slotsPerEpoch, i, s.committeesPerSlot);
      OffsetOrder(|s.shuffling|, slot * s.committeesPerSlot + i, s.committeesPerSlot * c.slotsPerEpoch);
    }
  }

  lemma IndexSplits(cps: nat, slot: nat, i: nat, slot': nat, i': nat)
    requires i < cps && i' < cps && slot * cps + i == slot' * cps + i'
    ensures slot == slot' && i == i'
  {
    Arith.DivUnique(slot * cps + i, cps, slot);
    Arith.DivUnique(slot' * cps + i', cps, slot');
  }

  /** Seats in different committees are at different positions. */
  lemma SeatsApart(n: nat, count: nat, a: nat, j: nat, b: nat, k: nat)
    requires a < b < count
    requires Offset(n, a, count) + j < Offset(n, a + 1, count)
    ensures Offset(n, a, count) + j != Offset(n, b, count) + k
  {
    hide Offset;
    OffsetMono(n, a + 1, b, count);
  }

  /** No validator has two seats in an epoch. */
  lemma OneSeat(c: Config, s: EpochShuffling, v: nat, slot: nat, i: nat, j: nat, slot': nat, i': nat, j': nat)
    requires WellCut(c, s)
    requires Sits(s, v, slot, i, j) && Sits(s, v, slot', i', j')
    ensures slot == slot' && i == i' && j == j'
  {
    hide Offset, Sits, CommitteesSpec;
    var cps, count, n := s.committeesPerSlot, s.committeesPerSlot * c.slotsPerEpoch, |s.shuffling|;
    SeatPosition(c, s, v, slot, i, j);
    SeatPosition(c, s, v, slot', i', j');
    var a, b := slot * cps + i, slot' * cps + i';
    assert Offset(n, a, count) + j == Offset(n, b, count) + j';
    if a < b {
      SeatsApart(n, count, a, j, b, j');
    } else if b < a {
      SeatsApart(n, count, b, j', a, j);
    }
    IndexSplits(cps, slot, i, slot', i');
  }

  /** Every position of the list lies in one slice. */
  lemma {:induction false} SliceOf(n: nat, count: nat, k: nat, m: nat) returns (index: nat)
    requires m <= count && count > 0 && k < Offset(n, m, count)
    ensures index < m && Offset(n, index, count) <= k < Offset(n, index + 1, count)
  {
    hide Offset;
    OffsetEnds(n, count);
    if Offset(n, m - 1, count) <= k {
      index := m - 1;
    } else {
      index := SliceOf(n, count, k, m - 1);
    }
  }

  /** A validator has a seat exactly when it is active. */
  lemma SomeSeat(c: Config, s: EpochShuffling, v: nat)
    requires WellCut(c, s)
    ensures (exists slot, i, j :: Sits(s, v, slot, i, j)) <==> v in s.activeIndices
  {
    hide Offset, Distinct;
    var cps, count, n := s.committeesPerSlot, s.committeesPerSlot * c.slotsPerEpoch, |s.shuffling|;
    if v in s.shuffling {
      var k :| 0 <= k < n && s.shuffling[k] == v;
      OffsetEnds(n, count);
      var index := SliceOf(n, count, k, count);
      var slot, i := SplitIndex(index, cps, c.slotsPerEpoch);
      assert s.committees[slot][i] == Committee(s.shuffling, index, count);
      assert Sits(s, v, slot, i, k - Offset(n, index, count));
    } else {
      forall slot, i, j ensures !Sits(s, v, slot, i, j) {
        SeatPosition(c, s, v, slot, i, j);
      }
    }
  }

  /** The number of the committee that a place of the shuffled list falls to, counted through the epoch. */
  function CommitteeOf(n: nat, count: nat, place: nat): nat
    requires place < n && count > 0
  {
    ((place + 1) * count - 1) / n
  }

  lemma CommitteeBounds(n: nat, count: nat, place: nat)
    requires place < n && count > 0
    ensures var g := CommitteeOf(n, count, place);
      g < count && Offset(n, g, count) <= place < Offset(n, g + 1, count)
  {
    var a := (place + 1) * count - 1;
    var g := a / n;
    assert a == n * g + a % n;
    assert n * (g + 1) == n * g + n;
    assert place * count + count == (place + 1) * count;
    if Offset(n, g, count) > place {
      Arith.MulMono(place + 1, n * g / count, count);
    }
    Arith.DivAtLeast(n * (g + 1), count, place + 1);
    if g >= count {
      Arith.MulMono(place + 1, n, count);
      Arith.MulMono(count, g, n);
    }
  }

  /** The validator at a place of the shuffled list sits in the committee that the place falls to, as many
      seats in as the place lies behind the first of the committee. */
  lemma SeatOf(c: Config, s: EpochShuffling, place: nat)
    requires WellCut(c, s) && place < |s.shuffling|
    ensures var cps := s.committeesPerSlot;
      var g := CommitteeOf(|s.shuffling|, cps * c.slotsPerEpoch, place);
      && |s.shuffling| * g / (cps * c.slotsPerEpoch) <= place
      && Sits(s, s.shuffling[place], g / cps, g % cps, place - |s.shuffling| * g / (cps * c.slotsPerEpoch))
  {
    hide Distinct, CommitteeOf, CommitteesSpec;
    var cps, count, n := s.committeesPerSlot, s.committeesPerSlot * c.slotsPerEpoch, |s.shuffling|;
    var g := CommitteeOf(n, count, place);
    CommitteeBounds(n, count, place);
    var slot, i := SplitIndex(g, cps, c.slotsPerEpoch);
    Arith.DivUnique(g, cps, slot);
    assert g % cps == i;
    assert s.committees[slot][i] == Committee(s.shuffling, g, count);
  }

  lemma SplitIndex(index: nat, cps: nat, slots: nat) returns (slot: nat, i: nat)
    requires cps > 0 && index < cps * slots
    ensures slot < slots && i < cps && slot * cps + i == index
  {
    slot, i := index / cps, index % cps;
    if slot >= slots {
      Arith.MulMono(slots, slot, cps);
    }
  }

  // ----- The duty map -----

  /** A duty points back at the seat of its validator. */
  ghost predicate PointsBack(c: Config, s: EpochShuffling, v: nat, d: Duty) {
    && d.validatorIndex == v
    && c.StartSlotAtEpoch(s.epoch) <= d.slot
    && Sits(s, v, d.slot - c.StartSlotAtEpoch(s.epoch), d.committeeIndex, d.validatorCommitteeIndex)
    && d.committeesAtSlot == |s.committees[d.slot - c.StartSlotAtEpoch(s.epoch)]|
    && d.committeeLength == |s.committees[d.slot - c.StartSlotAtEpoch(s.epoch)][d.committeeIndex]|
  }

  ghost predicate AllPointBack(c: Config, s: EpochShuffling, duties: map<nat, Duty>) {
    forall v :: v in duties ==> PointsBack(c, s, v, duties[v])
  }

  function Members(committees: seq<seq<nat>>): set<nat> {
    set i, j | 0 <= i < |committees| && 0 <= j < |committees[i]| :: committees[i][j]
  }

  function EpochMembers(committees: seq<seq<seq<nat>>>): set<nat> {
    set slot, i, j | 0 <= slot < |committees| && 0 <= i < |committees[slot]| && 0 <= j < |committees[slot][i]|
      :: committees[slot][i][j]
  }

  /** The loop over the members of one committee. */
  method CommitteeDuties(c: Config, s: EpochShuffling, requested: set<nat>, epochSlot: nat, i: nat,
                         before: map<nat, Duty>) returns (duties: map<nat, Duty>)
    requires epochSlot < |s.committees| && i < |s.committees[epochSlot]|
    requires AllPointBack(c, s, before)
    ensures AllPointBack(c, s, duties)
    ensures duties.Keys == before.Keys + (requested * set v | v in s.committees[epochSlot][i])
  {
    var slotCommittees := s.committees[epochSlot];
    duties := before;
    var j: nat := 0;
    while j < |slotCommittees[i]|
      invariant j <= |slotCommittees[i]|
      invariant AllPointBack(c, s, duties)
      invariant duties.Keys == before.Keys + (requested * set v | v in slotCommittees[i][..j])
    {
      var validatorIndex := slotCommittees[i][j];
      assert slotCommittees[i][..j + 1] == slotCommittees[i][..j] + [validatorIndex];
      if validatorIndex in requested {
        var duty := Duty(validatorIndex, i, |slotCommittees[i]|, |slotCommittees|, j,
                         s.epoch * c.slotsPerEpoch + epochSlot);
        assert PointsBack(c, s, validatorIndex, duty);
        duties := duties[validatorIndex := duty];
      }
      j := j + 1;
    }
    assert slotCommittees[i][..j] == slotCommittees[i];
  }

  /** The loop over the committees of one slot. */
  method SlotDuties(c: Config, s: EpochShuffling, requested: set<nat>, epochSlot: nat, before: map<nat, Duty>)
    returns (duties: map<nat, Duty>)
    requires epochSlot < |s.committees|
    requires AllPointBack(c, s, before)
    ensures AllPointBack(c, s, duties)
    ensures duties.Keys == before.Keys + requested * Members(s.committees[epochSlot])
  {
    hide AllPointBack;
    var slotCommittees := s.committees[epochSlot];
    duties := before;
    var i: nat := 0;
    while i < |slotCommittees|
      invariant i <= |slotCommittees|
      invariant AllPointBack(c, s, duties)
      invariant duties.Keys == before.Keys + requested * Members(slotCommittees[..i])
    {
      duties := CommitteeDuties(c, s, requested, epochSlot, i, duties);
      assert Members(slotCommittees[..i + 1]) == Members(slotCommittees[..i]) + set v | v in slotCommittees[i];
      i := i + 1;
    }
    assert slotCommittees[..i] == slotCommittees;
  }

  /** The loops of `getCommitteeAssignments` over one epoch. */
  method EpochDuties(c: Config, s: EpochShuffling, requested: set<nat>) returns (duties: map<nat, Duty>)
    requires WellCut(c, s)
    ensures AllPointBack(c, s, duties)
    ensures forall v :: v in duties <==> v in requested && v in s.activeIndices
  {
    hide AllPointBack, Distinct;
    duties := map[];
    assert AllPointBack(c, s, duties) by { EmptyPointsBack(c, s); }
    var epochSlot: nat := 0;
    while epochSlot < c.slotsPerEpoch
      invariant epochSlot <= c.slotsPerEpoch == |s.committees|
      invariant AllPointBack(c, s, duties)
      invariant duties.Keys == requested * EpochMembers(s.committees[..epochSlot])
    {
      duties := SlotDuties(c, s, requested, epochSlot, duties);
      EpochMembersStep(s.committees, epochSlot);
      epochSlot := epochSlot + 1;
    }
    assert s.committees[..epochSlot] == s.committees;
    forall v ensures v in duties <==> v in requested && v in s.activeIndices {
      SomeSeat(c, s, v);
      MembersSit(s, v);
    }
  }

  lemma EmptyPointsBack(c: Config, s: EpochShuffling)
    ensures AllPointBack(c, s, map[])
  {
  }

  lemma EpochMembersStep(committees: seq<seq<seq<nat>>>, k: nat)
    requires k < |committees|
    ensures EpochMembers(committees[..k + 1]) == EpochMembers(committees[..k]) + Members(committees[k])
  {
    var a, b := EpochMembers(committees[..k + 1]), EpochMembers(committees[..k]) + Members(committees[k]);
    forall v | v in a ensures v in b {
      var slot, i, j :| 0 <= slot < k + 1 && 0 <= i < |committees[slot]| && 0 <= j < |committees[slot][i]|
        && committees[slot][i][j] == v;
      if slot < k {
        assert committees[..k][slot][i][j] == v;
      }
    }
    forall v | v in b ensures v in a {
      if v in Members(committees[k]) {
        var i, j :| 0 <= i < |committees[k]| && 0 <= j < |committees[k][i]| && committees[k][i][j] == v;
        assert committees[..k + 1][k][i][j] == v;
      } else {
        var slot, i, j :| 0 <= slot < k && 0 <= i < |committees[slot]| && 0 <= j < |committees[slot][i]|
          && committees[slot][i][j] == v;
        assert committees[..k + 1][slot][i][j] == v;
      }
    }
  }

  lemma MembersSit(s: EpochShuffling, v: nat)
    ensures v in EpochMembers(s.committees) <==> exists slot, i, j :: Sits(s, v, slot, i, j)
  {
    if v in EpochMembers(s.committees) {
      var slot: nat, i: nat, j: nat :| slot < |s.committees| && i < |s.committees[slot]|
        && j < |s.committees[slot][i]| && s.committees[slot][i][j] == v;
      assert Sits(s, v, slot, i, j);
    }
  }

  /** Two duties of one validator in one epoch are the same duty. */
  lemma DutyUnique(c: Config, s: EpochShuffling, v: nat, d: Duty, d': Duty)
    requires WellCut(c, s)
    requires PointsBack(c, s, v, d) && PointsBack(c, s, v, d')
    ensures d == d'
  {
    hide WellCut, Sits;
    var start := c.StartSlotAtEpoch(s.epoch);
    OneSeat(c, s, v, d.slot - start, d.committeeIndex, d.validatorCommitteeIndex,
            d'.slot - start, d'.committeeIndex, d'.validatorCommitteeIndex);
  }
}
