/** Participation flags packed in one number, as 32-bit bit operations see it. */
module AttesterStatus {

  type Flags = bv32

  const FLAG_PREV_SOURCE_ATTESTER: Flags := 0x01
  const FLAG_PREV_TARGET_ATTESTER: Flags := 0x02
  const FLAG_PREV_HEAD_ATTESTER: Flags := 0x04
  const FLAG_CURR_SOURCE_ATTESTER: Flags := 0x08
  const FLAG_CURR_TARGET_ATTESTER: Flags := 0x10
  const FLAG_CURR_HEAD_ATTESTER: Flags := 0x20
  const FLAG_UNSLASHED: Flags := 0x40
  const FLAG_ELIGIBLE_ATTESTER: Flags := 0x80

  /** Flags of the stored participation of one epoch (altair). */
  const TIMELY_SOURCE: Flags := 0x01
  const TIMELY_TARGET: Flags := 0x02
  const TIMELY_HEAD: Flags := 0x04

  /** `hasMarkers` */
  predicate HasMarkers(flags: Flags, markers: Flags) {
    flags & markers == markers
  }

  /** `has_flag` of the altair specification. */
  predicate HasFlag(participation: Flags, flag: Flags) {
    participation & flag == flag
  }

  /** The flags set by the loop over the validators. */
  function BaseFlags(unslashed: bool, eligible: bool): Flags {
    (if unslashed then FLAG_UNSLASHED else 0) | (if eligible then FLAG_ELIGIBLE_ATTESTER else 0)
  }

  /** `flags |= flags |= previous` */
  function MergePrevious(flags: Flags, active: bool, participation: Flags): Flags {
    if active then flags | (flags | participation) else flags
  }

  /** `flags |= flags |= current << 3` */
  function MergeCurrent(flags: Flags, active: bool, participation: Flags): Flags {
    if active then flags | (flags | (participation << 3)) else flags
  }

  /** The flags of a validator at the end of the scan. */
  function FinalFlags(unslashed: bool, eligible: bool, activePrev: bool, active: bool, prev: Flags, curr: Flags): Flags {
    MergeCurrent(MergePrevious(BaseFlags(unslashed, eligible), activePrev, prev), active, curr)
  }

  /** One of the eight flags. */
  predicate Single(flag: Flags) {
    || flag == FLAG_PREV_SOURCE_ATTESTER || flag == FLAG_PREV_TARGET_ATTESTER || flag == FLAG_PREV_HEAD_ATTESTER
    || flag == FLAG_CURR_SOURCE_ATTESTER || flag == FLAG_CURR_TARGET_ATTESTER || flag == FLAG_CURR_HEAD_ATTESTER
    || flag == FLAG_UNSLASHED || flag == FLAG_ELIGIBLE_ATTESTER
  }

  lemma MarkersSplit(flags: Flags, a: Flags, b: Flags)
    requires HasMarkers(flags, a | b)
    ensures HasMarkers(flags, a)
  {
  }

  lemma MarkersUnite(flags: Flags, a: Flags, b: Flags)
    requires HasMarkers(flags, a) && HasMarkers(flags, b)
    ensures HasMarkers(flags, a | b)
  {
  }

  lemma Commutes(a: Flags, b: Flags)
    ensures a | b == b | a
  {
  }

  /** Testing two markers together is testing each. */
  lemma MarkersJoin(flags: Flags, a: Flags, b: Flags)
    ensures HasMarkers(flags, a | b) <==> HasMarkers(flags, a) && HasMarkers(flags, b)
  {
    hide HasMarkers;
    Commutes(a, b);
    if HasMarkers(flags, a | b) {
      MarkersSplit(flags, a, b);
      MarkersSplit(flags, b, a);
    }
    if HasMarkers(flags, a) && HasMarkers(flags, b) {
      MarkersUnite(flags, a, b);
    }
  }

  lemma UnionHas(a: Flags, b: Flags, flag: Flags)
    requires Single(flag)
    ensures HasMarkers(a | b, flag) <==> HasMarkers(a, flag) || HasMarkers(b, flag)
  {
  }

  lemma NoneHas(flag: Flags)
    requires Single(flag)
    ensures !HasMarkers(0, flag)
  {
  }

  lemma SingleHas(one: Flags, flag: Flags)
    requires Single(one) && Single(flag)
    ensures HasMarkers(one, flag) <==> one == flag
  {
  }

  lemma BaseHas(flag: Flags, unslashed: bool, eligible: bool)
    requires Single(flag)
    ensures HasMarkers(BaseFlags(unslashed, eligible), flag)
            <==> (unslashed && flag == FLAG_UNSLASHED) || (eligible && flag == FLAG_ELIGIBLE_ATTESTER)
  {
    hide HasMarkers;
    UnionHas(if unslashed then FLAG_UNSLASHED else 0, if eligible then FLAG_ELIGIBLE_ATTESTER else 0, flag);
    NoneHas(flag);
    SingleHas(FLAG_UNSLASHED, flag);
    SingleHas(FLAG_ELIGIBLE_ATTESTER, flag);
  }

  lemma MergedHas(flag: Flags, flags: Flags, active: bool, participation: Flags)
    requires Single(flag)
    ensures HasMarkers(MergePrevious(flags, active, participation), flag)
            <==> HasMarkers(flags, flag) || (active && HasMarkers(participation, flag))
  {
    hide HasMarkers, Single;
    UnionHas(flags, participation, flag);
    UnionHas(flags, flags | participation, flag);
  }

  /** Where each of the eight flags comes from, for all participation values. */
  lemma FlagComesFrom(flag: Flags, unslashed: bool, eligible: bool, activePrev: bool, active: bool, prev: Flags, curr: Flags)
    requires Single(flag)
    ensures HasMarkers(FinalFlags(unslashed, eligible, activePrev, active, prev, curr), flag)
            <==> (unslashed && flag == FLAG_UNSLASHED) || (eligible && flag == FLAG_ELIGIBLE_ATTESTER)
                 || (activePrev && HasMarkers(prev, flag)) || (active && HasMarkers(curr << 3, flag))
  {
    hide HasMarkers, BaseFlags, Single, MergePrevious, MergeCurrent;
    var base := BaseFlags(unslashed, eligible);
    var merged := MergePrevious(base, activePrev, prev);
    BaseHas(flag, unslashed, eligible);
    MergedHas(flag, base, activePrev, prev);
    MergedHas(flag, merged, active, curr << 3);
    CurrentIsShifted(merged, active, curr);
  }

  lemma CurrentIsShifted(flags: Flags, active: bool, curr: Flags)
    ensures MergeCurrent(flags, active, curr) == MergePrevious(flags, active, curr << 3)
  {
  }

  lemma ShiftedFlag(curr: Flags, flag: Flags)
    requires Single(flag)
    ensures HasMarkers(curr << 3, flag) <==> flag >= 8 && HasFlag(curr, flag >> 3)
  {
  }

  lemma MarkersAreFlags(p: Flags, flag: Flags)
    ensures HasMarkers(p, flag) == HasFlag(p, flag)
  {
  }

  lemma FinalFlag(flag: Flags, unslashed: bool, eligible: bool, activePrev: bool, active: bool, prev: Flags, curr: Flags)
    requires Single(flag)
    ensures HasMarkers(FinalFlags(unslashed, eligible, activePrev, active, prev, curr), flag)
            <==> (unslashed && flag == FLAG_UNSLASHED) || (eligible && flag == FLAG_ELIGIBLE_ATTESTER)
                 || (activePrev && HasFlag(prev, flag)) || (active && flag >= 8 && HasFlag(curr, flag >> 3))
  {
    hide HasMarkers, HasFlag, FinalFlags;
    FlagComesFrom(flag, unslashed, eligible, activePrev, active, prev, curr);
    MarkersAreFlags(prev, flag);
    ShiftedFlag(curr, flag);
  }

  /** What the four marker tests of the stake sums see. */
  lemma TestsSee(unslashed: bool, eligible: bool, activePrev: bool, active: bool, prev: Flags, curr: Flags)
    ensures var flags := FinalFlags(unslashed, eligible, activePrev, active, prev, curr);
      var marked := unslashed || (activePrev && HasFlag(prev, FLAG_UNSLASHED))
                    || (active && HasFlag(curr, FLAG_CURR_SOURCE_ATTESTER));
      && (HasMarkers(flags, FLAG_PREV_SOURCE_ATTESTER | FLAG_UNSLASHED)
          <==> marked && activePrev && HasFlag(prev, TIMELY_SOURCE))
      && (HasMarkers(flags, FLAG_PREV_TARGET_ATTESTER | FLAG_UNSLASHED)
          <==> marked && activePrev && HasFlag(prev, TIMELY_TARGET))
      && (HasMarkers(flags, FLAG_PREV_HEAD_ATTESTER | FLAG_UNSLASHED)
          <==> marked && activePrev && HasFlag(prev, TIMELY_HEAD))
      && (HasMarkers(flags, FLAG_CURR_TARGET_ATTESTER | FLAG_UNSLASHED)
          <==> marked && ((active && HasFlag(curr, TIMELY_TARGET))
                          || (activePrev && HasFlag(prev, FLAG_CURR_TARGET_ATTESTER))))
  {
    hide FinalFlags, HasMarkers, HasFlag;
    var flags := FinalFlags(unslashed, eligible, activePrev, active, prev, curr);
    MarkersJoin(flags, FLAG_PREV_SOURCE_ATTESTER, FLAG_UNSLASHED);
    MarkersJoin(flags, FLAG_PREV_TARGET_ATTESTER, FLAG_UNSLASHED);
    MarkersJoin(flags, FLAG_PREV_HEAD_ATTESTER, FLAG_UNSLASHED);
    MarkersJoin(flags, FLAG_CURR_TARGET_ATTESTER, FLAG_UNSLASHED);
    FinalFlag(FLAG_PREV_SOURCE_ATTESTER, unslashed, eligible, activePrev, active, prev, curr);
    FinalFlag(FLAG_PREV_TARGET_ATTESTER, unslashed, eligible, activePrev, active, prev, curr);
    FinalFlag(FLAG_PREV_HEAD_ATTESTER, unslashed, eligible, activePrev, active, prev, curr);
    FinalFlag(FLAG_CURR_TARGET_ATTESTER, unslashed, eligible, activePrev, active, prev, curr);
    FinalFlag(FLAG_UNSLASHED, unslashed, eligible, activePrev, active, prev, curr);
  }

  /** The four tests mean what the specification's filters say. */
  ghost predicate TestsRight(unslashed: bool, eligible: bool, activePrev: bool, active: bool, prev: Flags, curr: Flags) {
    var flags := FinalFlags(unslashed, eligible, activePrev, active, prev, curr);
    && (HasMarkers(flags, FLAG_PREV_SOURCE_ATTESTER | FLAG_UNSLASHED)
        <==> unslashed && activePrev && HasFlag(prev, TIMELY_SOURCE))
    && (HasMarkers(flags, FLAG_PREV_TARGET_ATTESTER | FLAG_UNSLASHED)
        <==> unslashed && activePrev && HasFlag(prev, TIMELY_TARGET))
    && (HasMarkers(flags, FLAG_PREV_HEAD_ATTESTER | FLAG_UNSLASHED)
        <==> unslashed && activePrev && HasFlag(prev, TIMELY_HEAD))
    && (HasMarkers(flags, FLAG_CURR_TARGET_ATTESTER | FLAG_UNSLASHED)
        <==> unslashed && active && HasFlag(curr, TIMELY_TARGET))
  }

  lemma SmallFlags(p: Flags, flag: Flags)
    requires p < 8 && Single(flag) && flag >= 8
    ensures !HasFlag(p, flag)
  {
  }

  /** Participation below 8 never reaches another group of bits. */
  lemma SmallFlagsApart(unslashed: bool, eligible: bool, activePrev: bool, active: bool, prev: Flags, curr: Flags)
    requires prev < 8 && curr < 8
    ensures TestsRight(unslashed, eligible, activePrev, active, prev, curr)
  {
    hide FinalFlags, HasMarkers, HasFlag;
    TestsSee(unslashed, eligible, activePrev, active, prev, curr);
    SmallFlags(prev, FLAG_UNSLASHED);
    SmallFlags(prev, FLAG_CURR_TARGET_ATTESTER);
    SmallFlags(curr, FLAG_CURR_SOURCE_ATTESTER);
  }

  lemma TargetOnly()
    ensures HasFlag(TIMELY_TARGET, TIMELY_TARGET) && HasFlag(TIMELY_SOURCE, TIMELY_SOURCE)
    ensures !HasFlag(0, TIMELY_TARGET)
  {
  }

  /** The exact previous-epoch values that keep every test right: bits 4 and 6 unset. */
  lemma PreviousDomain(prev: Flags)
    ensures (forall unslashed, eligible, activePrev, active, curr ::
               curr < 8 ==> TestsRight(unslashed, eligible, activePrev, active, prev, curr))
            <==> !HasFlag(prev, FLAG_CURR_TARGET_ATTESTER) && !HasFlag(prev, FLAG_UNSLASHED)
  {
    hide FinalFlags, HasMarkers, HasFlag;
    TargetOnly();
    if HasFlag(prev, FLAG_UNSLASHED) {
      TestsSee(false, false, true, true, prev, TIMELY_TARGET);
      assert !TestsRight(false, false, true, true, prev, TIMELY_TARGET);
    } else if HasFlag(prev, FLAG_CURR_TARGET_ATTESTER) {
      TestsSee(true, false, true, false, prev, 0);
      assert !TestsRight(true, false, true, false, prev, 0);
    } else {
      forall unslashed, eligible, activePrev, active, curr: Flags | curr < 8
        ensures TestsRight(unslashed, eligible, activePrev, active, prev, curr)
      {
        SmallFlags(curr, FLAG_CURR_SOURCE_ATTESTER);
        TestsSee(unslashed, eligible, activePrev, active, prev, curr);
      }
    }
  }

  /** The exact current-epoch values that keep every test right: bit 3 unset. */
  lemma CurrentDomain(curr: Flags)
    ensures (forall unslashed, eligible, activePrev, active, prev ::
               prev < 8 ==> TestsRight(unslashed, eligible, activePrev, active, prev, curr))
            <==> !HasFlag(curr, FLAG_CURR_SOURCE_ATTESTER)
  {
    hide FinalFlags, HasMarkers, HasFlag;
    TargetOnly();
    if HasFlag(curr, FLAG_CURR_SOURCE_ATTESTER) {
      TestsSee(false, false, true, true, TIMELY_SOURCE, curr);
      assert !TestsRight(false, false, true, true, TIMELY_SOURCE, curr);
    } else {
      forall unslashed, eligible, activePrev, active, prev: Flags | prev < 8
        ensures TestsRight(unslashed, eligible, activePrev, active, prev, curr)
      {
        SmallFlags(prev, FLAG_UNSLASHED);
        SmallFlags(prev, FLAG_CURR_TARGET_ATTESTER);
        TestsSee(unslashed, eligible, activePrev, active, prev, curr);
      }
    }
  }

  // ----- All eight flags -----

  datatype AttesterFlags = AttesterFlags(
    prevSourceAttester: bool,
    prevTargetAttester: bool,
    prevHeadAttester: bool,
    currSourceAttester: bool,
    currTargetAttester: bool,
    currHeadAttester: bool,
    unslashed: bool,
    eligibleAttester: bool)

  /** `parseAttesterFlags` */
  function ParseAttesterFlags(flags: Flags): AttesterFlags {
    AttesterFlags(
      HasMarkers(flags, FLAG_PREV_SOURCE_ATTESTER),
      HasMarkers(flags, FLAG_PREV_TARGET_ATTESTER),
      HasMarkers(flags, FLAG_PREV_HEAD_ATTESTER),
      HasMarkers(flags, FLAG_CURR_SOURCE_ATTESTER),
      HasMarkers(flags, FLAG_CURR_TARGET_ATTESTER),
      HasMarkers(flags, FLAG_CURR_HEAD_ATTESTER),
      HasMarkers(flags, FLAG_UNSLASHED),
      HasMarkers(flags, FLAG_ELIGIBLE_ATTESTER))
  }

  function Bit(on: bool, flag: Flags): Flags {
    if on then flag else 0
  }

  function PackedFlags(f: AttesterFlags): Flags {
    Bit(f.prevSourceAttester, FLAG_PREV_SOURCE_ATTESTER)
    | Bit(f.prevTargetAttester, FLAG_PREV_TARGET_ATTESTER)
    | Bit(f.prevHeadAttester, FLAG_PREV_HEAD_ATTESTER)
    | Bit(f.currSourceAttester, FLAG_CURR_SOURCE_ATTESTER)
    | Bit(f.currTargetAttester, FLAG_CURR_TARGET_ATTESTER)
    | Bit(f.currHeadAttester, FLAG_CURR_HEAD_ATTESTER)
    | Bit(f.unslashed, FLAG_UNSLASHED)
    | Bit(f.eligibleAttester, FLAG_ELIGIBLE_ATTESTER)
  }

  /** `toAttesterFlags` */
  method ToAttesterFlags(flagsObj: AttesterFlags) returns (flag: Flags)
    ensures flag == PackedFlags(flagsObj)
    ensures ParseAttesterFlags(flag) == flagsObj
  {
    hide HasMarkers;
    flag := 0;
    if flagsObj.prevSourceAttester {
      flag := flag | FLAG_PREV_SOURCE_ATTESTER;
    }
    if flagsObj.prevTargetAttester {
      flag := flag | FLAG_PREV_TARGET_ATTESTER;
    }
    if flagsObj.prevHeadAttester {
      flag := flag | FLAG_PREV_HEAD_ATTESTER;
    }
    if flagsObj.currSourceAttester {
      flag := flag | FLAG_CURR_SOURCE_ATTESTER;
    }
    if flagsObj.currTargetAttester {
      flag := flag | FLAG_CURR_TARGET_ATTESTER;
    }
    if flagsObj.currHeadAttester {
      flag := flag | FLAG_CURR_HEAD_ATTESTER;
    }
    if flagsObj.unslashed {
      flag := flag | FLAG_UNSLASHED;
    }
    if flagsObj.eligibleAttester {
      flag := flag | FLAG_ELIGIBLE_ATTESTER;
    }
    ParseAfterPack(flagsObj);
  }

  lemma ParseAfterPack(f: AttesterFlags)
    ensures ParseAttesterFlags(PackedFlags(f)) == f
  {
  }

  /** Packing and parsing undo each other: the eight flags are exactly the numbers below 256. */
  lemma PackParseRoundTrip(f: AttesterFlags, flags: Flags)
    ensures ParseAttesterFlags(PackedFlags(f)) == f
    ensures PackedFlags(ParseAttesterFlags(flags)) == flags <==> flags < 256
  {
    hide HasMarkers, PackedFlags;
    ParseAfterPack(f);
    PackAfterParse(flags);
  }

  lemma PackAfterParse(flags: Flags)
    ensures PackedFlags(ParseAttesterFlags(flags)) == flags <==> flags < 256
  {
    LowByte(flags);
  }

  lemma LowByte(flags: Flags)
    ensures PackedFlags(ParseAttesterFlags(flags)) == flags & 0xFF
  {
  }

  /** While stored flags are below 8, the eight groups of bits never interfere: the flags at the end
      of the scan parse into what was merged, each flag in its place. */
  lemma FinalFlagsParse(unslashed: bool, eligible: bool, activePrev: bool, active: bool, prev: Flags, curr: Flags)
    requires prev < 8 && curr < 8
    ensures ParseAttesterFlags(FinalFlags(unslashed, eligible, activePrev, active, prev, curr)) == AttesterFlags(
      activePrev && HasFlag(prev, TIMELY_SOURCE),
      activePrev && HasFlag(prev, TIMELY_TARGET),
      activePrev && HasFlag(prev, TIMELY_HEAD),
      active && HasFlag(curr, TIMELY_SOURCE),
      active && HasFlag(curr, TIMELY_TARGET),
      active && HasFlag(curr, TIMELY_HEAD),
      unslashed,
      eligible)
  {
    hide FinalFlags, HasMarkers, HasFlag;
    FinalFlag(FLAG_PREV_SOURCE_ATTESTER, unslashed, eligible, activePrev, active, prev, curr);
    FinalFlag(FLAG_PREV_TARGET_ATTESTER, unslashed, eligible, activePrev, active, prev, curr);
    FinalFlag(FLAG_PREV_HEAD_ATTESTER, unslashed, eligible, activePrev, active, prev, curr);
    FinalFlag(FLAG_CURR_SOURCE_ATTESTER, unslashed, eligible, activePrev, active, prev, curr);
    FinalFlag(FLAG_CURR_TARGET_ATTESTER, unslashed, eligible, activePrev, active, prev, curr);
    FinalFlag(FLAG_CURR_HEAD_ATTESTER, unslashed, eligible, activePrev, active, prev, curr);
    FinalFlag(FLAG_UNSLASHED, unslashed, eligible, activePrev, active, prev, curr);
    FinalFlag(FLAG_ELIGIBLE_ATTESTER, unslashed, eligible, activePrev, active, prev, curr);
    SmallFlags(prev, FLAG_CURR_SOURCE_ATTESTER);
    SmallFlags(prev, FLAG_CURR_TARGET_ATTESTER);
    SmallFlags(prev, FLAG_CURR_HEAD_ATTESTER);
    SmallFlags(prev, FLAG_UNSLASHED);
    SmallFlags(prev, FLAG_ELIGIBLE_ATTESTER);
    SmallFlags(curr, FLAG_CURR_SOURCE_ATTESTER);
    SmallFlags(curr, FLAG_CURR_TARGET_ATTESTER);
  }
}
