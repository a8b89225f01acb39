/** Selecting indices by the bits of an aggregate, bit by bit or through the packed bytes. */
module AggregationBits {
  import opened Permutations
  import opened Bytes
  import opened Wrappers

  const BITS_PER_BYTE: nat := 8

  // ----- Packed bits -----

  function ByteOf(bits: seq<bool>): (r: nat)
    requires |bits| <= 8
    ensures r < Pow2(|bits|)
  {
    if bits == [] then 0 else (if bits[0] then 1 else 0) + 2 * ByteOf(bits[1..])
  }

  lemma {:induction false} BitsOfByte(bits: seq<bool>, k: nat)
    requires |bits| <= 8
    ensures BitOf(ByteOf(bits), k) == (k < |bits| && bits[k])
  {
    if bits == [] {
      ZeroHasNoBits(k);
    } else if k > 0 {
      BitsOfByte(bits[1..], k - 1);
      assert ByteOf(bits) / 2 == ByteOf(bits[1..]);
    }
  }

  predicate BitAt(bits: seq<bool>, i: nat) {
    i < |bits| && bits[i]
  }

  function ByteCount(bits: seq<bool>): nat {
    (|bits| + BITS_PER_BYTE - 1) / BITS_PER_BYTE
  }

  /** Byte `i` of `bitsToUint8Array`: little endian, padded with zero bits. */
  function PackedByte(bits: seq<bool>, i: nat): (r: nat)
    requires i < ByteCount(bits)
    ensures r < 256
  {
    assert Pow2(8) == 256;
    ByteOf(seq(8, k requires 0 <= k < 8 => BitAt(bits, 8 * i + k)))
  }

  function Packed(bits: seq<bool>): (r: seq<byte>)
    ensures |r| == ByteCount(bits)
    ensures forall i: nat :: i < |r| ==> r[i] == PackedByte(bits, i)
  {
    seq(ByteCount(bits), i requires 0 <= i < ByteCount(bits) => PackedByte(bits, i))
  }

  lemma PackedBit(bits: seq<bool>, i: nat, k: nat)
    requires i < ByteCount(bits) && k < 8
    ensures BitOf(Packed(bits)[i], k) == BitAt(bits, 8 * i + k)
  {
    BitsOfByte(seq(8, k requires 0 <= k < 8 => BitAt(bits, 8 * i + k)), k);
  }

  // ----- The table from bytes to bits -----

  /** `byte.toString(2)` */
  function BinaryStr(n: nat): (s: string)
    ensures |s| > 0
  {
    if n < 2 then [if n == 1 then '1' else '0'] else BinaryStr(n / 2) + [if n % 2 == 1 then '1' else '0']
  }

  /** `computeUint8ByteToBitBooleanArray`; in little endian order, unlike its comment says. */
  function BitBooleanArray(b: nat): (r: seq<bool>)
    ensures |r| == BITS_PER_BYTE
  {
    var s := BinaryStr(b);
    seq(BITS_PER_BYTE, j requires 0 <= j < BITS_PER_BYTE => if j < |s| then s[|s| - j - 1] == '1' else false)
  }

  lemma {:induction false} DigitIsBit(n: nat, j: nat)
    ensures BitOf(n, j) == (j < |BinaryStr(n)| && BinaryStr(n)[|BinaryStr(n)| - j - 1] == '1')
  {
    if n < 2 {
      if j > 0 {
        ZeroHasNoBits(j - 1);
      }
    } else if j > 0 {
      DigitIsBit(n / 2, j - 1);
    }
  }

  /** Entry `j` of the table is bit `j`, least significant first. */
  lemma TableIsBits(b: nat)
    ensures forall j: nat :: j < 8 ==> BitBooleanArray(b)[j] == BitOf(b, j)
  {
    forall j: nat | j < 8 ensures BitBooleanArray(b)[j] == BitOf(b, j) {
      DigitIsBit(b, j);
    }
  }

  /** The global cache of table rows. */
  class ByteTable {
    var rows: map<byte, seq<bool>>

    ghost predicate Valid()
      reads this
    {
      forall b :: b in rows ==> rows[b] == BitBooleanArray(b)
    }

    constructor ()
      ensures Valid()
    {
      rows := map[];
    }

    /** `getUint8ByteToBitBooleanArray` */
    method Row(b: byte) returns (row: seq<bool>)
      requires Valid()
      modifies this
      ensures Valid()
      ensures |row| == BITS_PER_BYTE && forall j: nat :: j < 8 ==> row[j] == BitOf(b, j)
    {
      hide BitBooleanArray;
      if b !in rows {
        rows := rows[b := BitBooleanArray(b)];
      }
      TableIsBits(b);
      return rows[b];
    }
  }

  // ----- Splitting indices -----

  /** The indices whose bit is `wanted`, in order. */
  function Split(indexes: seq<nat>, bits: seq<bool>, wanted: bool): seq<nat> {
    if indexes == [] then []
    else
      var n := |indexes| - 1;
      Split(indexes[..n], bits, wanted) + if BitAt(bits, n) == wanted then [indexes[n]] else []
  }

  lemma SplitStep(indexes: seq<nat>, bits: seq<bool>, wanted: bool, n: nat)
    requires n < |indexes|
    ensures Split(indexes[..n + 1], bits, wanted)
         == Split(indexes[..n], bits, wanted) + if BitAt(bits, n) == wanted then [indexes[n]] else []
  {
    assert indexes[..n + 1][..n] == indexes[..n];
  }

  /** One more index goes to exactly one side. */
  lemma SplitLast(indexes: seq<nat>, bits: seq<bool>)
    requires indexes != []
    ensures var n := |indexes| - 1;
      var a, b := Split(indexes[..n], bits, true), Split(indexes[..n], bits, false);
      || (Split(indexes, bits, true) == a + [indexes[n]] && Split(indexes, bits, false) == b)
      || (Split(indexes, bits, true) == a && Split(indexes, bits, false) == b + [indexes[n]])
  {
  }

  lemma AppendCounts(xs: seq<nat>, x: nat)
    ensures multiset(xs + [x]) == multiset(xs) + multiset{x}
  {
  }

  /** No index is lost and none is on both sides. */
  lemma {:induction false} SplitParts(indexes: seq<nat>, bits: seq<bool>)
    ensures multiset(Split(indexes, bits, true)) + multiset(Split(indexes, bits, false)) == multiset(indexes)
    ensures |Split(indexes, bits, true)| + |Split(indexes, bits, false)| == |indexes|
  {
    hide Split, BitAt;
    if indexes == [] {
      NothingSplit(bits);
    } else {
      var n := |indexes| - 1;
      SplitParts(indexes[..n], bits);
      SplitLast(indexes, bits);
      AppendCounts(indexes[..n], indexes[n]);
      AppendCounts(Split(indexes[..n], bits, true), indexes[n]);
      AppendCounts(Split(indexes[..n], bits, false), indexes[n]);
      assert indexes == indexes[..n] + [indexes[n]];
    }
  }

  /** An index with the wanted bit sits behind the selected ones before it. */
  lemma {:induction false} SplitPlaces(indexes: seq<nat>, bits: seq<bool>, wanted: bool, i: nat)
    requires i < |indexes| && BitAt(bits, i) == wanted
    ensures var place := |Split(indexes[..i], bits, wanted)|;
      place < |Split(indexes, bits, wanted)| && Split(indexes, bits, wanted)[place] == indexes[i]
  {
    hide BitAt;
    var n := |indexes| - 1;
    if i < n {
      SplitPlaces(indexes[..n], bits, wanted, i);
      assert indexes[..n][..i] == indexes[..i];
    }
  }

  lemma {:induction false} SplitFrom(indexes: seq<nat>, bits: seq<bool>, wanted: bool, x: nat)
    requires x in Split(indexes, bits, wanted)
    ensures exists k :: 0 <= k < |indexes| && indexes[k] == x && BitAt(bits, k) == wanted
  {
    hide BitAt;
    var n := |indexes| - 1;
    if x in Split(indexes[..n], bits, wanted) {
      SplitFrom(indexes[..n], bits, wanted, x);
    } else {
      assert indexes[n] == x && BitAt(bits, n) == wanted;
    }
  }

  /** Among distinct indices each is on the side of its own bit, and only there. */
  lemma SplitByBit(indexes: seq<nat>, bits: seq<bool>, wanted: bool, i: nat)
    requires Distinct(indexes) && i < |indexes|
    ensures indexes[i] in Split(indexes, bits, wanted) <==> BitAt(bits, i) == wanted
  {
    hide Split, BitAt;
    if BitAt(bits, i) == wanted {
      SplitPlaces(indexes, bits, wanted, i);
    } else if indexes[i] in Split(indexes, bits, wanted) {
      SplitFrom(indexes, bits, wanted, indexes[i]);
    }
  }

  /** `zipIndexes` on a plain bit list. */
  method ZipIndexes(indexes: seq<nat>, bits: seq<bool>) returns (attesting: seq<nat>, unattesting: seq<nat>)
    ensures attesting == Split(indexes, bits, true)
    ensures unattesting == Split(indexes, bits, false)
  {
    attesting, unattesting := [], [];
    var i: nat := 0;
    while i < |indexes|
      invariant i <= |indexes|
      invariant attesting == Split(indexes[..i], bits, true)
      invariant unattesting == Split(indexes[..i], bits, false)
    {
      SplitStep(indexes, bits, true, i);
      SplitStep(indexes, bits, false, i);
      if i < |bits| && bits[i] {
        attesting := attesting + [indexes[i]];
      } else {
        unattesting := unattesting + [indexes[i]];
      }
      i := i + 1;
    }
    assert indexes[..i] == indexes;
  }

  function FirstUpTo(indexes: seq<nat>, n: nat): seq<nat> {
    if n < |indexes| then indexes[..n] else indexes
  }

  /** `zipIndexesTreeBacked`: byte by byte, through the table; indices past the last byte are lost. */
  method ZipIndexesTreeBacked(table: ByteTable, indexes: seq<nat>, bits: seq<bool>)
    returns (participants: seq<nat>, unparticipants: seq<nat>)
    requires table.Valid()
    modifies table
    ensures table.Valid()
    ensures participants == Split(FirstUpTo(indexes, 8 * ByteCount(bits)), bits, true)
    ensures unparticipants == Split(FirstUpTo(indexes, 8 * ByteCount(bits)), bits, false)
  {
    hide Split, BitAt, BitOf, ByteCount, PackedByte;
    var bytes := Packed(bits);
    participants, unparticipants := [], [];
    NothingSplit(bits);
    assert FirstUpTo(indexes, 0) == [];
    var iByte: nat := 0;
    while iByte < |bytes|
      invariant iByte <= |bytes| && table.Valid()
      invariant participants == Split(FirstUpTo(indexes, 8 * iByte), bits, true)
      invariant unparticipants == Split(FirstUpTo(indexes, 8 * iByte), bits, false)
    {
      var row := table.Row(bytes[iByte]);
      var iBit: nat := 0;
      while iBit < BITS_PER_BYTE
        invariant iBit <= BITS_PER_BYTE && table.Valid()
        invariant participants == Split(FirstUpTo(indexes, 8 * iByte + iBit), bits, true)
        invariant unparticipants == Split(FirstUpTo(indexes, 8 * iByte + iBit), bits, false)
      {
        var position := iByte * BITS_PER_BYTE + iBit;
        PackedBit(bits, iByte, iBit);
        if position < |indexes| {
          SplitStep(indexes, bits, true, position);
          SplitStep(indexes, bits, false, position);
          assert FirstUpTo(indexes, position) == indexes[..position];
          assert FirstUpTo(indexes, position + 1) == indexes[..position + 1];
          if row[iBit] {
            participants := participants + [indexes[position]];
          } else {
            unparticipants := unparticipants + [indexes[position]];
          }
        }
        iBit := iBit + 1;
      }
      iByte := iByte + 1;
    }
  }

  lemma NothingSplit(bits: seq<bool>)
    ensures Split([], bits, true) == [] == Split([], bits, false)
  {
  }

  /** The two forms agree exactly when there is a byte for every index. */
  lemma FormsAgree(indexes: seq<nat>, bits: seq<bool>)
    ensures (&& Split(FirstUpTo(indexes, 8 * ByteCount(bits)), bits, true) == Split(indexes, bits, true)
             && Split(FirstUpTo(indexes, 8 * ByteCount(bits)), bits, false) == Split(indexes, bits, false))
            <==> |indexes| <= 8 * ByteCount(bits)
  {
    hide ByteCount, Split;
    SplitParts(indexes, bits);
    SplitParts(FirstUpTo(indexes, 8 * ByteCount(bits)), bits);
  }

  /** In particular on bit lists as long as the list of indices. */
  lemma FormsAgreeOnEqualLengths(indexes: seq<nat>, bits: seq<bool>)
    requires |bits| == |indexes|
    ensures |indexes| <= 8 * ByteCount(bits)
  {
  }

  // ----- The single bit of an unaggregated attestation -----

  ghost predicate OnlyBit(bits: seq<bool>, i: nat) {
    i < |bits| && forall j: nat :: j < |bits| ==> (bits[j] <==> j == i)
  }

  /** The result `index` after the first `n` bits. */
  ghost predicate SingleSoFar(bits: seq<bool>, n: nat, index: Option<nat>) {
    match index
    case None => forall j: nat :: j < n ==> !BitAt(bits, j)
    case Some(i) => i < n && BitAt(bits, i) && forall j: nat :: j < n && BitAt(bits, j) ==> j == i
  }

  /** Exactly the index of the only set bit; an error when there is no such bit. */
  ghost predicate SingleBit(bits: seq<bool>, r: Option<nat>) {
    match r
    case Some(i) => OnlyBit(bits, i)
    case None => forall i: nat :: !OnlyBit(bits, i)
  }

  lemma SingleAtEnd(bits: seq<bool>, n: nat, index: Option<nat>)
    requires n >= |bits| && SingleSoFar(bits, n, index)
    ensures SingleBit(bits, index)
  {
    match index {
      case Some(i) =>
        forall j: nat | j < |bits| ensures bits[j] <==> j == i {
          assert BitAt(bits, j) == bits[j];
        }
      case None =>
        forall i: nat ensures !OnlyBit(bits, i) {
          if i < |bits| {
            assert !BitAt(bits, i);
          }
        }
    }
  }

  lemma SecondBit(bits: seq<bool>, i: nat, j: nat)
    requires i != j && BitAt(bits, i) && BitAt(bits, j)
    ensures SingleBit(bits, None)
  {
  }

  /** `getSingleBitIndex` on a plain bit list. */
  method GetSingleBitIndex(bits: seq<bool>) returns (r: Option<nat>)
    ensures SingleBit(bits, r)
  {
    hide SingleBit;
    r := None;
    var i: nat := 0;
    while i < |bits|
      invariant i <= |bits| && SingleSoFar(bits, i, r)
    {
      if bits[i] {
        if r.Some? {
          SecondBit(bits, r.value, i);
          return None;
        }
        r := Some(i);
      }
      i := i + 1;
    }
    SingleAtEnd(bits, i, r);
  }

  /** `getSingleBitIndex` through the packed bytes; zero bytes are skipped. */
  method GetSingleBitIndexTreeBacked(table: ByteTable, bits: seq<bool>) returns (r: Option<nat>)
    requires table.Valid()
    modifies table
    ensures table.Valid() && SingleBit(bits, r)
  {
    hide SingleBit, BitAt, BitOf, PackedByte;
    var bytes := Packed(bits);
    r := None;
    var iByte: nat := 0;
    while iByte < |bytes|
      invariant iByte <= |bytes| && table.Valid()
      invariant SingleSoFar(bits, 8 * iByte, r)
    {
      if bytes[iByte] == 0 {
        ZeroByte(bits, iByte, r);
        iByte := iByte + 1;
        continue;
      }
      var row := table.Row(bytes[iByte]);
      var iBit: nat := 0;
      while iBit < BITS_PER_BYTE
        invariant iBit <= BITS_PER_BYTE && table.Valid()
        invariant SingleSoFar(bits, 8 * iByte + iBit, r)
      {
        PackedBit(bits, iByte, iBit);
        if row[iBit] {
          if r.Some? {
            SecondBit(bits, r.value, 8 * iByte + iBit);
            return None;
          }
          r := Some(iByte * BITS_PER_BYTE + iBit);
        }
        iBit := iBit + 1;
      }
      iByte := iByte + 1;
    }
    SingleAtEnd(bits, 8 * |bytes|, r);
  }

  lemma ZeroByte(bits: seq<bool>, iByte: nat, r: Option<nat>)
    requires iByte < ByteCount(bits) && Packed(bits)[iByte] == 0
    requires SingleSoFar(bits, 8 * iByte, r)
    ensures SingleSoFar(bits, 8 * (iByte + 1), r)
  {
    forall j: nat | 8 * iByte <= j < 8 * (iByte + 1) ensures !BitAt(bits, j) {
      PackedBit(bits, iByte, j - 8 * iByte);
      ZeroHasNoBits(j - 8 * iByte);
    }
  }

  /** Both forms answer alike. */
  lemma SingleBitUnique(bits: seq<bool>, r: Option<nat>, s: Option<nat>)
    requires SingleBit(bits, r) && SingleBit(bits, s)
    ensures r == s
  {
    if r.Some? && s.Some? {
      assert bits[r.value] <==> r.value == s.value;
    }
  }
}
