/** The in-place list shuffle: mirrored pair loops over one reused 37-byte hash buffer, a
    cached digest and a cached byte. It is proved equal to the plain rounds of `Shuffle`. */
module ShuffleList {
  import opened Bytes
  import opened JsInt
  import opened Shuffle
  import opened Wrappers

  const SEED_SIZE: nat := 32
  const PIVOT_VIEW_SIZE: nat := 33
  const TOTAL_SIZE: nat := 37

  /** For a value that a signed 32-bit shift leaves alone, `>> 8k` divides by `256^k`. */
  lemma SmallShift(x: int)
    requires 0 <= x < TWO_31
    ensures ToInt32(x) == x
  {
  }

  lemma FourBytes(value: nat)
    ensures IntToBytes(value, 4)
         == [value % 256, value / 256 % 256, value / 0x1_0000 % 256, value / 0x100_0000 % 256]
  {
    var b, c, d := value / 256, value / 0x1_0000, value / 0x100_0000;
    assert b / 256 == c && c / 256 == d;
    assert IntToBytes(d, 1) == [d % 256] + IntToBytes(d / 256, 0);
    assert IntToBytes(c, 2) == [c % 256] + IntToBytes(d, 1);
    assert IntToBytes(b, 3) == [b % 256] + IntToBytes(c, 2);
    assert IntToBytes(value, 4) == [value % 256] + IntToBytes(b, 3);
  }

  /** `setPositionUint32`: the four bytes after the seed and the round number. */
  method SetPositionUint32(value: int, buf: array<byte>)
    requires buf.Length == TOTAL_SIZE
    modifies buf
    ensures buf[..PIVOT_VIEW_SIZE] == old(buf[..PIVOT_VIEW_SIZE])
    ensures 0 <= value < TWO_31 ==> buf[PIVOT_VIEW_SIZE..] == IntToBytes(value, 4)
  {
    buf[PIVOT_VIEW_SIZE] := ToInt32(value) % 256;
    buf[PIVOT_VIEW_SIZE + 1] := Sar8(value) % 256;
    buf[PIVOT_VIEW_SIZE + 2] := Sar16(value) % 256;
    buf[PIVOT_VIEW_SIZE + 3] := Sar24(value) % 256;
    if 0 <= value < TWO_31 {
      SmallShift(value);
      FourBytes(value);
    }
  }

  /** The buffer holds the seed and the round number, ready for a position. */
  ghost predicate Primed(sh: Shuffler, r: byte, buf: array<byte>)
    reads buf
  {
    buf.Length == TOTAL_SIZE && buf[..PIVOT_VIEW_SIZE] == sh.seed + IntToBytes(r, 1)
  }

  /** The cached digest and byte are those of position `j`, unless `j` is due a refresh. */
  ghost predicate Cached(digests: nat -> Digest, j: nat, source: Digest, byteV: byte) {
    && (j % 256 != 255 ==> source == digests(j / 256))
    && (j % 8 != 7 ==> byteV == digests(j / 256)[j % 256 / 8])
  }

  /** The view the pair loops take of one round: its digests by window, its decisions by
      position, and when a cached digest and byte are up to date. Holding the three as
      function values keeps their definitions out of the loop proofs. */
  datatype RoundView = RoundView(digests: nat -> Digest, bit: nat -> bool,
                                 upToDate: (nat, Digest, byte) -> bool)

  ghost predicate Views(sh: Shuffler, r: byte, v: RoundView) {
    && (forall w: nat {:trigger sh.Source(r, w)} :: v.digests(w) == sh.Source(r, w))
    && (forall p: nat {:trigger v.bit(p)} ::
          v.bit(p) == BitOf(v.digests(p / 256)[p % 256 / 8], p % 8))
    && (forall j: nat, s: Digest, b: byte {:trigger Cached(v.digests, j, s, b)} ::
          v.upToDate(j, s, b) == Cached(v.digests, j, s, b))
  }

  ghost function ViewOf(sh: Shuffler, r: byte): (v: RoundView)
    ensures Views(sh, r, v)
    ensures v.bit == sh.Bits(r)
  {
    RoundView(sh.Windows(r), sh.Bits(r),
              (j: nat, s: Digest, b: byte) => Cached(sh.Windows(r), j, s, b))
  }

  /** Writes the window of `position` to the buffer and hashes the whole of it. */
  method HashPosition(sh: Shuffler, r: byte, ghost v: RoundView, position: nat, buf: array<byte>)
    returns (source: Digest)
    requires Views(sh, r, v)
    requires Primed(sh, r, buf)
    modifies buf
    ensures Primed(sh, r, buf)
    ensures position < TWO_31 ==> source == v.digests(position / 256)
  {
    SetPositionUint32(Sar8(position), buf);
    source := sh.hash(buf[..]);
    if position < TWO_31 {
      SmallShift(position);
      assert buf[..] == buf[..PIVOT_VIEW_SIZE] + buf[PIVOT_VIEW_SIZE..];
      assert source == sh.Source(r, position / 256);
    }
  }

  /** Digest and byte for the first pair of a loop. */
  method FirstPair(sh: Shuffler, r: byte, ghost v: RoundView, last: nat, buf: array<byte>)
    returns (source: Digest, byteV: byte)
    requires Views(sh, r, v)
    requires Primed(sh, r, buf)
    modifies buf
    ensures Primed(sh, r, buf)
    ensures last < TWO_31 ==> v.upToDate(last, source, byteV)
  {
    source := HashPosition(sh, r, v, last, buf);
    byteV := source[last % 256 / 8];
    assert last < TWO_31 ==> Cached(v.digests, last, source, byteV);
  }

  /** Between boundaries two neighbouring positions share their window and their byte. */
  lemma Neighbours(w: nat, b: nat)
    requires b < 256 && 0 < 256 * w + b
    ensures var j := 256 * w + b;
      && (if b == 0 then (j - 1) % 256 == 255 && (j - 1) % 8 == 7
          else (j - 1) / 256 == w && (j - 1) % 256 == b - 1 && (j - 1) % 8 == (b - 1) % 8)
      && (b > 0 && (b - 1) % 8 != 7 ==> (b - 1) / 8 == b / 8)
  {
    var j := 256 * w + b;
    if b == 0 {
      Arith.DivUnique(j - 1, 256, w - 1);
      Arith.DivUnique(j - 1, 8, 32 * w - 1);
    } else {
      Arith.DivUnique(j - 1, 256, w);
      Arith.DivUnique(j - 1, 8, 32 * w + (b - 1) / 8);
    }
  }

  lemma CachedNext(digests: nat -> Digest, j: nat, source: Digest, byteV: byte)
    requires j > 0
    requires source == digests(j / 256) && byteV == source[j % 256 / 8]
    ensures Cached(digests, j - 1, source, byteV)
  {
    Neighbours(j / 256, j % 256);
  }

  /** The two refresh tests of the step, and the bit they lead to. */
  method DecidePair(sh: Shuffler, r: byte, ghost v: RoundView, j: nat,
                    source: Digest, byteV: byte, buf: array<byte>)
    returns (source': Digest, byteV': byte, bitV: bool)
    requires Views(sh, r, v)
    requires j > 0
    requires Primed(sh, r, buf)
    modifies buf
    ensures Primed(sh, r, buf)
    ensures j < TWO_31 && v.upToDate(j, source, byteV) ==>
      v.upToDate(j - 1, source', byteV') && bitV == v.bit(j)
  {
    source', byteV' := source, byteV;
    assert v.upToDate(j, source, byteV) == Cached(v.digests, j, source, byteV);
    if j % 256 == 0xff {
      source' := HashPosition(sh, r, v, j, buf);
    }
    if j % 8 == 7 {
      byteV' := source'[j % 256 / 8];
    }
    bitV := BitOf(byteV', j % 8);
    if j < TWO_31 && v.upToDate(j, source, byteV) {
      CachedNext(v.digests, j, source', byteV');
    }
  }

  /** The other end of the pair that `k` belongs to once the pairs from `first` up to `mirror`
      are done, or `k` itself. */
  function Partner(first: nat, last: nat, mirror: int, k: nat): (p: int) {
    if first <= k < mirror || (last - (mirror - first) < k <= last && first < mirror)
    then first + last - k else k
  }

  /** Where the item now at `k` was before those pairs were decided by `bit`. */
  function Origin(bit: nat -> bool, first: nat, last: nat, mirror: int, k: nat): (p: int) {
    var p := Partner(first, last, mirror, k);
    if p >= 0 && bit(Max(k, p)) then p else k
  }

  /** Items `xs` after the pairs from `first` up to `mirror` have been decided by `bit`. */
  ghost predicate Mirrored(bit: nat -> bool, first: nat, last: nat, mirror: int,
                           xs: seq<nat>, ys: seq<nat>)
  {
    |ys| == |xs| && last < |xs| &&
    forall k {:trigger Origin(bit, first, last, mirror, k)} :: 0 <= k < |xs| ==>
      0 <= Origin(bit, first, last, mirror, k) < |xs| && ys[k] == xs[Origin(bit, first, last, mirror, k)]
  }

  lemma PartnerStep(first: nat, last: nat, i: nat, k: nat)
    requires first <= i && 2 * i < first + last
    ensures var j := first + last - i;
            Partner(first, last, i + 1, k)
              == if k == i then j else if k == j then i else Partner(first, last, i, k)
    ensures var j := first + last - i;
            k == i || k == j ==> Partner(first, last, i, k) == k
  {
  }

  lemma MirroredNone(bit: nat -> bool, first: nat, last: nat, xs: seq<nat>)
    requires last < |xs|
    ensures Mirrored(bit, first, last, first, xs, xs)
  {
    forall k: nat | k < |xs| ensures Origin(bit, first, last, first, k) == k {
      assert Partner(first, last, first, k) == k;
    }
  }

  /** Deciding one more pair. */
  lemma MirroredStep(bit: nat -> bool, first: nat, last: nat, i: nat,
                     xs: seq<nat>, ys: seq<nat>, zs: seq<nat>)
    requires first <= i && 2 * i < first + last
    requires Mirrored(bit, first, last, i, xs, ys)
    requires var j := first + last - i;
             zs == if bit(j) then ys[j := ys[i]][i := ys[j]] else ys
    ensures Mirrored(bit, first, last, i + 1, xs, zs)
  {
    var j := first + last - i;
    assert ys[i] == xs[i] && ys[j] == xs[j] by {
      PartnerStep(first, last, i, i);
      PartnerStep(first, last, i, j);
      assert Origin(bit, first, last, i, i) == i && Origin(bit, first, last, i, j) == j;
    }
    forall k | 0 <= k < |xs|
      ensures 0 <= Origin(bit, first, last, i + 1, k) < |xs|
      ensures zs[k] == xs[Origin(bit, first, last, i + 1, k)]
    {
      PartnerStep(first, last, i, k);
      assert ys[k] == xs[Origin(bit, first, last, i, k)];
    }
  }

  /** Swaps the pair if its bit says so. */
  method SwapItems(ghost bit: nat -> bool, ghost first: nat, ghost last: nat, ghost xs: seq<nat>,
                   bitV: bool, i: nat, j: nat, input: array<nat>)
    requires first <= i < j == first + last - i < input.Length
    modifies input
    ensures bitV == bit(j) && Mirrored(bit, first, last, i, xs, old(input[..])) ==>
      Mirrored(bit, first, last, i + 1, xs, input[..])
  {
    ghost var ys := input[..];
    if bitV {
      var tmp := input[j];
      input[j] := input[i];
      input[i] := tmp;
    }
    if bitV == bit(j) && Mirrored(bit, first, last, i, xs, ys) {
      MirroredStep(bit, first, last, i, xs, ys, input[..]);
    }
  }

  /** One of the two pair loops of a round: `i` walks up from `first`, `j` down from `last`,
      and the digest and the byte are refreshed only at window and byte boundaries. */
  method SwapPairs(sh: Shuffler, r: byte, ghost v: RoundView, first: nat, last: nat, mirror: int,
                   input: array<nat>, buf: array<byte>)
    requires Views(sh, r, v)
    requires last < input.Length
    requires first < mirror ==> 2 * mirror <= first + last + 1
    requires Primed(sh, r, buf)
    modifies input, buf
    ensures Primed(sh, r, buf)
    ensures last < TWO_31 ==>
      Mirrored(v.bit, first, last, Max(first, mirror), old(input[..]), input[..])
  {
    hide Views, Mirrored, Primed;
    var source, byteV := FirstPair(sh, r, v, last, buf);
    var i := first;
    ghost var xs := input[..];
    MirroredNone(v.bit, first, last, xs);
    while i < mirror
      invariant first <= i <= Max(first, mirror)
      invariant Primed(sh, r, buf)
      invariant last < TWO_31 ==> Mirrored(v.bit, first, last, i, xs, input[..])
      invariant last < TWO_31 && i < mirror ==> v.upToDate(first + last - i, source, byteV)
    {
      var j := first + last - i;
      ghost var ys := input[..];
      var bitV;
      source, byteV, bitV := DecidePair(sh, r, v, j, source, byteV, buf);
      assert input[..] == ys;
      SwapItems(v.bit, first, last, xs, bitV, i, j, input);
      i := i + 1;
    }
  }

  // ----- One round -----

  /** The 32-bit shift finds the middle of the part above the pivot (or both stop before it). */
  predicate FindsMiddle(n: nat, pivot: nat) {
    Max(pivot + 1, Sar1(pivot + n + 1)) == Max(pivot + 1, (pivot + n + 1) / 2)
  }

  /** It does so for every pivot exactly when the list has at most 2^30 items: beyond that, the
      pivot `n - 3` loses the pair (n - 2, n - 1). */
  lemma MirrorDomain(n: nat)
    requires 0 < n < TWO_32
    ensures (forall pivot: nat :: pivot < n ==> FindsMiddle(n, pivot)) <==> n <= MAX_LIST
  {
    if n > MAX_LIST {
      assert !FindsMiddle(n, n - 3);
    }
  }

  lemma HalfPartner(first: nat, last: nat, k: nat)
    requires first <= k <= last
    ensures Partner(first, last, (first + last + 1) / 2, k) == first + last - k
  {
  }

  lemma OutsidePartner(first: nat, last: nat, mirror: int, k: nat)
    requires k < first || last < k
    requires first < mirror ==> 2 * mirror <= first + last + 1
    ensures Partner(first, last, mirror, k) == k
  {
  }

  /** Below the pivot the first loop alone does the round. */
  lemma LowerHalf(sh: Shuffler, r: byte, xs: seq<nat>, ys: seq<nat>, zs: seq<nat>, k: nat)
    requires |xs| > 0 && k <= sh.Pivot(r, |xs|)
    requires var p := sh.Pivot(r, |xs|);
      && Mirrored(sh.Bits(r), 0, p, (p + 1) / 2, xs, ys)
      && Mirrored(sh.Bits(r), p + 1, |xs| - 1, Max(p + 1, (p + |xs| + 1) / 2), ys, zs)
    ensures zs[k] == xs[sh.Step(r, |xs|, k)]
  {
    hide Shuffler.Pivot, Shuffler.SwapBit, Shuffler.Flip;
    var n, p := |xs|, sh.Pivot(r, |xs|);
    sh.FlipCases(r, n, k);
    HalfPartner(0, p, k);
    OutsidePartner(p + 1, n - 1, Max(p + 1, (p + n + 1) / 2), k);
    assert Origin(sh.Bits(r), p + 1, n - 1, Max(p + 1, (p + n + 1) / 2), k) == k;
    assert Origin(sh.Bits(r), 0, p, (p + 1) / 2, k) == sh.Step(r, n, k);
  }

  /** Above the pivot the second loop alone does it. */
  lemma UpperHalf(sh: Shuffler, r: byte, xs: seq<nat>, ys: seq<nat>, zs: seq<nat>, k: nat)
    requires |xs| > 0 && sh.Pivot(r, |xs|) < k < |xs|
    requires var p := sh.Pivot(r, |xs|);
      && Mirrored(sh.Bits(r), 0, p, (p + 1) / 2, xs, ys)
      && Mirrored(sh.Bits(r), p + 1, |xs| - 1, Max(p + 1, (p + |xs| + 1) / 2), ys, zs)
    ensures zs[k] == xs[sh.Step(r, |xs|, k)]
  {
    hide Shuffler.Pivot, Shuffler.SwapBit, Shuffler.Flip;
    var n, p := |xs|, sh.Pivot(r, |xs|);
    sh.FlipCases(r, n, k);
    HalfPartner(p + 1, n - 1, k);
    var o := sh.Step(r, n, k);
    assert Origin(sh.Bits(r), p + 1, n - 1, Max(p + 1, (p + n + 1) / 2), k) == o;
    OutsidePartner(0, p, (p + 1) / 2, o);
    assert Origin(sh.Bits(r), 0, p, (p + 1) / 2, o) == o;
  }

  /** Pairs mirrored below the pivot and then above it make up one whole round. */
  lemma HalvesMakeRound(sh: Shuffler, r: byte, xs: seq<nat>, ys: seq<nat>, zs: seq<nat>)
    requires |xs| > 0
    requires var p := sh.Pivot(r, |xs|);
      && Mirrored(sh.Bits(r), 0, p, (p + 1) / 2, xs, ys)
      && Mirrored(sh.Bits(r), p + 1, |xs| - 1, Max(p + 1, (p + |xs| + 1) / 2), ys, zs)
    ensures zs == sh.Round(r, xs)
  {
    hide Shuffler.Step, Shuffler.Pivot, Shuffler.Bits;
    forall k | 0 <= k < |xs| ensures zs[k] == xs[sh.Step(r, |xs|, k)] {
      if k <= sh.Pivot(r, |xs|) {
        LowerHalf(sh, r, xs, ys, zs, k);
      } else {
        UpperHalf(sh, r, xs, ys, zs, k);
      }
    }
  }

  // ----- The rounds as coded, whatever the length of the list -----

  /** Items `xs` after the pairs from `first` up to `mirror` have been decided by `bit`. */
  function MirrorPairs(bit: nat -> bool, first: nat, last: nat, mirror: int, xs: seq<nat>): (ys: seq<nat>)
    ensures |ys| == |xs|
  {
    seq(|xs|, k requires 0 <= k < |xs| =>
      var o := Origin(bit, first, last, mirror, k); if 0 <= o < |xs| then xs[o] else xs[k])
  }

  lemma MirroredIs(bit: nat -> bool, first: nat, last: nat, mirror: int, xs: seq<nat>, ys: seq<nat>)
    requires Mirrored(bit, first, last, mirror, xs, ys)
    ensures ys == MirrorPairs(bit, first, last, mirror, xs)
  {
  }

  lemma PairsMirrored(bit: nat -> bool, first: nat, last: nat, mirror: int, xs: seq<nat>)
    requires last < |xs| && (first < mirror ==> 2 * mirror <= first + last + 1)
    ensures Mirrored(bit, first, last, mirror, xs, MirrorPairs(bit, first, last, mirror, xs))
  {
  }

  /** One pass of the outer loop: two stretches, each up to the middle that the shift finds. */
  function CodedRound(sh: Shuffler, r: byte, xs: seq<nat>): (ys: seq<nat>)
    requires |xs| > 0
    ensures |ys| == |xs|
  {
    var n, p := |xs|, sh.Pivot(r, |xs|);
    MirrorPairs(sh.Bits(r), p + 1, n - 1, Max(p + 1, Sar1(p + n + 1)),
                MirrorPairs(sh.Bits(r), 0, p, Max(0, Sar1(p + 1)), xs))
  }

  lemma CodedRoundIsRound(sh: Shuffler, r: byte, xs: seq<nat>)
    requires 0 < |xs| <= MAX_LIST
    ensures CodedRound(sh, r, xs) == sh.Round(r, xs)
  {
    hide Shuffler.Round, Shuffler.Pivot, Mirrored, MirrorPairs, Shuffler.Bits;
    var n, p := |xs|, sh.Pivot(r, |xs|);
    SmallShift(p + 1);
    MirrorDomain(n);
    assert FindsMiddle(n, p);
    PairsMirrored(sh.Bits(r), 0, p, (p + 1) / 2, xs);
    var ys := MirrorPairs(sh.Bits(r), 0, p, (p + 1) / 2, xs);
    PairsMirrored(sh.Bits(r), p + 1, n - 1, Max(p + 1, (p + n + 1) / 2), ys);
    HalvesMakeRound(sh, r, xs, ys, MirrorPairs(sh.Bits(r), p + 1, n - 1, Max(p + 1, (p + n + 1) / 2), ys));
  }

  function CodedAscending(sh: Shuffler, r: nat, xs: seq<nat>): (ys: seq<nat>)
    requires r <= sh.rounds && |xs| > 0
    ensures |ys| == |xs|
  {
    if r == 0 then xs else CodedRound(sh, r - 1, CodedAscending(sh, r - 1, xs))
  }

  function CodedDescending(sh: Shuffler, r: nat, xs: seq<nat>): (ys: seq<nat>)
    requires r <= sh.rounds && |xs| > 0
    ensures |ys| == |xs|
    decreases sh.rounds - r
  {
    if r == sh.rounds then xs else CodedRound(sh, r, CodedDescending(sh, r + 1, xs))
  }

  /** What `innerShuffleList` leaves of a list shorter than 2^31. */
  function Coded(sh: Shuffler, dir: bool, xs: seq<nat>): (ys: seq<nat>)
    ensures |ys| == |xs|
  {
    if |xs| <= 1 then xs else if dir then CodedAscending(sh, sh.rounds, xs) else CodedDescending(sh, 0, xs)
  }

  /** What is done when the loop reaches round `r`. */
  ghost function CodedBefore(sh: Shuffler, dir: bool, r: byte, xs: seq<nat>): (ys: seq<nat>)
    requires r < sh.rounds && |xs| > 0
    ensures |ys| == |xs|
  {
    if dir then CodedAscending(sh, r, xs) else CodedDescending(sh, r + 1, xs)
  }

  lemma CodedNext(sh: Shuffler, dir: bool, r: byte, xs: seq<nat>)
    requires r < sh.rounds && |xs| > 1
    ensures var next := CodedRound(sh, r, CodedBefore(sh, dir, r, xs));
      && (dir && r + 1 < sh.rounds ==> CodedBefore(sh, dir, r + 1, xs) == next)
      && (!dir && 0 < r ==> CodedBefore(sh, dir, r - 1, xs) == next)
      && ((if dir then r + 1 == sh.rounds else r == 0) ==> Coded(sh, dir, xs) == next)
  {
    hide CodedRound;
  }

  lemma CodedFirst(sh: Shuffler, dir: bool, xs: seq<nat>)
    requires |xs| > 1
    ensures sh.rounds > 0 ==> CodedBefore(sh, dir, if dir then 0 else sh.rounds - 1, xs) == xs
    ensures sh.rounds == 0 ==> Coded(sh, dir, xs) == xs
  {
    hide CodedRound;
  }

  ghost function Spec(sh: Shuffler, dir: bool, xs: seq<nat>): seq<nat> {
    if dir then sh.ShuffleSpec(xs) else sh.UnshuffleSpec(xs)
  }

  lemma {:induction false} CodedAscendingIs(sh: Shuffler, r: nat, xs: seq<nat>)
    requires r <= sh.rounds && 0 < |xs| <= MAX_LIST
    ensures CodedAscending(sh, r, xs) == sh.Ascending(r, xs)
  {
    hide CodedRound, Shuffler.Round;
    if r > 0 {
      CodedAscendingIs(sh, r - 1, xs);
      CodedRoundIsRound(sh, r - 1, sh.Ascending(r - 1, xs));
    }
  }

  lemma {:induction false} CodedDescendingIs(sh: Shuffler, r: nat, xs: seq<nat>)
    requires r <= sh.rounds && 0 < |xs| <= MAX_LIST
    ensures CodedDescending(sh, r, xs) == sh.Descending(r, xs)
    decreases sh.rounds - r
  {
    hide CodedRound, Shuffler.Round;
    if r < sh.rounds {
      CodedDescendingIs(sh, r + 1, xs);
      CodedRoundIsRound(sh, r, sh.Descending(r + 1, xs));
    }
  }

  lemma CodedIsSpec(sh: Shuffler, dir: bool, xs: seq<nat>)
    requires |xs| <= MAX_LIST
    ensures Coded(sh, dir, xs) == Spec(sh, dir, xs)
  {
    if |xs| <= 1 {
      sh.ShortList(xs);
    } else {
      CodedAscendingIs(sh, sh.rounds, xs);
      CodedDescendingIs(sh, 0, xs);
    }
  }

  /** The seed is in place. */
  ghost predicate Seeded(sh: Shuffler, buf: array<byte>)
    reads buf
  {
    buf.Length == TOTAL_SIZE && buf[..SEED_SIZE] == sh.seed
  }

  /** Puts the round number after the seed and hashes both for the pivot. */
  method RoundPivot(sh: Shuffler, r: byte, listSize: nat, buf: array<byte>) returns (pivot: nat)
    requires listSize > 0
    requires Seeded(sh, buf)
    modifies buf
    ensures Primed(sh, r, buf)
    ensures pivot == sh.Pivot(r, listSize)
  {
    buf[SEED_SIZE] := r;
    assert buf[..PIVOT_VIEW_SIZE] == sh.seed + IntToBytes(r, 1);
    var h := sh.hash(buf[..PIVOT_VIEW_SIZE]);
    pivot := BytesToInt(h[..8]) % listSize;
  }

  lemma PrimedSeeded(sh: Shuffler, r: byte, buf: array<byte>)
    requires Primed(sh, r, buf)
    ensures Seeded(sh, buf)
  {
    assert buf[..SEED_SIZE] == buf[..PIVOT_VIEW_SIZE][..SEED_SIZE];
  }

  /** One pass of the outer loop, for round `r`. */
  method ShuffleRound(sh: Shuffler, r: byte, input: array<nat>, buf: array<byte>)
    requires 0 < input.Length < TWO_32
    requires Seeded(sh, buf)
    modifies input, buf
    ensures Seeded(sh, buf)
    ensures input.Length < TWO_31 ==> input[..] == CodedRound(sh, r, old(input[..]))
  {
    hide Shuffler.Pivot, Shuffler.Bits, Views, Mirrored, MirrorPairs;
    var listSize := input.Length;
    ghost var v := ViewOf(sh, r);
    ghost var xs := input[..];
    var pivot := RoundPivot(sh, r, listSize, buf);
    assert input[..] == xs;
    SwapPairs(sh, r, v, 0, pivot, Sar1(pivot + 1), input, buf);
    ghost var ys := input[..];
    var end := listSize - 1;
    SwapPairs(sh, r, v, pivot + 1, end, Sar1(pivot + listSize + 1), input, buf);
    if listSize < TWO_31 {
      MirroredIs(v.bit, 0, pivot, Max(0, Sar1(pivot + 1)), xs, ys);
      MirroredIs(v.bit, pivot + 1, end, Max(pivot + 1, Sar1(pivot + listSize + 1)), ys, input[..]);
    }
    PrimedSeeded(sh, r, buf);
  }

  /** A zeroed buffer with the seed in its first 32 bytes. */
  method SeededBuffer(sh: Shuffler) returns (buf: array<byte>)
    ensures fresh(buf) && Seeded(sh, buf)
  {
    buf := new byte[TOTAL_SIZE](_ => 0);
    for i := 0 to SEED_SIZE
      invariant buf[..i] == sh.seed[..i]
    {
      buf[i] := sh.seed[i];
    }
  }

  /** `innerShuffleList`: the rounds in ascending order when `dir` is set, descending if not. */
  method InnerShuffleList(sh: Shuffler, input: array<nat>, dir: bool)
    requires input.Length < TWO_32
    modifies input
    ensures input.Length < TWO_31 ==> input[..] == Coded(sh, dir, old(input[..]))
    ensures input.Length <= MAX_LIST ==>
      input[..] == if dir then sh.ShuffleSpec(old(input[..])) else sh.UnshuffleSpec(old(input[..]))
  {
    hide CodedRound, CodedBefore, Coded, Shuffler.ShuffleSpec, Shuffler.UnshuffleSpec;
    ghost var xs := input[..];
    if input.Length <= MAX_LIST {
      CodedIsSpec(sh, dir, xs);
    }
    if input.Length <= 1 {
      CodedShort(sh, dir, xs);
      return;
    }
    CodedFirst(sh, dir, xs);
    if sh.rounds == 0 {
      return;
    }
    var buf := SeededBuffer(sh);
    assert input[..] == xs;
    var r: byte := if dir then 0 else sh.rounds - 1;
    while true
      invariant r < sh.rounds
      invariant Seeded(sh, buf)
      invariant input.Length < TWO_31 ==> input[..] == CodedBefore(sh, dir, r, xs)
      decreases if dir then sh.rounds - r else r
    {
      ShuffleRound(sh, r, input, buf);
      CodedNext(sh, dir, r, xs);
      if dir {
        if r + 1 == sh.rounds {
          break;
        }
        r := r + 1;
      } else {
        if r == 0 {
          break;
        }
        r := r - 1;
      }
    }
  }

  lemma CodedShort(sh: Shuffler, dir: bool, xs: seq<nat>)
    requires |xs| <= 1
    ensures Coded(sh, dir, xs) == xs
  {
  }

  method ShuffleList(sh: Shuffler, input: array<nat>)
    requires input.Length < TWO_32
    modifies input
    ensures input.Length <= MAX_LIST ==> input[..] == sh.ShuffleSpec(old(input[..]))
  {
    InnerShuffleList(sh, input, true);
  }

  method UnshuffleList(sh: Shuffler, input: array<nat>)
    requires input.Length < TWO_32
    modifies input
    ensures input.Length <= MAX_LIST ==> input[..] == sh.UnshuffleSpec(old(input[..]))
  {
    InnerShuffleList(sh, input, false);
  }

  /** The body of the loop of `computeShuffledIndex`. */
  method PermuteOnce(sh: Shuffler, i: byte, indexCount: nat, permuted: nat) returns (next: nat)
    requires permuted < indexCount
    ensures next == sh.Step(i, indexCount, permuted)
  {
    var pivot := BytesToInt(sh.hash(sh.seed + IntToBytes(i, 1))[..8]) % indexCount;
    var flip := (pivot + indexCount - permuted) % indexCount;
    var position := Max(permuted, flip);
    var source := sh.hash(sh.seed + IntToBytes(i, 1) + IntToBytes(position / 256, 4));
    var bit := BitOf(source[position % 256 / 8], position % 8);
    next := if bit then flip else permuted;
  }

  /** `computeShuffledIndex`, by its loop over the rounds; `None` where an assertion throws. */
  method ComputeShuffledIndex(sh: Shuffler, index: nat, indexCount: nat) returns (r: Option<nat>)
    ensures r == if index < indexCount <= 0x100_0000_0000 then Some(sh.Shuffled(indexCount, index)) else None
  {
    hide Shuffler.Step;
    if !(index < indexCount && indexCount <= 0x100_0000_0000) {
      return None;
    }
    var permuted: nat := index;
    var i: nat := 0;
    while i < sh.rounds
      invariant 0 <= i <= sh.rounds && permuted < indexCount
      invariant sh.Forward(i, indexCount, permuted) == sh.Shuffled(indexCount, index)
    {
      permuted := PermuteOnce(sh, i, indexCount, permuted);
      i := i + 1;
    }
    return Some(permuted);
  }
}
