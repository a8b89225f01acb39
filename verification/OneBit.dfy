/** What a shuffling reads out of its hash: a hash that sets one bit, in the answer to one input,
    exchanges one pair of the list, and which one follows from the input and the bit alone. */
module OneBit {
  import opened Bytes
  import opened JsInt
  import opened Shuffle
  import opened ShuffleList
  import opened Sampling
  import Arith

  /** The hash input for a window of 256 positions, byte by byte. */
  function WindowInput(seed: Digest, r: byte, w: nat): seq<byte> {
    seed + [r, w % 256, w / 256 % 256, w / 0x1_0000 % 256, w / 0x100_0000 % 256]
  }

  /** All zeros but for bit `b` of byte `k`. */
  function OneBitDigest(k: nat, b: nat): (d: Digest)
    requires k < 32 && b < 8
  {
    seq(32, _ => 0)[k := [1, 2, 4, 8, 16, 32, 64, 128][b]]
  }

  /** `pivots` answers the seed followed by a round number; every other answer is zeros, except the one
      for window `w` in round `r`. */
  function OneBitHash(seed: Digest, pivots: byte -> Digest, r: byte, w: nat, k: nat, b: nat): Hash
    requires k < 32 && b < 8
  {
    var digest := OneBitDigest(k, b);
    (x: seq<byte>) =>
      if |x| == 33 && x[..32] == seed then pivots(x[32])
      else if x == WindowInput(seed, r, w) then digest else seq(32, _ => 0)
  }

  /** The first eight bytes as a number, the lowest first. */
  function Low64(d: Digest): nat {
    var v: seq<nat> := d;
    v[0] + 0x100 * v[1] + 0x1_0000 * v[2] + 0x100_0000 * v[3] + 0x1_0000_0000 * v[4]
    + 0x100_0000_0000 * v[5] + 0x1_0000_0000_0000 * v[6] + 0x100_0000_0000_0000 * v[7]
  }

  /** The other end of the pair of `x`, on a list of `n` items with the given pivot. */
  function Mirror(pivot: nat, n: nat, x: nat): (y: nat)
    requires pivot < n && x < n
    ensures y < n
  {
    if x <= pivot then pivot - x else pivot + n - x
  }

  // ----- Reading the answers -----

  lemma Low64Is(d: Digest)
    ensures BytesToInt(d[..8]) == Low64(d)
  {
    var s := d[..8];
    assert BytesToInt(s) == s[0] + 256 * BytesToInt(s[1..]);
    assert BytesToInt(s[1..]) == s[1] + 256 * BytesToInt(s[2..]) by { assert s[1..][1..] == s[2..]; }
    assert BytesToInt(s[2..]) == s[2] + 256 * BytesToInt(s[3..]) by { assert s[2..][1..] == s[3..]; }
    assert BytesToInt(s[3..]) == s[3] + 256 * BytesToInt(s[4..]) by { assert s[3..][1..] == s[4..]; }
    assert BytesToInt(s[4..]) == s[4] + 256 * BytesToInt(s[5..]) by { assert s[4..][1..] == s[5..]; }
    assert BytesToInt(s[5..]) == s[5] + 256 * BytesToInt(s[6..]) by { assert s[5..][1..] == s[6..]; }
    assert BytesToInt(s[6..]) == s[6] + 256 * BytesToInt(s[7..]) by { assert s[6..][1..] == s[7..]; }
    assert BytesToInt(s[7..]) == s[7] by { assert s[7..][1..] == []; }
  }

  lemma PivotRead(seed: Digest, rounds: byte, pivots: byte -> Digest, r: byte, w: nat, k: nat, b: nat, i: byte, n: nat)
    requires k < 32 && b < 8 && n > 0
    ensures Shuffler(OneBitHash(seed, pivots, r, w, k, b), seed, rounds).Pivot(i, n) == Low64(pivots(i)) % n
  {
    hide Low64, WindowInput, OneBitDigest, BytesToInt;
    var x := seed + IntToBytes(i, 1);
    assert IntToBytes(i, 1) == [i];
    assert |x| == 33 && x[..32] == seed && x[32] == i;
    Low64Is(pivots(i));
  }

  /** A number below 2^32 is known from its four bytes. */
  lemma Digits(v: nat)
    requires v < TWO_32
    ensures v == v % 256 + 256 * (v / 256 % 256) + 0x1_0000 * (v / 0x1_0000 % 256) + 0x100_0000 * (v / 0x100_0000 % 256)
  {
    var b, c := v / 256, v / 0x1_0000;
    assert b / 256 == c && c / 256 == v / 0x100_0000;
  }

  lemma InputRead(seed: Digest, r: byte, w: nat, i: byte, v: nat)
    requires v < TWO_32 && w < TWO_32
    ensures seed + IntToBytes(i, 1) + IntToBytes(v, 4) == WindowInput(seed, r, w) <==> i == r && v == w
  {
    hide IntToBytes;
    var x, y := seed + IntToBytes(i, 1) + IntToBytes(v, 4), WindowInput(seed, r, w);
    OneByte(i);
    FourBytes(v);
    Digits(v);
    Digits(w);
    if i == r && v == w {
      assert x == y;
    }
    if x == y {
      assert x[32] == y[32] && x[33] == y[33] && x[34] == y[34] && x[35] == y[35] && x[36] == y[36];
    }
  }

  lemma OneByte(i: byte)
    ensures IntToBytes(i, 1) == [i]
  {
  }

  lemma BitRead(k: nat, b: nat, j: nat, a: nat)
    requires k < 32 && b < 8 && j < 32 && a < 8
    ensures BitOf(OneBitDigest(k, b)[j], a) <==> j == k && a == b
  {
    if j == k {
      PowerBit(b, a);
    } else {
      ZeroHasNoBits(a);
    }
  }

  lemma {:induction false} PowerBit(b: nat, a: nat)
    requires b < 8 && a < 8
    ensures BitOf([1, 2, 4, 8, 16, 32, 64, 128][b], a) <==> a == b
  {
    if a == 0 {
    } else if b == 0 {
      ZeroHasNoBits(a - 1);
    } else {
      PowerBit(b - 1, a - 1);
    }
  }

  lemma WindowRead(seed: Digest, rounds: byte, pivots: byte -> Digest, r: byte, w: nat, k: nat, b: nat, i: byte, v: nat)
    requires k < 32 && b < 8 && w < TWO_32 && v < TWO_32
    ensures Shuffler(OneBitHash(seed, pivots, r, w, k, b), seed, rounds).Source(i, v)
         == if i == r && v == w then OneBitDigest(k, b) else seq(32, _ => 0)
  {
    hide IntToBytes, WindowInput, OneBitDigest;
    assert |seed + IntToBytes(i, 1) + IntToBytes(v, 4)| == 37;
    InputRead(seed, r, w, i, v);
  }

  /** Window, byte and bit of a position. */
  lemma PositionParts(position: nat, w: nat, k: nat, b: nat)
    requires k < 32 && b < 8
    ensures position == 256 * w + 8 * k + b
            <==> position / 256 == w && position % 256 / 8 == k && position % 8 == b
  {
    if position == 256 * w + 8 * k + b {
      Arith.DivUnique(position, 256, w);
      Arith.DivUnique(position % 256, 8, k);
      Arith.DivUnique(position, 8, 32 * w + k);
    } else {
      assert position == 256 * (position / 256) + position % 256;
      assert position % 256 == 8 * (position % 256 / 8) + position % 256 % 8;
      Arith.DivUnique(position, 8, 32 * (position / 256) + position % 256 / 8);
    }
  }

  /** The decision of a position: only the set bit is ever read as one. */
  lemma DecisionRead(seed: Digest, rounds: byte, pivots: byte -> Digest, r: byte, w: nat, k: nat, b: nat, i: byte, position: nat)
    requires k < 32 && b < 8 && w < TWO_32 && position < MAX_COUNT
    ensures Shuffler(OneBitHash(seed, pivots, r, w, k, b), seed, rounds).SwapBit(i, position)
            <==> i == r && position == 256 * w + 8 * k + b
  {
    hide Shuffler.Source, OneBitHash, OneBitDigest, BitOf;
    WindowRead(seed, rounds, pivots, r, w, k, b, i, position / 256);
    PositionParts(position, w, k, b);
    ZeroHasNoBits(position % 8);
    BitRead(k, b, position % 256 / 8, position % 8);
  }

  // ----- What moves -----

  /** In round `r` an index moves to its mirror image if and only if the larger of the two is the position
      of the set bit; in any other round it stays. `PermuteOnce` is such a round. */
  lemma StepMoves(seed: Digest, rounds: byte, pivots: byte -> Digest, r: byte, w: nat, k: nat, b: nat, i: byte, n: nat, x: nat)
    requires k < 32 && b < 8 && w < TWO_32 && x < n <= MAX_COUNT
    ensures var y := Mirror(Low64(pivots(i)) % n, n, x);
      Shuffler(OneBitHash(seed, pivots, r, w, k, b), seed, rounds).Step(i, n, x)
      == if i == r && (if x < y then y else x) == 256 * w + 8 * k + b then y else x
  {
    hide OneBitHash, Low64, Shuffler.SwapBit, Shuffler.Pivot, Shuffler.Flip;
    var sh := Shuffler(OneBitHash(seed, pivots, r, w, k, b), seed, rounds);
    PivotRead(seed, rounds, pivots, r, w, k, b, i, n);
    sh.FlipCases(i, n, x);
    DecisionRead(seed, rounds, pivots, r, w, k, b, i, Max(x, sh.Flip(i, n, x)));
  }

  lemma {:induction false} ForwardMoves(sh: Shuffler, r: byte, j: nat, n: nat, x: nat)
    requires j <= sh.rounds && r < sh.rounds && x < n
    requires forall i: byte, z: nat {:trigger sh.Step(i, n, z)} :: i != r && z < n ==> sh.Step(i, n, z) == z
    ensures sh.Forward(j, n, x) == if j <= r then sh.Step(r, n, x) else x
    decreases sh.rounds - j
  {
    hide Shuffler.Step;
    if j < sh.rounds {
      ForwardMoves(sh, r, j + 1, n, sh.Step(j, n, x));
    }
  }

  /** The whole of `computeShuffledIndex` moves an index to its mirror image in round `r` if and only if
      the larger of the two is the position of the set bit. */
  lemma IndexMoves(seed: Digest, rounds: byte, pivots: byte -> Digest, r: byte, w: nat, k: nat, b: nat, n: nat, x: nat)
    requires k < 32 && b < 8 && w < TWO_32 && x < n <= MAX_COUNT && r < rounds
    ensures var y := Mirror(Low64(pivots(r)) % n, n, x);
      Shuffler(OneBitHash(seed, pivots, r, w, k, b), seed, rounds).Shuffled(n, x)
      == if (if x < y then y else x) == 256 * w + 8 * k + b then y else x
  {
    hide OneBitHash, Low64, Shuffler.Step;
    var sh := Shuffler(OneBitHash(seed, pivots, r, w, k, b), seed, rounds);
    forall i: byte, z: nat | i != r && z < n ensures sh.Step(i, n, z) == z {
      StepMoves(seed, rounds, pivots, r, w, k, b, i, n, z);
    }
    StepMoves(seed, rounds, pivots, r, w, k, b, r, n, x);
    ForwardMoves(sh, r, 0, n, x);
  }

  lemma {:induction false} PathFrom(sh: Shuffler, j: nat, n: nat, x: nat) returns (path: seq<nat>)
    requires j <= sh.rounds && x < n
    ensures |path| == sh.rounds - j + 1 && path[0] == x && path[|path| - 1] == sh.Forward(j, n, x)
    ensures forall i :: 0 <= i < |path| - 1 ==> path[i] < n && path[i + 1] == sh.Step(j + i, n, path[i])
    decreases sh.rounds - j
  {
    hide Shuffler.Step;
    path := [x];
    if j < sh.rounds {
      var rest := PathFrom(sh, j + 1, n, sh.Step(j, n, x));
      path := path + rest;
    }
  }

  /** `computeShuffledIndex` is the last stop of a walk that takes the rounds one by one, from the first. */
  lemma ShuffledPath(sh: Shuffler, n: nat, x: nat) returns (path: seq<nat>)
    requires x < n
    ensures |path| == sh.rounds + 1 && path[0] == x && path[sh.rounds] == sh.Shuffled(n, x)
    ensures forall i: nat :: i < sh.rounds ==> path[i] < n && path[i + 1] == sh.Step(i, n, path[i])
  {
    hide Shuffler.Step, Shuffler.Forward;
    path := PathFrom(sh, 0, n, x);
  }

  /** The list with the item at `position` and the one at its mirror image exchanged, if `position` is on
      the list and the larger of the two. */
  function Exchanged(pivot: nat, position: nat, xs: seq<nat>): (ys: seq<nat>)
    requires pivot < |xs|
    ensures |ys| == |xs|
  {
    if position < |xs| && Mirror(pivot, |xs|, position) < position
    then xs[position := xs[Mirror(pivot, |xs|, position)]][Mirror(pivot, |xs|, position) := xs[position]] else xs
  }

  lemma RoundMoves(seed: Digest, rounds: byte, pivots: byte -> Digest, r: byte, w: nat, k: nat, b: nat, i: byte, xs: seq<nat>)
    requires k < 32 && b < 8 && w < TWO_32 && 0 < |xs| <= MAX_COUNT
    ensures Shuffler(OneBitHash(seed, pivots, r, w, k, b), seed, rounds).Round(i, xs)
         == if i == r then Exchanged(Low64(pivots(r)) % |xs|, 256 * w + 8 * k + b, xs) else xs
  {
    hide OneBitHash, Low64, Shuffler.Step;
    var sh, n := Shuffler(OneBitHash(seed, pivots, r, w, k, b), seed, rounds), |xs|;
    var moved := if i == r then Exchanged(Low64(pivots(r)) % n, 256 * w + 8 * k + b, xs) else xs;
    forall x | 0 <= x < n ensures sh.Round(i, xs)[x] == moved[x] {
      StepMoves(seed, rounds, pivots, r, w, k, b, i, n, x);
    }
  }

  /** One pass of the in-place shuffle exchanges exactly the pair of the set bit, in round `r`. */
  lemma PassMoves(seed: Digest, rounds: byte, pivots: byte -> Digest, r: byte, w: nat, k: nat, b: nat, i: byte, xs: seq<nat>)
    requires k < 32 && b < 8 && w < TWO_32 && 0 < |xs| <= MAX_LIST
    ensures CodedRound(Shuffler(OneBitHash(seed, pivots, r, w, k, b), seed, rounds), i, xs)
         == if i == r then Exchanged(Low64(pivots(r)) % |xs|, 256 * w + 8 * k + b, xs) else xs
  {
    hide OneBitHash, Low64, CodedRound, Shuffler.Round, Exchanged;
    RoundMoves(seed, rounds, pivots, r, w, k, b, i, xs);
    CodedRoundIsRound(Shuffler(OneBitHash(seed, pivots, r, w, k, b), seed, rounds), i, xs);
  }

  /** Only round `r` moves anything on this list. */
  ghost predicate OnlyMoves(sh: Shuffler, r: byte, xs: seq<nat>) {
    forall i: byte :: i != r ==> sh.Round(i, xs) == xs
  }

  lemma OthersKeep(sh: Shuffler, r: byte, i: byte, xs: seq<nat>)
    requires OnlyMoves(sh, r, xs) && i != r
    ensures sh.Round(i, xs) == xs
  {
  }

  lemma {:induction false} DescendingMoves(sh: Shuffler, r: byte, j: nat, xs: seq<nat>)
    requires j <= sh.rounds && r < sh.rounds && |xs| > 0
    requires OnlyMoves(sh, r, xs) && OnlyMoves(sh, r, sh.Round(r, xs))
    ensures sh.Descending(j, xs) == if j <= r then sh.Round(r, xs) else xs
    decreases sh.rounds - j
  {
    hide Shuffler.Round, OnlyMoves, Shuffler.Ascending, Shuffler.Descending;
    if j < sh.rounds {
      DescendingMoves(sh, r, j + 1, xs);
      sh.OneMoreRound(j, xs);
      if j > r {
        OthersKeep(sh, r, j, xs);
      } else if j < r {
        OthersKeep(sh, r, j, sh.Round(r, xs));
      }
    } else {
      sh.NoRounds(xs);
    }
  }

  /** The whole in-place shuffle, in either direction, exchanges exactly the pair of the set bit. */
  lemma ListMoves(seed: Digest, rounds: byte, pivots: byte -> Digest, r: byte, w: nat, k: nat, b: nat, dir: bool, xs: seq<nat>)
    requires k < 32 && b < 8 && w < TWO_32 && 0 < |xs| <= MAX_LIST && r < rounds
    ensures Coded(Shuffler(OneBitHash(seed, pivots, r, w, k, b), seed, rounds), dir, xs)
         == Exchanged(Low64(pivots(r)) % |xs|, 256 * w + 8 * k + b, xs)
  {
    hide OneBitHash, Low64, Coded, Shuffler.Round, Exchanged, Shuffler.Ascending, Shuffler.Descending;
    var sh := Shuffler(OneBitHash(seed, pivots, r, w, k, b), seed, rounds);
    RoundMoves(seed, rounds, pivots, r, w, k, b, r, xs);
    forall i: byte | i != r
      ensures sh.Round(i, xs) == xs && sh.Round(i, sh.Round(r, xs)) == sh.Round(r, xs)
    {
      RoundMoves(seed, rounds, pivots, r, w, k, b, i, xs);
      RoundMoves(seed, rounds, pivots, r, w, k, b, i, sh.Round(r, xs));
    }
    CodedIsSpec(sh, dir, xs);
    sh.RoundTwice(r, xs);
    DescendingMoves(sh, r, 0, xs);
    DescendingMoves(sh, r, 0, sh.Round(r, xs));
    sh.ShuffleRoundTrip(sh.Round(r, xs));
  }
}
