/** Lists of more than 2^30 items, on which the signed shift of the in-place shuffle fails. */
module LongLists {
  import opened Bytes
  import opened JsInt
  import opened Shuffle
  import opened ShuffleList

  /** A hash that puts the pivot of every round at `n - 3`, and swaps everything in round 0 and
      nothing in any other. */
  function SkewedHash(n: nat): Hash
    requires 3 <= n < TWO_31
  {
    (x: seq<byte>) =>
      if |x| == PIVOT_VIEW_SIZE then PivotDigest(n)
      else if |x| == TOTAL_SIZE && x[SEED_SIZE] == 0 then seq(32, _ => 255) else seq(32, _ => 0)
  }

  function PivotDigest(n: nat): Digest
    requires 3 <= n < TWO_31
  {
    IntToBytes(n - 3, 8) + seq<byte>(24, _ => 0)
  }

  lemma PivotNumber(n: nat)
    requires 3 <= n < TWO_31
    ensures BytesToInt(PivotDigest(n)[..8]) == n - 3
  {
    hide IntToBytes, BytesToInt;
    assert PivotDigest(n)[..8] == IntToBytes(n - 3, 8);
    EightBytes();
    IntBytesRoundTrip(n - 3, 8);
  }

  lemma PivotIs(sh: Shuffler, r: byte, n: nat, p: nat)
    requires p < n && BytesToInt(sh.hash(sh.seed + IntToBytes(r, 1))[..8]) == p
    ensures sh.Pivot(r, n) == p
  {
    hide IntToBytes, BytesToInt;
  }

  lemma SkewedPivot(seed: Digest, rounds: byte, r: byte, n: nat)
    requires 3 <= n < TWO_31
    ensures Shuffler(SkewedHash(n), seed, rounds).Pivot(r, n) == n - 3
  {
    hide IntToBytes, BytesToInt, PivotDigest, Shuffler.Pivot;
    var x := seed + IntToBytes(r, 1);
    assert |x| == PIVOT_VIEW_SIZE;
    assert SkewedHash(n)(x) == PivotDigest(n);
    PivotNumber(n);
    PivotIs(Shuffler(SkewedHash(n), seed, rounds), r, n, n - 3);
  }

  lemma EightBytes()
    ensures Pow256(8) > TWO_31
  {
    assert Pow256(2) == 0x1_0000 && Pow256(4) == 0x1_0000_0000;
    assert Pow256(6) == 0x1_0000 * Pow256(4);
  }

  lemma SkewedBits(seed: Digest, rounds: byte, r: byte, n: nat, position: nat)
    requires 3 <= n < TWO_31
    ensures Shuffler(SkewedHash(n), seed, rounds).SwapBit(r, position) <==> r == 0
  {
    var x := seed + IntToBytes(r, 1) + IntToBytes(position / 256, 4);
    assert |x| == TOTAL_SIZE && x[SEED_SIZE] == IntToBytes(r, 1)[0] == r;
    assert Pow2(8) - 1 == 255;
    AllBits(8, position % 8);
    ZeroHasNoBits(position % 8);
  }

  /** Rounds without swaps change nothing, in the specification and as coded. */
  lemma IdleRound(sh: Shuffler, r: byte, xs: seq<nat>)
    requires |xs| > 0 && forall position: nat :: !sh.SwapBit(r, position)
    ensures sh.Round(r, xs) == xs && CodedRound(sh, r, xs) == xs
  {
    hide Shuffler.SwapBit, Shuffler.Pivot, Partner;
  }

  lemma {:induction false} IdleAscending(sh: Shuffler, r: nat, xs: seq<nat>)
    requires 0 < r <= sh.rounds && |xs| > 0
    requires forall q: byte, position: nat :: q > 0 ==> !sh.SwapBit(q, position)
    ensures sh.Ascending(r, xs) == sh.Round(0, xs) && CodedAscending(sh, r, xs) == CodedRound(sh, 0, xs)
  {
    hide Shuffler.SwapBit, CodedRound, Shuffler.Round;
    if r > 1 {
      IdleAscending(sh, r - 1, xs);
      IdleRound(sh, r - 1, sh.Round(0, xs));
      IdleRound(sh, r - 1, CodedRound(sh, 0, xs));
    }
  }

  lemma {:induction false} IdleDescending(sh: Shuffler, r: nat, xs: seq<nat>)
    requires 0 < r <= sh.rounds && |xs| > 0
    requires forall q: byte, position: nat :: q > 0 ==> !sh.SwapBit(q, position)
    ensures sh.Descending(r, xs) == xs && CodedDescending(sh, r, xs) == xs
    decreases sh.rounds - r
  {
    hide Shuffler.SwapBit, CodedRound, Shuffler.Round;
    if r < sh.rounds {
      IdleDescending(sh, r + 1, xs);
      IdleRound(sh, r, xs);
    }
  }

  /** Beyond 2^30 items the last pair of such a round is never decided. */
  lemma LastPairLost(seed: Digest, rounds: byte, xs: seq<nat>)
    requires MAX_LIST < |xs| < TWO_31
    ensures var sh, n := Shuffler(SkewedHash(|xs|), seed, rounds), |xs|;
      CodedRound(sh, 0, xs)[n - 1] == xs[n - 1] && sh.Round(0, xs)[n - 1] == xs[n - 2]
  {
    hide Shuffler.SwapBit, Shuffler.Pivot;
    var n := |xs|;
    var sh := Shuffler(SkewedHash(n), seed, rounds);
    SkewedPivot(seed, rounds, 0, n);
    SkewedBits(seed, rounds, 0, n, n - 1);
    sh.FlipCases(0, n, n - 1);
  }

  /** On this list the in-place shuffle is not the specification's. */
  ghost predicate Differs(hash: Hash, seed: Digest, rounds: byte, dir: bool, xs: seq<nat>) {
    Coded(Shuffler(hash, seed, rounds), dir, xs) != Spec(Shuffler(hash, seed, rounds), dir, xs)
  }

  /** In either direction the in-place shuffle is the specification's for every hash, seed and list of
      `n` items if and only if there are at most 2^30 of them. */
  lemma ListDomain(rounds: byte, dir: bool, n: nat)
    requires 0 < rounds && n < TWO_31
    ensures (forall hash: Hash, seed: Digest, xs :: |xs| == n ==> !Differs(hash, seed, rounds, dir, xs)) <==> n <= MAX_LIST
  {
    hide Coded, Spec;
    if n <= MAX_LIST {
      forall hash: Hash, seed: Digest, xs | |xs| == n ensures !Differs(hash, seed, rounds, dir, xs) {
        CodedIsSpec(Shuffler(hash, seed, rounds), dir, xs);
      }
    } else {
      var xs := seq<nat>(n, i requires 0 <= i < n => i);
      LongListDiffers(seq(32, _ => 0), rounds, dir, xs);
    }
  }

  lemma LongListDiffers(seed: Digest, rounds: byte, dir: bool, xs: seq<nat>)
    requires 0 < rounds && MAX_LIST < |xs| < TWO_31
    requires xs[|xs| - 1] != xs[|xs| - 2]
    ensures Differs(SkewedHash(|xs|), seed, rounds, dir, xs)
  {
    hide Shuffler.SwapBit, CodedRound, Shuffler.Round, SkewedHash, CodedAscending, CodedDescending, Shuffler.Ascending,
      Shuffler.Descending;
    var n := |xs|;
    var sh := Shuffler(SkewedHash(n), seed, rounds);
    forall q: byte, position: nat | q > 0 ensures !sh.SwapBit(q, position) {
      SkewedBits(seed, rounds, q, n, position);
    }
    LastPairLost(seed, rounds, xs);
    if dir {
      IdleAscending(sh, rounds, xs);
    } else {
      IdleDescending(sh, 1, xs);
      LastRound(sh, xs);
    }
  }

  lemma LastRound(sh: Shuffler, xs: seq<nat>)
    requires |xs| > 0 && sh.rounds > 0
    ensures sh.Descending(0, xs) == sh.Round(0, sh.Descending(1, xs))
    ensures CodedDescending(sh, 0, xs) == CodedRound(sh, 0, CodedDescending(sh, 1, xs))
  {
  }
}
