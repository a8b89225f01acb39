/** Swap-or-not: the per-index form of `computeShuffledIndex`, the whole-list rounds, and
    the in-place list shuffle that must refine them. */
module Shuffle {
  import opened Bytes
  import opened Permutations
  import Arith

  /** Largest list for which the 32-bit signed shifts of the list shuffle are exact. */
  const MAX_LIST: nat := 0x4000_0000

  function Max(a: int, b: int): int {
    if a < b then b else a
  }

  /** One shuffling: the hash function, the seed and SHUFFLE_ROUND_COUNT. */
  datatype Shuffler = Shuffler(hash: Hash, seed: Digest, rounds: byte) {

    /** The pivot of round `r` on a list of `n` items. */
    function Pivot(r: byte, n: nat): (p: nat)
      requires n > 0
      ensures p < n
    {
      BytesToInt(hash(seed + IntToBytes(r, 1))[..8]) % n
    }

    function Source(r: byte, window: nat): Digest {
      hash(seed + IntToBytes(r, 1) + IntToBytes(window, 4))
    }

    /** The hash bit that decides whether the pair whose larger index is `position` swaps. */
    predicate SwapBit(r: byte, position: nat) {
      BitOf(Source(r, position / 256)[position % 256 / 8], position % 8)
    }

    /** The digests of round `r`, by window of 256 positions. */
    function Windows(r: byte): nat -> Digest {
      (window: nat) => Source(r, window)
    }

    /** The decisions of round `r`, by position. */
    function Bits(r: byte): nat -> bool {
      (position: nat) => SwapBit(r, position)
    }

    /** The mirror image of `x` in round `r`. */
    function Flip(r: byte, n: nat, x: nat): (y: nat)
      requires x < n
      ensures y < n
    {
      (Pivot(r, n) + n - x) % n
    }

    /** Where one round sends index `x`. */
    function Step(r: byte, n: nat, x: nat): (y: nat)
      requires x < n
      ensures y < n
    {
      var flip := Flip(r, n, x);
      if SwapBit(r, Max(x, flip)) then flip else x
    }

    /** Rounds `r`, `r + 1`, ... applied to one index. */
    function Forward(r: nat, n: nat, x: nat): (y: nat)
      requires r <= rounds && x < n
      ensures y < n
      decreases rounds - r
    {
      if r == rounds then x else Forward(r + 1, n, Step(r, n, x))
    }

    /** Rounds ..., `r + 1`, `r` applied to one index. */
    function Backward(r: nat, n: nat, x: nat): (y: nat)
      requires r <= rounds && x < n
      ensures y < n
      decreases rounds - r
    {
      if r == rounds then x else Step(r, n, Backward(r + 1, n, x))
    }

    /** The index that `computeShuffledIndex` returns. */
    function Shuffled(n: nat, x: nat): (y: nat)
      requires x < n
      ensures y < n
    {
      Forward(0, n, x)
    }

    /** Its inverse: the rounds in the opposite order. */
    function Unshuffled(n: nat, x: nat): (y: nat)
      requires x < n
      ensures y < n
    {
      Backward(0, n, x)
    }

    /** A whole list after one round: position `k` receives the item at `Step(k)`. */
    function Round<T>(r: byte, xs: seq<T>): (ys: seq<T>)
      ensures |ys| == |xs|
      ensures forall k :: 0 <= k < |xs| ==> ys[k] == xs[Step(r, |xs|, k)]
    {
      seq(|xs|, k requires 0 <= k < |xs| => xs[Step(r, |xs|, k)])
    }

    /** Rounds 0 to `r - 1` in ascending order. */
    function Ascending<T>(r: nat, xs: seq<T>): (ys: seq<T>)
      requires r <= rounds
      ensures |ys| == |xs|
    {
      if r == 0 then xs else Round(r - 1, Ascending(r - 1, xs))
    }

    /** Rounds `rounds - 1` down to `r`. */
    function Descending<T>(r: nat, xs: seq<T>): (ys: seq<T>)
      requires r <= rounds
      ensures |ys| == |xs|
      decreases rounds - r
    {
      if r == rounds then xs else Round(r, Descending(r + 1, xs))
    }

    function ShuffleSpec<T>(xs: seq<T>): (ys: seq<T>)
      ensures |ys| == |xs|
    {
      Ascending(rounds, xs)
    }

    function UnshuffleSpec<T>(xs: seq<T>): (ys: seq<T>)
      ensures |ys| == |xs|
    {
      Descending(0, xs)
    }

    // ----- Facts about one round -----

    /** The mirror image below the pivot and above it, without the modulus. */
    lemma FlipCases(r: byte, n: nat, x: nat)
      requires x < n
      ensures x <= Pivot(r, n) ==> Flip(r, n, x) == Pivot(r, n) - x
      ensures x > Pivot(r, n) ==> Flip(r, n, x) == Pivot(r, n) + n - x
    {
      Arith.ModWrap(Pivot(r, n) + n - x, n);
    }

    /** Every round is an involution: a pair is either swapped or left alone as a whole. */
    lemma StepTwice(r: byte, n: nat, x: nat)
      requires x < n
      ensures Step(r, n, Step(r, n, x)) == x
    {
      FlipCases(r, n, x);
      FlipCases(r, n, Flip(r, n, x));
    }

    lemma {:induction false} BackwardForward(r: nat, n: nat, x: nat)
      requires r <= rounds && x < n
      ensures Backward(r, n, Forward(r, n, x)) == x
      decreases rounds - r
    {
      hide Step;
      if r < rounds {
        BackwardForward(r + 1, n, Step(r, n, x));
        StepTwice(r, n, x);
      }
    }

    lemma {:induction false} ForwardBackward(r: nat, n: nat, x: nat)
      requires r <= rounds && x < n
      ensures Forward(r, n, Backward(r, n, x)) == x
      decreases rounds - r
    {
      hide Step;
      if r < rounds {
        StepTwice(r, n, Backward(r + 1, n, x));
        ForwardBackward(r + 1, n, x);
      }
    }

    /** `computeShuffledIndex` is a bijection on the positions of the list. */
    lemma ShuffledBijection(n: nat, x: nat)
      requires x < n
      ensures Unshuffled(n, Shuffled(n, x)) == x
      ensures Shuffled(n, Unshuffled(n, x)) == x
    {
      BackwardForward(0, n, x);
      ForwardBackward(0, n, x);
    }

    // ----- Whole lists -----

    /** Lists of one item or none stay as they are. */
    lemma {:induction false} ShortList<T>(xs: seq<T>)
      requires |xs| <= 1
      ensures ShuffleSpec(xs) == xs && UnshuffleSpec(xs) == xs
    {
      forall k | 0 <= k < |xs| ensures UnshuffleSpec(xs)[k] == xs[k] {
        UnshuffleSpecAt(xs, k);
      }
      assert UnshuffleSpec(xs) == xs;
      ShuffleRoundTrip(xs);
    }

    lemma {:induction false} DescendingAt<T>(r: nat, xs: seq<T>, k: nat)
      requires r <= rounds && k < |xs|
      ensures Descending(r, xs)[k] == xs[Forward(r, |xs|, k)]
      decreases rounds - r
    {
      if r < rounds {
        DescendingAt(r + 1, xs, Step(r, |xs|, k));
      }
    }

    /** Unshuffling a list leaves at `k` the item that was at `computeShuffledIndex(k)`. */
    lemma UnshuffleSpecAt<T>(xs: seq<T>, k: nat)
      requires k < |xs|
      ensures UnshuffleSpec(xs)[k] == xs[Shuffled(|xs|, k)]
    {
      DescendingAt(0, xs, k);
    }

    lemma RoundTwice<T>(r: byte, xs: seq<T>)
      ensures Round(r, Round(r, xs)) == xs
    {
      forall k | 0 <= k < |xs| ensures Round(r, Round(r, xs))[k] == xs[k] {
        StepTwice(r, |xs|, k);
      }
    }

    lemma OneMoreRound<T>(r: nat, xs: seq<T>)
      requires r < rounds
      ensures Ascending(r + 1, xs) == Round(r, Ascending(r, xs))
      ensures Descending(r, xs) == Round(r, Descending(r + 1, xs))
    {
      hide Round;
    }

    lemma NoRounds<T>(xs: seq<T>)
      ensures Ascending(0, xs) == xs == Descending(rounds, xs)
    {
      hide Round;
    }

    lemma {:induction false} AscendingUndoes<T>(r: nat, xs: seq<T>)
      requires r <= rounds
      ensures Ascending(r, UnshuffleSpec(xs)) == Descending(r, xs)
    {
      hide Round, Ascending, Descending;
      if r > 0 {
        AscendingUndoes(r - 1, xs);
        OneMoreRound(r - 1, UnshuffleSpec(xs));
        OneMoreRound(r - 1, xs);
        RoundTwice(r - 1, Descending(r, xs));
      } else {
        NoRounds(UnshuffleSpec(xs));
      }
    }

    lemma {:induction false} DescendingUndoes<T>(r: nat, xs: seq<T>)
      requires r <= rounds
      ensures Descending(r, ShuffleSpec(xs)) == Ascending(r, xs)
      decreases rounds - r
    {
      hide Round, Ascending, Descending;
      if r < rounds {
        DescendingUndoes(r + 1, xs);
        OneMoreRound(r, ShuffleSpec(xs));
        OneMoreRound(r, xs);
        RoundTwice(r, Ascending(r, xs));
      } else {
        NoRounds(ShuffleSpec(xs));
      }
    }

    /** `shuffleList` and `unshuffleList` undo each other, in both orders. */
    lemma ShuffleRoundTrip<T>(xs: seq<T>)
      ensures ShuffleSpec(UnshuffleSpec(xs)) == xs
      ensures UnshuffleSpec(ShuffleSpec(xs)) == xs
    {
      AscendingUndoes(rounds, xs);
      DescendingUndoes(0, xs);
    }

    /** Shuffling a list leaves at `computeShuffledIndex(k)` the item that was at `k`. */
    lemma ShuffleSpecAt<T>(xs: seq<T>, k: nat)
      requires k < |xs|
      ensures ShuffleSpec(xs)[Shuffled(|xs|, k)] == xs[k]
    {
      ShuffleRoundTrip(xs);
      UnshuffleSpecAt(ShuffleSpec(xs), k);
    }

    // ----- No item is lost or repeated -----

    function Order(n: nat): (p: seq<nat>)
      ensures |p| == n && forall k :: 0 <= k < n ==> p[k] == Shuffled(n, k)
    {
      seq(n, k requires 0 <= k < n => Shuffled(n, k))
    }

    lemma OrderPermutes(n: nat)
      ensures Permutes(Order(n))
    {
      forall i, j | 0 <= i < j < n ensures Order(n)[i] != Order(n)[j] {
        ShuffledBijection(n, i);
        ShuffledBijection(n, j);
      }
    }

    /** Both directions keep exactly the items of the list. */
    lemma ShufflesKeepItems<T>(xs: seq<T>)
      ensures multiset(UnshuffleSpec(xs)) == multiset(xs)
      ensures multiset(ShuffleSpec(xs)) == multiset(xs)
    {
      UnshuffleKeepsItems(xs);
      UnshuffleKeepsItems(ShuffleSpec(xs));
      ShuffleRoundTrip(xs);
    }

    lemma UnshuffleKeepsItems<T>(xs: seq<T>)
      ensures multiset(UnshuffleSpec(xs)) == multiset(xs)
    {
      var n := |xs|;
      OrderPermutes(n);
      ReindexKeepsItems(xs, Order(n));
      forall k | 0 <= k < n ensures UnshuffleSpec(xs)[k] == Reindex(xs, Order(n))[k] {
        UnshuffleSpecAt(xs, k);
      }
      assert UnshuffleSpec(xs) == Reindex(xs, Order(n));
    }
  }
}
