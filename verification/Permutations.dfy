/** Reindexing a sequence by a permutation keeps its items. */
module Permutations {

  ghost predicate Distinct<T>(xs: seq<T>) {
    forall i, j :: 0 <= i < j < |xs| ==> xs[i] != xs[j]
  }

  ghost predicate StrictlyIncreasing(xs: seq<nat>) {
    forall i, j :: 0 <= i < j < |xs| ==> xs[i] < xs[j]
  }

  ghost predicate Permutes(p: seq<nat>) {
    Distinct(p) && forall i :: 0 <= i < |p| ==> p[i] < |p|
  }

  function Reindex<T>(xs: seq<T>, p: seq<nat>): (ys: seq<T>)
    requires forall i :: 0 <= i < |p| ==> p[i] < |xs|
    ensures |ys| == |p| && forall i :: 0 <= i < |p| ==> ys[i] == xs[p[i]]
  {
    seq(|p|, i requires 0 <= i < |p| => xs[p[i]])
  }

  /** `p` with its last entry removed and that entry's value replaced by the freed index. */
  function Shrink(p: seq<nat>): (q: seq<nat>)
    requires |p| > 0
    ensures |q| == |p| - 1
    ensures forall i :: 0 <= i < |q| ==> q[i] == if p[i] == |p| - 1 then p[|p| - 1] else p[i]
  {
    var n := |p| - 1;
    seq(n, i requires 0 <= i < n => if p[i] == n then p[n] else p[i])
  }

  lemma MoveLast<T>(xs: seq<T>, k: nat)
    requires k < |xs|
    ensures multiset(xs) == multiset(xs[k := xs[|xs| - 1]][..|xs| - 1]) + multiset{xs[k]}
  {
    var n := |xs| - 1;
    var ys := xs[k := xs[n]][n := xs[k]];
    assert multiset(ys) == multiset(xs);
    assert ys == xs[k := xs[n]][..n] + [xs[k]];
  }

  lemma {:induction false} ReindexKeepsItems<T>(xs: seq<T>, p: seq<nat>)
    requires |p| == |xs| && Permutes(p)
    ensures multiset(Reindex(xs, p)) == multiset(xs)
    decreases |xs|
  {
    var n := |xs| - 1;
    if n < 0 {
      assert Reindex(xs, p) == xs;
    } else {
      var k := p[n];
      var xs', p' := xs[k := xs[n]][..n], Shrink(p);
      ReindexKeepsItems(xs', p');
      assert Reindex(xs, p) == Reindex(xs', p') + [xs[k]];
      MoveLast(xs, k);
    }
  }

  lemma DistinctByMultiset<T>(xs: seq<T>, ys: seq<T>)
    requires Distinct(xs) && multiset(xs) == multiset(ys)
    ensures Distinct(ys)
  {
    DistinctCounts(xs);
    forall i, j | 0 <= i < j < |ys| ensures ys[i] != ys[j] {
      if ys[i] == ys[j] {
        Repeats(ys, i, j);
      }
    }
  }

  lemma Repeats<T>(ys: seq<T>, i: nat, j: nat)
    requires i < j < |ys| && ys[i] == ys[j]
    ensures multiset(ys)[ys[i]] >= 2
  {
    assert ys == ys[..j] + [ys[j]] + ys[j + 1..];
    assert ys[i] in ys[..j];
  }

  lemma {:induction false} DistinctCounts<T>(xs: seq<T>)
    requires Distinct(xs)
    ensures forall x :: multiset(xs)[x] <= 1
  {
    if xs != [] {
      var n := |xs| - 1;
      DistinctCounts(xs[..n]);
      assert xs == xs[..n] + [xs[n]];
      assert xs[n] !in xs[..n];
    }
  }

  lemma SameMembers<T>(xs: seq<T>, ys: seq<T>)
    requires multiset(xs) == multiset(ys)
    ensures |xs| == |ys| && forall x :: x in xs <==> x in ys
  {
    assert |multiset(xs)| == |xs| && |multiset(ys)| == |ys|;
    forall x ensures x in xs <==> x in ys {
      assert x in xs <==> x in multiset(xs);
      assert x in ys <==> x in multiset(ys);
    }
  }
}
