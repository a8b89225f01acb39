/** Ordering of the activation queue by (eligibility epoch, index). */
module ActivationQueue {
  import opened Permutations
  import opened Registry

  /** The order of the source's comparator on validators whose eligibility epoch is set. */
  predicate Precedes(vs: seq<Validator>, a: nat, b: nat)
    requires a < |vs| && b < |vs|
    requires vs[a].activationEligibilityEpoch.At? && vs[b].activationEligibilityEpoch.At?
  {
    var x, y := vs[a].activationEligibilityEpoch.epoch, vs[b].activationEligibilityEpoch.epoch;
    x < y || (x == y && a < b)
  }

  /** Indices of validators with a set eligibility epoch. */
  ghost predicate Queued(vs: seq<Validator>, q: seq<nat>) {
    forall i :: 0 <= i < |q| ==> q[i] < |vs| && vs[q[i]].activationEligibilityEpoch.At?
  }

  ghost predicate InOrder(vs: seq<Validator>, q: seq<nat>)
    requires Queued(vs, q)
  {
    forall i, j :: 0 <= i < j < |q| ==> Precedes(vs, q[i], q[j])
  }

  /** Inserts an index behind everything that precedes it. */
  function Insert(vs: seq<Validator>, q: seq<nat>, x: nat): (r: seq<nat>)
    requires Queued(vs, q) && Queued(vs, [x])
    ensures Queued(vs, r)
  {
    assert [x][0] == x;
    if q == [] then [x]
    else
      var last := q[|q| - 1];
      if Precedes(vs, last, x) then q + [x] else Insert(vs, q[..|q| - 1], x) + [last]
  }

  /** `indices.sort(comparator)`: the comparator is a strict total order on distinct indices, so
      by `OrderUnique` every correct sort gives this list. */
  function Sort(vs: seq<Validator>, q: seq<nat>): (r: seq<nat>)
    requires Queued(vs, q)
    ensures Queued(vs, r)
  {
    if q == [] then []
    else
      Insert(vs, Sort(vs, q[..|q| - 1]), q[|q| - 1])
  }

  lemma {:induction false} InsertSorts(vs: seq<Validator>, q: seq<nat>, x: nat)
    requires Queued(vs, q) && Queued(vs, [x]) && InOrder(vs, q) && x !in q
    ensures InOrder(vs, Insert(vs, q, x))
    ensures multiset(Insert(vs, q, x)) == multiset(q) + multiset{x}
  {
    hide Precedes;
    assert [x][0] == x;
    if q != [] {
      var n := |q| - 1;
      var init, last := q[..n], q[n];
      assert q == init + [last];
      if !Precedes(vs, last, x) {
        InsertSorts(vs, init, x);
        InsertBelow(vs, init, x, last);
      } else {
        AppendInOrder(vs, q, x);
      }
    }
  }

  lemma AppendInOrder(vs: seq<Validator>, q: seq<nat>, x: nat)
    requires q != [] && Queued(vs, q) && Queued(vs, [x]) && Queued(vs, q + [x]) && InOrder(vs, q)
    requires [x][0] == x && Precedes(vs, q[|q| - 1], x)
    ensures InOrder(vs, q + [x])
  {
    forall i | 0 <= i < |q| ensures Precedes(vs, q[i], x) {
      assert i < |q| - 1 ==> Precedes(vs, q[i], q[|q| - 1]);
    }
  }

  /** The inserted index and the rest stay below a later entry. */
  lemma InsertBelow(vs: seq<Validator>, init: seq<nat>, x: nat, last: nat)
    requires Queued(vs, init) && Queued(vs, [x]) && Queued(vs, [last])
    requires multiset(Insert(vs, init, x)) == multiset(init) + multiset{x}
    requires [x][0] == x && [last][0] == last && x != last && !Precedes(vs, last, x)
    requires forall i :: 0 <= i < |init| ==> Precedes(vs, init[i], last)
    ensures forall i :: 0 <= i < |Insert(vs, init, x)| ==> Precedes(vs, Insert(vs, init, x)[i], last)
  {
    var r := Insert(vs, init, x);
    SameMembers(r, init + [x]);
    forall i | 0 <= i < |r| ensures Precedes(vs, r[i], last) {
      assert r[i] in init + [x];
    }
  }

  lemma {:induction false} SortSorts(vs: seq<Validator>, q: seq<nat>)
    requires Queued(vs, q) && Distinct(q)
    ensures InOrder(vs, Sort(vs, q)) && multiset(Sort(vs, q)) == multiset(q)
  {
    if q != [] {
      var n := |q| - 1;
      SortSorts(vs, q[..n]);
      var rest := Sort(vs, q[..n]);
      assert q == q[..n] + [q[n]];
      SameMembers(rest, q[..n]);
      InsertSorts(vs, rest, q[n]);
    }
  }

  lemma SameLast(vs: seq<Validator>, q: seq<nat>, r: seq<nat>)
    requires Queued(vs, q) && Queued(vs, r) && InOrder(vs, q) && InOrder(vs, r)
    requires |q| == |r| > 0 && forall x :: x in q <==> x in r
    ensures q[|q| - 1] == r[|r| - 1]
  {
    var n := |q| - 1;
    assert q[n] in r && r[n] in q;
    var i :| 0 <= i <= n && r[i] == q[n];
    var j :| 0 <= j <= n && q[j] == r[n];
  }

  lemma DropLast(q: seq<nat>)
    requires |q| > 0
    ensures multiset(q[..|q| - 1]) == multiset(q) - multiset{q[|q| - 1]}
  {
    assert q == q[..|q| - 1] + [q[|q| - 1]];
  }

  /** Two ordered lists of the same indices are the same list. */
  lemma {:induction false} OrderUnique(vs: seq<Validator>, q: seq<nat>, r: seq<nat>)
    requires Queued(vs, q) && Queued(vs, r) && InOrder(vs, q) && InOrder(vs, r)
    requires multiset(q) == multiset(r)
    ensures q == r
  {
    hide Precedes;
    SameMembers(q, r);
    if q != [] {
      var n := |q| - 1;
      SameLast(vs, q, r);
      DropLast(q);
      DropLast(r);
      OrderUnique(vs, q[..n], r[..n]);
      assert q == q[..n] + [q[n]] && r == r[..n] + [r[n]];
    }
  }

  /** The entries at the head of the queue that are eligible by epoch `f`. */
  function EligibleHead(vs: seq<Validator>, q: seq<nat>, f: nat): (m: nat)
    requires forall i :: 0 <= i < |q| ==> q[i] < |vs|
    ensures m <= |q|
  {
    if q != [] && vs[q[0]].activationEligibilityEpoch.By(f) then 1 + EligibleHead(vs, q[1..], f) else 0
  }

  lemma {:induction false} HeadSplits(vs: seq<Validator>, q: seq<nat>, f: nat)
    requires Queued(vs, q) && InOrder(vs, q)
    ensures forall i :: 0 <= i < |q| ==> (vs[q[i]].activationEligibilityEpoch.By(f) <==> i < EligibleHead(vs, q, f))
  {
    if q != [] && vs[q[0]].activationEligibilityEpoch.By(f) {
      HeadSplits(vs, q[1..], f);
      forall i | 0 < i < |q|
        ensures vs[q[i]].activationEligibilityEpoch.By(f) <==> i < EligibleHead(vs, q, f)
      {
        assert q[i] == q[1..][i - 1];
      }
    } else {
      forall i | 0 <= i < |q| ensures !vs[q[i]].activationEligibilityEpoch.By(f) {
        assert i > 0 ==> Precedes(vs, q[0], q[i]);
      }
    }
  }

  /** `is_eligible_for_activation` of the phase0 specification, for finalized epoch `f`. */
  function EligibleBy(f: nat): Validator -> bool {
    (v: Validator) => v.activationEpoch.Never? && v.activationEligibilityEpoch.By(f)
  }

  lemma SelectedQueued(vs: seq<Validator>, f: nat)
    ensures Queued(vs, Select(vs, EligibleBy(f))) && Distinct(Select(vs, EligibleBy(f)))
  {
    var q := Select(vs, EligibleBy(f));
    SelectMembers(vs, EligibleBy(f));
    forall i | 0 <= i < |q| ensures q[i] < |vs| && vs[q[i]].activationEligibilityEpoch.At? {
      assert q[i] in q;
    }
  }

  /** The activation queue of the specification: eligible validators by (epoch, index). */
  function SpecQueue(vs: seq<Validator>, f: nat): (r: seq<nat>)
    ensures Queued(vs, r)
  {
    SelectedQueued(vs, f);
    Sort(vs, Select(vs, EligibleBy(f)))
  }

  lemma QueueIsOrdered(vs: seq<Validator>, f: nat)
    ensures InOrder(vs, SpecQueue(vs, f)) && multiset(SpecQueue(vs, f)) == multiset(Select(vs, EligibleBy(f)))
  {
    hide Select, Sort;
    SelectedQueued(vs, f);
    SortSorts(vs, Select(vs, EligibleBy(f)));
  }

  lemma PrefixOrdered(vs: seq<Validator>, q: seq<nat>, m: nat)
    requires Queued(vs, q) && InOrder(vs, q) && m <= |q|
    ensures Queued(vs, q[..m]) && InOrder(vs, q[..m])
  {
    hide Precedes;
  }

  lemma {:induction false} HeadMultiset(vs: seq<Validator>, q: seq<nat>, f: nat, g: nat)
    requires f <= g
    requires multiset(q) == multiset(Select(vs, EligibleBy(g)))
    requires Queued(vs, q) && InOrder(vs, q)
    ensures multiset(q[..EligibleHead(vs, q, f)]) == multiset(Select(vs, EligibleBy(f)))
  {
    var m := EligibleHead(vs, q, f);
    var a, b := q[..m], Select(vs, EligibleBy(f));
    HeadSplits(vs, q, f);
    SelectMembers(vs, EligibleBy(f));
    SelectMembers(vs, EligibleBy(g));
    SameMembers(q, Select(vs, EligibleBy(g)));
    DistinctByMultiset(Select(vs, EligibleBy(g)), q);
    forall v: nat ensures v in a <==> v in b {
      if v in a {
        var i :| 0 <= i < m && q[i] == v;
        assert v in q;
      }
      if v in b {
        assert v in q;
        var i :| 0 <= i < |q| && q[i] == v;
        assert i < m;
        assert a[i] == v;
      }
    }
    DistinctSameMembers(a, b);
  }

  lemma DistinctSameMembers(a: seq<nat>, b: seq<nat>)
    requires Distinct(a) && Distinct(b)
    requires forall v: nat :: v in a <==> v in b
    ensures multiset(a) == multiset(b)
  {
    DistinctCounts(a);
    DistinctCounts(b);
    forall v: nat ensures multiset(a)[v] == multiset(b)[v] {
      assert v in a <==> v in multiset(a);
      assert v in b <==> v in multiset(b);
    }
  }

  /** The queue prepared for epoch `g` serves every earlier finalized epoch `f`: the entries
      eligible by `f` are a prefix of it, and that prefix is the specification's queue. */
  lemma PreparedQueueServes(vs: seq<Validator>, f: nat, g: nat)
    requires f <= g
    ensures var q := SpecQueue(vs, g);
      && InOrder(vs, q) && multiset(q) == multiset(Select(vs, EligibleBy(g)))
      && q[..EligibleHead(vs, q, f)] == SpecQueue(vs, f)
  {
    hide Select, SpecQueue, EligibleHead, InOrder, Precedes;
    QueueIsOrdered(vs, g);
    QueueIsOrdered(vs, f);
    var q := SpecQueue(vs, g);
    HeadMultiset(vs, q, f, g);
    PrefixOrdered(vs, q, EligibleHead(vs, q, f));
    OrderUnique(vs, q[..EligibleHead(vs, q, f)], SpecQueue(vs, f));
  }
}
