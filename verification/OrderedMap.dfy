/** JavaScript's `Map` with its insertion order, as the list of its entries. */
module OrderedMap {
  import opened Wrappers

  type OMap<V> = seq<(nat, V)>

  function Keys<V>(m: OMap<V>): (r: seq<nat>)
    ensures |r| == |m| && forall i :: 0 <= i < |m| ==> r[i] == m[i].0
  {
    seq(|m|, i requires 0 <= i < |m| => m[i].0)
  }

  ghost predicate Keyed<V>(m: OMap<V>) {
    forall i, j :: 0 <= i < j < |m| ==> m[i].0 != m[j].0
  }

  function Get<V>(m: OMap<V>, k: nat): Option<V> {
    if m == [] then None else if m[0].0 == k then Some(m[0].1) else Get(m[1..], k)
  }

  /** An existing key keeps its place, a new one goes last. */
  function Set<V>(m: OMap<V>, k: nat, v: V): OMap<V> {
    if m == [] then [(k, v)]
    else if m[0].0 == k then [(k, v)] + m[1..]
    else [m[0]] + Set(m[1..], k, v)
  }

  /** The newest `max` entries. */
  function Newest<V>(m: OMap<V>, max: nat): OMap<V> {
    if |m| > max then m[|m| - max..] else m
  }

  lemma {:induction false} GetAfterSet<V>(m: OMap<V>, k: nat, v: V, j: nat)
    ensures Get(Set(m, k, v), j) == if j == k then Some(v) else Get(m, j)
  {
    if m != [] {
      GetAfterSet(m[1..], k, v, j);
    }
  }

  /** `Set` in terms of positions. */
  lemma {:induction false} SetPlaces<V>(m: OMap<V>, k: nat, v: V)
    ensures Get(m, k).None? ==> Set(m, k, v) == m + [(k, v)]
    ensures Get(m, k).Some? ==> Keys(Set(m, k, v)) == Keys(m)
    ensures Get(m, k).Some? <==> k in Keys(m)
  {
    hide Keys;
    if m != [] {
      SetPlaces(m[1..], k, v);
      assert Keys(m) == [m[0].0] + Keys(m[1..]);
      if m[0].0 != k {
        assert Keys(Set(m, k, v)) == [m[0].0] + Keys(Set(m[1..], k, v));
      } else {
        assert Keys(Set(m, k, v)) == Keys(m);
      }
    }
  }

  /** Dropping the oldest entries drops the values of their keys and no others. */
  lemma {:induction false} GetAfterDrop<V>(m: OMap<V>, n: nat, k: nat)
    requires Keyed(m) && n <= |m|
    ensures Get(m[n..], k) == if k in Keys(m[..n]) then None else Get(m, k)
  {
    if n == 0 {
      assert m[0..] == m;
    } else {
      assert m[1..][n - 1..] == m[n..];
      GetAfterDrop(m[1..], n - 1, k);
      assert Keys(m[..n]) == [m[0].0] + Keys(m[1..][..n - 1]);
      if m[0].0 == k {
        SetPlaces(m[n..], k, m[0].1);
        assert k !in Keys(m[n..]);
      }
    }
  }

  lemma {:induction false} GetAt<V>(m: OMap<V>, i: nat)
    requires Keyed(m) && i < |m|
    ensures Get(m, m[i].0) == Some(m[i].1)
  {
    if i > 0 {
      GetAt(m[1..], i - 1);
    }
  }

  /** `pruneSetToMax`: deletes the first keys until at most `max` remain. */
  method PruneSetToMax<V>(m: OMap<V>, max: nat) returns (r: OMap<V>, deletedItems: nat)
    ensures r == Newest(m, max)
    ensures deletedItems == |m| - |r|
  {
    r := m;
    var itemsToDelete: int := |m| - max;
    deletedItems := if itemsToDelete > 0 then itemsToDelete else 0;
    if itemsToDelete > 0 {
      while r != []
        invariant 0 < itemsToDelete <= |r| && itemsToDelete == |r| - max
        invariant r == m[|m| - |r|..]
        decreases |r|
      {
        r := r[1..];
        itemsToDelete := itemsToDelete - 1;
        if itemsToDelete <= 0 {
          break;
        }
      }
    }
  }
}
