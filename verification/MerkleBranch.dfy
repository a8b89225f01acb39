/** `verifyMerkleBranch`: a branch of sibling hashes against a root. */
module MerkleBranch {
  import opened Bytes
  import opened Wrappers
  import Arith

  // ----- The climb -----

  /** Position of the ancestor of leaf `index` within its level. */
  function Ancestor(index: nat, level: nat): nat {
    if level == 0 then index else Ancestor(index, level - 1) / 2
  }

  /** The code divides by a power of two instead of halving level by level. */
  lemma {:induction false} AncestorIsQuotient(index: nat, level: nat)
    ensures Ancestor(index, level) == index / Pow2(level)
  {
    if level > 0 {
      AncestorIsQuotient(index, level - 1);
      Halve(index, Pow2(level - 1));
    }
  }

  lemma Halve(n: nat, h: nat)
    requires h > 0
    ensures n / h / 2 == n / (2 * h)
  {
    var q := n / h;
    var r, b := q / 2, q % 2;
    assert n == q * h + n % h;
    assert q * h == r * (2 * h) + b * h;
    Arith.DivUnique(n, 2 * h, r);
  }

  /** Whether the ancestor at `level` is a right child. */
  predicate IsRight(index: nat, level: nat) {
    Ancestor(index, level) % 2 == 1
  }

  /** The 64 bytes hashed at `level`. */
  function Preimage(hash: Hash, leaf: Digest, proof: seq<Digest>, index: nat, level: nat): seq<byte>
    requires level < |proof|
    decreases level, 1
  {
    var value: seq<byte> := Climb(hash, leaf, proof, index, level);
    var sibling: seq<byte> := proof[level];
    if IsRight(index, level) then sibling + value else value + sibling
  }

  /** The value that the branch gives to the ancestor `depth` levels above the leaf. */
  function Climb(hash: Hash, leaf: Digest, proof: seq<Digest>, index: nat, depth: nat): Digest
    requires depth <= |proof|
    decreases depth, 0
  {
    if depth == 0 then leaf else hash(Preimage(hash, leaf, proof, index, depth - 1))
  }

  /** A branch leads to `root`; `None` where an entry of the branch is missing, which throws. */
  function BranchLeadsTo(hash: Hash, leaf: Digest, proof: seq<Digest>, depth: nat, index: nat, root: Digest): Option<bool> {
    if |proof| < depth then None else Some(Climb(hash, leaf, proof, index, depth) == root)
  }

  /** `verifyMerkleBranch` */
  method VerifyMerkleBranch(hash: Hash, leaf: Digest, proof: seq<Digest>, depth: nat, index: nat, root: Digest)
    returns (r: Option<bool>)
    ensures r == BranchLeadsTo(hash, leaf, proof, depth, index, root)
  {
    var value := leaf;
    var i: nat := 0;
    while i < depth
      invariant i <= depth && i <= |proof|
      invariant value == Climb(hash, leaf, proof, index, i)
    {
      if i >= |proof| {
        return None;
      }
      AncestorIsQuotient(index, i);
      var sibling: seq<byte>, current: seq<byte> := proof[i], value;
      if index / Pow2(i) % 2 != 0 {
        value := hash(sibling + current);
      } else {
        value := hash(current + sibling);
      }
      i := i + 1;
    }
    return Some(value == root);
  }

  // ----- Complete trees -----

  /** Level `level` of the complete tree over `leaves`, from the leaves up. */
  function Layer(hash: Hash, leaves: seq<Digest>, depth: nat, level: nat): (nodes: seq<Digest>)
    requires |leaves| == Pow2(depth) && level <= depth
    ensures |nodes| == Pow2(depth - level)
  {
    if level == 0 then leaves
    else NextLayer(hash, Layer(hash, leaves, depth, level - 1), Pow2(depth - level))
  }

  function NextLayer(hash: Hash, below: seq<Digest>, n: nat): (nodes: seq<Digest>)
    requires |below| == 2 * n
    ensures |nodes| == n
    ensures forall i :: 0 <= i < n ==> nodes[i] == Parent(hash, below[2 * i], below[2 * i + 1])
  {
    seq(n, i requires 0 <= i < n => Parent(hash, below[2 * i], below[2 * i + 1]))
  }

  function Parent(hash: Hash, left: seq<byte>, right: seq<byte>): Digest {
    hash(left + right)
  }

  function TreeRoot(hash: Hash, leaves: seq<Digest>, depth: nat): Digest
    requires |leaves| == Pow2(depth)
  {
    Layer(hash, leaves, depth, depth)[0]
  }

  function Sibling(i: nat): nat {
    if i % 2 == 1 then i - 1 else i + 1
  }

  /** Ancestors, and below the root their siblings, lie within their levels. */
  lemma {:induction false} AncestorFits(index: nat, depth: nat, level: nat)
    requires index < Pow2(depth) && level <= depth
    ensures Ancestor(index, level) < Pow2(depth - level)
    ensures level < depth ==> Sibling(Ancestor(index, level)) < Pow2(depth - level)
  {
    if level > 0 {
      AncestorFits(index, depth, level - 1);
    }
  }

  /** The honest branch of leaf `index`: the siblings of its ancestors. */
  function Branch(hash: Hash, leaves: seq<Digest>, depth: nat, index: nat): (proof: seq<Digest>)
    requires |leaves| == Pow2(depth) && index < |leaves|
    ensures |proof| == depth
  {
    seq(depth, level requires 0 <= level < depth =>
      AncestorFits(index, depth, level);
      Layer(hash, leaves, depth, level)[Sibling(Ancestor(index, level))])
  }

  lemma ChildrenFit(height: nat, i: nat)
    requires height > 0 && i < Pow2(height - 1)
    ensures 2 * i + 1 < Pow2(height)
  {
  }

  lemma LayerAt(hash: Hash, leaves: seq<Digest>, depth: nat, level: nat, i: nat)
    requires |leaves| == Pow2(depth) && level < depth && i < Pow2(depth - level - 1)
    requires 2 * i + 1 < Pow2(depth - level)
    ensures var below := Layer(hash, leaves, depth, level);
      Layer(hash, leaves, depth, level + 1)[i] == Parent(hash, below[2 * i], below[2 * i + 1])
  {
    hide NextLayer, Parent;
  }

  lemma BranchAt(hash: Hash, leaves: seq<Digest>, depth: nat, index: nat, level: nat)
    requires |leaves| == Pow2(depth) && index < |leaves| && level < depth
    ensures Sibling(Ancestor(index, level)) < Pow2(depth - level)
    ensures Branch(hash, leaves, depth, index)[level] == Layer(hash, leaves, depth, level)[Sibling(Ancestor(index, level))]
  {
    AncestorFits(index, depth, level);
  }

  /** An ancestor hashes its child on the path and that child's sibling, in order. */
  lemma AncestorHashes(hash: Hash, leaves: seq<Digest>, depth: nat, index: nat, level: nat)
    requires |leaves| == Pow2(depth) && index < |leaves| && level < depth
    ensures Ancestor(index, level + 1) < Pow2(depth - level - 1) && Ancestor(index, level) < Pow2(depth - level)
    ensures Layer(hash, leaves, depth, level + 1)[Ancestor(index, level + 1)] ==
      (var value: seq<byte> := Layer(hash, leaves, depth, level)[Ancestor(index, level)];
       var sibling: seq<byte> := Branch(hash, leaves, depth, index)[level];
       if IsRight(index, level) then hash(sibling + value) else hash(value + sibling))
  {
    hide Layer, Branch, Pow2;
    AncestorFits(index, depth, level);
    AncestorFits(index, depth, level + 1);
    ChildrenFit(depth - level, Ancestor(index, level + 1));
    LayerAt(hash, leaves, depth, level, Ancestor(index, level + 1));
    BranchAt(hash, leaves, depth, index, level);
  }

  /** The climb along an honest branch passes through the ancestors of its leaf. */
  lemma {:induction false} ClimbIsAncestor(hash: Hash, leaves: seq<Digest>, depth: nat, index: nat, level: nat)
    requires |leaves| == Pow2(depth) && index < |leaves| && level <= depth
    ensures Ancestor(index, level) < Pow2(depth - level)
    ensures Climb(hash, leaves[index], Branch(hash, leaves, depth, index), index, level)
         == Layer(hash, leaves, depth, level)[Ancestor(index, level)]
  {
    hide Pow2, Ancestor, Branch, IsRight, Layer;
    AncestorFits(index, depth, level);
    if level > 0 {
      ClimbIsAncestor(hash, leaves, depth, index, level - 1);
      AncestorHashes(hash, leaves, depth, index, level - 1);
    } else {
      BottomLayer(hash, leaves, depth, index);
    }
  }

  lemma BottomLayer(hash: Hash, leaves: seq<Digest>, depth: nat, index: nat)
    requires |leaves| == Pow2(depth) && index < |leaves|
    ensures Layer(hash, leaves, depth, 0)[Ancestor(index, 0)] == leaves[index]
  {
  }

  /** Every leaf of every complete tree is accepted with its honest branch. */
  lemma HonestBranchAccepted(hash: Hash, leaves: seq<Digest>, depth: nat, index: nat)
    requires |leaves| == Pow2(depth) && index < |leaves|
    ensures BranchLeadsTo(hash, leaves[index], Branch(hash, leaves, depth, index), depth, index,
                          TreeRoot(hash, leaves, depth)) == Some(true)
  {
    ClimbIsAncestor(hash, leaves, depth, index, depth);
  }

  // ----- Binding -----

  /** At `level` the two climbs hash different inputs to the same digest. */
  ghost predicate CollidesAt(hash: Hash, leaf: Digest, proof: seq<Digest>, leaf': Digest, proof': seq<Digest>,
                             index: nat, level: nat)
    requires level < |proof| && level < |proof'|
  {
    var x, y := Preimage(hash, leaf, proof, index, level), Preimage(hash, leaf', proof', index, level);
    x != y && hash(x) == hash(y)
  }

  /** Two accepted branches for one index, depth and root are equal, or the two verifications
      themselves hash two different inputs to the same digest. */
  lemma {:induction false} BranchesBind(hash: Hash, leaf: Digest, proof: seq<Digest>, leaf': Digest, proof': seq<Digest>,
                                        depth: nat, index: nat, root: Digest)
    requires BranchLeadsTo(hash, leaf, proof, depth, index, root) == Some(true)
    requires BranchLeadsTo(hash, leaf', proof', depth, index, root) == Some(true)
    ensures (leaf == leaf' && proof[..depth] == proof'[..depth])
         || exists level :: 0 <= level < depth && CollidesAt(hash, leaf, proof, leaf', proof', index, level)
  {
    if depth > 0 && !CollidesAt(hash, leaf, proof, leaf', proof', index, depth - 1) {
      var d := depth - 1;
      var v, w := Climb(hash, leaf, proof, index, d), Climb(hash, leaf', proof', index, d);
      SplitEqual(v, proof[d], w, proof'[d], IsRight(index, d));
      BranchesBind(hash, leaf, proof, leaf', proof', d, index, v);
      assert proof[..depth] == proof[..d] + [proof[d]];
      assert proof'[..depth] == proof'[..d] + [proof'[d]];
    }
  }

  lemma SplitEqual(v: Digest, p: Digest, w: Digest, q: Digest, right: bool)
    requires if right then p + v == q + w else v + p == w + q
    ensures v == w && p == q
  {
    var x, y := if right then p + v else v + p, if right then q + w else w + q;
    assert x[..32] == y[..32] && x[32..] == y[32..];
  }

  /** An accepted branch for the root of a complete tree names the tree's own leaf, or collides with
      the honest branch. */
  lemma AcceptedLeafIsTheTrees(hash: Hash, leaves: seq<Digest>, depth: nat, index: nat, leaf: Digest, proof: seq<Digest>)
    requires |leaves| == Pow2(depth) && index < |leaves|
    requires BranchLeadsTo(hash, leaf, proof, depth, index, TreeRoot(hash, leaves, depth)) == Some(true)
    ensures leaf == leaves[index]
         || exists level :: 0 <= level < depth && CollidesAt(hash, leaf, proof, leaves[index], Branch(hash, leaves, depth, index), index, level)
  {
    HonestBranchAccepted(hash, leaves, depth, index);
    BranchesBind(hash, leaf, proof, leaves[index], Branch(hash, leaves, depth, index), depth, index,
                 TreeRoot(hash, leaves, depth));
  }

  /** Only the low `depth` bits of the index matter: its range is not checked. */
  lemma {:induction false} HighBitsIgnored(hash: Hash, leaf: Digest, proof: seq<Digest>, depth: nat, index: nat, k: nat, top: nat)
    requires depth <= top && depth <= |proof|
    ensures Climb(hash, leaf, proof, index, depth) == Climb(hash, leaf, proof, index + k * Pow2(top), depth)
  {
    hide Pow2, Ancestor;
    if depth > 0 {
      HighBitsIgnored(hash, leaf, proof, depth - 1, index, k, top);
      AncestorOfSum(index, depth - 1, k, top);
      DoublePower(k, top - depth);
    }
  }

  lemma {:induction false} AncestorOfSum(index: nat, level: nat, k: nat, top: nat)
    requires level <= top
    ensures Ancestor(index + k * Pow2(top), level) == Ancestor(index, level) + k * Pow2(top - level)
  {
    if level > 0 {
      AncestorOfSum(index, level - 1, k, top);
      DoublePower(k, top - level);
    }
  }

  lemma DoublePower(k: nat, e: nat)
    ensures k * Pow2(e + 1) == 2 * (k * Pow2(e))
  {
  }
}
