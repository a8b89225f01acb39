/** Proposers and sync committees: draws of the shuffled order, weighted by effective balance. */
module Sampling {
  import opened Bytes
  import opened Shuffle
  import opened ShuffleList
  import opened Wrappers
  import opened Params
  import Arith

  /** Largest list `computeShuffledIndex` takes. */
  const MAX_COUNT: nat := 0x100_0000_0000
  const MAX_RANDOM_BYTE: nat := 255

  const DOMAIN_BEACON_PROPOSER: seq<byte> := [0, 0, 0, 0]
  const DOMAIN_BEACON_ATTESTER: seq<byte> := [1, 0, 0, 0]
  const DOMAIN_SYNC_COMMITTEE: seq<byte> := [7, 0, 0, 0]

  // ----- Seeds -----

  function RandaoMix(c: Config, mixes: seq<Digest>, epoch: nat): Digest
    requires |mixes| == c.epochsPerHistoricalVector
  {
    mixes[epoch % c.epochsPerHistoricalVector]
  }

  function Seed(c: Config, mixes: seq<Digest>, epoch: nat, domain: seq<byte>): Digest
    requires |mixes| == c.epochsPerHistoricalVector
  {
    var mix := RandaoMix(c, mixes, epoch + c.epochsPerHistoricalVector - c.minSeedLookahead - 1);
    c.hash(domain + IntToBytes(epoch, 8) + mix)
  }

  /** Epoch `w`'s slot of the ring does not hold the mix that the seed of epoch `e` uses. */
  lemma SeedSlot(c: Config, e: nat, w: nat)
    requires e < w + c.minSeedLookahead + 1 < e + c.epochsPerHistoricalVector
    ensures (e + c.epochsPerHistoricalVector - c.minSeedLookahead - 1) % c.epochsPerHistoricalVector
         != w % c.epochsPerHistoricalVector
  {
    CongruentGap(e + c.epochsPerHistoricalVector - c.minSeedLookahead - 1, w, c.epochsPerHistoricalVector);
  }

  lemma CongruentGap(a: nat, w: nat, v: nat)
    requires w < a < w + v
    ensures a % v != w % v
  {
    var d := a / v - w / v;
    assert a - w == v * d + (a % v - w % v);
    if d <= 0 {
      assert v * d <= 0;
    } else {
      assert v * d >= v;
    }
  }

  // ----- Draws -----

  /** The sequence of draws from `indices` by `sh`, accepted by effective balance increments. */
  datatype Draws = Draws(sh: Shuffler, indices: seq<nat>, increments: seq<nat>, maxIncrements: nat) {

    function Candidate(i: nat): (v: nat)
      requires indices != []
      ensures v in indices
    {
      indices[sh.Shuffled(|indices|, i % |indices|)]
    }

    function RandByte(i: nat): byte {
      sh.hash(sh.seed + IntToBytes(i / 32, 8))[i % 32]
    }

    /** An index outside the increments reads as undefined, and the comparison is then false. */
    predicate Accepts(i: nat)
      requires indices != []
    {
      var v := Candidate(i);
      v < |increments| && increments[v] * MAX_RANDOM_BYTE >= maxIncrements * RandByte(i)
    }

    ghost predicate HasFullBalance(v: nat) {
      v < |increments| && increments[v] >= maxIncrements
    }

    ghost predicate SomeFullBalance() {
      exists v :: v in indices && HasFullBalance(v)
    }

    /** A validator of full effective balance is accepted whatever the random byte. */
    lemma FullBalanceAccepted(i: nat)
      requires indices != [] && HasFullBalance(Candidate(i))
      ensures Accepts(i)
    {
      var r := RandByte(i);
      Arith.MulMono(r, MAX_RANDOM_BYTE, maxIncrements);
      Arith.MulMono(maxIncrements, increments[Candidate(i)], MAX_RANDOM_BYTE);
    }

    /** One turn of draws, starting from a multiple of the number of indices. */
    function Turn(q: nat): (vs: seq<nat>)
      requires indices != []
      ensures |vs| == |indices|
      ensures forall k :: 0 <= k < |indices| ==> vs[k] == Candidate(q * |indices| + k)
    {
      seq<nat>(|indices|, k requires 0 <= k < |indices| => Candidate(q * |indices| + k))
    }

    lemma TurnPosition(q: nat, k: nat)
      requires k < |indices|
      ensures Candidate(q * |indices| + k) == indices[sh.Shuffled(|indices|, k)]
    {
      var n := |indices|;
      Arith.DivUnique(q * n + k, n, q);
      assert (q * n + k) % n == k;
    }

    /** Every turn draws every index exactly once. */
    lemma TurnDrawsEachOnce(q: nat)
      requires indices != []
      ensures multiset(Turn(q)) == multiset(indices)
    {
      forall k | 0 <= k < |indices| ensures Turn(q)[k] == sh.UnshuffleSpec(indices)[k] {
        TurnPosition(q, k);
        sh.UnshuffleSpecAt(indices, k);
      }
      assert Turn(q) == sh.UnshuffleSpec(indices);
      sh.ShufflesKeepItems(indices);
    }

    /** In every turn there is a draw of `v`. */
    lemma DrawOf(q: nat, v: nat) returns (k: nat)
      requires v in indices
      ensures k < |indices| && Candidate(q * |indices| + k) == v
    {
      var t :| 0 <= t < |indices| && indices[t] == v;
      k := sh.Unshuffled(|indices|, t);
      sh.ShuffledBijection(|indices|, t);
      TurnPosition(q, k);
    }

    // ----- Proposer -----

    /** The first accepted draw from `i` on, or -1 after a whole turn. */
    function FirstAccepted(i: nat): (v: int)
      requires indices != [] && i <= |indices|
      decreases |indices| - i
    {
      if i == |indices| then -1 else if Accepts(i) then Candidate(i) else FirstAccepted(i + 1)
    }

    /** `v` is the candidate of the first accepted draw from `i` on. */
    ghost predicate IsFirst(v: int, i: nat)
      requires indices != []
    {
      exists j :: i <= j < |indices| && Accepts(j) && v == Candidate(j)
               && (forall k :: i <= k < j ==> !Accepts(k))
    }

    lemma {:induction false} FirstAcceptedFrom(i: nat)
      requires indices != [] && i <= |indices|
      ensures FirstAccepted(i) == -1 <==> forall j :: i <= j < |indices| ==> !Accepts(j)
      ensures FirstAccepted(i) != -1 ==> IsFirst(FirstAccepted(i), i)
      decreases |indices| - i
    {
      hide Accepts, Candidate;
      if i < |indices| && !Accepts(i) {
        FirstAcceptedFrom(i + 1);
        var v := FirstAccepted(i + 1);
        if v != -1 {
          var j :| i + 1 <= j < |indices| && Accepts(j) && v == Candidate(j) && forall k :: i + 1 <= k < j ==> !Accepts(k);
          assert forall k :: i <= k < j ==> !Accepts(k);
        }
      }
    }

    /** `computeProposerIndex` gives -1 exactly when all draws of the turn are rejected, and
        otherwise the candidate of the first accepted draw. */
    lemma ProposerIsFirstAccepted()
      requires indices != []
      ensures FirstAccepted(0) == -1 <==> forall j :: 0 <= j < |indices| ==> !Accepts(j)
      ensures FirstAccepted(0) != -1 ==> IsFirst(FirstAccepted(0), 0)
    {
      FirstAcceptedFrom(0);
    }

    /** With one index of full effective balance there is always a proposer. */
    lemma FullBalanceMeansProposer(v: nat)
      requires v in indices && HasFullBalance(v)
      ensures FirstAccepted(0) != -1 && FirstAccepted(0) in indices
    {
      var k := DrawOf(0, v);
      FullBalanceAccepted(k);
      FirstAcceptedFrom(0);
    }

    // ----- Sync committee -----

    /** The accepted candidates among the first `k` draws, in order. */
    function Taken(k: nat): (vs: seq<nat>)
      requires indices != []
      ensures forall v :: v in vs ==> v in indices
    {
      if k == 0 then [] else Taken(k - 1) + if Accepts(k - 1) then [Candidate(k - 1)] else []
    }

    lemma {:induction false} TakenGrows(j: nat, k: nat)
      requires indices != [] && j <= k
      ensures Taken(j) <= Taken(k)
    {
      hide Accepts, Candidate;
      if j < k {
        TakenGrows(j, k - 1);
      }
    }

    ghost function AcceptedBelow(k: nat): set<nat>
      requires indices != []
    {
      set i: nat | i < k && Accepts(i)
    }

    /** The members are as many as the accepted draws. */
    lemma {:induction false} TakenCounted(k: nat)
      requires indices != []
      ensures |Taken(k)| == |AcceptedBelow(k)|
    {
      hide Accepts, Candidate;
      if k == 0 {
        assert AcceptedBelow(0) == {};
      } else {
        TakenCounted(k - 1);
        assert AcceptedBelow(k) == if Accepts(k - 1) then AcceptedBelow(k - 1) + {k - 1} else AcceptedBelow(k - 1);
      }
    }

    /** The candidate of every accepted draw stands behind those accepted before it. */
    lemma {:induction false} TakenPlaces(i: nat, k: nat)
      requires indices != [] && i < k && Accepts(i)
      ensures |Taken(i)| < |Taken(k)| && Taken(k)[|Taken(i)|] == Candidate(i)
    {
      hide Accepts, Candidate;
      if i < k - 1 {
        TakenPlaces(i, k - 1);
      }
    }

    /** With one index of full effective balance, `q` turns take at least `q` members. */
    lemma {:induction false} TurnsTake(q: nat, v: nat)
      requires v in indices && HasFullBalance(v)
      ensures |Taken(q * |indices|)| >= q
    {
      hide Accepts, Candidate;
      var n := |indices|;
      if q > 0 {
        TurnsTake(q - 1, v);
        var k := DrawOf(q - 1, v);
        var j := (q - 1) * n + k;
        FullBalanceAccepted(j);
        TakenGrows((q - 1) * n, j);
        assert |Taken(j + 1)| == |Taken(j)| + 1;
        assert q * n == (q - 1) * n + n;
        TakenGrows(j + 1, q * n);
      }
    }

    /** While members are missing, fewer draws have been made than the bound. */
    lemma StillShort(i: nat, size: nat, v: nat)
      requires v in indices && HasFullBalance(v)
      requires |Taken(i)| < size
      ensures i < size * |indices|
    {
      hide Accepts, Candidate, Taken;
      if size * |indices| <= i {
        TakenGrows(size * |indices|, i);
        TurnsTake(size, v);
      }
    }

    /** Without one, a hash of all-255 digests makes every draw fail, for ever. */
    lemma {:induction false} NothingTaken(k: nat)
      requires indices != []
      requires forall v :: v in indices ==> !HasFullBalance(v)
      requires sh.hash == AllOnes()
      ensures Taken(k) == []
    {
      if k > 0 {
        NothingTaken(k - 1);
        var v := Candidate(k - 1);
        assert RandByte(k - 1) == MAX_RANDOM_BYTE;
        if v < |increments| {
          Arith.MulMono(increments[v] + 1, maxIncrements, MAX_RANDOM_BYTE);
        }
      }
    }

    static function AllOnes(): Hash {
      bytes => seq(32, _ => MAX_RANDOM_BYTE as byte)
    }

    function WithHash(hash: Hash): Draws {
      this.(sh := sh.(hash := hash))
    }

    ghost predicate Fills(size: nat)
      requires indices != []
    {
      exists k :: |Taken(k)| >= size
    }

    /** The loop of `getNextSyncCommitteeIndices` ends for every hash function exactly when some
        active validator has full effective balance. */
    lemma FillsForEveryHash(size: nat)
      requires indices != [] && size > 0
      ensures (forall hash: Hash :: WithHash(hash).Fills(size))
              <==> SomeFullBalance()
    {
      hide Accepts, Candidate, Taken;
      if SomeFullBalance() {
        var v :| v in indices && HasFullBalance(v);
        forall hash: Hash ensures WithHash(hash).Fills(size) {
          WithHash(hash).TurnsTake(size, v);
        }
      } else {
        var d := WithHash(AllOnes());
        forall k ensures |d.Taken(k)| < size {
          d.NothingTaken(k);
        }
        assert !d.Fills(size);
      }
    }
  }

  // ----- The loops of packages/beacon-state-transition/lib/util/seed.js -----

  /** The draws that `computeProposerIndex` and `getNextSyncCommitteeIndices` make. */
  function DrawsOf(c: Config, seed: Digest, indices: seq<nat>, increments: seq<nat>): Draws {
    Draws(Shuffler(c.hash, seed, c.shuffleRoundCount), indices, increments, c.MaxIncrements())
  }

  /** One draw: the candidate and whether it is accepted. */
  method Draw(d: Draws, i: nat) returns (candidateIndex: nat, accepted: bool)
    requires 0 < |d.indices| <= MAX_COUNT
    ensures candidateIndex == d.Candidate(i) && accepted == d.Accepts(i)
  {
    var shuffled := ComputeShuffledIndex(d.sh, i % |d.indices|, |d.indices|);
    candidateIndex := d.indices[shuffled.value];
    var randByte := d.sh.hash(d.sh.seed + IntToBytes(i / 32, 8))[i % 32];
    accepted := candidateIndex < |d.increments| &&
      d.increments[candidateIndex] * MAX_RANDOM_BYTE >= d.maxIncrements * randByte;
  }

  /** `computeProposerIndex`; `None` where an assertion throws. */
  method ComputeProposerIndex(d: Draws) returns (r: Option<int>)
    ensures r == if 0 < |d.indices| <= MAX_COUNT then Some(d.FirstAccepted(0)) else None
  {
    hide Draws.Accepts, Draws.Candidate;
    if !(0 < |d.indices| <= MAX_COUNT) {
      return None;
    }
    var i: nat := 0;
    while true
      invariant i < |d.indices|
      invariant d.FirstAccepted(i) == d.FirstAccepted(0)
      decreases |d.indices| - i
    {
      var candidateIndex, accepted := Draw(d, i);
      if accepted {
        return Some(candidateIndex);
      }
      i := i + 1;
      if i == |d.indices| {
        return Some(-1);
      }
    }
  }

  function ProposerSeed(c: Config, epochSeed: Digest, slot: nat): Digest {
    c.hash(epochSeed + IntToBytes(slot, 8))
  }

  /** The proposer of the `k`-th slot of an epoch. */
  function SlotProposer(c: Config, mixes: seq<Digest>, epoch: nat, k: nat, active: seq<nat>,
                        increments: seq<nat>): int
    requires |mixes| == c.epochsPerHistoricalVector
    requires active != []
  {
    var epochSeed := Seed(c, mixes, epoch, DOMAIN_BEACON_PROPOSER);
    DrawsOf(c, ProposerSeed(c, epochSeed, c.StartSlotAtEpoch(epoch) + k), active, increments).FirstAccepted(0)
  }

  /** The proposers of an epoch, slot by slot. */
  function ProposersSpec(c: Config, mixes: seq<Digest>, epoch: nat, active: seq<nat>,
                         increments: seq<nat>): (r: seq<int>)
    requires |mixes| == c.epochsPerHistoricalVector
    requires active != []
    ensures |r| == c.slotsPerEpoch
    ensures forall k :: 0 <= k < |r| ==> r[k] == SlotProposer(c, mixes, epoch, k, active, increments)
  {
    seq(c.slotsPerEpoch, k requires 0 <= k < c.slotsPerEpoch =>
      SlotProposer(c, mixes, epoch, k, active, increments))
  }

  /** `computeProposers`. */
  method ComputeProposers(c: Config, mixes: seq<Digest>, epoch: nat, active: seq<nat>, increments: seq<nat>)
    returns (r: Option<seq<int>>)
    requires |mixes| == c.epochsPerHistoricalVector
    ensures r == if 0 < |active| <= MAX_COUNT
                 then Some(ProposersSpec(c, mixes, epoch, active, increments)) else None
  {
    hide Seed, ProposersSpec, ProposerSeed, Draws.FirstAccepted;
    var epochSeed := Seed(c, mixes, epoch, DOMAIN_BEACON_PROPOSER);
    var startSlot := c.StartSlotAtEpoch(epoch);
    var proposers: seq<int> := [];
    var slot: nat := startSlot;
    while slot < startSlot + c.slotsPerEpoch
      invariant startSlot <= slot <= startSlot + c.slotsPerEpoch
      invariant slot > startSlot ==> 0 < |active| <= MAX_COUNT
      invariant |proposers| == slot - startSlot
      invariant active != [] ==> forall k :: 0 <= k < |proposers| ==>
        proposers[k] == SlotProposer(c, mixes, epoch, k, active, increments)
    {
      var p := ComputeProposerIndex(DrawsOf(c, ProposerSeed(c, epochSeed, slot), active, increments));
      if p.None? {
        return None;
      }
      proposers := proposers + [p.value];
      slot := slot + 1;
    }
    assert proposers == ProposersSpec(c, mixes, epoch, active, increments);
    return Some(proposers);
  }

  /** The draws for the next sync committee of a state at `slot`. */
  function NextSyncCommitteeDraws(c: Config, mixes: seq<Digest>, slot: nat, active: seq<nat>, increments: seq<nat>): Draws
    requires |mixes| == c.epochsPerHistoricalVector
  {
    DrawsOf(c, Seed(c, mixes, c.EpochAtSlot(slot) + 1, DOMAIN_SYNC_COMMITTEE), active, increments)
  }

  /** `getNextSyncCommitteeIndices`; `None` where an assertion throws. The loop ends exactly when the
      draws ever fill the committee, which is what the last precondition says; `TurnsTake` and
      `FillsForEveryHash` show when they do. */
  method GetNextSyncCommitteeIndices(c: Config, mixes: seq<Digest>, slot: nat, active: seq<nat>, increments: seq<nat>)
    returns (r: Option<seq<nat>>)
    requires |mixes| == c.epochsPerHistoricalVector
    requires c.syncCommitteeSize > 0 && 0 < |active| <= MAX_COUNT ==>
      NextSyncCommitteeDraws(c, mixes, slot, active, increments).Fills(c.syncCommitteeSize)
    ensures r.None? <==> c.syncCommitteeSize > 0 && !(0 < |active| <= MAX_COUNT)
    ensures r.Some? ==> |r.value| == c.syncCommitteeSize && forall v :: v in r.value ==> v in active
    ensures r.Some? && c.syncCommitteeSize > 0 ==>
      var d := NextSyncCommitteeDraws(c, mixes, slot, active, increments);
      exists k :: 0 < k && FilledAt(d, k, c.syncCommitteeSize, r.value) &&
                  (d.SomeFullBalance() ==> k <= c.syncCommitteeSize * |active|)
  {
    hide Draws.Accepts, Draws.Candidate, Seed, RawConfig.MaxIncrements;
    if c.syncCommitteeSize == 0 {
      return Some([]);
    }
    if !(0 < |active| <= MAX_COUNT) {
      return None;
    }
    var d := NextSyncCommitteeDraws(c, mixes, slot, active, increments);
    ghost var bound: nat :| |d.Taken(bound)| >= c.syncCommitteeSize;
    var i: nat := 0;
    var taken: seq<nat> := [];
    while |taken| < c.syncCommitteeSize
      invariant taken == d.Taken(i)
      invariant i <= bound
      invariant |taken| <= c.syncCommitteeSize
      invariant i > 0 ==> |d.Taken(i - 1)| < c.syncCommitteeSize
      decreases bound - i
    {
      if bound <= i {
        d.TakenGrows(bound, i);
      }
      var candidateIndex, accepted := Draw(d, i);
      if accepted {
        taken := taken + [candidateIndex];
      }
      i := i + 1;
    }
    if d.SomeFullBalance() {
      ghost var v :| v in d.indices && d.HasFullBalance(v);
      d.StillShort(i - 1, c.syncCommitteeSize, v);
    }
    assert FilledAt(d, i, c.syncCommitteeSize, taken);
    return Some(taken);
  }

  /** The `k`-th draw, and no earlier one, completes a committee of the given size. */
  ghost predicate FilledAt(d: Draws, k: nat, size: nat, committee: seq<nat>)
    requires d.indices != []
  {
    k > 0 && committee == d.Taken(k) && |d.Taken(k - 1)| < size <= |committee|
  }
}
