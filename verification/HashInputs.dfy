/** What seeds and draws read out of their hash. */
module HashInputs {
  import opened Bytes
  import opened Params
  import opened Shuffle
  import opened Sampling
  import opened EpochShuffling
  import Arith

  const TWO_64: nat := 0x1_0000_0000_0000_0000

  /** The eight bytes of a number, the lowest first. */
  function Eight(v: nat): (r: seq<byte>)
    ensures |r| == 8
  {
    [v % 256, v / 0x100 % 256, v / 0x1_0000 % 256, v / 0x100_0000 % 256, v / 0x1_0000_0000 % 256,
     v / 0x100_0000_0000 % 256, v / 0x1_0000_0000_0000 % 256, v / 0x100_0000_0000_0000 % 256]
  }

  lemma Shifted(v: nat, d: nat)
    requires d > 0
    ensures v / d / 256 == v / (256 * d)
  {
    var q := v / d;
    assert v == q * d + v % d;
    var a, b := q / 256, q % 256;
    assert q * d == a * (256 * d) + b * d;
    Arith.MulMono(b, 255, d);
    Arith.DivUnique(v, 256 * d, a);
  }

  lemma EightIs(v: nat)
    ensures IntToBytes(v, 8) == Eight(v)
  {
    hide IntToBytes;
    Shifted(v, 0x100);
    Shifted(v, 0x1_0000);
    Shifted(v, 0x100_0000);
    Shifted(v, 0x1_0000_0000);
    Shifted(v, 0x100_0000_0000);
    Shifted(v, 0x1_0000_0000_0000);
    NextByte(v, 8);
    NextByte(v / 0x100, 7);
    NextByte(v / 0x1_0000, 6);
    NextByte(v / 0x100_0000, 5);
    NextByte(v / 0x1_0000_0000, 4);
    NextByte(v / 0x100_0000_0000, 3);
    NextByte(v / 0x1_0000_0000_0000, 2);
    NextByte(v / 0x100_0000_0000_0000, 1);
  }

  lemma NextByte(v: nat, length: nat)
    requires length > 0
    ensures IntToBytes(v, length) == [v % 256] + IntToBytes(v / 256, length - 1)
  {
  }

  lemma PowerOf8()
    ensures Pow256(8) == TWO_64
  {
    assert Pow256(2) == 0x1_0000 && Pow256(4) == 0x1_0000_0000;
    assert Pow256(6) == 0x1_0000 * Pow256(4);
  }

  /** A number below 2^64 is known from its eight bytes. */
  lemma EightKnown(v: nat, w: nat)
    requires v < TWO_64 && w < TWO_64 && Eight(v) == Eight(w)
    ensures v == w
  {
    hide Eight, IntToBytes, BytesToInt, Pow256;
    PowerOf8();
    EightIs(v);
    EightIs(w);
    IntBytesRoundTrip(v, 8);
    IntBytesRoundTrip(w, 8);
  }

  // ----- Seeds -----

  function WithHash(c: Config, hash: Hash): Config {
    c.(hash := hash)
  }

  /** `j` is the slot of the ring for the mix of `MIN_SEED_LOOKAHEAD + 1` epochs before `epoch`. */
  predicate MixSlot(c: Config, epoch: nat, j: nat) {
    j < c.epochsPerHistoricalVector &&
    (j + c.minSeedLookahead + 1) % c.epochsPerHistoricalVector == epoch % c.epochsPerHistoricalVector
  }

  lemma SlotRead(c: Config, epoch: nat, j: nat)
    requires MixSlot(c, epoch, j)
    ensures (epoch + c.epochsPerHistoricalVector - c.minSeedLookahead - 1) % c.epochsPerHistoricalVector == j
  {
    SlotUnique(c.epochsPerHistoricalVector, c.minSeedLookahead + 1, epoch, j);
  }

  lemma SlotUnique(n: nat, t: nat, epoch: nat, j: nat)
    requires 0 < t <= n && j < n && (j + t) % n == epoch % n
    ensures (epoch + n - t) % n == j
  {
    var i := (epoch + n - t) % n;
    AddBack(epoch + n - t, t, n);
    AddBack(epoch, n, n);
    if i < j {
      CongruentGap(j + t, i + t, n);
    } else if j < i {
      CongruentGap(i + t, j + t, n);
    }
  }

  lemma AddBack(a: nat, t: nat, n: nat)
    requires n > 0 && t <= n
    ensures (a % n + t) % n == (a + t) % n
    ensures t == n ==> (a + t) % n == a % n
  {
    assert a == a / n * n + a % n;
    Multiples(a / n, n, a % n + t);
    if t == n {
      Multiples(1, n, a);
    }
  }

  lemma Multiples(q: nat, n: nat, s: nat)
    requires n > 0
    ensures (q * n + s) % n == s % n
  {
    var p := s / n;
    assert s == p * n + s % n && (q + p) * n == q * n + p * n;
    Arith.DivUnique(q * n + s, n, q + p);
    assert (q * n + s) % n == q * n + s - (q + p) * n;
  }

  /** `getSeed` hashes the domain, the epoch and the mix of `MIN_SEED_LOOKAHEAD + 1` epochs before. */
  lemma SeedInput(c: Config, mixes: seq<Digest>, epoch: nat, domain: seq<byte>, j: nat)
    requires |mixes| == c.epochsPerHistoricalVector && MixSlot(c, epoch, j)
    ensures Seed(c, mixes, epoch, domain) == c.hash(domain + Eight(epoch) + mixes[j])
  {
    hide Eight, IntToBytes, MixSlot;
    SlotRead(c, epoch, j);
    EightIs(epoch);
  }

  lemma SomeSlot(c: Config, epoch: nat) returns (j: nat)
    ensures MixSlot(c, epoch, j)
  {
    var n, t := c.epochsPerHistoricalVector, c.minSeedLookahead + 1;
    j := (epoch + n - t) % n;
    AddBack(epoch + n - t, t, n);
    AddBack(epoch, n, n);
  }

  /** Two hash inputs are told apart by some hash, unless they are the same. */
  lemma ToldApart(x: seq<byte>, y: seq<byte>)
    requires x != y
    ensures exists hash: Hash :: hash(x) != hash(y)
  {
    var hash: Hash := (z: seq<byte>) => if z == x then seq(32, _ => 0) else seq(32, _ => 1);
    assert hash(x)[0] != hash(y)[0];
  }

  /** Two seeds are the same under every hash if and only if domain, epoch and mix are the same. */
  lemma SeedsSame(c: Config, ms: seq<Digest>, e: nat, d: seq<byte>, j: nat, ns: seq<Digest>, f: nat, d': seq<byte>, k: nat)
    requires |ms| == |ns| == c.epochsPerHistoricalVector && e < TWO_64 && f < TWO_64 && |d| == |d'| == 4
    requires MixSlot(c, e, j) && MixSlot(c, f, k)
    ensures (forall hash: Hash :: Seed(WithHash(c, hash), ms, e, d) == Seed(WithHash(c, hash), ns, f, d'))
            <==> d == d' && e == f && ms[j] == ns[k]
  {
    hide Eight, Seed, RawConfig.Valid;
    var x, y := d + Eight(e) + ms[j], d' + Eight(f) + ns[k];
    forall hash: Hash
      ensures Seed(WithHash(c, hash), ms, e, d) == hash(x) && Seed(WithHash(c, hash), ns, f, d') == hash(y)
    {
      SeedInput(WithHash(c, hash), ms, e, d, j);
      SeedInput(WithHash(c, hash), ns, f, d', k);
    }
    if x == y {
      assert x[..4] == d && y[..4] == d' && x[4..12] == Eight(e) && y[4..12] == Eight(f);
      assert x[12..] == ms[j] && y[12..] == ns[k];
      EightKnown(e, f);
    } else {
      ToldApart(x, y);
    }
  }

  /** The seed of the committees is that of the attester domain. */
  lemma ShufflingSeed(c: Config, mixes: seq<Digest>, active: seq<nat>, epoch: nat, j: nat, x: nat)
    requires |mixes| == c.epochsPerHistoricalVector && MixSlot(c, epoch, j) && x < |active|
    ensures var sh := Shuffler(c.hash, c.hash([1, 0, 0, 0] + Eight(epoch) + mixes[j]), c.shuffleRoundCount);
      && |ShufflingSpec(c, mixes, active, epoch).shuffling| == |active|
      && ShufflingSpec(c, mixes, active, epoch).shuffling[x] == active[sh.Shuffled(|active|, x)]
  {
    hide Eight, Seed, CommitteesSpec, CommitteeCount, Shuffler.UnshuffleSpec, Shuffler.Shuffled;
    SeedInput(c, mixes, epoch, DOMAIN_BEACON_ATTESTER, j);
    Shuffler(c.hash, Seed(c, mixes, epoch, DOMAIN_BEACON_ATTESTER), c.shuffleRoundCount).UnshuffleSpecAt(active, x);
  }

  /** The draws for the next sync committee are seeded by the next epoch in the sync committee domain. */
  lemma SyncCommitteeSeed(c: Config, mixes: seq<Digest>, slot: nat, active: seq<nat>, increments: seq<nat>, j: nat)
    requires |mixes| == c.epochsPerHistoricalVector && MixSlot(c, slot / c.slotsPerEpoch + 1, j)
    ensures NextSyncCommitteeDraws(c, mixes, slot, active, increments)
         == Draws(Shuffler(c.hash, c.hash([7, 0, 0, 0] + Eight(slot / c.slotsPerEpoch + 1) + mixes[j]), c.shuffleRoundCount),
                  active, increments, c.maxEffectiveBalance / c.effectiveBalanceIncrement)
  {
    hide Eight, Seed;
    SeedInput(c, mixes, slot / c.slotsPerEpoch + 1, DOMAIN_SYNC_COMMITTEE, j);
  }

  // ----- Proposers -----

  /** The draws for the proposer of a slot: their seed is the hash of the epoch's seed and the slot. */
  function SlotDraws(c: Config, mix: Digest, epoch: nat, slot: nat, active: seq<nat>, increments: seq<nat>): Draws {
    Draws(Shuffler(c.hash, c.hash(c.hash([0, 0, 0, 0] + Eight(epoch) + mix) + Eight(slot)), c.shuffleRoundCount),
          active, increments, c.maxEffectiveBalance / c.effectiveBalanceIncrement)
  }

  /** Each slot of an epoch has its own seed. */
  lemma ProposerSeeds(c: Config, mixes: seq<Digest>, epoch: nat, k: nat, active: seq<nat>, increments: seq<nat>, j: nat)
    requires |mixes| == c.epochsPerHistoricalVector && MixSlot(c, epoch, j) && active != [] && k < c.slotsPerEpoch
    ensures ProposersSpec(c, mixes, epoch, active, increments)[k]
         == SlotDraws(c, mixes[j], epoch, epoch * c.slotsPerEpoch + k, active, increments).FirstAccepted(0)
  {
    hide Eight, Seed, Draws.FirstAccepted, IntToBytes, ProposersSpec, RawConfig.Valid;
    SeedInput(c, mixes, epoch, DOMAIN_BEACON_PROPOSER, j);
    var slot := epoch * c.slotsPerEpoch + k;
    EightIs(slot);
    assert c.StartSlotAtEpoch(epoch) + k == slot;
  }

  /** Without a set bit anywhere a shuffling moves nothing. */
  lemma {:induction false} NothingMoves(sh: Shuffler, j: nat, n: nat, x: nat)
    requires j <= sh.rounds && x < n
    requires forall y: seq<byte> :: |y| == 37 ==> sh.hash(y) == seq(32, _ => 0)
    ensures sh.Forward(j, n, x) == x
    decreases sh.rounds - j
  {
    hide Shuffler.Pivot;
    if j < sh.rounds {
      var position := Max(x, sh.Flip(j, n, x));
      assert |sh.seed + IntToBytes(j, 1) + IntToBytes(position / 256, 4)| == 37;
      ZeroHasNoBits(position % 8);
      NothingMoves(sh, j + 1, n, x);
    }
  }

  /** The random byte of draw `i`, and the byte values it is accepted with: those up to 255 times the
      increments, in units of the maximum. */
  lemma AcceptedBytes(d: Draws, i: nat)
    requires d.indices != [] && d.maxIncrements > 0 && d.Candidate(i) < |d.increments|
    ensures d.Accepts(i) <==> d.sh.hash(d.sh.seed + Eight(i / 32))[i % 32] <= 255 * d.increments[d.Candidate(i)] / d.maxIncrements
  {
    hide Eight, IntToBytes, Draws.Candidate;
    EightIs(i / 32);
    var r, a, m := d.RandByte(i), 255 * d.increments[d.Candidate(i)], d.maxIncrements;
    if m * r <= a {
      Arith.DivAtLeast(a, m, r);
    } else {
      if a / m >= r {
        Arith.MulMono(r, a / m, m);
      }
    }
  }

  // ----- Draws, byte by byte -----

  function Ones(): Digest {
    seq(32, _ => 255)
  }

  /** Answers 255 to every draw of this seed, except zero to byte `m` of the `q`-th answer, and zeros to
      everything else. */
  function OneByteHash(seed: Digest, q: nat, m: nat): Hash
    requires m < 32
  {
    (x: seq<byte>) =>
      if |x| == 40 && x[..32] == seed then if x[32..] == Eight(q) then Ones()[m := 0] else Ones()
      else seq(32, _ => 0)
  }

  lemma OneByteRead(seed: Digest, rounds: byte, q: nat, m: nat, indices: seq<nat>, increments: seq<nat>, max: nat, i: nat)
    requires m < 32 && q < TWO_64 && i < TWO_64
    ensures Draws(Shuffler(OneByteHash(seed, q, m), seed, rounds), indices, increments, max).RandByte(i)
         == if i == 32 * q + m then 0 else 255
  {
    hide Eight, IntToBytes;
    var x := seed + Eight(i / 32);
    assert x[..32] == seed && x[32..] == Eight(i / 32);
    EightIs(i / 32);
    if Eight(i / 32) == Eight(q) {
      EightKnown(i / 32, q);
    }
  }

  lemma OneByteStill(seed: Digest, rounds: byte, q: nat, m: nat, n: nat, x: nat)
    requires m < 32 && x < n
    ensures Shuffler(OneByteHash(seed, q, m), seed, rounds).Shuffled(n, x) == x
  {
    hide Eight, Shuffler.Forward;
    NothingMoves(Shuffler(OneByteHash(seed, q, m), seed, rounds), 0, n, x);
  }

  /** Of validators below full balance, only draw number 32q + m is accepted, and it draws the validator
      at that place of the list, counted round. */
  lemma OneByteDraws(seed: Digest, rounds: byte, q: nat, m: nat, indices: seq<nat>, increments: seq<nat>, max: nat, i: nat)
    requires m < 32 && q < TWO_64 && i < TWO_64 && indices != []
    requires forall v :: v in indices ==> v < |increments| && increments[v] < max
    ensures var d := Draws(Shuffler(OneByteHash(seed, q, m), seed, rounds), indices, increments, max);
      && d.Candidate(i) == indices[i % |indices|]
      && (d.Accepts(i) <==> i == 32 * q + m)
  {
    hide OneByteHash, Draws.RandByte, Shuffler.Shuffled;
    OneByteRead(seed, rounds, q, m, indices, increments, max, i);
    OneByteStill(seed, rounds, q, m, |indices|, i % |indices|);
    var v := indices[i % |indices|];
    assert v in indices;
    Arith.MulMono(increments[v] + 1, max, 255);
  }

  lemma {:induction false} FirstOfOne(d: Draws, a: nat, i: nat)
    requires d.indices != [] && i <= |d.indices| && OnlyAccepts(d, a)
    ensures d.FirstAccepted(i) == if i <= a < |d.indices| then d.Candidate(a) else -1
    decreases |d.indices| - i
  {
    hide Draws.Accepts, Draws.Candidate;
    if i < |d.indices| && !d.Accepts(i) {
      FirstOfOne(d, a, i + 1);
    }
  }

  /** Draw `a` is the only one of the first turn that is accepted. */
  ghost predicate OnlyAccepts(d: Draws, a: nat)
    requires d.indices != []
  {
    forall j :: 0 <= j < |d.indices| ==> (d.Accepts(j) <==> j == a)
  }

  lemma OneByteTurn(seed: Digest, rounds: byte, q: nat, m: nat, indices: seq<nat>, increments: seq<nat>, max: nat)
    requires m < 32 && q < TWO_64 && 0 < |indices| <= MAX_COUNT
    requires forall v :: v in indices ==> v < |increments| && increments[v] < max
    ensures OnlyAccepts(Draws(Shuffler(OneByteHash(seed, q, m), seed, rounds), indices, increments, max), 32 * q + m)
  {
    hide OneByteHash, Draws.Accepts, Draws.Candidate;
    var d := Draws(Shuffler(OneByteHash(seed, q, m), seed, rounds), indices, increments, max);
    forall j | 0 <= j < |indices| ensures d.Accepts(j) <==> j == 32 * q + m {
      OneByteDraws(seed, rounds, q, m, indices, increments, max, j);
    }
  }

  /** So the proposer is the validator at that place, if the turn gets that far. */
  lemma OneByteProposer(seed: Digest, rounds: byte, q: nat, m: nat, indices: seq<nat>, increments: seq<nat>, max: nat)
    requires m < 32 && q < TWO_64 && 0 < |indices| <= MAX_COUNT
    requires forall v :: v in indices ==> v < |increments| && increments[v] < max
    ensures Draws(Shuffler(OneByteHash(seed, q, m), seed, rounds), indices, increments, max).FirstAccepted(0)
         == if 32 * q + m < |indices| then indices[32 * q + m] else -1
  {
    hide OneByteHash, Draws.Accepts, Draws.Candidate, Draws.FirstAccepted, OnlyAccepts;
    var d := Draws(Shuffler(OneByteHash(seed, q, m), seed, rounds), indices, increments, max);
    OneByteTurn(seed, rounds, q, m, indices, increments, max);
    FirstOfOne(d, 32 * q + m, 0);
    var a := 32 * q + m;
    if a < |indices| {
      OneByteDraws(seed, rounds, q, m, indices, increments, max, a);
      Arith.ModWrap(a, |indices|);
    }
  }

  // ----- Slots of one epoch -----

  /** Twos for every epoch's seed, ones for the seed of one slot, 255 for its draws, zeros elsewhere. */
  function OneSlotHash(slot: nat): Hash {
    (x: seq<byte>) =>
      if |x| == 44 then seq(32, _ => 2)
      else if |x| == 40 && x == seq<byte>(32, _ => 2) + Eight(slot) then seq(32, _ => 1)
      else if |x| == 40 && x[..32] == seq<byte>(32, _ => 1) then Ones()
      else seq(32, _ => 0)
  }

  /** With validators 0, without balance, and 1, of full balance. */
  lemma OneSlotProposer(c: Config, mix: Digest, epoch: nat, slot: nat, other: nat)
    requires slot < TWO_64 && other < TWO_64
    ensures SlotDraws(WithHash(c, OneSlotHash(other)), mix, epoch, slot, [0, 1], [0, c.MaxIncrements()]).FirstAccepted(0)
         == if slot == other then 1 else 0
  {
    hide Eight, IntToBytes, Shuffler.Forward, RawConfig.Valid, Draws.FirstAccepted;
    var hash := OneSlotHash(other);
    var d := SlotDraws(WithHash(c, hash), mix, epoch, slot, [0, 1], [0, c.MaxIncrements()]);
    var inner := [0, 0, 0, 0] + Eight(epoch) + mix;
    assert |inner| == 44;
    var x := seq<byte>(32, _ => 2) + Eight(slot);
    assert hash(inner) + Eight(slot) == x;
    assert x[32..] == Eight(slot) && (seq<byte>(32, _ => 2) + Eight(other))[32..] == Eight(other);
    if x == seq<byte>(32, _ => 2) + Eight(other) {
      EightKnown(slot, other);
    }
    assert x[0] == 2;
    assert d.sh.seed == if slot == other then seq(32, _ => 1) else seq(32, _ => 0);
    NothingMoves(d.sh, 0, 2, 0);
    NothingMoves(d.sh, 0, 2, 1);
    FirstByte(c, d, slot == other, other);
  }

  lemma FirstByte(c: Config, d: Draws, ones: bool, other: nat)
    requires d.sh.hash == OneSlotHash(other) && d.indices == [0, 1] && d.increments == [0, c.MaxIncrements()]
    requires d.maxIncrements == c.MaxIncrements()
    requires d.sh.seed == if ones then seq(32, _ => 1) else seq(32, _ => 0)
    requires d.sh.Forward(0, 2, 0) == 0 && d.sh.Forward(0, 2, 1) == 1
    ensures d.FirstAccepted(0) == if ones then 1 else 0
  {
    hide Eight, IntToBytes, Shuffler.Forward;
    EightIs(0);
    var x := d.sh.seed + Eight(0);
    assert x[..32] == d.sh.seed && x[0] == d.sh.seed[0];
    assert (seq<byte>(32, _ => 2) + Eight(other))[0] == 2;
    assert d.Candidate(0) == 0 && d.Candidate(1) == 1;
    assert d.RandByte(0) == if ones then 255 else 0;
    Arith.MulMono(d.RandByte(1), 255, c.MaxIncrements());
    assert d.Accepts(1);
    assert d.FirstAccepted(2) == -1;
  }

  /** Slots `k` and `l` of the epoch have different proposers. */
  ghost predicate ProposersDiffer(c: Config, mixes: seq<Digest>, epoch: nat, active: seq<nat>, increments: seq<nat>, k: nat, l: nat)
    requires |mixes| == c.epochsPerHistoricalVector && k < c.slotsPerEpoch && l < c.slotsPerEpoch && active != []
  {
    ProposersSpec(c, mixes, epoch, active, increments)[k] != ProposersSpec(c, mixes, epoch, active, increments)[l]
  }

  lemma SlotProposers(c: Config, mixes: seq<Digest>, epoch: nat, k: nat, other: nat)
    requires |mixes| == c.epochsPerHistoricalVector && k < c.slotsPerEpoch
    requires epoch * c.slotsPerEpoch + k < TWO_64 && other < TWO_64
    ensures ProposersSpec(WithHash(c, OneSlotHash(other)), mixes, epoch, [0, 1], [0, c.MaxIncrements()])[k]
         == if epoch * c.slotsPerEpoch + k == other then 1 else 0
  {
    hide ProposersSpec, SlotProposer, SlotDraws, OneSlotHash, MixSlot, RawConfig.MaxIncrements, Draws.FirstAccepted, RawConfig.Valid;
    var d := WithHash(c, OneSlotHash(other));
    var j := SomeSlot(d, epoch);
    var slot := epoch * c.slotsPerEpoch + k;
    ProposerSeeds(d, mixes, epoch, k, [0, 1], [0, c.MaxIncrements()], j);
    OneSlotProposer(c, mixes[j], epoch, slot, other);
  }

  /** For any two slots of an epoch there is a hash under which two validators propose in them. */
  lemma SlotsDiffer(c: Config, mixes: seq<Digest>, epoch: nat, k: nat, l: nat)
    requires |mixes| == c.epochsPerHistoricalVector && k < c.slotsPerEpoch && l < c.slotsPerEpoch && k != l
    requires epoch * c.slotsPerEpoch + c.slotsPerEpoch <= TWO_64
    ensures exists hash: Hash :: ProposersDiffer(WithHash(c, hash), mixes, epoch, [0, 1], [0, c.MaxIncrements()], k, l)
  {
    hide ProposersSpec, SlotProposer, OneSlotHash, RawConfig.MaxIncrements, RawConfig.Valid;
    var slot := epoch * c.slotsPerEpoch + k;
    SlotProposers(c, mixes, epoch, k, slot);
    SlotProposers(c, mixes, epoch, l, slot);
    assert ProposersDiffer(WithHash(c, OneSlotHash(slot)), mixes, epoch, [0, 1], [0, c.MaxIncrements()], k, l);
  }
}
