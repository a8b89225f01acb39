/** What a coherent epoch cache holds, told from the state alone: the cache of every moment of a run. */
module CacheMeaning {
  import opened Bytes
  import opened Params
  import opened Shuffle
  import opened Sampling
  import opened EpochShuffling
  import opened Registry
  import opened Cache
  import opened Rotation
  import opened EpochProcess
  import opened HashInputs

  /** The list names the validators active in the epoch, and no others. */
  ghost predicate NamesActive(vs: seq<Validator>, epoch: nat, indices: seq<nat>) {
    forall v: nat :: v in indices <==> v < |vs| && ActiveIn(vs[v], epoch)
  }

  lemma ActiveNamed(vs: seq<Validator>, epoch: nat)
    ensures NamesActive(vs, epoch, ActiveIndices(vs, epoch))
  {
    SelectMembers(vs, ActiveAt(epoch));
  }

  /** The shuffling of an epoch: its active validators in the order of that epoch's attester seed. */
  ghost predicate ShufflesEpoch(c: Config, st: BeaconState, s: EpochShuffling, epoch: nat, j: nat)
    requires |st.randaoMixes| == c.epochsPerHistoricalVector && MixSlot(c, epoch, j)
  {
    var sh := Shuffler(c.hash, c.hash([1, 0, 0, 0] + Eight(epoch) + st.randaoMixes[j]), c.shuffleRoundCount);
    && s.epoch == epoch && NamesActive(st.validators, epoch, s.activeIndices)
    && |s.shuffling| == |s.activeIndices|
    && forall x :: 0 <= x < |s.activeIndices| ==> s.shuffling[x] == s.activeIndices[sh.Shuffled(|s.activeIndices|, x)]
  }

  lemma EpochShuffled(c: Config, st: BeaconState, epoch: nat, j: nat)
    requires |st.randaoMixes| == c.epochsPerHistoricalVector && MixSlot(c, epoch, j)
    ensures ShufflesEpoch(c, st, ShufflingAt(c, st, epoch), epoch, j)
  {
    hide Eight, Seed, CommitteesSpec, CommitteeCount, Shuffler.Shuffled, NamesActive, ActiveIndices, ShufflingSpec;
    var active := ActiveIndices(st.validators, epoch);
    ActiveNamed(st.validators, epoch);
    ShufflingLength(c, st.randaoMixes, active, epoch);
    forall x | 0 <= x < |active|
      ensures ShufflingAt(c, st, epoch).shuffling[x] == active[
        Shuffler(c.hash, c.hash([1, 0, 0, 0] + Eight(epoch) + st.randaoMixes[j]), c.shuffleRoundCount).Shuffled(|active|, x)]
    {
      ShufflingSeed(c, st.randaoMixes, active, epoch, j, x);
    }
  }

  lemma ShufflingLength(c: Config, mixes: seq<Digest>, active: seq<nat>, epoch: nat)
    requires |mixes| == c.epochsPerHistoricalVector
    ensures |ShufflingSpec(c, mixes, active, epoch).shuffling| == |active|
  {
    hide Seed, CommitteesSpec, CommitteeCount;
  }

  /** The window of a coherent cache: the validators of the three epochs around the slot, each in the order
      of its own seed; and the churn limit of those of the current one. */
  lemma WindowMeans(c: Config, st: BeaconState, k: Cache, p: nat, q: nat, r: nat)
    requires |st.randaoMixes| == c.epochsPerHistoricalVector && Coherent(c, st, k)
    requires var e := st.slot / c.slotsPerEpoch;
      MixSlot(c, if e == 0 then 0 else e - 1, p) && MixSlot(c, e, q) && MixSlot(c, e + 1, r)
    ensures var e := st.slot / c.slotsPerEpoch;
      && ShufflesEpoch(c, st, k.previousShuffling, if e == 0 then 0 else e - 1, p)
      && ShufflesEpoch(c, st, k.currentShuffling, e, q)
      && ShufflesEpoch(c, st, k.nextShuffling, e + 1, r)
      && forall n: nat :: n <= k.churnLimit <==>
           n <= c.minPerEpochChurnLimit || n * c.churnLimitQuotient <= |k.currentShuffling.activeIndices|
  {
    hide ShufflesEpoch, MixSlot, ProposersAt, ActiveStake, QueueKept, ActiveIndices, CommitteesSpec, CommitteeCount, Seed,
      ChurnLimit, RawConfig.Valid;
    ConfigPositive(c);
    var e := st.slot / c.slotsPerEpoch;
    EpochShuffled(c, st, if e == 0 then 0 else e - 1, p);
    EpochShuffled(c, st, e, q);
    EpochShuffled(c, st, e + 1, r);
    forall n: nat
      ensures n <= k.churnLimit <==>
        n <= c.minPerEpochChurnLimit || n * c.churnLimitQuotient <= |k.currentShuffling.activeIndices|
    {
      ChurnLimitReaches(c, |k.currentShuffling.activeIndices|, n);
    }
  }

  /** The proposer of slot number `i` of an epoch: the first accepted draw, under that slot's seed, among the
      validators active in it. */
  ghost predicate ProposesIn(c: Config, st: BeaconState, active: seq<nat>, epoch: nat, j: nat, i: nat, proposer: int)
    requires |st.randaoMixes| == c.epochsPerHistoricalVector && MixSlot(c, epoch, j)
  {
    && NamesActive(st.validators, epoch, active) && active != []
    && proposer == SlotDraws(c, st.randaoMixes[j], epoch, epoch * c.slotsPerEpoch + i, active,
                             IncrementsOf(c, st.validators)).FirstAccepted(0)
  }

  /** Its proposers, slot by slot of the current epoch. */
  lemma ProposersMean(c: Config, st: BeaconState, k: Cache, epoch: nat, j: nat, i: nat)
    requires |st.randaoMixes| == c.epochsPerHistoricalVector && Coherent(c, st, k)
    requires epoch == st.slot / c.slotsPerEpoch && MixSlot(c, epoch, j)
    requires i < c.slotsPerEpoch && k.currentShuffling.activeIndices != []
    ensures |k.proposers| == c.slotsPerEpoch
    ensures ProposesIn(c, st, k.currentShuffling.activeIndices, epoch, j, i, k.proposers[i])
  {
    hide MixSlot, NamesActive, ActiveStake, QueueKept, ActiveIndices, CommitteesSpec, CommitteeCount, Seed, ChurnLimit,
      RawConfig.Valid, ProposersSpec, SlotProposer, SlotDraws, Draws.FirstAccepted, Increments;
    ActiveNamed(st.validators, epoch);
    ProposerSeeds(c, st.randaoMixes, epoch, i, k.currentShuffling.activeIndices, IncrementsOf(c, st.validators), j);
  }
}
