/** What a light client is sent, and the guards that it must pass. */
module LightClientUpdates {
  import opened Bytes
  import opened MerkleBranch
  import opened Wrappers
  import Arith

  const FINALIZED_ROOT_DEPTH: nat := 6
  const FINALIZED_ROOT_INDEX: nat := 41
  const NEXT_SYNC_COMMITTEE_DEPTH: nat := 5
  const NEXT_SYNC_COMMITTEE_INDEX: nat := 23

  type Pubkey = seq<byte>

  datatype Header = Header(slot: nat, proposerIndex: nat, parentRoot: Digest, stateRoot: Digest, bodyRoot: Digest)

  datatype Committee = Committee(pubkeys: seq<Pubkey>, aggregatePubkey: Pubkey)

  datatype SyncAggregate = SyncAggregate(bits: seq<bool>, signature: seq<byte>)

  datatype Update = Update(
    attestedHeader: Header,
    nextSyncCommittee: Committee,
    nextSyncCommitteeBranch: seq<Digest>,
    finalizedHeader: Header,
    finalityBranch: seq<Digest>,
    syncAggregate: SyncAggregate)

  /** The chain as the client sees it: parameters, and the library code that is not part of this
      model. `verifies(keys, root, slot, signature)` is the aggregate signature check under the
      domain of that slot; `decodes` says that the keys of a committee deserialize. */
  datatype Chain = Chain(
    hash: Hash,
    headerRoot: Header -> Digest,
    committeeRoot: Committee -> Digest,
    decodes: Committee -> bool,
    verifies: (seq<Pubkey>, Digest, nat, seq<byte>) -> bool,
    slotsPerEpoch: Arith.Positive,
    epochsPerPeriod: Arith.Positive,
    syncCommitteeSize: nat,
    minParticipants: nat)

  function ZeroHash(): Digest {
    seq(32, _ => 0)
  }

  /** The default value of the header type. */
  function EmptyHeader(): Header {
    Header(0, 0, ZeroHash(), ZeroHash(), ZeroHash())
  }

  function Period(c: Chain, slot: nat): nat {
    slot / c.slotsPerEpoch / c.epochsPerPeriod
  }

  function SumBits(bits: seq<bool>): nat {
    if bits == [] then 0 else SumBits(bits[..|bits| - 1]) + if bits[|bits| - 1] then 1 else 0
  }

  /** `getParticipantPubkeys`; `None` where a set bit has no key. */
  function ParticipantPubkeys(pubkeys: seq<Pubkey>, bits: seq<bool>): (r: Option<seq<Pubkey>>)
    ensures r.Some? ==> |r.value| == SumBits(bits)
  {
    if bits == [] then Some([])
    else
      var i := |bits| - 1;
      var before := ParticipantPubkeys(pubkeys, bits[..i]);
      if before.None? || !bits[i] then before
      else if i >= |pubkeys| then None
      else Some(before.value + [pubkeys[i]])
  }

  /** It fails exactly when a set bit has no key; otherwise the key of every set bit is at the place
      that the number of set bits before it gives, and there are no others. */
  lemma {:induction false} ParticipantKeys(pubkeys: seq<Pubkey>, bits: seq<bool>)
    ensures var r := ParticipantPubkeys(pubkeys, bits);
      && (r.Some? <==> forall i :: 0 <= i < |bits| && bits[i] ==> i < |pubkeys|)
      && (r.Some? ==> |r.value| == SumBits(bits))
      && (r.Some? ==> forall i: nat :: i < |bits| && bits[i] ==>
            SumBits(bits[..i]) < SumBits(bits) && r.value[SumBits(bits[..i])] == pubkeys[i])
  {
    if bits != [] {
      var n := |bits| - 1;
      ParticipantKeys(pubkeys, bits[..n]);
      var r, before := ParticipantPubkeys(pubkeys, bits), ParticipantPubkeys(pubkeys, bits[..n]);
      forall i: nat | i < |bits| && bits[i] && r.Some?
        ensures SumBits(bits[..i]) < SumBits(bits) && r.value[SumBits(bits[..i])] == pubkeys[i]
      {
        if i < n {
          assert bits[..n][..i] == bits[..i] && bits[..n][i];
        }
      }
    }
  }

  function ActiveHeader(u: Update): Header {
    if u.finalizedHeader != EmptyHeader() then u.finalizedHeader else u.attestedHeader
  }

  /** `assertValidSignedHeader` */
  predicate ValidSignedHeader(c: Chain, committee: Committee, aggregate: SyncAggregate, header: Header) {
    var keys := ParticipantPubkeys(committee.pubkeys, aggregate.bits);
    && keys.Some?
    && |keys.value| >= c.minParticipants
    && c.verifies(keys.value, c.headerRoot(header), header.slot, aggregate.signature)
  }

  /** `assertValidFinalityProof` */
  predicate ValidFinalityProof(c: Chain, u: Update) {
    && BranchLeadsTo(c.hash, c.headerRoot(u.finalizedHeader), u.finalityBranch, FINALIZED_ROOT_DEPTH,
                     FINALIZED_ROOT_INDEX, u.attestedHeader.stateRoot) == Some(true)
    && Period(c, u.finalizedHeader.slot) == Period(c, u.attestedHeader.slot)
  }

  /** `assertZeroHashes` */
  predicate ZeroHashes(roots: seq<Digest>, expectedLength: nat) {
    |roots| == expectedLength && forall i :: 0 <= i < |roots| ==> roots[i] == ZeroHash()
  }

  /** `assertValidSyncCommitteeProof` */
  predicate ValidSyncCommitteeProof(c: Chain, u: Update) {
    BranchLeadsTo(c.hash, c.committeeRoot(u.nextSyncCommittee), u.nextSyncCommitteeBranch, NEXT_SYNC_COMMITTEE_DEPTH,
                  NEXT_SYNC_COMMITTEE_INDEX, ActiveHeader(u).stateRoot) == Some(true)
  }

  /** `assertValidLightClientUpdate` */
  predicate ValidUpdate(c: Chain, committee: Committee, u: Update) {
    && (if u.finalizedHeader != EmptyHeader() then ValidFinalityProof(c, u)
        else ZeroHashes(u.finalityBranch, FINALIZED_ROOT_DEPTH))
    && ValidSyncCommitteeProof(c, u)
    && ValidSignedHeader(c, committee, u.syncAggregate, u.attestedHeader)
  }

  /** The signature of a valid update was made in the very period whose committee checked it, even
      where the period was read off the finalized header. */
  lemma SignedInItsPeriod(c: Chain, committee: Committee, u: Update)
    requires ValidUpdate(c, committee, u)
    ensures Period(c, u.attestedHeader.slot) == Period(c, ActiveHeader(u).slot)
  {
  }

  // ----- Which update is better -----

  datatype Stats = Stats(isFinalized: bool, participation: nat, slot: nat)

  function StatsOf(c: Chain, u: Update): Stats {
    Stats(u.finalizedHeader != EmptyHeader(), SumBits(u.syncAggregate.bits), ActiveHeader(u).slot)
  }

  /** Finality with more than two thirds of the committee. */
  predicate Supermajority(c: Chain, s: Stats) {
    s.isFinalized && s.participation * 3 > c.syncCommitteeSize * 2
  }

  /** More than twice as many took part as did not. */
  lemma SupermajorityMeans(c: Chain, s: Stats)
    ensures Supermajority(c, s) <==> s.isFinalized && s.participation > 2 * (c.syncCommitteeSize - s.participation)
  {
  }

  /** `isBetterUpdate(prev, next)` */
  predicate Better(c: Chain, prev: Stats, next: Stats) {
    || (!prev.isFinalized && Supermajority(c, next))
    || prev.participation < next.participation
    || (prev.participation == next.participation && prev.slot > next.slot)
  }

  /** More participation, or as much from an older slot. */
  predicate Outranks(next: Stats, prev: Stats) {
    prev.participation < next.participation || (prev.participation == next.participation && prev.slot > next.slot)
  }

  /** Two updates each replace the other exactly when one has finality with a supermajority and
      the other, without finality, outranks it. */
  lemma BothBetter(c: Chain, s: Stats, t: Stats)
    ensures Better(c, s, t) && Better(c, t, s) <==>
      || (!s.isFinalized && Supermajority(c, t) && Outranks(s, t))
      || (!t.isFinalized && Supermajority(c, s) && Outranks(t, s))
  {
  }

  /** The update kept after a series of updates for one period. */
  function Winner(c: Chain, first: Stats, updates: seq<Stats>): Stats {
    if updates == [] then first
    else
      var prev, next := Winner(c, first, updates[..|updates| - 1]), updates[|updates| - 1];
      if Better(c, prev, next) then next else prev
  }

  /** No finality with a supermajority next to an update without finality. */
  ghost predicate Comparable(c: Chain, first: Stats, updates: seq<Stats>) {
    forall s, t :: s in [first] + updates && t in [first] + updates && !s.isFinalized ==> !Supermajority(c, t)
  }

  /** Among comparable updates, the one kept is one of them and none of them outranks it. */
  lemma {:induction false} WinnerIsBest(c: Chain, first: Stats, updates: seq<Stats>)
    requires Comparable(c, first, updates)
    ensures Winner(c, first, updates) in [first] + updates
    ensures forall s :: s in [first] + updates ==> !Outranks(s, Winner(c, first, updates))
  {
    if updates != [] {
      var n := |updates| - 1;
      assert forall s :: s in [first] + updates[..n] ==> s in [first] + updates;
      WinnerIsBest(c, first, updates[..n]);
      var prev, next := Winner(c, first, updates[..n]), updates[n];
      assert [first] + updates == ([first] + updates[..n]) + [next];
      assert prev in [first] + updates && next in [first] + updates;
      assert Better(c, prev, next) <==> Outranks(next, prev);
    }
  }
}
