/** What a light client has been shown for what it stores, told from the hash trees and the keys. */
module LightClientTrust {
  import opened Bytes
  import opened Permutations
  import opened MerkleBranch
  import opened OrderedMap
  import opened LightClientUpdates
  import opened LightClient
  import opened Wrappers

  // ----- Signatures -----

  /** `at` lists the set bits in order, and `keys` the keys at those places. */
  ghost predicate KeysOfBits(pubkeys: seq<Pubkey>, bits: seq<bool>, at: seq<nat>, keys: seq<Pubkey>) {
    && StrictlyIncreasing(at) && |keys| == |at|
    && (forall i: nat :: i in at <==> i < |bits| && bits[i])
    && forall j :: 0 <= j < |at| ==> at[j] < |pubkeys| && keys[j] == pubkeys[at[j]]
  }

  /** Enough keys of the committee, those of the set bits, verify the header. */
  ghost predicate SignedBy(c: Chain, committee: Committee, aggregate: SyncAggregate, header: Header) {
    exists at, keys ::
      && KeysOfBits(committee.pubkeys, aggregate.bits, at, keys)
      && |keys| >= c.minParticipants
      && c.verifies(keys, c.headerRoot(header), header.slot, aggregate.signature)
  }

  lemma {:induction false} KeysFound(pubkeys: seq<Pubkey>, bits: seq<bool>) returns (at: seq<nat>)
    requires ParticipantPubkeys(pubkeys, bits).Some?
    ensures KeysOfBits(pubkeys, bits, at, ParticipantPubkeys(pubkeys, bits).value)
  {
    at := [];
    if bits != [] {
      var n := |bits| - 1;
      at := KeysFound(pubkeys, bits[..n]);
      assert forall j :: 0 <= j < |at| ==> at[j] in at;
      if bits[n] {
        at := at + [n];
      }
    }
  }

  lemma {:induction false} KeysKnown(pubkeys: seq<Pubkey>, bits: seq<bool>, at: seq<nat>, keys: seq<Pubkey>)
    requires KeysOfBits(pubkeys, bits, at, keys)
    ensures ParticipantPubkeys(pubkeys, bits) == Some(keys)
  {
    PlacesOf(at);
    if bits == [] {
      assert |at| == 0;
      assert keys == [];
    } else {
      var n := |bits| - 1;
      if bits[n] {
        LastPlace(bits, at);
        var m := |at| - 1;
        LastKeyOff(pubkeys, bits, at, keys);
        KeysKnown(pubkeys, bits[..n], at[..m], keys[..m]);
        assert keys == keys[..m] + [keys[m]];
      } else {
        assert forall i: nat :: i in at <==> i < |bits[..n]| && bits[..n][i];
        KeysKnown(pubkeys, bits[..n], at, keys);
      }
    }
  }

  lemma PlacesOf(at: seq<nat>)
    ensures forall j :: 0 <= j < |at| ==> at[j] in at
  {
  }

  lemma LastPlace(bits: seq<bool>, at: seq<nat>)
    requires StrictlyIncreasing(at) && bits != [] && bits[|bits| - 1]
    requires forall k: nat :: k in at <==> k < |bits| && bits[k]
    ensures at != [] && at[|at| - 1] == |bits| - 1
  {
    PlacesOf(at);
    assert |bits| - 1 in at;
    var j :| 0 <= j < |at| && at[j] == |bits| - 1;
    assert at[|at| - 1] < |bits|;
  }

  lemma LastKeyOff(pubkeys: seq<Pubkey>, bits: seq<bool>, at: seq<nat>, keys: seq<Pubkey>)
    requires KeysOfBits(pubkeys, bits, at, keys) && bits != [] && at != [] && at[|at| - 1] == |bits| - 1
    ensures KeysOfBits(pubkeys, bits[..|bits| - 1], at[..|at| - 1], keys[..|at| - 1])
  {
    var n, m := |bits| - 1, |at| - 1;
    forall i: nat ensures i in at[..m] <==> i < n && bits[..n][i] {
      LastPlaceOff(bits, at, i);
    }
  }

  lemma LastPlaceOff(bits: seq<bool>, at: seq<nat>, i: nat)
    requires bits != [] && at != [] && at[|at| - 1] == |bits| - 1 && StrictlyIncreasing(at)
    requires forall k: nat :: k in at <==> k < |bits| && bits[k]
    ensures i in at[..|at| - 1] <==> i < |bits| - 1 && bits[i]
  {
    var m := |at| - 1;
    assert at == at[..m] + [at[m]];
    if i in at[..m] {
      var j :| 0 <= j < m && at[..m][j] == i;
      assert i in at && at[j] < at[m];
    }
  }

  /** The check of a signed header asks exactly for that. */
  lemma SignatureChecked(c: Chain, committee: Committee, aggregate: SyncAggregate, header: Header)
    ensures ValidSignedHeader(c, committee, aggregate, header) <==> SignedBy(c, committee, aggregate, header)
  {
    hide ParticipantPubkeys, KeysOfBits;
    if ValidSignedHeader(c, committee, aggregate, header) {
      var at := KeysFound(committee.pubkeys, aggregate.bits);
      assert KeysOfBits(committee.pubkeys, aggregate.bits, at, ParticipantPubkeys(committee.pubkeys, aggregate.bits).value);
    }
    if SignedBy(c, committee, aggregate, header) {
      var at, keys :| KeysOfBits(committee.pubkeys, aggregate.bits, at, keys)
        && |keys| >= c.minParticipants && c.verifies(keys, c.headerRoot(header), header.slot, aggregate.signature);
      KeysKnown(committee.pubkeys, aggregate.bits, at, keys);
    }
  }

  // ----- Branches -----

  /** In every tree of 2^depth leaves with this root, leaf number `index` is `leaf`, or the branch collides
      with the honest one. */
  ghost predicate IsLeaf(hash: Hash, root: Digest, depth: nat, index: nat, leaf: Digest, proof: seq<Digest>) {
    |proof| >= depth &&
    forall leaves: seq<Digest> :: |leaves| == Pow2(depth) && index < |leaves| && TreeRoot(hash, leaves, depth) == root ==>
      leaf == leaves[index] || Collides(hash, leaf, proof, leaves, depth, index)
  }

  ghost predicate Collides(hash: Hash, leaf: Digest, proof: seq<Digest>, leaves: seq<Digest>, depth: nat, index: nat)
    requires |leaves| == Pow2(depth) && index < |leaves| && |proof| >= depth
  {
    exists level :: 0 <= level < depth &&
      CollidesAt(hash, leaf, proof, leaves[index], Branch(hash, leaves, depth, index), index, level)
  }

  lemma BranchChecked(hash: Hash, root: Digest, depth: nat, index: nat, leaf: Digest, proof: seq<Digest>)
    requires BranchLeadsTo(hash, leaf, proof, depth, index, root) == Some(true)
    ensures IsLeaf(hash, root, depth, index, leaf, proof)
  {
    hide Climb, TreeRoot, CollidesAt, Branch, Pow2;
    forall leaves: seq<Digest> | |leaves| == Pow2(depth) && index < |leaves| && TreeRoot(hash, leaves, depth) == root
      ensures leaf == leaves[index] || Collides(hash, leaf, proof, leaves, depth, index)
    {
      AcceptedLeafIsTheTrees(hash, leaves, depth, index, leaf, proof);
    }
  }

  // ----- Updates -----

  function Zeros(): Digest {
    seq(32, _ => 0)
  }

  /** The update brings a finalized header. */
  predicate Finalizes(u: Update) {
    u.finalizedHeader != Header(0, 0, Zeros(), Zeros(), Zeros())
  }

  /** The header it argues for. */
  function Argued(u: Update): Header {
    if Finalizes(u) then u.finalizedHeader else u.attestedHeader
  }

  /** What an update has to show to a client that holds `committee`: the finalized header, if any, is leaf 41
      of 64 below the attested state root and lies in the attested period, and otherwise its branch is six
      zeros; the next committee is leaf 23 of 32 below the state root of the header argued for; and the
      committee signed the attested header. */
  ghost predicate Shown(c: Chain, committee: Committee, u: Update) {
    && (if Finalizes(u)
        then IsLeaf(c.hash, u.attestedHeader.stateRoot, 6, 41, c.headerRoot(u.finalizedHeader), u.finalityBranch)
             && u.finalizedHeader.slot / c.slotsPerEpoch / c.epochsPerPeriod
                == u.attestedHeader.slot / c.slotsPerEpoch / c.epochsPerPeriod
        else u.finalityBranch == [Zeros(), Zeros(), Zeros(), Zeros(), Zeros(), Zeros()])
    && IsLeaf(c.hash, Argued(u).stateRoot, 5, 23, c.committeeRoot(u.nextSyncCommittee), u.nextSyncCommitteeBranch)
    && SignedBy(c, committee, u.syncAggregate, u.attestedHeader)
  }

  lemma ValidIsShown(c: Chain, committee: Committee, u: Update)
    requires ValidUpdate(c, committee, u)
    ensures Shown(c, committee, u)
  {
    hide IsLeaf, SignedBy, ValidSignedHeader, BranchLeadsTo;
    SignatureChecked(c, committee, u.syncAggregate, u.attestedHeader);
    BranchChecked(c.hash, Argued(u).stateRoot, 5, 23, c.committeeRoot(u.nextSyncCommittee), u.nextSyncCommitteeBranch);
    if Finalizes(u) {
      BranchChecked(c.hash, u.attestedHeader.stateRoot, 6, 41, c.headerRoot(u.finalizedHeader), u.finalityBranch);
    }
  }

  // ----- One update -----

  function PeriodAt(c: Chain, slot: nat): nat {
    slot / c.slotsPerEpoch / c.epochsPerPeriod
  }

  /** What an update leaves in the store: its committee, and what later updates are compared with. */
  ghost predicate LeavesEntry(c: Chain, u: Update, e: Entry) {
    && e.committee == u.nextSyncCommittee && c.decodes(u.nextSyncCommittee)
    && e.stats == Stats(Finalizes(u), |SetBits(u.syncAggregate.bits)|, Argued(u).slot)
  }

  /** An accepted update was in time and shown to the committee that the client holds for its period; if
      it changes the next period's entry, then to its own. An update turned down changes nothing. */
  lemma AcceptedIsShown(c: Chain, snapshot: Snapshot, s: Store, u: Update, maxSlot: int)
    requires Kept(c, snapshot, s)
    ensures var p, r := PeriodAt(c, Argued(u).slot), CommitteeStep(c, s, u, maxSlot);
      && (r.outcome.Accepted? ==>
            Argued(u).slot <= maxSlot && Get(s.committees, p).Some? && Shown(c, Get(s.committees, p).value.committee, u))
      && (r.outcome.Accepted? && Get(r.store.committees, p + 1) != Get(s.committees, p + 1) ==>
            Get(r.store.committees, p + 1).Some? && LeavesEntry(c, u, Get(r.store.committees, p + 1).value))
      && (!r.outcome.Accepted? ==> r.store == s)
  {
    hide Shown, ValidUpdate, Better, SumBits, SetBits, Set, Get, Newest, Keys, MinOf, Trusted, HandedOver, HeadKept,
      ParticipationKept;
    BitsCounted(u.syncAggregate.bits);
    var m, p := s.committees, PeriodAt(c, Argued(u).slot);
    Lookups(m, p);
    if CommitteeStep(c, s, u, maxSlot).outcome.Accepted? {
      ValidIsShown(c, Get(m, p).value.committee, u);
      Stored(m, p, Entry(StatsOf(c, u), u.nextSyncCommittee));
      NextEntry(m, p, Entry(StatsOf(c, u), u.nextSyncCommittee));
    }
  }

  lemma NextEntry(m: OMap<Entry>, p: nat, entry: Entry)
    requires 1 <= |m| <= 2 && (|m| == 2 ==> m[1].0 == m[0].0 + 1)
    requires Get(m, p).Some?
    ensures Get(Newest(Set(m, p + 1, entry), MAX_STORED_SYNC_COMMITTEES), p + 1) == Some(entry)
  {
    hide Set, Newest;
    Stored(m, p, entry);
    var n := Newest(Set(m, p + 1, entry), MAX_STORED_SYNC_COMMITTEES);
    assert n[1..] == [(p + 1, entry)];
  }

  /** An update made from the trees themselves: the leaves are those of the two states. */
  ghost predicate Honest(c: Chain, committee: Committee, u: Update, state: seq<Digest>, attested: seq<Digest>) {
    && |state| == 32 && Argued(u).stateRoot == TreeRoot(c.hash, state, 5)
    && state[23] == c.committeeRoot(u.nextSyncCommittee) && u.nextSyncCommitteeBranch == Branch(c.hash, state, 5, 23)
    && (if Finalizes(u)
        then && |attested| == 64 && u.attestedHeader.stateRoot == TreeRoot(c.hash, attested, 6)
             && attested[41] == c.headerRoot(u.finalizedHeader) && u.finalityBranch == Branch(c.hash, attested, 6, 41)
             && PeriodAt(c, u.finalizedHeader.slot) == PeriodAt(c, u.attestedHeader.slot)
        else u.finalityBranch == [Zeros(), Zeros(), Zeros(), Zeros(), Zeros(), Zeros()])
    && SignedBy(c, committee, u.syncAggregate, u.attestedHeader)
  }

  lemma Powers()
    ensures Pow2(5) == 32 && Pow2(6) == 64
  {
  }

  lemma HonestIsValid(c: Chain, committee: Committee, u: Update, state: seq<Digest>, attested: seq<Digest>)
    requires Honest(c, committee, u, state, attested)
    ensures ValidUpdate(c, committee, u)
  {
    hide SignedBy, ValidSignedHeader, BranchLeadsTo, TreeRoot, Branch, Pow2;
    Powers();
    SignatureChecked(c, committee, u.syncAggregate, u.attestedHeader);
    HonestBranchAccepted(c.hash, state, 5, 23);
    if Finalizes(u) {
      HonestBranchAccepted(c.hash, attested, 6, 41);
    }
  }

  /** Every honest update that is in time and whose committee the client holds is accepted. */
  lemma HonestIsAccepted(c: Chain, s: Store, u: Update, maxSlot: int, state: seq<Digest>, attested: seq<Digest>)
    requires Argued(u).slot <= maxSlot && c.decodes(u.nextSyncCommittee)
    requires var known := Get(s.committees, PeriodAt(c, Argued(u).slot));
      known.Some? && Honest(c, known.value.committee, u, state, attested)
    ensures CommitteeStep(c, s, u, maxSlot).outcome == Accepted
  {
    hide Honest, ValidUpdate, Better, StatsOf, Set, Get, Newest, Keys, MinOf, Pow2;
    var p := PeriodAt(c, Argued(u).slot);
    GuardNeverFires(Keys(s.committees), p);
    HonestIsValid(c, Get(s.committees, p).value.committee, u, state, attested);
  }

  // ----- Whole runs -----

  /** A chain of updates, one per period, each shown to the committee before, leads from the snapshot to
      `committee`. */
  ghost predicate Descends(c: Chain, snapshot: Snapshot, period: nat, committee: Committee)
    decreases period
  {
    var start := PeriodAt(c, snapshot.header.slot);
    if period <= start then period == start && committee == snapshot.currentSyncCommittee
    else exists prev, u ::
      && Shown(c, prev, u) && u.nextSyncCommittee == committee
      && PeriodAt(c, Argued(u).slot) == period - 1 && Descends(c, snapshot, period - 1, prev)
  }

  lemma {:induction false} TrustedDescends(c: Chain, snapshot: Snapshot, period: nat, committee: Committee)
    requires Trusted(c, snapshot, period, committee)
    ensures Descends(c, snapshot, period, committee)
    decreases period
  {
    hide ValidUpdate, Shown;
    if period > PeriodAt(c, snapshot.header.slot) {
      var prev, u :| Hands(c, prev, u, committee) && PeriodOf(c, u) == period - 1 && Trusted(c, snapshot, period - 1, prev);
      ValidIsShown(c, prev, u);
      TrustedDescends(c, snapshot, period - 1, prev);
    }
  }

  /** The next committee was shown to this one, in this period. */
  ghost predicate NextShown(c: Chain, committee: Committee, period: nat, next: Committee) {
    exists u :: Shown(c, committee, u) && u.nextSyncCommittee == next && PeriodAt(c, Argued(u).slot) == period
  }

  /** The head is the snapshot's, or was signed by a committee that descends from the snapshot. */
  ghost predicate HeadShown(c: Chain, snapshot: Snapshot, head: Head) {
    || head == Head(0, snapshot.header)
    || exists committee, aggregate ::
         && Descends(c, snapshot, PeriodAt(c, head.header.slot), committee)
         && SignedBy(c, committee, aggregate, head.header)
         && head.participation == |SetBits(aggregate.bits)|
  }

  ghost function SetBits(bits: seq<bool>): set<nat> {
    set i: nat | i < |bits| && bits[i]
  }

  lemma {:induction false} BitsCounted(bits: seq<bool>)
    ensures SumBits(bits) == |SetBits(bits)|
  {
    if bits == [] {
      assert SetBits(bits) == {};
    } else {
      var n := |bits| - 1;
      BitsCounted(bits[..n]);
      assert SetBits(bits) == if bits[n] then SetBits(bits[..n]) + {n} else SetBits(bits[..n]);
    }
  }

  /** In every run from the snapshot: the lower committee descends from the snapshot's, the upper one was
      shown to it, and the head was signed by a committee that descends. */
  lemma RunShown(c: Chain, snapshot: Snapshot, steps: seq<Step>)
    ensures var s := Run(c, Initial(c, snapshot), steps); var m := s.committees;
      && 1 <= |m| <= 2
      && Descends(c, snapshot, m[0].0, m[0].1.committee)
      && (|m| == 2 ==> m[1].0 == m[0].0 + 1 && NextShown(c, m[0].1.committee, m[0].0, m[1].1.committee))
      && HeadShown(c, snapshot, s.head)
  {
    hide Run, Initial, Trusted, Descends, Shown, SignedBy, ValidSignedHeader, ValidUpdate;
    var start := Initial(c, snapshot);
    InitialKept(c, snapshot);
    RunKeeps(c, snapshot, start, steps);
    var s := Run(c, start, steps);
    var m := s.committees;
    TrustedDescends(c, snapshot, m[0].0, m[0].1.committee);
    if |m| == 2 {
      var u :| Hands(c, m[0].1.committee, u, m[1].1.committee) && PeriodOf(c, u) == m[0].0 && m[1].1.stats == StatsOf(c, u);
      ValidIsShown(c, m[0].1.committee, u);
    }
    if s.head != Head(0, snapshot.header) {
      var committee, aggregate :| Trusted(c, snapshot, Period(c, s.head.header.slot), committee)
        && ValidSignedHeader(c, committee, aggregate, s.head.header) && s.head.participation == SumBits(aggregate.bits);
      TrustedDescends(c, snapshot, Period(c, s.head.header.slot), committee);
      SignatureChecked(c, committee, aggregate, s.head.header);
      BitsCounted(aggregate.bits);
    }
  }

  /** The checkpoint's snapshot holds the committee at leaf 22 of 32 below the state root of its header. */
  lemma SnapshotShown(c: Chain, snapshot: Snapshot, branch: seq<Digest>)
    requires BranchLeadsTo(c.hash, c.committeeRoot(snapshot.currentSyncCommittee), branch, CURRENT_SYNC_COMMITTEE_DEPTH,
                           CURRENT_SYNC_COMMITTEE_INDEX, snapshot.header.stateRoot) == Some(true)
    ensures IsLeaf(c.hash, snapshot.header.stateRoot, 5, 22, c.committeeRoot(snapshot.currentSyncCommittee), branch)
  {
    hide IsLeaf, BranchLeadsTo;
    BranchChecked(c.hash, snapshot.header.stateRoot, 5, 22, c.committeeRoot(snapshot.currentSyncCommittee), branch);
  }

  // ----- Headers -----

  /** Nothing registered for this period or the one before is more than twice the participation `n`, and one. */
  ghost predicate ClearsBar(m: OMap<nat>, period: nat, n: nat) {
    forall i :: 0 <= i < |m| && (m[i].0 == period || m[i].0 + 1 == period) ==> m[i].1 <= 2 * n + 1
  }

  lemma BarCleared(m: OMap<nat>, period: nat, n: nat)
    requires Keyed(m)
    ensures n >= MaxParticipation(m, period) / SAFETY_THRESHOLD_FACTOR <==> ClearsBar(m, period, n)
  {
    hide Get;
    RegisteredClears(m, period, n);
    RegisteredClears(m, period - 1, n);
  }

  lemma RegisteredClears(m: OMap<nat>, period: int, n: nat)
    requires Keyed(m)
    ensures Registered(m, period) <= 2 * n + 1 <==> forall i :: 0 <= i < |m| && m[i].0 == period ==> m[i].1 <= 2 * n + 1
  {
    hide Get;
    if i :| 0 <= i < |m| && m[i].0 == period {
      GetAt(m, i);
    } else if period >= 0 {
      GetMissing(m, period);
    }
  }

  lemma {:induction false} GetMissing(m: OMap<nat>, k: nat)
    requires forall i :: 0 <= i < |m| ==> m[i].0 != k
    ensures Get(m, k) == None
  {
    if m != [] {
      GetMissing(m[1..], k);
    }
  }

  /** A header is accepted if and only if it is in time, the committee held for its period signed it, and
      it clears the bar; the bar is half of the most that was registered lately. */
  lemma HeaderAccepted(c: Chain, snapshot: Snapshot, s: Store, header: Header, aggregate: SyncAggregate, maxSlot: int)
    requires Kept(c, snapshot, s)
    ensures var p := PeriodAt(c, header.slot);
      HeaderStep(c, s, header, aggregate, maxSlot).outcome.Accepted? <==>
      && header.slot <= maxSlot && Get(s.committees, p).Some?
      && SignedBy(c, Get(s.committees, p).value.committee, aggregate, header)
      && ClearsBar(s.participation, p, |SetBits(aggregate.bits)|)
  {
    hide Get, SignedBy, ValidSignedHeader, MaxParticipation, Register, ClearsBar, SetBits, SumBits;
    var p := PeriodAt(c, header.slot);
    BitsCounted(aggregate.bits);
    BarCleared(s.participation, p, SumBits(aggregate.bits));
    if Get(s.committees, p).Some? {
      SignatureChecked(c, Get(s.committees, p).value.committee, aggregate, header);
    }
  }

  /** The headers that a run accepts, with their participation, in order. */
  function AcceptedHeads(c: Chain, s: Store, steps: seq<Step>): seq<Head> {
    if steps == [] then []
    else
      var n := |steps| - 1;
      AcceptedHeads(c, s, steps[..n])
      + if steps[n].HeaderUpdate? && Next(c, Run(c, s, steps[..n]), steps[n]).outcome.Accepted?
        then [Head(SumBits(steps[n].aggregate.bits), steps[n].header)] else []
  }

  /** By slot, and then by participation. */
  predicate Surpasses(h: Head, k: Head) {
    h.header.slot > k.header.slot || (h.header.slot == k.header.slot && h.participation > k.participation)
  }

  /** The head after one step: that of an accepted header if it surpasses the one before. */
  lemma HeadAfter(c: Chain, s: Store, step: Step)
    ensures var t := Next(c, s, step);
      t.store.head ==
        if step.HeaderUpdate? && t.outcome.Accepted?
           && Surpasses(Head(SumBits(step.aggregate.bits), step.header), s.head)
        then Head(SumBits(step.aggregate.bits), step.header) else s.head
  {
    hide ValidSignedHeader, ValidUpdate, Register, MaxParticipation, SumBits, Get, Set, Newest, StatsOf, Better;
  }

  /** The head of every run is its first head or one of the accepted headers, and none of them surpasses it. */
  lemma {:induction false} HeadIsBest(c: Chain, s: Store, steps: seq<Step>)
    ensures Run(c, s, steps).head in [s.head] + AcceptedHeads(c, s, steps)
    ensures forall h :: h in [s.head] + AcceptedHeads(c, s, steps) ==> !Surpasses(h, Run(c, s, steps).head)
  {
    hide Next, SumBits;
    if steps == [] {
      assert Run(c, s, steps) == s && [s.head] + AcceptedHeads(c, s, steps) == [s.head];
    } else {
      var n := |steps| - 1;
      HeadIsBest(c, s, steps[..n]);
      HeadAfter(c, Run(c, s, steps[..n]), steps[n]);
      var before, heads := [s.head] + AcceptedHeads(c, s, steps[..n]), [s.head] + AcceptedHeads(c, s, steps);
      assert heads == before || heads == before + [Head(SumBits(steps[n].aggregate.bits), steps[n].header)];
    }
  }
}
