/** The store of a light client, the two updates that move it, and what every run keeps. */
module LightClient {
  import opened Bytes
  import opened MerkleBranch
  import opened OrderedMap
  import opened LightClientUpdates
  import opened Wrappers

  const MAX_STORED_SYNC_COMMITTEES: nat := 2
  const MAX_STORED_PARTICIPATION: nat := 3
  const SAFETY_THRESHOLD_FACTOR: nat := 2
  const CURRENT_SYNC_COMMITTEE_INDEX: nat := 22
  const CURRENT_SYNC_COMMITTEE_DEPTH: nat := 5

  datatype Entry = Entry(stats: Stats, committee: Committee)

  datatype Head = Head(participation: nat, header: Header)

  datatype Store = Store(committees: OMap<Entry>, participation: OMap<nat>, head: Head)

  datatype Snapshot = Snapshot(header: Header, currentSyncCommittee: Committee)

  /** Why an update is turned down. */
  datatype Outcome =
    | Accepted
    | TooFarInFuture
    | RollsBack
    | NoSyncCommittee
    | Invalid
    | Undecodable
    | LowParticipation

  datatype Result = Result(outcome: Outcome, store: Store)

  // ----- The guard against rolling back -----

  /** A number that may be minus infinity. */
  datatype Bound = MinusInfinity | Finite(period: nat)

  /** `Math.min(b, ...keys)` */
  function MinOf(b: Bound, keys: seq<nat>): Bound
    decreases |keys|
  {
    if keys == [] then b
    else match b
      case MinusInfinity => MinOf(b, keys[1..])
      case Finite(p) => MinOf(Finite(if keys[0] < p then keys[0] else p), keys[1..])
  }

  predicate Under(period: nat, b: Bound) {
    b.Finite? && period < b.period
  }

  /** The minimum with minus infinity never exceeds a period. */
  lemma {:induction false} GuardNeverFires(keys: seq<nat>, period: nat)
    ensures !Under(period, MinOf(MinusInfinity, keys))
  {
    if keys != [] {
      GuardNeverFires(keys[1..], period);
    }
  }

  // ----- The two updates, on values -----

  /** `processSyncCommitteeUpdate` */
  function CommitteeStep(c: Chain, s: Store, u: Update, maxSlot: int): Result {
    var slot := ActiveHeader(u).slot;
    var period := Period(c, slot);
    var known := Get(s.committees, period);
    if slot > maxSlot then Result(TooFarInFuture, s)
    else if Under(period, MinOf(MinusInfinity, Keys(s.committees))) then Result(RollsBack, s)
    else if known.None? then Result(NoSyncCommittee, s)
    else if !ValidUpdate(c, known.value.committee, u) then Result(Invalid, s)
    else
      var existing := Get(s.committees, period + 1);
      if existing.Some? && !Better(c, existing.value.stats, StatsOf(c, u)) then Result(Accepted, s)
      else if !c.decodes(u.nextSyncCommittee) then Result(Undecodable, s)
      else
        var entry := Entry(StatsOf(c, u), u.nextSyncCommittee);
        Result(Accepted, s.(committees := Newest(Set(s.committees, period + 1, entry), MAX_STORED_SYNC_COMMITTEES)))
  }

  function Registered(participation: OMap<nat>, period: int): nat {
    if period < 0 then 0
    else match Get(participation, period)
      case Some(n) => n
      case None => 0
  }

  /** The most participation seen in a period or the one before it. */
  function MaxParticipation(participation: OMap<nat>, period: nat): nat {
    var curr, prev := Registered(participation, period), Registered(participation, period - 1);
    if curr > prev then curr else prev
  }

  function Register(participation: OMap<nat>, period: nat, n: nat): OMap<nat> {
    if n > MaxParticipation(participation, period)
    then Newest(Set(participation, period, n), MAX_STORED_PARTICIPATION) else participation
  }

  /** `processHeaderUpdate` */
  function HeaderStep(c: Chain, s: Store, header: Header, aggregate: SyncAggregate, maxSlot: int): Result {
    var period := Period(c, header.slot);
    var known := Get(s.committees, period);
    var n := SumBits(aggregate.bits);
    if header.slot > maxSlot then Result(TooFarInFuture, s)
    else if known.None? then Result(NoSyncCommittee, s)
    else if !ValidSignedHeader(c, known.value.committee, aggregate, header) then Result(Invalid, s)
    else if n < MaxParticipation(s.participation, period) / SAFETY_THRESHOLD_FACTOR then Result(LowParticipation, s)
    else Result(Accepted, s.(participation := Register(s.participation, period, n),
                             head := if header.slot > s.head.header.slot
                                        || (header.slot == s.head.header.slot && n > s.head.participation)
                                     then Head(n, header) else s.head))
  }

  datatype Step =
    | CommitteeUpdate(update: Update, maxSlot: int)
    | HeaderUpdate(header: Header, aggregate: SyncAggregate, maxSlot: int)

  function Next(c: Chain, s: Store, step: Step): Result {
    match step
    case CommitteeUpdate(u, maxSlot) => CommitteeStep(c, s, u, maxSlot)
    case HeaderUpdate(header, aggregate, maxSlot) => HeaderStep(c, s, header, aggregate, maxSlot)
  }

  /** Updates that are turned down leave the store as it was, and the client goes on. */
  function Run(c: Chain, s: Store, steps: seq<Step>): Store {
    if steps == [] then s else Next(c, Run(c, s, steps[..|steps| - 1]), steps[|steps| - 1]).store
  }

  function Initial(c: Chain, snapshot: Snapshot): Store {
    var period := Period(c, snapshot.header.slot);
    Store([(period, Entry(Stats(false, 0, period * c.epochsPerPeriod * c.slotsPerEpoch), snapshot.currentSyncCommittee))],
          [], Head(0, snapshot.header))
  }

  // ----- What every run keeps -----

  function PeriodOf(c: Chain, u: Update): nat {
    Period(c, ActiveHeader(u).slot)
  }

  /** `committee` validated `u`, signed in the period it counts for, and `u` names `next`. */
  ghost predicate Hands(c: Chain, committee: Committee, u: Update, next: Committee) {
    && ValidUpdate(c, committee, u)
    && PeriodOf(c, u) == Period(c, u.attestedHeader.slot)
    && u.nextSyncCommittee == next
  }

  /** A chain of valid updates, one per period, leads from the snapshot to `committee`. */
  ghost predicate Trusted(c: Chain, snapshot: Snapshot, period: nat, committee: Committee)
    decreases period
  {
    var start := Period(c, snapshot.header.slot);
    if period <= start then period == start && committee == snapshot.currentSyncCommittee
    else exists prev, u :: Hands(c, prev, u, committee) && PeriodOf(c, u) == period - 1 && Trusted(c, snapshot, period - 1, prev)
  }

  /** The entry for `period + 1` is what an update validated by `committee` brought. */
  ghost predicate HandedOver(c: Chain, committee: Committee, period: nat, next: Entry) {
    exists u :: Hands(c, committee, u, next.committee) && PeriodOf(c, u) == period && next.stats == StatsOf(c, u)
  }

  ghost predicate CommitteesKept(c: Chain, snapshot: Snapshot, m: OMap<Entry>) {
    && 1 <= |m| <= 2
    && Trusted(c, snapshot, m[0].0, m[0].1.committee)
    && (|m| == 2 ==> m[1].0 == m[0].0 + 1 && HandedOver(c, m[0].1.committee, m[0].0, m[1].1))
  }

  /** Registered periods are inserted in order, but for neighbours. */
  ghost predicate AlmostAscending(m: OMap<nat>) {
    forall i, j :: 0 <= i < j < |m| ==> m[i].0 <= m[j].0 + 1
  }

  ghost predicate ParticipationKept(m: OMap<nat>, low: nat) {
    && |m| <= MAX_STORED_PARTICIPATION
    && Keyed(m)
    && AlmostAscending(m)
    && forall i :: 0 <= i < |m| ==> m[i].0 <= low + 1
  }

  /** The head is the snapshot's header or carries the signature of the trusted committee of its period. */
  ghost predicate HeadKept(c: Chain, snapshot: Snapshot, head: Head) {
    || head == Head(0, snapshot.header)
    || exists committee, aggregate ::
         && Trusted(c, snapshot, Period(c, head.header.slot), committee)
         && ValidSignedHeader(c, committee, aggregate, head.header)
         && head.participation == SumBits(aggregate.bits)
  }

  ghost predicate Kept(c: Chain, snapshot: Snapshot, s: Store) {
    && CommitteesKept(c, snapshot, s.committees)
    && ParticipationKept(s.participation, s.committees[0].0)
    && HeadKept(c, snapshot, s.head)
  }

  /** The lower of the stored periods. */
  function Low(s: Store): nat
    requires s.committees != []
  {
    s.committees[0].0
  }

  lemma InitialKept(c: Chain, snapshot: Snapshot)
    ensures Kept(c, snapshot, Initial(c, snapshot))
  {
  }

  /** What the stored committees look up to. */
  lemma Lookups(m: OMap<Entry>, k: nat)
    requires 1 <= |m| <= 2 && (|m| == 2 ==> m[1].0 == m[0].0 + 1)
    ensures Get(m, k) == if k == m[0].0 then Some(m[0].1) else if |m| == 2 && k == m[1].0 then Some(m[1].1) else None
  {
    if |m| == 2 {
      assert m[1..] == [m[1]];
    }
  }

  /** The stored committees after the committee of period `k` named `entry` for the next period. */
  lemma Stored(m: OMap<Entry>, k: nat, entry: Entry)
    requires 1 <= |m| <= 2 && (|m| == 2 ==> m[1].0 == m[0].0 + 1)
    requires Get(m, k).Some?
    ensures k == m[0].0 || (|m| == 2 && k == m[1].0)
    ensures Newest(Set(m, k + 1, entry), MAX_STORED_SYNC_COMMITTEES)
         == if k == m[0].0 then [m[0], (k + 1, entry)] else [m[1], (k + 1, entry)]
  {
    Lookups(m, k);
    Lookups(m, k + 1);
    SetPlaces(m, k + 1, entry);
    if |m| == 2 && k == m[0].0 {
      assert m[1..] == [m[1]];
      assert Set(m[1..], k + 1, entry) == [(k + 1, entry)];
      assert Set(m, k + 1, entry) == [m[0], (k + 1, entry)];
    } else if |m| == 2 {
      assert Set(m, k + 1, entry)[1..] == [m[1], (k + 1, entry)];
    }
  }

  /** The lower period stays, with its committee, or moves up by one to the committee that was
      stored as the next one. */
  ghost predicate Moves(m: OMap<Entry>, n: OMap<Entry>) {
    && m != [] && n != []
    && (n[0] == m[0] || (|m| == 2 && n[0] == m[1] && n[0].0 == m[0].0 + 1))
  }

  lemma CommitteeStepKeeps(c: Chain, snapshot: Snapshot, s: Store, u: Update, maxSlot: int)
    requires Kept(c, snapshot, s)
    ensures Kept(c, snapshot, CommitteeStep(c, s, u, maxSlot).store)
    ensures Moves(s.committees, CommitteeStep(c, s, u, maxSlot).store.committees)
    ensures CommitteeStep(c, s, u, maxSlot).store.participation == s.participation
    ensures CommitteeStep(c, s, u, maxSlot).store.head == s.head
  {
    hide ValidUpdate, Better, HeadKept, StatsOf, Newest, Set, Get, Trusted, HandedOver, ActiveHeader, Period;
    var m, k := s.committees, Period(c, ActiveHeader(u).slot);
    var t := CommitteeStep(c, s, u, maxSlot).store;
    Lookups(m, k);
    if t != s {
      var entry := Entry(StatsOf(c, u), u.nextSyncCommittee);
      Stored(m, k, entry);
      HandsOver(c, Get(m, k).value.committee, k, u);
      if k != m[0].0 {
        SecondTrusted(c, snapshot, m);
      }
    }
  }

  lemma HandsOver(c: Chain, signer: Committee, k: nat, u: Update)
    requires ValidUpdate(c, signer, u) && PeriodOf(c, u) == k
    ensures HandedOver(c, signer, k, Entry(StatsOf(c, u), u.nextSyncCommittee))
  {
    SignedInItsPeriod(c, signer, u);
    assert Hands(c, signer, u, u.nextSyncCommittee);
  }

  /** Nothing is trusted before the snapshot. */
  lemma TrustedLow(c: Chain, snapshot: Snapshot, period: nat, committee: Committee)
    requires Trusted(c, snapshot, period, committee)
    ensures period >= Period(c, snapshot.header.slot)
  {
  }

  /** Periods below the stored ones are turned down all the same: they have no committee. */
  lemma RollbackRejected(c: Chain, snapshot: Snapshot, s: Store, u: Update, maxSlot: int)
    requires Kept(c, snapshot, s)
    requires Period(c, ActiveHeader(u).slot) < Low(s)
    ensures CommitteeStep(c, s, u, maxSlot)
         == Result(if ActiveHeader(u).slot > maxSlot then TooFarInFuture else NoSyncCommittee, s)
  {
    hide Get, MinOf;
    Lookups(s.committees, Period(c, ActiveHeader(u).slot));
    GuardNeverFires(Keys(s.committees), Period(c, ActiveHeader(u).slot));
  }

  lemma RegisterKeeps(m: OMap<nat>, low: nat, period: nat, n: nat)
    requires ParticipationKept(m, low) && low <= period <= low + 1
    ensures ParticipationKept(Register(m, period, n), low)
  {
    hide MaxParticipation, Keys, Get, Set, ParticipationKept;
    if n > MaxParticipation(m, period) {
      SetPlaces(m, period, n);
      if Get(m, period).Some? {
        SameKeysKept(m, Set(m, period, n), low);
      } else {
        AppendKept(m, low, period, n);
      }
    }
  }

  lemma SameKeysKept(m: OMap<nat>, m': OMap<nat>, low: nat)
    requires ParticipationKept(m, low) && Keys(m') == Keys(m)
    ensures ParticipationKept(Newest(m', MAX_STORED_PARTICIPATION), low)
  {
    assert |m'| == |Keys(m')| == |m|;
    forall i | 0 <= i < |m| ensures m'[i].0 == m[i].0 {
      assert Keys(m')[i] == Keys(m)[i];
    }
  }

  lemma AppendKept(m: OMap<nat>, low: nat, period: nat, n: nat)
    requires ParticipationKept(m, low) && low <= period <= low + 1 && period !in Keys(m)
    ensures ParticipationKept(Newest(m + [(period, n)], MAX_STORED_PARTICIPATION), low)
  {
    forall i | 0 <= i < |m| ensures m[i].0 != period {
      assert Keys(m)[i] == m[i].0;
    }
  }

  lemma HeaderStepKeeps(c: Chain, snapshot: Snapshot, s: Store, header: Header, aggregate: SyncAggregate, maxSlot: int)
    requires Kept(c, snapshot, s)
    ensures var t := HeaderStep(c, s, header, aggregate, maxSlot).store;
      && Kept(c, snapshot, t)
      && t.committees == s.committees
      && t.head.header.slot >= s.head.header.slot
      && (t.head.header.slot == s.head.header.slot ==> t.head.participation >= s.head.participation)
  {
    hide ValidSignedHeader, Trusted, Register, MaxParticipation, Get, ParticipationKept;
    var period := Period(c, header.slot);
    Lookups(s.committees, period);
    if HeaderStep(c, s, header, aggregate, maxSlot).outcome.Accepted? {
      var committee := Get(s.committees, period).value.committee;
      RegisterKeeps(s.participation, Low(s), period, SumBits(aggregate.bits));
      if period != Low(s) {
        SecondTrusted(c, snapshot, s.committees);
      }
      assert Trusted(c, snapshot, period, committee) && ValidSignedHeader(c, committee, aggregate, header);
    }
  }

  lemma SecondTrusted(c: Chain, snapshot: Snapshot, m: OMap<Entry>)
    requires CommitteesKept(c, snapshot, m) && |m| == 2
    ensures Trusted(c, snapshot, m[1].0, m[1].1.committee)
  {
    hide ValidUpdate;
    var u :| Hands(c, m[0].1.committee, u, m[1].1.committee) && PeriodOf(c, u) == m[0].0 && m[1].1.stats == StatsOf(c, u);
    TrustedLow(c, snapshot, m[0].0, m[0].1.committee);
    assert Trusted(c, snapshot, m[1].0 - 1, m[0].1.committee);
  }

  /** In every reachable state the stored periods are p or p and p + 1, every stored committee is
      linked to the snapshot by valid updates, and the committee stored at p is the one that
      validated the update whose committee is stored at p + 1. Neither the lower period nor the
      slot of the head ever decreases. */
  lemma {:induction false} RunKeeps(c: Chain, snapshot: Snapshot, s: Store, steps: seq<Step>)
    requires Kept(c, snapshot, s)
    ensures Kept(c, snapshot, Run(c, s, steps))
    ensures Low(Run(c, s, steps)) >= Low(s)
    ensures Low(Run(c, s, steps)) == Low(s) ==> Run(c, s, steps).committees[0] == s.committees[0]
    ensures Run(c, s, steps).head.header.slot >= s.head.header.slot
  {
    hide CommitteeStep, HeaderStep, CommitteesKept, ParticipationKept, HeadKept;
    if steps != [] {
      var before, step := Run(c, s, steps[..|steps| - 1]), steps[|steps| - 1];
      RunKeeps(c, snapshot, s, steps[..|steps| - 1]);
      KeptNonEmpty(c, snapshot, before);
      match step {
        case CommitteeUpdate(u, maxSlot) => CommitteeStepKeeps(c, snapshot, before, u, maxSlot);
        case HeaderUpdate(header, aggregate, maxSlot) => HeaderStepKeeps(c, snapshot, before, header, aggregate, maxSlot);
      }
    }
  }

  lemma KeptNonEmpty(c: Chain, snapshot: Snapshot, s: Store)
    requires Kept(c, snapshot, s)
    ensures s.committees != []
  {
  }

  // ----- The update that is kept -----

  /** The updates for `period` that a run accepts, in order. */
  function AcceptedFor(c: Chain, s: Store, steps: seq<Step>, period: nat): seq<Stats> {
    if steps == [] then []
    else
      var n := |steps| - 1;
      AcceptedFor(c, s, steps[..n], period)
        + if AcceptsFor(c, Run(c, s, steps[..n]), steps[n], period) then [StatsOf(c, steps[n].update)] else []
  }

  predicate AcceptsFor(c: Chain, s: Store, step: Step, period: nat) {
    step.CommitteeUpdate? && PeriodOf(c, step.update) == period && Next(c, s, step).outcome.Accepted?
  }

  /** The entry for the next period is the winner of all accepted updates for the lower period, and
      no update for a later period has been accepted. */
  ghost predicate WinnerStored(c: Chain, start: Store, steps: seq<Step>) {
    var m := Run(c, start, steps).committees;
    && 1 <= |m| <= 2
    && (forall p: nat :: p > m[0].0 ==> AcceptedFor(c, start, steps, p) == [])
    && (|m| == 1 ==> AcceptedFor(c, start, steps, m[0].0) == [])
    && (|m| == 2 ==>
          var h := AcceptedFor(c, start, steps, m[0].0);
          h != [] && m[1].1.stats == Winner(c, h[0], h[1..]))
  }

  lemma WinnerNext(c: Chain, h: seq<Stats>, next: Stats)
    requires h != []
    ensures var winner := Winner(c, h[0], h[1..]);
      Winner(c, (h + [next])[0], (h + [next])[1..]) == if Better(c, winner, next) then next else winner
  {
    var more := (h + [next])[1..];
    assert more[..|more| - 1] == h[1..];
  }

  /** What an accepted update for period `k` makes of the stored entries. */
  ghost predicate EntriesAfter(c: Chain, m: OMap<Entry>, k: nat, stats: Stats, n: OMap<Entry>)
    requires 1 <= |m| <= 2
  {
    && |n| == 2
    && if k == m[0].0
       then n[0] == m[0] && n[1].1.stats == if |m| == 2 && !Better(c, m[1].1.stats, stats) then m[1].1.stats else stats
       else |m| == 2 && k == m[1].0 && n[0] == m[1] && n[1].1.stats == stats
  }

  lemma AcceptedUpdate(c: Chain, s: Store, u: Update, maxSlot: int)
    requires 1 <= |s.committees| <= 2 && (|s.committees| == 2 ==> s.committees[1].0 == s.committees[0].0 + 1)
    requires CommitteeStep(c, s, u, maxSlot).outcome.Accepted?
    ensures EntriesAfter(c, s.committees, PeriodOf(c, u), StatsOf(c, u), CommitteeStep(c, s, u, maxSlot).store.committees)
  {
    hide ValidUpdate, Better, StatsOf, Newest, Set, Get, ActiveHeader, Period, MinOf, Keys;
    var m, k := s.committees, PeriodOf(c, u);
    Lookups(m, k);
    Lookups(m, k + 1);
    Stored(m, k, Entry(StatsOf(c, u), u.nextSyncCommittee));
  }

  lemma {:induction false} StoredIsWinner(c: Chain, snapshot: Snapshot, steps: seq<Step>)
    ensures WinnerStored(c, Initial(c, snapshot), steps)
  {
    hide CommitteeStep, HeaderStep, StatsOf, Period, Better, Winner, Trusted, AcceptsFor;
    var start := Initial(c, snapshot);
    if steps == [] {
      assert Run(c, start, steps) == start;
    } else {
      var n := |steps| - 1;
      StoredIsWinner(c, snapshot, steps[..n]);
      InitialKept(c, snapshot);
      RunKeeps(c, snapshot, start, steps[..n]);
      WinnerStays(c, snapshot, start, steps);
    }
  }

  lemma OthersUntouched(c: Chain, start: Store, steps: seq<Step>, p: nat)
    requires steps != []
    requires !AcceptsFor(c, Run(c, start, steps[..|steps| - 1]), steps[|steps| - 1], p)
    ensures AcceptedFor(c, start, steps, p) == AcceptedFor(c, start, steps[..|steps| - 1], p)
  {
  }

  /** A step that accepts no committee update. */
  lemma WinnerUntouched(c: Chain, start: Store, steps: seq<Step>)
    requires steps != [] && WinnerStored(c, start, steps[..|steps| - 1])
    requires var step := steps[|steps| - 1];
      step.HeaderUpdate? || !Next(c, Run(c, start, steps[..|steps| - 1]), step).outcome.Accepted?
    requires Run(c, start, steps).committees == Run(c, start, steps[..|steps| - 1]).committees
    ensures WinnerStored(c, start, steps)
  {
    hide Run, AcceptedFor, Next, Winner;
    forall p: nat ensures AcceptedFor(c, start, steps, p) == AcceptedFor(c, start, steps[..|steps| - 1], p) {
      OthersUntouched(c, start, steps, p);
    }
  }

  /** A step that accepts an update for period `k`. */
  lemma WinnerMoves(c: Chain, start: Store, steps: seq<Step>, k: nat, stats: Stats)
    requires steps != [] && WinnerStored(c, start, steps[..|steps| - 1])
    requires var before := Run(c, start, steps[..|steps| - 1]);
      && AcceptsFor(c, before, steps[|steps| - 1], k) && stats == StatsOf(c, steps[|steps| - 1].update)
      && (|before.committees| == 2 ==> before.committees[1].0 == before.committees[0].0 + 1)
      && EntriesAfter(c, before.committees, k, stats, Run(c, start, steps).committees)
    ensures WinnerStored(c, start, steps)
  {
    hide Run, AcceptedFor, Winner, Better, StatsOf, Next;
    WinnerAfter(c, start, steps, k, stats);
    forall p: nat | p != k ensures AcceptedFor(c, start, steps, p) == AcceptedFor(c, start, steps[..|steps| - 1], p) {
      OthersUntouched(c, start, steps, p);
    }
  }

  /** One step more. */
  lemma WinnerStays(c: Chain, snapshot: Snapshot, start: Store, steps: seq<Step>)
    requires steps != [] && WinnerStored(c, start, steps[..|steps| - 1])
    requires Kept(c, snapshot, Run(c, start, steps[..|steps| - 1]))
    ensures WinnerStored(c, start, steps)
  {
    hide CommitteeStep, HeaderStep, StatsOf, Period, Better, Winner, Trusted, AcceptedFor, WinnerStored, EntriesAfter, HeadKept;
    var before, step := Run(c, start, steps[..|steps| - 1]), steps[|steps| - 1];
    match step {
      case HeaderUpdate(header, aggregate, maxSlot) =>
        HeaderStepKeeps(c, snapshot, before, header, aggregate, maxSlot);
        WinnerUntouched(c, start, steps);
      case CommitteeUpdate(u, maxSlot) =>
        if CommitteeStep(c, before, u, maxSlot).outcome.Accepted? {
          AcceptedUpdate(c, before, u, maxSlot);
          WinnerMoves(c, start, steps, PeriodOf(c, u), StatsOf(c, u));
        } else {
          TurnedDownKeeps(c, before, u, maxSlot);
          WinnerUntouched(c, start, steps);
        }
    }
  }

  lemma WinnerAfter(c: Chain, start: Store, steps: seq<Step>, period: nat, stats: Stats)
    requires steps != [] && AcceptsFor(c, Run(c, start, steps[..|steps| - 1]), steps[|steps| - 1], period)
    requires stats == StatsOf(c, steps[|steps| - 1].update)
    ensures var h := AcceptedFor(c, start, steps[..|steps| - 1], period);
      && AcceptedFor(c, start, steps, period) == h + [stats]
      && (h == [] ==> Winner(c, (h + [stats])[0], (h + [stats])[1..]) == stats)
      && (h != [] ==> var winner := Winner(c, h[0], h[1..]);
           Winner(c, (h + [stats])[0], (h + [stats])[1..]) == if Better(c, winner, stats) then stats else winner)
  {
    var h := AcceptedFor(c, start, steps[..|steps| - 1], period);
    if h != [] {
      WinnerNext(c, h, stats);
    }
  }

  /** In every run from the snapshot: unless a final update with a supermajority and one without
      finality were both accepted for the lower period, no accepted update outranks the stored one. */
  lemma StoredIsBest(c: Chain, snapshot: Snapshot, steps: seq<Step>, s: Stats)
    requires |Run(c, Initial(c, snapshot), steps).committees| == 2
    requires var h := AcceptedFor(c, Initial(c, snapshot), steps, Low(Run(c, Initial(c, snapshot), steps)));
      s in h && Comparable(c, h[0], h[1..])
    ensures !Outranks(s, Run(c, Initial(c, snapshot), steps).committees[1].1.stats)
  {
    hide Run, AcceptedFor;
    StoredIsWinner(c, snapshot, steps);
    var h := AcceptedFor(c, Initial(c, snapshot), steps, Low(Run(c, Initial(c, snapshot), steps)));
    WinnerIsBest(c, h[0], h[1..]);
    assert [h[0]] + h[1..] == h;
  }

  // ----- What pruning does to the participation that is asked for -----

  /** Registering `n` for `period` evicts the oldest entry. */
  predicate Evicts(m: OMap<nat>, period: nat, n: nat) {
    n > MaxParticipation(m, period) && |m| == MAX_STORED_PARTICIPATION && Get(m, period).None?
  }

  lemma RegisteredValues(m: OMap<nat>, period: nat, n: nat, k: nat)
    requires Keyed(m) && |m| <= MAX_STORED_PARTICIPATION
    ensures Get(Register(m, period, n), k) ==
      if n > MaxParticipation(m, period) && k == period then Some(n)
      else if Evicts(m, period, n) && k == m[0].0 then None
      else Get(m, k)
  {
    hide MaxParticipation;
    if n > MaxParticipation(m, period) {
      SetPlaces(m, period, n);
      GetAfterSet(m, period, n, k);
      if Evicts(m, period, n) {
        AppendKeyed(m, period, n);
        var added := m + [(period, n)];
        GetAfterDrop(added, 1, k);
        assert Keys(added[..1]) == [m[0].0];
        assert Keys(m)[0] != period;
      } else if Get(m, period).Some? {
        assert |Keys(Set(m, period, n))| == |Keys(m)|;
      }
    }
  }

  lemma AppendKeyed(m: OMap<nat>, period: nat, n: nat)
    requires Keyed(m) && Get(m, period).None?
    ensures Keyed(m + [(period, n)])
  {
    SetPlaces(m, period, n);
    assert forall i :: 0 <= i < |m| ==> Keys(m)[i] == m[i].0;
  }

  /** Three entries are meant to hold the previous, the current and the next period. They do not
      when the previous period was registered before the one before it: `m` is then
      p - 1, p - 2 and one of p and p + 1, and the other of these two evicts p - 1. */
  predicate OutOfOrder(m: OMap<nat>, low: nat) {
    |m| == MAX_STORED_PARTICIPATION && m[0].0 + 1 == low && m[1].0 + 2 == low
  }

  /** Three registered periods and one more that is new. */
  lemma FourPeriods(a: nat, b: nat, c: nat, period: nat, low: nat)
    requires a != b && a != c && b != c && a != period && b != period && c != period
    requires a <= b + 1 && a <= c + 1 && b <= c + 1
    requires a <= low + 1 && b <= low + 1 && c <= low + 1 && low <= period <= low + 1
    ensures a + 1 >= low <==> a + 1 == low && b + 2 == low
    ensures a + 1 == low && b + 2 == low ==> (c == low && period == low + 1) || (c == low + 1 && period == low)
  {
  }

  /** An eviction reaches the previous, current or next period exactly when the entries are out of
      order, and then it is the previous one. */
  lemma EvictionReaches(m: OMap<nat>, low: nat, period: nat, n: nat)
    requires ParticipationKept(m, low) && low <= period <= low + 1
    requires Evicts(m, period, n)
    ensures m[0].0 + 1 >= low <==> OutOfOrder(m, low)
    ensures OutOfOrder(m, low) ==>
      (m[2].0 == low && period == low + 1) || (m[2].0 == low + 1 && period == low)
  {
    SetPlaces(m, period, n);
    var ks := Keys(m);
    assert ks[0] in ks && ks[1] in ks && ks[2] in ks;
    FourPeriods(m[0].0, m[1].0, m[2].0, period, low);
  }

  /** A header lowers the participation asked for in the lower stored period exactly when it is
      the first registered for the upper one, the entries are out of order, and the previous
      period saw more participation than the current one; in the upper period it never does. */
  lemma BarFalls(m: OMap<nat>, low: nat, period: nat, n: nat)
    requires ParticipationKept(m, low) && low <= period <= low + 1
    ensures MaxParticipation(Register(m, period, n), low + 1) >= MaxParticipation(m, low + 1)
    ensures MaxParticipation(Register(m, period, n), low) < MaxParticipation(m, low) <==>
      Evicts(m, period, n) && OutOfOrder(m, low) && period == low + 1 && m[0].1 > m[2].1
  {
    hide Register, ParticipationKept;
    KeptParts(m, low);
    RegisteredValues(m, period, n, low + 1);
    RegisteredValues(m, period, n, low);
    if low > 0 {
      RegisteredValues(m, period, n, low - 1);
    }
    if Evicts(m, period, n) {
      EvictionReaches(m, low, period, n);
      GetAt(m, 0);
      GetAt(m, 2);
    }
  }

  lemma KeptParts(m: OMap<nat>, low: nat)
    requires ParticipationKept(m, low)
    ensures Keyed(m) && |m| <= MAX_STORED_PARTICIPATION
  {
  }

  // ----- Reachable stores -----

  ghost predicate Reachable(c: Chain, snapshot: Snapshot, s: Store) {
    exists steps :: Run(c, Initial(c, snapshot), steps) == s
  }

  /** Every reachable store satisfies the invariant, and is at or past the snapshot. */
  lemma ReachableKept(c: Chain, snapshot: Snapshot, s: Store)
    requires Reachable(c, snapshot, s)
    ensures Kept(c, snapshot, s)
    ensures Low(s) >= Period(c, snapshot.header.slot) && s.head.header.slot >= snapshot.header.slot
  {
    hide Kept, Run;
    var steps :| Run(c, Initial(c, snapshot), steps) == s;
    InitialKept(c, snapshot);
    KeptNonEmpty(c, snapshot, Initial(c, snapshot));
    RunKeeps(c, snapshot, Initial(c, snapshot), steps);
    KeptNonEmpty(c, snapshot, s);
  }

  lemma ReachNext(c: Chain, snapshot: Snapshot, s: Store, step: Step)
    requires Reachable(c, snapshot, s)
    ensures Reachable(c, snapshot, Next(c, s, step).store)
  {
    hide Next;
    var steps :| Run(c, Initial(c, snapshot), steps) == s;
    var more := steps + [step];
    assert more[..|more| - 1] == steps;
    assert Run(c, Initial(c, snapshot), more) == Next(c, s, step).store;
  }

  // ----- A run on which the bar falls -----

  /** The clock stands at this slot throughout. */
  const TOY_CLOCK: int := 3

  /** A chain of one slot per period and five committee members, on which everything verifies. */
  function ToyChain(): Chain {
    Chain(_ => ZeroHash(), _ => ZeroHash(), _ => ZeroHash(), _ => true, (_, _, _, _) => true, 1, 1, 5, 1)
  }

  function ToyCommittee(): Committee {
    Committee([[], [], [], [], []], [])
  }

  function ToyHeader(slot: nat): Header {
    Header(slot, 0, ZeroHash(), ZeroHash(), ZeroHash())
  }

  /** The first `n` of five members sign. */
  function ToyAggregate(n: nat): SyncAggregate {
    SyncAggregate(seq(5, i => i < n), [])
  }

  function ToyUpdate(slot: nat): Update {
    Update(ToyHeader(slot), ToyCommittee(), seq(NEXT_SYNC_COMMITTEE_DEPTH, _ => ZeroHash()), EmptyHeader(),
           seq(FINALIZED_ROOT_DEPTH, _ => ZeroHash()), ToyAggregate(1))
  }

  lemma {:induction false} FirstSet(bits: seq<bool>, n: nat, pubkeys: seq<Pubkey>)
    requires forall i :: 0 <= i < |bits| ==> bits[i] == (i < n)
    requires |bits| <= |pubkeys|
    ensures SumBits(bits) == (if n < |bits| then n else |bits|) && ParticipantPubkeys(pubkeys, bits).Some?
  {
    if bits != [] {
      FirstSet(bits[..|bits| - 1], n, pubkeys);
    }
  }

  lemma ToyValid(n: nat, slot: nat)
    requires 1 <= n <= 5
    ensures SumBits(ToyAggregate(n).bits) == n
    ensures ValidSignedHeader(ToyChain(), ToyCommittee(), ToyAggregate(n), ToyHeader(slot))
    ensures ValidUpdate(ToyChain(), ToyCommittee(), ToyUpdate(slot))
    ensures Period(ToyChain(), slot) == slot && ActiveHeader(ToyUpdate(slot)) == ToyHeader(slot)
  {
    hide EmptyHeader, SumBits, ParticipantPubkeys;
    FirstSet(ToyAggregate(n).bits, n, ToyCommittee().pubkeys);
    FirstSet(ToyAggregate(1).bits, 1, ToyCommittee().pubkeys);
  }

  function ToyEntry(slot: nat): Entry {
    Entry(StatsOf(ToyChain(), ToyUpdate(slot)), ToyCommittee())
  }

  /** The committee of the newest stored period names its successor. */
  lemma ToyCommitteeStep(s: Store, p: nat)
    requires 1 <= |s.committees| <= 2 && (|s.committees| == 2 ==> s.committees[1].0 == s.committees[0].0 + 1)
    requires s.committees[|s.committees| - 1].0 == p <= TOY_CLOCK
    requires s.committees[|s.committees| - 1].1.committee == ToyCommittee()
    ensures CommitteeStep(ToyChain(), s, ToyUpdate(p), TOY_CLOCK)
         == Result(Accepted, s.(committees := [s.committees[|s.committees| - 1], (p + 1, ToyEntry(p))]))
  {
    hide ValidUpdate, StatsOf, ToyUpdate, ToyCommittee, Set, Get, Newest, Period, Keys;
    ToyValid(1, p);
    Lookups(s.committees, p);
    Lookups(s.committees, p + 1);
    GuardNeverFires(Keys(s.committees), p);
    Stored(s.committees, p, ToyEntry(p));
    ToyNames(p);
  }

  lemma ToyNames(p: nat)
    ensures ToyUpdate(p).nextSyncCommittee == ToyCommittee() && ToyHeader(p).slot == p
  {
  }

  lemma ToyHeaderStep(s: Store, p: nat, n: nat)
    requires 1 <= n <= 5 && p <= TOY_CLOCK
    requires 1 <= |s.committees| <= 2 && (|s.committees| == 2 ==> s.committees[1].0 == s.committees[0].0 + 1)
    requires exists i :: 0 <= i < |s.committees| && s.committees[i].0 == p
    requires forall i :: 0 <= i < |s.committees| ==> s.committees[i].1.committee == ToyCommittee()
    ensures var r := HeaderStep(ToyChain(), s, ToyHeader(p), ToyAggregate(n), TOY_CLOCK);
      && r.outcome == (if n < MaxParticipation(s.participation, p) / 2 then LowParticipation else Accepted)
      && r.store.committees == s.committees
      && r.store.participation == if r.outcome.Accepted? then Register(s.participation, p, n) else s.participation
  {
    hide ValidSignedHeader, MaxParticipation, Register, Get, Period, ToyAggregate, SumBits, ToyCommittee;
    ToyValid(n, p);
    Lookups(s.committees, p);
  }

  ghost predicate ToyStore(s: Store, p: nat, participation: OMap<nat>) {
    && |s.committees| == 2 && s.committees[0].0 == p && s.committees[1].0 == p + 1
    && s.committees[0].1.committee == s.committees[1].1.committee == ToyCommittee()
    && s.participation == participation
  }

  lemma ToyAdvances(snapshot: Snapshot, s: Store, p: nat, participation: OMap<nat>) returns (t: Store)
    requires Reachable(ToyChain(), snapshot, s) && ToyStore(s, p, participation) && p < TOY_CLOCK
    ensures Reachable(ToyChain(), snapshot, t) && ToyStore(t, p + 1, participation)
  {
    hide Reachable, CommitteeStep, StatsOf;
    ToyCommitteeStep(s, p + 1);
    var step := CommitteeUpdate(ToyUpdate(p + 1), TOY_CLOCK);
    ReachNext(ToyChain(), snapshot, s, step);
    t := Next(ToyChain(), s, step).store;
  }

  lemma ToyRegisters(snapshot: Snapshot, s: Store, p: nat, m: OMap<nat>, q: nat, n: nat) returns (t: Store)
    requires Reachable(ToyChain(), snapshot, s) && ToyStore(s, p, m)
    requires p <= q <= p + 1 && q <= TOY_CLOCK && MaxParticipation(m, q) / 2 <= n && 1 <= n <= 5
    ensures Reachable(ToyChain(), snapshot, t) && ToyStore(t, p, Register(m, q, n))
    ensures t == Next(ToyChain(), s, HeaderUpdate(ToyHeader(q), ToyAggregate(n), TOY_CLOCK)).store
  {
    hide Reachable, HeaderStep, MaxParticipation, Register;
    assert s.committees[q - p].0 == q;
    ToyHeaderStep(s, q, n);
    var step := HeaderUpdate(ToyHeader(q), ToyAggregate(n), TOY_CLOCK);
    ReachNext(ToyChain(), snapshot, s, step);
    t := Next(ToyChain(), s, step).store;
  }

  /** The same header, turned down for low participation, is accepted once another header has been
      registered. */
  ghost predicate SecondTry(c: Chain, snapshot: Snapshot, s: Store, other: Step, header: Step) {
    && Reachable(c, snapshot, s)
    && Next(c, s, header).outcome == LowParticipation
    && Next(c, Next(c, s, other).store, header).outcome == Accepted
  }

  lemma BarFallsWitness()
    ensures exists c, snapshot, s, other, header :: SecondTry(c, snapshot, s, other, header)
  {
    hide Reachable, CommitteeStep, HeaderStep, Register, StatsOf, Next;
    var c, snapshot := ToyChain(), Snapshot(ToyHeader(0), ToyCommittee());
    var s := ToyStart(snapshot);
    ToyRegistry();
    s := ToyRegisters(snapshot, s, 0, [], 1, 2);
    s := ToyRegisters(snapshot, s, 0, [(1, 2)], 0, 1);
    s := ToyAdvances(snapshot, s, 0, [(1, 2), (0, 1)]);
    s := ToyRegisters(snapshot, s, 1, [(1, 2), (0, 1)], 2, 3);
    s := ToyRegisters(snapshot, s, 1, [(1, 2), (0, 1), (2, 3)], 1, 4);
    s := ToyAdvances(snapshot, s, 1, [(1, 4), (0, 1), (2, 3)]);
    var t := ToyRegisters(snapshot, s, 2, [(1, 4), (0, 1), (2, 3)], 3, 5);
    var other, header := HeaderUpdate(ToyHeader(3), ToyAggregate(5), TOY_CLOCK), HeaderUpdate(ToyHeader(2), ToyAggregate(1), TOY_CLOCK);
    ToyOutcome(s, 2, 1);
    ToyOutcome(t, 2, 1);
    assert SecondTry(c, snapshot, s, other, header);
  }

  lemma ToyOutcome(s: Store, p: nat, n: nat)
    requires ToyStore(s, p, s.participation) && 1 <= n <= 5 && p <= TOY_CLOCK
    ensures Next(ToyChain(), s, HeaderUpdate(ToyHeader(p), ToyAggregate(n), TOY_CLOCK)).outcome
         == if n < MaxParticipation(s.participation, p) / 2 then LowParticipation else Accepted
  {
    hide HeaderStep, MaxParticipation;
    assert s.committees[0].0 == p;
    ToyHeaderStep(s, p, n);
  }

  lemma ToyStart(snapshot: Snapshot) returns (s: Store)
    requires snapshot == Snapshot(ToyHeader(0), ToyCommittee())
    ensures Reachable(ToyChain(), snapshot, s) && ToyStore(s, 0, [])
  {
    hide CommitteeStep, StatsOf;
    var c := ToyChain();
    s := Initial(c, snapshot);
    assert Run(c, s, []) == s;
    ToyCommitteeStep(s, 0);
    var step := CommitteeUpdate(ToyUpdate(0), TOY_CLOCK);
    ReachNext(c, snapshot, s, step);
    s := Next(c, s, step).store;
  }

  // ----- Two updates that replace each other -----

  /** Updates `u` and `v` in turn, starting with `u`. */
  function InTurn(u: Step, v: Step, n: nat): (steps: seq<Step>) {
    if n == 0 then [] else InTurn(u, v, n - 1) + [if n % 2 == 1 then u else v]
  }

  /** From the reachable store `s`, the two updates swap the stored committee for ever. */
  ghost predicate SwapForEver(c: Chain, snapshot: Snapshot, s: Store, t: Store, u: Step, v: Step) {
    && Reachable(c, snapshot, s) && Reachable(c, snapshot, t)
    && |s.committees| == |t.committees| == 2
    && s.committees[1].0 == t.committees[1].0
    && s.committees[1].1.committee != t.committees[1].1.committee
    && forall n: nat :: Run(c, s, InTurn(u, v, n)) == if n % 2 == 0 then s else t
  }

  lemma {:induction false} TurnByTurn(c: Chain, s: Store, t: Store, u: Step, v: Step, n: nat)
    requires Next(c, s, u).store == t && Next(c, t, v).store == s
    ensures Run(c, s, InTurn(u, v, n)) == if n % 2 == 0 then s else t
  {
    hide Next, InTurn;
    InTurnStep(u, v, n);
    if n > 0 {
      TurnByTurn(c, s, t, u, v, n - 1);
    }
  }

  lemma InTurnStep(u: Step, v: Step, n: nat)
    ensures var steps := InTurn(u, v, n);
      if n == 0 then steps == []
      else steps != [] && steps[..|steps| - 1] == InTurn(u, v, n - 1) && steps[|steps| - 1] == if n % 2 == 1 then u else v
  {
  }

  function EntryOf(c: Chain, u: Update): Entry {
    Entry(StatsOf(c, u), u.nextSyncCommittee)
  }

  /** A valid update in time for the lower of two stored periods. */
  predicate ForLower(c: Chain, s: Store, u: Update, maxSlot: int) {
    && |s.committees| == 2
    && PeriodOf(c, u) == s.committees[0].0
    && ActiveHeader(u).slot <= maxSlot
    && ValidUpdate(c, s.committees[0].1.committee, u)
    && c.decodes(u.nextSyncCommittee)
  }

  /** The store with the entry for the upper period from `u`. */
  function WithUpper(c: Chain, s: Store, u: Update): Store
    requires |s.committees| == 2
  {
    s.(committees := [s.committees[0], (s.committees[1].0, EntryOf(c, u))])
  }

  /** Such an update is accepted, and replaces the stored entry if and only if it is better. */
  lemma Replaces(c: Chain, s: Store, u: Update, maxSlot: int)
    requires ForLower(c, s, u, maxSlot) && s.committees[1].0 == s.committees[0].0 + 1
    ensures CommitteeStep(c, s, u, maxSlot)
         == Result(Accepted, if Better(c, s.committees[1].1.stats, StatsOf(c, u)) then WithUpper(c, s, u) else s)
  {
    hide ValidUpdate, StatsOf, Set, Get, Newest, Keys, ActiveHeader, Better, MinOf, Period;
    var m := s.committees;
    Lookups(m, m[0].0);
    Lookups(m, m[1].0);
    GuardNeverFires(Keys(m), m[0].0);
    Stored(m, m[0].0, EntryOf(c, u));
  }

  /** On every chain, for every kept store whose upper entry an update `v` brought, and every update
      `u` that would bring another: fed with `u` and `v` in turn, the client replaces its entry every
      time, for ever, if and only if each of the two is better than the other (`BothBetter`). */
  lemma SwapsForEver(c: Chain, snapshot: Snapshot, s: Store, u: Update, v: Update, uSlot: int, vSlot: int)
    requires Kept(c, snapshot, s) && ForLower(c, s, u, uSlot) && ForLower(c, s, v, vSlot)
    requires s.committees[1].1 == EntryOf(c, v) != EntryOf(c, u)
    ensures (forall n: nat :: Run(c, s, InTurn(CommitteeUpdate(u, uSlot), CommitteeUpdate(v, vSlot), n))
                              == if n % 2 == 0 then s else WithUpper(c, s, u))
            <==> Better(c, StatsOf(c, u), StatsOf(c, v)) && Better(c, StatsOf(c, v), StatsOf(c, u))
  {
    hide CommitteeStep, Run, StatsOf, Better, Trusted, ParticipationKept, HeadKept, ValidUpdate;
    var step, back := CommitteeUpdate(u, uSlot), CommitteeUpdate(v, vSlot);
    var t := WithUpper(c, s, u);
    Replaces(c, s, u, uSlot);
    Replaces(c, t, v, vSlot);
    assert WithUpper(c, t, v) == s;
    if Better(c, StatsOf(c, u), StatsOf(c, v)) && Better(c, StatsOf(c, v), StatsOf(c, u)) {
      forall n: nat ensures Run(c, s, InTurn(step, back, n)) == if n % 2 == 0 then s else t {
        TurnByTurn(c, s, t, step, back, n);
      }
    } else {
      FirstTwo(c, s, step, back);
    }
  }

  lemma FirstTwo(c: Chain, s: Store, u: Step, v: Step)
    ensures Run(c, s, InTurn(u, v, 1)) == Next(c, s, u).store
    ensures Run(c, s, InTurn(u, v, 2)) == Next(c, Next(c, s, u).store, v).store
  {
    hide Next;
    InTurnStep(u, v, 0);
    InTurnStep(u, v, 1);
    InTurnStep(u, v, 2);
  }

  function ToyRival(): Committee {
    Committee([], [1])
  }

  /** Signed by four of five and final. */
  function ToyFinal(): Update {
    ToyUpdate(0).(finalizedHeader := Header(0, 1, ZeroHash(), ZeroHash(), ZeroHash()), syncAggregate := ToyAggregate(4))
  }

  /** Signed by all five, not final, and naming another committee. */
  function ToyFull(): Update {
    ToyUpdate(0).(nextSyncCommittee := ToyRival(), syncAggregate := ToyAggregate(5))
  }

  lemma ToyPair()
    ensures ValidUpdate(ToyChain(), ToyCommittee(), ToyFinal()) && ValidUpdate(ToyChain(), ToyCommittee(), ToyFull())
    ensures PeriodOf(ToyChain(), ToyFinal()) == 0 == PeriodOf(ToyChain(), ToyFull())
    ensures ActiveHeader(ToyFinal()).slot == 0 == ActiveHeader(ToyFull()).slot
    ensures StatsOf(ToyChain(), ToyFinal()) == Stats(true, 4, 0) && StatsOf(ToyChain(), ToyFull()) == Stats(false, 5, 0)
    ensures ToyFinal().nextSyncCommittee == ToyCommittee() && ToyFull().nextSyncCommittee == ToyRival()
  {
    hide SumBits, ParticipantPubkeys;
    FirstSet(ToyAggregate(4).bits, 4, ToyCommittee().pubkeys);
    FirstSet(ToyAggregate(5).bits, 5, ToyCommittee().pubkeys);
  }

  /** An update for period 0 is stored next to the committee of the snapshot. */
  lemma ToyReplaces(s: Store, first: Entry, u: Update, snapshot: Snapshot)
    requires first.committee == ToyCommittee() && u in {ToyFinal(), ToyFull()}
    requires s.committees == [(0, first)]
          || (|s.committees| == 2 && s.committees[0] == (0, first) && s.committees[1].0 == 1
              && Better(ToyChain(), s.committees[1].1.stats, StatsOf(ToyChain(), u)))
    ensures CommitteeStep(ToyChain(), s, u, TOY_CLOCK)
         == Result(Accepted, s.(committees := [(0, first), (1, Entry(StatsOf(ToyChain(), u), u.nextSyncCommittee))]))
  {
    hide ValidUpdate, StatsOf, ToyFinal, ToyFull, ToyCommittee, Set, Get, Newest, Keys, ActiveHeader, Better, MinOf, Period;
    ToyPair();
    Lookups(s.committees, 0);
    Lookups(s.committees, 1);
    GuardNeverFires(Keys(s.committees), 0);
    Stored(s.committees, 0, Entry(StatsOf(ToyChain(), u), u.nextSyncCommittee));
  }

  /** Such a pair and such stores exist. */
  lemma SwapForEverWitness()
    ensures exists c, snapshot, s, t, u, v :: SwapForEver(c, snapshot, s, t, u, v)
  {
    hide CommitteeStep, Run, ToyFinal, ToyFull, StatsOf, Reachable;
    var c, snapshot := ToyChain(), Snapshot(ToyHeader(0), ToyCommittee());
    var start := Initial(c, snapshot);
    StartReachable(c, snapshot);
    var u, v := CommitteeUpdate(ToyFull(), TOY_CLOCK), CommitteeUpdate(ToyFinal(), TOY_CLOCK);
    ToyPair();
    var first := start.committees[0].1;
    ToyReplaces(start, first, ToyFinal(), snapshot);
    var s := Next(c, start, v).store;
    ToyReplaces(s, first, ToyFull(), snapshot);
    var t := Next(c, s, u).store;
    ToyReplaces(t, first, ToyFinal(), snapshot);
    ReachNext(c, snapshot, start, v);
    ReachNext(c, snapshot, s, u);
    forall n: nat ensures Run(c, s, InTurn(u, v, n)) == if n % 2 == 0 then s else t {
      TurnByTurn(c, s, t, u, v, n);
    }
    assert SwapForEver(c, snapshot, s, t, u, v);
  }

  lemma StartReachable(c: Chain, snapshot: Snapshot)
    ensures Reachable(c, snapshot, Initial(c, snapshot))
  {
    assert Run(c, Initial(c, snapshot), []) == Initial(c, snapshot);
  }

  /** The participation maps of that run. */
  lemma ToyRegistry()
    ensures Register([], 1, 2) == [(1, 2)]
    ensures MaxParticipation([], 1) == 0 == MaxParticipation([(1, 2)], 0)
    ensures Register([(1, 2)], 0, 1) == [(1, 2), (0, 1)]
    ensures MaxParticipation([(1, 2), (0, 1)], 2) == 2
    ensures Register([(1, 2), (0, 1)], 2, 3) == [(1, 2), (0, 1), (2, 3)]
    ensures MaxParticipation([(1, 2), (0, 1), (2, 3)], 1) == 2
    ensures Register([(1, 2), (0, 1), (2, 3)], 1, 4) == [(1, 4), (0, 1), (2, 3)]
    ensures MaxParticipation([(1, 4), (0, 1), (2, 3)], 3) == 3
    ensures Register([(1, 4), (0, 1), (2, 3)], 3, 5) == [(0, 1), (2, 3), (3, 5)]
    ensures MaxParticipation([(1, 4), (0, 1), (2, 3)], 2) == 4
    ensures MaxParticipation([(0, 1), (2, 3), (3, 5)], 2) == 3
  {
  }

  // ----- The client -----

  class Lightclient {
    const chain: Chain
    ghost const snapshot: Snapshot
    var syncCommitteeByPeriod: OMap<Entry>
    var maxParticipationByPeriod: OMap<nat>
    var head: Head

    ghost function View(): Store
      reads this
    {
      Store(syncCommitteeByPeriod, maxParticipationByPeriod, head)
    }

    ghost predicate Valid()
      reads this
    {
      Kept(chain, snapshot, View())
    }

    /** The construction proper, once the snapshot's committee is decoded. */
    constructor (chain: Chain, snapshot: Snapshot)
      requires chain.decodes(snapshot.currentSyncCommittee)
      ensures this.chain == chain && this.snapshot == snapshot
      ensures Valid() && View() == Initial(chain, snapshot)
    {
      this.chain := chain;
      this.snapshot := snapshot;
      var periodCurr := Period(chain, snapshot.header.slot);
      syncCommitteeByPeriod := Set([], periodCurr,
        Entry(Stats(false, 0, periodCurr * chain.epochsPerPeriod * chain.slotsPerEpoch), snapshot.currentSyncCommittee));
      maxParticipationByPeriod := [];
      head := Head(0, snapshot.header);
    }

    /** `new Lightclient`; null where the committee of the snapshot does not decode, which throws. */
    static method Create(chain: Chain, snapshot: Snapshot) returns (client: Lightclient?)
      ensures client != null <==> chain.decodes(snapshot.currentSyncCommittee)
      ensures client != null ==>
        fresh(client) && client.Valid() && client.chain == chain && client.View() == Initial(chain, snapshot)
    {
      if !chain.decodes(snapshot.currentSyncCommittee) {
        return null;
      }
      client := new Lightclient(chain, snapshot);
    }

    /** `initializeFromCheckpointRoot`, from the snapshot that the server answers with; null where an
        error is thrown. */
    static method InitializeFromCheckpointRoot(chain: Chain, checkpointRoot: Digest, snapshot: Snapshot,
                                               branch: seq<Digest>) returns (client: Lightclient?)
      ensures client != null <==>
        && chain.headerRoot(snapshot.header) == checkpointRoot
        && BranchLeadsTo(chain.hash, chain.committeeRoot(snapshot.currentSyncCommittee), branch, CURRENT_SYNC_COMMITTEE_DEPTH,
                         CURRENT_SYNC_COMMITTEE_INDEX, snapshot.header.stateRoot) == Some(true)
        && chain.decodes(snapshot.currentSyncCommittee)
      ensures client != null ==> fresh(client) && client.Valid() && client.View() == Initial(chain, snapshot)
    {
      if checkpointRoot != chain.headerRoot(snapshot.header) {
        return null;
      }
      var proven := VerifyMerkleBranch(chain.hash, chain.committeeRoot(snapshot.currentSyncCommittee), branch,
        CURRENT_SYNC_COMMITTEE_DEPTH, CURRENT_SYNC_COMMITTEE_INDEX, snapshot.header.stateRoot);
      if proven != Some(true) {
        return null;
      }
      client := Create(chain, snapshot);
    }

    /** `processHeaderUpdate`; `maxSlot` is the slot of the clock with its tolerance. */
    method ProcessHeaderUpdate(header: Header, aggregate: SyncAggregate, maxSlot: int) returns (outcome: Outcome)
      requires Valid()
      modifies this
      ensures Valid()
      ensures Result(outcome, View()) == HeaderStep(chain, old(View()), header, aggregate, maxSlot)
    {
      hide ValidSignedHeader, Kept, Get, Set, Newest, SumBits, Period;
      HeaderStepKeeps(chain, snapshot, View(), header, aggregate, maxSlot);
      if header.slot > maxSlot {
        return TooFarInFuture;
      }
      var period := Period(chain, header.slot);
      var syncCommittee := Get(syncCommitteeByPeriod, period);
      if syncCommittee.None? {
        return NoSyncCommittee;
      }
      if !ValidSignedHeader(chain, syncCommittee.value.committee, aggregate, header) {
        return Invalid;
      }
      var currMaxParticipation := Registered(maxParticipationByPeriod, period);
      var prevMaxParticipation := Registered(maxParticipationByPeriod, period as int - 1);
      var maxParticipation := if currMaxParticipation > prevMaxParticipation then currMaxParticipation else prevMaxParticipation;
      var minSafeParticipation := maxParticipation / SAFETY_THRESHOLD_FACTOR;
      var participation := SumBits(aggregate.bits);
      if participation < minSafeParticipation {
        return LowParticipation;
      }
      if participation > maxParticipation {
        maxParticipationByPeriod := Set<nat>(maxParticipationByPeriod, period, participation);
        var pruned, deletedItems := PruneSetToMax(maxParticipationByPeriod, MAX_STORED_PARTICIPATION);
        maxParticipationByPeriod := pruned;
      }
      if header.slot > head.header.slot || (header.slot == head.header.slot && participation > head.participation) {
        head := Head(participation, header);
      }
      return Accepted;
    }

    /** `processSyncCommitteeUpdate` */
    method ProcessSyncCommitteeUpdate(update: Update, maxSlot: int) returns (outcome: Outcome)
      requires Valid()
      modifies this
      ensures Valid()
      ensures Result(outcome, View()) == CommitteeStep(chain, old(View()), update, maxSlot)
    {
      hide ValidUpdate, Kept, Get, Set, Newest, Period, StatsOf, Better, MinOf, ActiveHeader;
      CommitteeStepKeeps(chain, snapshot, View(), update, maxSlot);
      var updateSlot := ActiveHeader(update).slot;
      if updateSlot > maxSlot {
        return TooFarInFuture;
      }
      var updatePeriod := Period(chain, updateSlot);
      var minPeriod := MinOf(MinusInfinity, Keys(syncCommitteeByPeriod));
      if Under(updatePeriod, minPeriod) {
        return RollsBack;
      }
      var syncCommittee := Get(syncCommitteeByPeriod, updatePeriod);
      if syncCommittee.None? {
        return NoSyncCommittee;
      }
      if !ValidUpdate(chain, syncCommittee.value.committee, update) {
        return Invalid;
      }
      var nextPeriod := updatePeriod + 1;
      var existing := Get(syncCommitteeByPeriod, nextPeriod);
      var stats := StatsOf(chain, update);
      if existing.None? || Better(chain, existing.value.stats, stats) {
        if !chain.decodes(update.nextSyncCommittee) {
          return Undecodable;
        }
        syncCommitteeByPeriod := Set(syncCommitteeByPeriod, nextPeriod, Entry(stats, update.nextSyncCommittee));
        var pruned, deletedItems := PruneSetToMax(syncCommitteeByPeriod, MAX_STORED_SYNC_COMMITTEES);
        syncCommitteeByPeriod := pruned;
      }
      return Accepted;
    }

    /** The updates of one answer, in the order of `sync`, each at the clock's slot at its time: the
        first one turned down ends it. */
    method Sync(updates: seq<Update>, maxSlots: seq<int>) returns (taken: nat, outcome: Outcome)
      requires Valid() && |maxSlots| == |updates|
      modifies this
      ensures Valid() && taken <= |updates|
      ensures View() == Run(chain, old(View()), CommitteeUpdates(updates, maxSlots, taken))
      ensures taken == |updates| <==> outcome.Accepted?
      ensures taken < |updates| ==> Result(outcome, View()) == CommitteeStep(chain, View(), updates[taken], maxSlots[taken])
    {
      hide Kept, CommitteeStep;
      outcome := Accepted;
      taken := 0;
      ghost var start := View();
      while taken < |updates|
        invariant taken <= |updates| && Valid() && outcome.Accepted?
        invariant View() == Run(chain, start, CommitteeUpdates(updates, maxSlots, taken))
      {
        ghost var before := View();
        outcome := ProcessSyncCommitteeUpdate(updates[taken], maxSlots[taken]);
        if !outcome.Accepted? {
          TurnedDownKeeps(chain, before, updates[taken], maxSlots[taken]);
          return;
        }
        ghost var more := CommitteeUpdates(updates, maxSlots, taken + 1);
        assert more[..taken] == CommitteeUpdates(updates, maxSlots, taken);
        taken := taken + 1;
      }
    }
  }

  /** The first `n` updates as steps. */
  function CommitteeUpdates(updates: seq<Update>, maxSlots: seq<int>, n: nat): (steps: seq<Step>)
    requires |maxSlots| == |updates| && n <= |updates|
    ensures |steps| == n && forall i :: 0 <= i < n ==> steps[i] == CommitteeUpdate(updates[i], maxSlots[i])
  {
    seq(n, i requires 0 <= i < n => CommitteeUpdate(updates[i], maxSlots[i]))
  }

  lemma TurnedDownKeeps(c: Chain, s: Store, u: Update, maxSlot: int)
    ensures CommitteeStep(c, s, u, maxSlot).outcome.Accepted? || CommitteeStep(c, s, u, maxSlot).store == s
  {
  }
}
