/** `processSlotsWithTransientCache`: slots, epoch boundaries and fork upgrades, for any slot, epoch
    and upgrade processing. */
module SlotProcessing {
  import opened Params
  import opened Wrappers
  import Arith

  // ----- Forks -----

  datatype Fork = Phase0 | Altair | Bellatrix

  /** `ALTAIR_FORK_EPOCH` and `BELLATRIX_FORK_EPOCH`; a fork that is not planned is at infinity. */
  datatype Schedule = Schedule(slotsPerEpoch: Arith.Positive, altairEpoch: When, bellatrixEpoch: When) {

    /** `getForkName` for a slot of `epoch`: the latest fork first. */
    function ForkAt(epoch: nat): Fork {
      if bellatrixEpoch.By(epoch) then Bellatrix else if altairEpoch.By(epoch) then Altair else Phase0
    }

    function EpochOf(slot: nat): nat {
      slot / slotsPerEpoch
    }

    predicate EndsEpoch(slot: nat) {
      (slot + 1) % slotsPerEpoch == 0
    }
  }

  // ----- The loop -----

  /** A state: its slot, and all the rest together with the caches. */
  datatype Post<S> = Post(slot: nat, data: S)

  /** The processing that the loop drives; each part sees the whole state, and may throw. */
  datatype Ops<!S> = Ops(
    processSlot: Post<S> -> Option<S>,
    processEpoch: (Fork, Post<S>) -> Option<S>,
    afterProcessEpoch: Post<S> -> Option<S>,
    upgradeAltair: Post<S> -> Option<S>,
    upgradeBellatrix: Post<S> -> Option<S>)

  function Upgrade<S>(due: bool, upgrade: Post<S> -> Option<S>, st: Post<S>): (r: Option<Post<S>>)
    ensures r.Some? ==> r.value.slot == st.slot
  {
    if !due then Some(st)
    else match upgrade(st)
      case None => None
      case Some(data) => Some(st.(data := data))
  }

  /** The epoch part of an iteration, up to the rotated cache at the next slot. */
  function CrossBoundary<S>(fork: Fork, ops: Ops<S>, st: Post<S>): (r: Option<Post<S>>)
    ensures r.Some? ==> r.value.slot == st.slot + 1
  {
    match ops.processEpoch(fork, st)
    case None => None
    case Some(data) =>
      match ops.afterProcessEpoch(Post(st.slot + 1, data))
      case None => None
      case Some(rotated) => Some(Post(st.slot + 1, rotated))
  }

  /** One iteration; `None` where something throws. */
  function Step<S>(sch: Schedule, ops: Ops<S>, st: Post<S>): (r: Option<Post<S>>)
    ensures r.Some? ==> r.value.slot == st.slot + 1
  {
    match ops.processSlot(st)
    case None => None
    case Some(data) =>
      var cached := st.(data := data);
      if !sch.EndsEpoch(st.slot) then Some(cached.(slot := st.slot + 1))
      else
        var epoch := At(sch.EpochOf(st.slot + 1));
        match CrossBoundary(sch.ForkAt(sch.EpochOf(st.slot)), ops, cached)
        case None => None
        case Some(crossed) =>
          match Upgrade(epoch == sch.altairEpoch, ops.upgradeAltair, crossed)
          case None => None
          case Some(altair) => Upgrade(epoch == sch.bellatrixEpoch, ops.upgradeBellatrix, altair)
  }

  function Run<S>(sch: Schedule, ops: Ops<S>, st: Post<S>, slot: nat): (r: Option<Post<S>>)
    requires st.slot <= slot
    ensures r.Some? ==> r.value.slot == slot
    decreases slot - st.slot
  {
    if st.slot == slot then Some(st)
    else match Step(sch, ops, st)
      case None => None
      case Some(next) => Run(sch, ops, next, slot)
  }

  /** `processSlots`: a slot in the past throws. */
  function ProcessSlots<S>(sch: Schedule, ops: Ops<S>, st: Post<S>, slot: nat): (r: Option<Post<S>>)
    ensures r.Some? ==> st.slot <= slot == r.value.slot
  {
    if st.slot > slot then None else Run(sch, ops, st, slot)
  }

  method ProcessSlotsWithTransientCache<S>(sch: Schedule, ops: Ops<S>, state: Post<S>, slot: nat)
    returns (r: Option<Post<S>>)
    ensures r == ProcessSlots(sch, ops, state, slot)
  {
    var postState := state;
    if postState.slot > slot {
      return None;
    }
    while postState.slot < slot
      invariant postState.slot <= slot
      invariant Run(sch, ops, state, slot) == Run(sch, ops, postState, slot)
    {
      ghost var before := postState;
      var processed := ops.processSlot(postState);
      if processed.None? {
        return None;
      }
      postState := postState.(data := processed.value);
      if (postState.slot + 1) % sch.slotsPerEpoch == 0 {
        var fork := sch.ForkAt(sch.EpochOf(postState.slot));
        var epochProcessed := ops.processEpoch(fork, postState);
        if epochProcessed.None? {
          return None;
        }
        postState := Post(postState.slot + 1, epochProcessed.value);
        var rotated := ops.afterProcessEpoch(postState);
        if rotated.None? {
          return None;
        }
        postState := postState.(data := rotated.value);
        var stateEpoch := sch.EpochOf(postState.slot);
        if At(stateEpoch) == sch.altairEpoch {
          var upgraded := ops.upgradeAltair(postState);
          if upgraded.None? {
            return None;
          }
          postState := postState.(data := upgraded.value);
        }
        if At(stateEpoch) == sch.bellatrixEpoch {
          var upgraded := ops.upgradeBellatrix(postState);
          if upgraded.None? {
            return None;
          }
          postState := postState.(data := upgraded.value);
        }
      } else {
        postState := postState.(slot := postState.slot + 1);
      }
      assert Step(sch, ops, before) == Some(postState);
    }
    return Some(postState);
  }

  // ----- Splitting a run -----

  /** Processing to `b` and then to `c` is processing straight to `c`, whatever is processed. */
  lemma {:induction false} RunSplits<S>(sch: Schedule, ops: Ops<S>, st: Post<S>, b: nat, c: nat)
    requires st.slot <= b <= c
    ensures ProcessSlots(sch, ops, st, c) ==
      match ProcessSlots(sch, ops, st, b)
      case None => None
      case Some(mid) => ProcessSlots(sch, ops, mid, c)
    decreases b - st.slot
  {
    hide Step;
    if st.slot < b {
      var next := Step(sch, ops, st);
      if next.Some? {
        RunSplits(sch, ops, next.value, b, c);
      }
    }
  }

  // ----- What is processed, whatever the processing -----

  datatype Event =
    | SlotAt(slot: nat)
    | EpochUnder(fork: Fork, epoch: nat)
    | UpgradeTo(fork: Fork, epoch: nat)

  function Maybe(due: bool, event: Event): (r: seq<Event>)
    ensures forall e :: multiset(r)[e] == if due && e == event then 1 else 0
  {
    if due then [event] else []
  }

  /** What one iteration does, in order. */
  function Recorded(sch: Schedule, slot: nat): seq<Event> {
    var epoch, ends := sch.EpochOf(slot), sch.EndsEpoch(slot);
    Maybe(true, SlotAt(slot))
    + Maybe(ends, EpochUnder(sch.ForkAt(epoch), epoch))
    + Maybe(ends && At(epoch + 1) == sch.altairEpoch, UpgradeTo(Altair, epoch + 1))
    + Maybe(ends && At(epoch + 1) == sch.bellatrixEpoch, UpgradeTo(Bellatrix, epoch + 1))
  }

  /** What a run from slot `a` to slot `b` does, in order. */
  function Events(sch: Schedule, a: nat, b: nat): seq<Event> {
    if b <= a then [] else Events(sch, a, b - 1) + Recorded(sch, b - 1)
  }

  /** The processing that belongs to one event. */
  function Do<S>(sch: Schedule, ops: Ops<S>, event: Event, st: Post<S>): Option<Post<S>> {
    match event
    case SlotAt(_) =>
      (match ops.processSlot(st)
       case None => None
       case Some(data) => Some(Post(if sch.EndsEpoch(st.slot) then st.slot else st.slot + 1, data)))
    case EpochUnder(fork, _) => CrossBoundary(fork, ops, st)
    case UpgradeTo(fork, _) =>
      (match fork
       case Phase0 => Some(st)
       case Altair => Upgrade(true, ops.upgradeAltair, st)
       case Bellatrix => Upgrade(true, ops.upgradeBellatrix, st))
  }

  /** One event after the other, until something throws. */
  function DoAll<S>(sch: Schedule, ops: Ops<S>, events: seq<Event>, st: Option<Post<S>>): Option<Post<S>> {
    if events == [] then st
    else
      match DoAll(sch, ops, events[..|events| - 1], st)
      case None => None
      case Some(mid) => Do(sch, ops, events[|events| - 1], mid)
  }

  lemma {:induction false} DoAllJoins<S>(sch: Schedule, ops: Ops<S>, xs: seq<Event>, ys: seq<Event>, st: Option<Post<S>>)
    ensures DoAll(sch, ops, xs + ys, st) == DoAll(sch, ops, ys, DoAll(sch, ops, xs, st))
  {
    hide Do;
    if ys == [] {
      assert xs + ys == xs;
    } else {
      var n := |ys| - 1;
      assert (xs + ys)[..|xs + ys| - 1] == xs + ys[..n];
      DoAllJoins(sch, ops, xs, ys[..n], st);
    }
  }

  lemma DoMaybe<S>(sch: Schedule, ops: Ops<S>, due: bool, event: Event, st: Option<Post<S>>)
    ensures DoAll(sch, ops, Maybe(due, event), st) ==
      if !due || st.None? then st else Do(sch, ops, event, st.value)
  {
    hide Do;
    assert [event][..0] == [];
    assert DoAll(sch, ops, [], st) == st;
  }

  lemma StepIsDoAll<S>(sch: Schedule, ops: Ops<S>, st: Post<S>)
    ensures Step(sch, ops, st) == DoAll(sch, ops, Recorded(sch, st.slot), Some(st))
  {
    hide Maybe, DoAll, CrossBoundary, Schedule.ForkAt;
    var slot, epoch, ends := st.slot, sch.EpochOf(st.slot), sch.EndsEpoch(st.slot);
    var altair, bellatrix := ends && At(epoch + 1) == sch.altairEpoch, ends && At(epoch + 1) == sch.bellatrixEpoch;
    var a, b := Maybe(true, SlotAt(slot)), Maybe(ends, EpochUnder(sch.ForkAt(epoch), epoch));
    var c, d := Maybe(altair, UpgradeTo(Altair, epoch + 1)), Maybe(bellatrix, UpgradeTo(Bellatrix, epoch + 1));
    var s0 := Some(st);
    DoMaybe(sch, ops, true, SlotAt(slot), s0);
    var s1 := DoAll(sch, ops, a, s0);
    DoMaybe(sch, ops, ends, EpochUnder(sch.ForkAt(epoch), epoch), s1);
    var s2 := DoAll(sch, ops, b, s1);
    DoMaybe(sch, ops, altair, UpgradeTo(Altair, epoch + 1), s2);
    var s3 := DoAll(sch, ops, c, s2);
    DoMaybe(sch, ops, bellatrix, UpgradeTo(Bellatrix, epoch + 1), s3);
    DoAllJoins(sch, ops, a, b, s0);
    DoAllJoins(sch, ops, a + b, c, s0);
    DoAllJoins(sch, ops, a + b + c, d, s0);
    Arith.NextQuotient(slot, sch.slotsPerEpoch);
  }

  /** For any slot, epoch and upgrade processing, a run is the fold of its events in order. */
  lemma {:induction false} RunIsDoAll<S>(sch: Schedule, ops: Ops<S>, st: Post<S>, b: nat)
    requires st.slot <= b
    ensures ProcessSlots(sch, ops, st, b) == DoAll(sch, ops, Events(sch, st.slot, b), Some(st))
    decreases b
  {
    hide Step, Recorded, Do;
    if st.slot < b {
      RunSplits(sch, ops, st, b - 1, b);
      RunIsDoAll(sch, ops, st, b - 1);
      DoAllJoins(sch, ops, Events(sch, st.slot, b - 1), Recorded(sch, b - 1), Some(st));
      var mid := ProcessSlots(sch, ops, st, b - 1);
      if mid.Some? {
        StepIsDoAll(sch, ops, mid.value);
        OneSlot(sch, ops, mid.value);
      } else {
        DoAllNone(sch, ops, Recorded(sch, b - 1));
      }
    }
  }

  lemma OneSlot<S>(sch: Schedule, ops: Ops<S>, st: Post<S>)
    ensures ProcessSlots(sch, ops, st, st.slot + 1) == Step(sch, ops, st)
  {
    hide Step;
    var next := Step(sch, ops, st);
    if next.Some? {
      assert Run(sch, ops, next.value, st.slot + 1) == next;
    }
  }

  lemma {:induction false} DoAllNone<S>(sch: Schedule, ops: Ops<S>, events: seq<Event>)
    ensures DoAll(sch, ops, events, None) == None
  {
    if events != [] {
      DoAllNone(sch, ops, events[..|events| - 1]);
    }
  }

  // ----- Exactly what is due, in order -----

  /** How often an event belongs into a run from slot `a` to slot `b`: every slot once, every epoch
      that ends in it once and under the fork of that epoch, every fork that starts in it once. */
  function Due(sch: Schedule, a: nat, b: nat, event: Event): nat {
    match event
    case SlotAt(slot) => if a <= slot < b then 1 else 0
    case EpochUnder(fork, epoch) =>
      if sch.EpochOf(a) <= epoch < sch.EpochOf(b) && fork == sch.ForkAt(epoch) then 1 else 0
    case UpgradeTo(fork, epoch) =>
      if sch.EpochOf(a) < epoch <= sch.EpochOf(b) &&
         At(epoch) == (match fork case Phase0 => Never case Altair => sch.altairEpoch case Bellatrix => sch.bellatrixEpoch)
      then 1 else 0
  }

  function Count(due: bool, event: Event, e: Event): nat {
    if due && e == event then 1 else 0
  }

  lemma RecordedCounts(sch: Schedule, slot: nat, e: Event)
    ensures var epoch, ends := sch.EpochOf(slot), sch.EndsEpoch(slot);
      multiset(Recorded(sch, slot))[e] ==
        Count(true, SlotAt(slot), e)
        + Count(ends, EpochUnder(sch.ForkAt(epoch), epoch), e)
        + Count(ends && At(epoch + 1) == sch.altairEpoch, UpgradeTo(Altair, epoch + 1), e)
        + Count(ends && At(epoch + 1) == sch.bellatrixEpoch, UpgradeTo(Bellatrix, epoch + 1), e)
  {
    hide Maybe, Schedule.ForkAt, Schedule.EpochOf, Schedule.EndsEpoch;
  }

  /** Each event of an iteration is due in its slot, once. */
  lemma RecordedIsDue(sch: Schedule, slot: nat, event: Event)
    ensures multiset(Recorded(sch, slot))[event] == Due(sch, slot, slot + 1, event)
  {
    hide Recorded, Schedule.ForkAt;
    RecordedCounts(sch, slot, event);
    Arith.NextQuotient(slot, sch.slotsPerEpoch);
  }

  lemma DueAdds(sch: Schedule, a: nat, b: nat, event: Event)
    requires a < b
    ensures Due(sch, a, b, event) == Due(sch, a, b - 1, event) + Due(sch, b - 1, b, event)
  {
    Arith.DivMono(a, b - 1, sch.slotsPerEpoch);
    Arith.DivMono(b - 1, b, sch.slotsPerEpoch);
  }

  /** Among the events of a run every slot, every epoch that ends (under its own fork) and every fork
      that starts occurs exactly once, and nothing else. */
  lemma {:induction false} EventsAreDue(sch: Schedule, a: nat, b: nat, event: Event)
    requires a <= b
    ensures multiset(Events(sch, a, b))[event] == Due(sch, a, b, event)
  {
    hide Recorded, Due;
    if a < b {
      EventsAreDue(sch, a, b - 1, event);
      RecordedIsDue(sch, b - 1, event);
      DueAdds(sch, a, b, event);
    } else {
      NothingDue(sch, a, event);
    }
  }

  lemma NothingDue(sch: Schedule, a: nat, event: Event)
    ensures Due(sch, a, a, event) == 0
  {
  }

  /** When an event happens: by slot, and within a slot in the order slot, epoch, altair, bellatrix. */
  function Time(sch: Schedule, event: Event): int {
    match event
    case SlotAt(slot) => 4 * slot
    case EpochUnder(_, epoch) => 4 * ((epoch + 1) * sch.slotsPerEpoch - 1) + 1
    case UpgradeTo(fork, epoch) => 4 * (epoch * sch.slotsPerEpoch - 1) + if fork.Altair? then 2 else 3
  }

  ghost predicate InTime(sch: Schedule, events: seq<Event>, end: int) {
    && (forall i, j :: 0 <= i < j < |events| ==> Time(sch, events[i]) < Time(sch, events[j]))
    && (forall i :: 0 <= i < |events| ==> Time(sch, events[i]) < end)
  }

  /** The end of an epoch is the slot before the first slot of the next one. */
  lemma LastSlot(sch: Schedule, slot: nat)
    requires sch.EndsEpoch(slot)
    ensures slot == (sch.EpochOf(slot) + 1) * sch.slotsPerEpoch - 1
  {
    Arith.NextQuotient(slot, sch.slotsPerEpoch);
  }

  lemma AppendInTime(sch: Schedule, events: seq<Event>, end: int, due: bool, event: Event)
    requires InTime(sch, events, end) && (due ==> Time(sch, event) == end)
    ensures InTime(sch, events + Maybe(due, event), end + 1)
  {
    hide Time;
  }

  lemma RecordedInTime(sch: Schedule, events: seq<Event>, slot: nat)
    requires InTime(sch, events, 4 * slot)
    ensures InTime(sch, events + Recorded(sch, slot), 4 * (slot + 1))
  {
    hide InTime, Maybe, Schedule.ForkAt;
    var epoch, ends := sch.EpochOf(slot), sch.EndsEpoch(slot);
    if ends {
      LastSlot(sch, slot);
    }
    var altair, bellatrix := ends && At(epoch + 1) == sch.altairEpoch, ends && At(epoch + 1) == sch.bellatrixEpoch;
    var done := events + Maybe(true, SlotAt(slot));
    AppendInTime(sch, events, 4 * slot, true, SlotAt(slot));
    AppendInTime(sch, done, 4 * slot + 1, ends, EpochUnder(sch.ForkAt(epoch), epoch));
    done := done + Maybe(ends, EpochUnder(sch.ForkAt(epoch), epoch));
    AppendInTime(sch, done, 4 * slot + 2, altair, UpgradeTo(Altair, epoch + 1));
    done := done + Maybe(altair, UpgradeTo(Altair, epoch + 1));
    AppendInTime(sch, done, 4 * slot + 3, bellatrix, UpgradeTo(Bellatrix, epoch + 1));
    assert done + Maybe(bellatrix, UpgradeTo(Bellatrix, epoch + 1)) == events + Recorded(sch, slot);
  }

  /** The events of every run happen in strict order: with `EventsAreDue` this fixes the whole list. */
  lemma {:induction false} EventsInTime(sch: Schedule, a: nat, b: nat)
    requires a <= b
    ensures InTime(sch, Events(sch, a, b), 4 * b)
  {
    hide Recorded, InTime;
    if a < b {
      EventsInTime(sch, a, b - 1);
      RecordedInTime(sch, Events(sch, a, b - 1), b - 1);
    } else {
      NothingInTime(sch, 4 * b);
    }
  }

  lemma NothingInTime(sch: Schedule, end: int)
    ensures InTime(sch, [], end)
  {
  }

  // ----- The window of the cache -----

  /** Epochs of the previous, current and next shuffling. */
  datatype Window = Window(previous: nat, current: nat, next: nat)

  /** `createFromState` */
  function WindowFor(epoch: nat): Window {
    Window(if epoch == 0 then 0 else epoch - 1, epoch, epoch + 1)
  }

  /** `afterProcessEpoch` */
  function Shifted(w: Window): Window {
    Window(w.current, w.next, w.next + 1)
  }

  /** The slot of the state that epoch processing, and after it the rotation, is given. */
  datatype Seen = Processed(slot: nat) | Rotated(slot: nat)

  /** What has been done so far, on which slots, and the window of the cache. */
  datatype Trace = Trace(events: seq<Event>, seen: seq<Seen>, window: Window)

  /** Processing that only records itself; upgrades rebuild the cache. */
  function Recording(sch: Schedule): Ops<Trace> {
    Ops(
      (st: Post<Trace>) => Some(st.data.(events := st.data.events + [SlotAt(st.slot)])),
      (fork: Fork, st: Post<Trace>) =>
        Some(st.data.(events := st.data.events + [EpochUnder(fork, sch.EpochOf(st.slot))],
                      seen := st.data.seen + [Processed(st.slot)])),
      (st: Post<Trace>) =>
        Some(st.data.(window := Shifted(st.data.window), seen := st.data.seen + [Rotated(st.slot)])),
      (st: Post<Trace>) =>
        Some(st.data.(events := st.data.events + [UpgradeTo(Altair, sch.EpochOf(st.slot))],
                      window := WindowFor(sch.EpochOf(st.slot)))),
      (st: Post<Trace>) =>
        Some(st.data.(events := st.data.events + [UpgradeTo(Bellatrix, sch.EpochOf(st.slot))],
                      window := WindowFor(sch.EpochOf(st.slot)))))
  }

  /** The slots that a run from `a` to `b` must show to epoch processing and to the rotation: the last
      one of every epoch that ends, and then the first one of the next. */
  function SeenBy(sch: Schedule, a: nat, b: nat): seq<Seen> {
    if b <= a then []
    else
      var first := sch.EpochOf(b) * sch.slotsPerEpoch;
      SeenBy(sch, a, b - 1) + if first == b then [Processed(b - 1), Rotated(b)] else []
  }

  lemma SeenInStep(sch: Schedule, slot: nat)
    ensures SeenBy(sch, slot, slot + 1) == if sch.EndsEpoch(slot) then [Processed(slot), Rotated(slot + 1)] else []
  {
    assert SeenBy(sch, slot, slot) == [];
    assert slot + 1 == sch.EpochOf(slot + 1) * sch.slotsPerEpoch + (slot + 1) % sch.slotsPerEpoch;
  }

  lemma SeenNext(sch: Schedule, a: nat, b: nat)
    requires a < b
    ensures SeenBy(sch, a, b) == SeenBy(sch, a, b - 1) + SeenBy(sch, b - 1, b)
  {
    assert SeenBy(sch, b - 1, b - 1) == [];
  }

  /** One iteration leaves the window of the epoch it leads to, shifted or rebuilt. */
  lemma StepRecords(sch: Schedule, st: Post<Trace>)
    requires st.data.window == WindowFor(sch.EpochOf(st.slot))
    ensures Step(sch, Recording(sch), st)
         == Some(Post(st.slot + 1, Trace(st.data.events + Recorded(sch, st.slot),
                                         st.data.seen + SeenBy(sch, st.slot, st.slot + 1),
                                         WindowFor(sch.EpochOf(st.slot + 1)))))
  {
    hide Schedule.ForkAt, SeenBy;
    Arith.NextQuotient(st.slot, sch.slotsPerEpoch);
    SeenInStep(sch, st.slot);
    assert (st.data.seen + [Processed(st.slot)]) + [Rotated(st.slot + 1)] == st.data.seen + [Processed(st.slot), Rotated(st.slot + 1)];
    assert st.data.seen + [] == st.data.seen;
    var es, epoch := st.data.events, sch.EpochOf(st.slot);
    var slot_ := es + [SlotAt(st.slot)];
    if !sch.EndsEpoch(st.slot) {
      assert slot_ == es + Recorded(sch, st.slot);
    } else {
      var crossed := slot_ + [EpochUnder(sch.ForkAt(epoch), epoch)];
      var altair := if At(epoch + 1) == sch.altairEpoch then crossed + [UpgradeTo(Altair, epoch + 1)] else crossed;
      var bellatrix := if At(epoch + 1) == sch.bellatrixEpoch then altair + [UpgradeTo(Bellatrix, epoch + 1)] else altair;
      assert bellatrix == es + Recorded(sch, st.slot);
    }
  }

  /** A run of that processing has recorded its events, and leaves the window of the epoch it led to. */
  lemma {:induction false} RunRecords(sch: Schedule, st: Post<Trace>, b: nat)
    requires st.slot <= b
    requires st.data.window == WindowFor(sch.EpochOf(st.slot))
    ensures ProcessSlots(sch, Recording(sch), st, b)
         == Some(Post(b, Trace(st.data.events + Events(sch, st.slot, b), st.data.seen + SeenBy(sch, st.slot, b),
                               WindowFor(sch.EpochOf(b)))))
    decreases b
  {
    hide Step, Recording, Recorded, Schedule.EpochOf;
    if st.slot < b {
      RunRecords(sch, st, b - 1);
      RunSplits(sch, Recording(sch), st, b - 1, b);
      var mid := ProcessSlots(sch, Recording(sch), st, b - 1).value;
      OneSlot(sch, Recording(sch), mid);
      StepRecords(sch, mid);
      var before, now := Events(sch, st.slot, b - 1), Recorded(sch, b - 1);
      assert st.data.events + (before + now) == (st.data.events + before) + now;
      SeenNext(sch, st.slot, b);
      var seen, last := SeenBy(sch, st.slot, b - 1), SeenBy(sch, b - 1, b);
      assert st.data.seen + (seen + last) == (st.data.seen + seen) + last;
    } else {
      assert st.data.events + [] == st.data.events && st.data.seen + [] == st.data.seen;
    }
  }

  /** Processing that keeps the window, a rotation that shifts it, and upgrades that rebuild it; `window`
      reads it off the state. */
  ghost predicate Windowed<S(!new)>(sch: Schedule, ops: Ops<S>, window: S -> Window) {
    && (forall st :: ops.processSlot(st).Some? ==> window(ops.processSlot(st).value) == window(st.data))
    && (forall fork, st :: ops.processEpoch(fork, st).Some? ==> window(ops.processEpoch(fork, st).value) == window(st.data))
    && (forall st :: ops.afterProcessEpoch(st).Some? ==> window(ops.afterProcessEpoch(st).value) == Shifted(window(st.data)))
    && (forall st :: ops.upgradeAltair(st).Some? ==>
          window(ops.upgradeAltair(st).value) == WindowFor(sch.EpochOf(st.slot)))
    && (forall st :: ops.upgradeBellatrix(st).Some? ==>
          window(ops.upgradeBellatrix(st).value) == WindowFor(sch.EpochOf(st.slot)))
  }

  lemma StepWindow<S(!new)>(sch: Schedule, ops: Ops<S>, window: S -> Window, st: Post<S>)
    requires Windowed(sch, ops, window) && window(st.data) == WindowFor(sch.EpochOf(st.slot))
    requires Step(sch, ops, st).Some?
    ensures window(Step(sch, ops, st).value.data) == WindowFor(sch.EpochOf(st.slot + 1))
  {
    hide Schedule.ForkAt, Schedule.EpochOf;
    NextEpoch(sch, st.slot);
  }

  lemma NextEpoch(sch: Schedule, slot: nat)
    ensures sch.EpochOf(slot + 1) == sch.EpochOf(slot) + if sch.EndsEpoch(slot) then 1 else 0
  {
    Arith.NextQuotient(slot, sch.slotsPerEpoch);
  }

  /** For any such processing: after every run that does not throw, and by `RunSplits` after every
      iteration, the window is the one of the epoch it has led to, as if it had been built there. */
  lemma {:induction false} RunWindow<S(!new)>(sch: Schedule, ops: Ops<S>, window: S -> Window, st: Post<S>, b: nat)
    requires Windowed(sch, ops, window) && window(st.data) == WindowFor(sch.EpochOf(st.slot))
    requires ProcessSlots(sch, ops, st, b).Some?
    ensures window(ProcessSlots(sch, ops, st, b).value.data) == WindowFor(sch.EpochOf(b))
    decreases b - st.slot
  {
    hide Step, Windowed, WindowFor;
    if st.slot < b {
      StepWindow(sch, ops, window, st);
      RunWindow(sch, ops, window, Step(sch, ops, st).value, b);
    }
  }

  // ----- The epoch of the cache -----

  /** Processing that keeps the epoch that `epoch` reads off the state; a rotation that sets it from the
      slot it is given; and upgrades that keep it or set it so too. */
  ghost predicate Timed<S(!new)>(sch: Schedule, ops: Ops<S>, epoch: S -> nat) {
    && (forall st :: ops.processSlot(st).Some? ==> epoch(ops.processSlot(st).value) == epoch(st.data))
    && (forall fork, st :: ops.processEpoch(fork, st).Some? ==> epoch(ops.processEpoch(fork, st).value) == epoch(st.data))
    && (forall st :: ops.afterProcessEpoch(st).Some? ==>
          epoch(ops.afterProcessEpoch(st).value) == st.slot / sch.slotsPerEpoch)
    && (forall st :: ops.upgradeAltair(st).Some? ==>
          epoch(ops.upgradeAltair(st).value) in {epoch(st.data), st.slot / sch.slotsPerEpoch})
    && (forall st :: ops.upgradeBellatrix(st).Some? ==>
          epoch(ops.upgradeBellatrix(st).value) in {epoch(st.data), st.slot / sch.slotsPerEpoch})
  }

  lemma StepEpoch<S(!new)>(sch: Schedule, ops: Ops<S>, epoch: S -> nat, st: Post<S>)
    requires Timed(sch, ops, epoch) && epoch(st.data) == st.slot / sch.slotsPerEpoch
    requires Step(sch, ops, st).Some?
    ensures epoch(Step(sch, ops, st).value.data) == (st.slot + 1) / sch.slotsPerEpoch
  {
    hide Schedule.ForkAt;
    NextEpoch(sch, st.slot);
  }

  /** For any such processing the epoch of the cache is that of the slot, after every run that does not
      throw: the rotation is given the state at its new slot. */
  lemma {:induction false} RunEpoch<S(!new)>(sch: Schedule, ops: Ops<S>, epoch: S -> nat, st: Post<S>, b: nat)
    requires Timed(sch, ops, epoch) && epoch(st.data) == st.slot / sch.slotsPerEpoch
    requires ProcessSlots(sch, ops, st, b).Some?
    ensures epoch(ProcessSlots(sch, ops, st, b).value.data) == b / sch.slotsPerEpoch
    decreases b - st.slot
  {
    hide Step, Timed;
    if st.slot < b {
      StepEpoch(sch, ops, epoch, st);
      RunEpoch(sch, ops, epoch, Step(sch, ops, st).value, b);
    }
  }

  // ----- The fork of the state and the fork of its slot -----

  /** The fork of the last upgrade among the events, or `start` when there is none. */
  function LastFork(start: Fork, events: seq<Event>): Fork {
    if events == [] then start
    else match events[|events| - 1]
      case UpgradeTo(fork, _) => fork
      case _ => LastFork(start, events[..|events| - 1])
  }

  lemma LastForkMaybe(start: Fork, events: seq<Event>, due: bool, event: Event)
    ensures LastFork(start, events + Maybe(due, event))
         == if due && event.UpgradeTo? then event.fork else LastFork(start, events)
  {
    assert events + [] == events;
    assert (events + [event])[..|events|] == events;
  }

  lemma LastForkRecorded(sch: Schedule, start: Fork, events: seq<Event>, slot: nat)
    ensures LastFork(start, events + Recorded(sch, slot)) ==
      var epoch := At(sch.EpochOf(slot) + 1);
      if sch.EndsEpoch(slot) && sch.bellatrixEpoch == epoch then Bellatrix
      else if sch.EndsEpoch(slot) && sch.altairEpoch == epoch then Altair
      else LastFork(start, events)
  {
    hide LastFork, Maybe, Schedule.ForkAt, Schedule.EndsEpoch, Schedule.EpochOf;
    var epoch, ends := sch.EpochOf(slot), sch.EndsEpoch(slot);
    var altair, bellatrix := ends && At(epoch + 1) == sch.altairEpoch, ends && At(epoch + 1) == sch.bellatrixEpoch;
    LastForkMaybe(start, events, true, SlotAt(slot));
    var es := events + Maybe(true, SlotAt(slot));
    LastForkMaybe(start, es, ends, EpochUnder(sch.ForkAt(epoch), epoch));
    es := es + Maybe(ends, EpochUnder(sch.ForkAt(epoch), epoch));
    LastForkMaybe(start, es, altair, UpgradeTo(Altair, epoch + 1));
    es := es + Maybe(altair, UpgradeTo(Altair, epoch + 1));
    LastForkMaybe(start, es, bellatrix, UpgradeTo(Bellatrix, epoch + 1));
    assert es + Maybe(bellatrix, UpgradeTo(Bellatrix, epoch + 1)) == events + Recorded(sch, slot);
  }

  /** The fork that the upgrades of a run from genesis have left, epoch by epoch. */
  function Upgraded(sch: Schedule, epoch: nat): Fork {
    if epoch == 0 then sch.ForkAt(0)
    else if sch.bellatrixEpoch == At(epoch) then Bellatrix
    else if sch.altairEpoch == At(epoch) then Altair
    else Upgraded(sch, epoch - 1)
  }

  lemma {:induction false} RunLeavesFork(sch: Schedule, b: nat)
    ensures LastFork(sch.ForkAt(0), Events(sch, 0, b)) == Upgraded(sch, sch.EpochOf(b))
  {
    hide Recorded, Schedule.ForkAt, LastFork;
    if b > 0 {
      RunLeavesFork(sch, b - 1);
      LastForkRecorded(sch, sch.ForkAt(0), Events(sch, 0, b - 1), b - 1);
      Arith.NextQuotient(b - 1, sch.slotsPerEpoch);
    } else {
      NoUpgradeYet(sch);
    }
  }

  lemma NoUpgradeYet(sch: Schedule)
    ensures LastFork(sch.ForkAt(0), []) == sch.ForkAt(0) && sch.EpochOf(0) == 0
  {
  }

  ghost predicate InOrder(sch: Schedule) {
    sch.altairEpoch.At? && sch.bellatrixEpoch.At? ==> sch.altairEpoch.epoch <= sch.bellatrixEpoch.epoch
  }

  lemma {:induction false} OrderedForksAgree(sch: Schedule, epoch: nat)
    requires InOrder(sch)
    ensures Upgraded(sch, epoch) == sch.ForkAt(epoch)
  {
    if epoch > 0 {
      OrderedForksAgree(sch, epoch - 1);
    }
  }

  /** On every run from genesis `getForkName` names the fork of the last upgrade done, if and only if
      altair does not come after bellatrix. */
  lemma ForkNameFollowsUpgrades(sch: Schedule)
    ensures (forall b: nat :: LastFork(sch.ForkAt(0), Events(sch, 0, b)) == sch.ForkAt(sch.EpochOf(b))) <==> InOrder(sch)
  {
    hide LastFork, Events;
    if InOrder(sch) {
      forall b: nat ensures LastFork(sch.ForkAt(0), Events(sch, 0, b)) == sch.ForkAt(sch.EpochOf(b)) {
        RunLeavesFork(sch, b);
        OrderedForksAgree(sch, sch.EpochOf(b));
      }
    } else {
      var epoch := sch.altairEpoch.epoch;
      var b := epoch * sch.slotsPerEpoch;
      Arith.DivUnique(b, sch.slotsPerEpoch, epoch);
      RunLeavesFork(sch, b);
      assert Upgraded(sch, epoch) == Altair != sch.ForkAt(epoch);
    }
  }
}
