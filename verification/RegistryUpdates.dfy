/** `processRegistryUpdates` from prepared lists and a cached exit queue, against the
    specification that rescans the registry for every validator. */
module RegistryUpdates {
  import opened Params
  import opened Permutations
  import opened Registry
  import opened Cache
  import opened ActivationQueue
  import opened EpochProcess

  // ----- The specification -----

  /** `initiate_validator_exit` of the phase0 specification. */
  function SpecInitiateExit(c: Config, vs: seq<Validator>, epoch: nat, k: nat): (r: seq<Validator>)
    requires k < |vs|
    ensures |r| == |vs|
  {
    if vs[k].exitEpoch.Never? then vs[k := ExitAt(c, vs[k], SpecExitEpoch(c, vs, epoch))] else vs
  }

  /** The first loop of `process_registry_updates`, over the validators below `i`. */
  function SpecSweep(c: Config, vs: seq<Validator>, epoch: nat, i: nat): (r: seq<Validator>)
    requires i <= |vs|
    ensures |r| == |vs|
  {
    if i == 0 then vs
    else
      var ws := SpecSweep(c, vs, epoch, i - 1);
      var v := ws[i - 1];
      var us := if EligibleForQueue(c)(v) then ws[i - 1 := v.(activationEligibilityEpoch := At(epoch + 1))] else ws;
      if IsActive(v, epoch) && v.effectiveBalance <= c.ejectionBalance
      then SpecInitiateExit(c, us, epoch, i - 1) else us
  }

  ghost predicate Below(ks: seq<nat>, n: nat) {
    forall i :: 0 <= i < |ks| ==> ks[i] < n
  }

  function Activate(vs: seq<Validator>, ks: seq<nat>, at: nat): (r: seq<Validator>)
    requires Below(ks, |vs|)
    ensures |r| == |vs|
  {
    if ks == [] then vs
    else
      var rest := Activate(vs, ks[..|ks| - 1], at);
      var k := ks[|ks| - 1];
      rest[k := rest[k].(activationEpoch := At(at))]
  }

  function Take(ks: seq<nat>, n: nat): (r: seq<nat>)
    ensures r <= ks
  {
    if n < |ks| then ks[..n] else ks
  }

  lemma QueueMembers(vs: seq<Validator>, f: nat)
    ensures Below(SpecQueue(vs, f), |vs|)
    ensures forall k: nat :: k in SpecQueue(vs, f) <==> k < |vs| && EligibleBy(f)(vs[k])
  {
    SelectedQueued(vs, f);
    SortSorts(vs, Select(vs, EligibleBy(f)));
    SameMembers(SpecQueue(vs, f), Select(vs, EligibleBy(f)));
    SelectMembers(vs, EligibleBy(f));
  }

  /** `process_registry_updates` of the phase0 specification. */
  function SpecRegistryUpdates(c: Config, vs: seq<Validator>, epoch: nat, finalized: nat): (r: seq<Validator>)
    ensures |r| == |vs|
  {
    var ws := SpecSweep(c, vs, epoch, |vs|);
    QueueMembers(ws, finalized);
    Activate(ws, Take(SpecQueue(ws, finalized), ChurnLimit(c, |ActiveIndices(ws, epoch)|)), c.ActivationExitEpoch(epoch))
  }

  // ----- The code, on values -----

  /** The registry together with the cached exit queue. */
  datatype QueuedRegistry = QueuedRegistry(vs: seq<Validator>, queueEpoch: nat, queueChurn: nat)

  /** `initiateValidatorExit` */
  function InitiateExit(c: Config, r: QueuedRegistry, limit: nat, k: nat): (s: QueuedRegistry)
    requires k < |r.vs|
    ensures |s.vs| == |r.vs| && s.queueEpoch >= r.queueEpoch
  {
    if !r.vs[k].exitEpoch.Never? then r
    else
      var full := r.queueChurn >= limit;
      var at := if full then r.queueEpoch + 1 else r.queueEpoch;
      QueuedRegistry(r.vs[k := ExitAt(c, r.vs[k], at)], at, if full then 1 else r.queueChurn + 1)
  }

  function InitiateExits(c: Config, r: QueuedRegistry, limit: nat, ks: seq<nat>): (s: QueuedRegistry)
    requires Below(ks, |r.vs|)
    ensures |s.vs| == |r.vs| && s.queueEpoch >= r.queueEpoch
  {
    if ks == [] then r else InitiateExit(c, InitiateExits(c, r, limit, ks[..|ks| - 1]), limit, ks[|ks| - 1])
  }

  function MarkEligible(vs: seq<Validator>, ks: seq<nat>, at: nat): (r: seq<Validator>)
    requires Below(ks, |vs|)
    ensures |r| == |vs|
  {
    if ks == [] then vs
    else
      var rest := MarkEligible(vs, ks[..|ks| - 1], at);
      var k := ks[|ks| - 1];
      rest[k := rest[k].(activationEligibilityEpoch := At(at))]
  }

  // ----- Exits -----

  /** Exit epochs depend on the activation and exit epochs of the registry only. */
  lemma SpecExitEpochSame(c: Config, vs: seq<Validator>, ws: seq<Validator>, epoch: nat)
    requires |vs| == |ws|
    requires forall k :: 0 <= k < |vs| ==>
      ws[k].exitEpoch == vs[k].exitEpoch && ws[k].activationEpoch == vs[k].activationEpoch
    ensures SpecExitEpoch(c, vs, epoch) == SpecExitEpoch(c, ws, epoch)
  {
    var low := c.ActivationExitEpoch(epoch);
    ExitsSame(vs, ws, LatestExit(vs, low), low);
    SelectSame(vs, ActiveAt(epoch), ws, ActiveAt(epoch));
  }

  /** The cached queue serves this registry as the specification would. */
  ghost predicate InStep(c: Config, epoch: nat, limit: nat, r: QueuedRegistry) {
    && QueueKept(c, r.vs, epoch, r.queueEpoch, r.queueChurn)
    && !SkipsRoom(c, r.vs, epoch, r.queueEpoch)
    && limit == ChurnLimit(c, |ActiveIndices(r.vs, epoch)|)
  }

  lemma LatestAtLeast(vs: seq<Validator>, low: nat)
    ensures LatestExit(vs, low) >= low
  {
    LatestExitBounds(vs, low);
  }

  /** What one exit keeps, whether or not the queue is in step. */
  lemma ExitKeeps(c: Config, epoch: nat, limit: nat, r: QueuedRegistry, k: nat)
    requires k < |r.vs| && limit > 0
    requires QueueKept(c, r.vs, epoch, r.queueEpoch, r.queueChurn)
    ensures var s := InitiateExit(c, r, limit, k);
      && QueueKept(c, s.vs, epoch, s.queueEpoch, s.queueChurn)
      && RegistryRules(c, epoch, r.vs, s.vs)
      && (forall j :: 0 <= j < |r.vs| ==> s.vs[j].effectiveBalance == r.vs[j].effectiveBalance)
      && ActiveIndices(s.vs, epoch) == ActiveIndices(r.vs, epoch)
  {
    hide LatestExit, ExitsAt, ActiveIndices, NoExitAfter;
    var s := InitiateExit(c, r, limit, k);
    LatestAtLeast(r.vs, c.ActivationExitEpoch(epoch));
    if r.vs[k].exitEpoch.Never? {
      QueueAfterExit(c, r.vs, epoch, r.queueEpoch, r.queueChurn, limit, k);
    }
    RulesActiveSame(c, epoch, r.vs, s.vs, epoch);
  }

  /** A queue in step gives the next exit the epoch that the specification recomputes, and stays
      in step. */
  lemma ExitInStep(c: Config, epoch: nat, limit: nat, r: QueuedRegistry, k: nat)
    requires k < |r.vs| && InStep(c, epoch, limit, r)
    ensures InitiateExit(c, r, limit, k).vs == SpecInitiateExit(c, r.vs, epoch, k)
    ensures InStep(c, epoch, limit, InitiateExit(c, r, limit, k))
  {
    hide LatestExit, ExitsAt, ActiveIndices, NoExitAfter;
    QueueAgrees(c, r.vs, epoch, r.queueEpoch, r.queueChurn);
    ExitKeeps(c, epoch, limit, r, k);
    if r.vs[k].exitEpoch.Never? {
      QueueAfterExit(c, r.vs, epoch, r.queueEpoch, r.queueChurn, limit, k);
    }
  }

  /** The exits of the specification alone, for the given indices in order. */
  function SpecExits(c: Config, vs: seq<Validator>, epoch: nat, ks: seq<nat>): (r: seq<Validator>)
    requires Below(ks, |vs|)
    ensures |r| == |vs|
  {
    if ks == [] then vs
    else SpecInitiateExit(c, SpecExits(c, vs, epoch, ks[..|ks| - 1]), epoch, ks[|ks| - 1])
  }

  lemma {:induction false} ExitsInStep(c: Config, epoch: nat, limit: nat, r: QueuedRegistry, ks: seq<nat>)
    requires Below(ks, |r.vs|) && InStep(c, epoch, limit, r)
    ensures InitiateExits(c, r, limit, ks).vs == SpecExits(c, r.vs, epoch, ks)
    ensures InStep(c, epoch, limit, InitiateExits(c, r, limit, ks))
  {
    hide InStep, InitiateExit, SpecInitiateExit;
    if ks != [] {
      ExitsInStep(c, epoch, limit, r, ks[..|ks| - 1]);
      ExitInStep(c, epoch, limit, InitiateExits(c, r, limit, ks[..|ks| - 1]), ks[|ks| - 1]);
    }
  }

  /** Everything but the exit and withdrawable epochs of a validator. */
  ghost predicate SameButExit(v: Validator, w: Validator) {
    w == v.(exitEpoch := w.exitEpoch, withdrawableEpoch := w.withdrawableEpoch)
  }

  /** Exits touch the exit fields of the given indices only. */
  lemma {:induction false} SpecExitsTouch(c: Config, vs: seq<Validator>, epoch: nat, ks: seq<nat>)
    requires Below(ks, |vs|)
    ensures forall k: nat :: k < |vs| ==> SameButExit(vs[k], SpecExits(c, vs, epoch, ks)[k])
    ensures forall k: nat :: k < |vs| && k !in ks ==> SpecExits(c, vs, epoch, ks)[k] == vs[k]
  {
    hide SpecExitEpoch;
    if ks != [] {
      var n := |ks| - 1;
      SpecExitsTouch(c, vs, epoch, ks[..n]);
      assert ks == ks[..n] + [ks[n]];
    }
  }

  function Mark(eligible: bool, v: Validator, epoch: nat): Validator {
    if eligible then v.(activationEligibilityEpoch := At(epoch + 1)) else v
  }

  /** Validators below `i` that are eligible for the queue, marked. */
  function Marked(c: Config, vs: seq<Validator>, ws: seq<Validator>, epoch: nat, i: nat): (r: seq<Validator>)
    requires |vs| == |ws|
    ensures |r| == |ws|
    ensures forall k :: 0 <= k < |ws| ==> r[k] == Mark(k < i && EligibleForQueue(c)(vs[k]), ws[k], epoch)
  {
    seq(|ws|, k requires 0 <= k < |ws| => Mark(k < i && EligibleForQueue(c)(vs[k]), ws[k], epoch))
  }

  /** One round of the sweep, seen as one more mark and perhaps one more exit. */
  lemma SweepStep(c: Config, vs: seq<Validator>, ws: seq<Validator>, epoch: nat, i: nat)
    requires i < |vs| == |ws|
    requires ws[i] == vs[i]
    requires forall k :: 0 <= k < |vs| ==> SameButExit(vs[k], ws[k])
    ensures var a := Marked(c, vs, ws, epoch, i);
      var us := if EligibleForQueue(c)(a[i]) then a[i := a[i].(activationEligibilityEpoch := At(epoch + 1))] else a;
      && us == Marked(c, vs, ws, epoch, i + 1)
      && (if IsActive(a[i], epoch) && a[i].effectiveBalance <= c.ejectionBalance then SpecInitiateExit(c, us, epoch, i) else us)
         == Marked(c, vs, if ToEject(c, epoch)(vs[i]) then SpecInitiateExit(c, ws, epoch, i) else ws, epoch, i + 1)
  {
    hide SpecExitEpoch;
    var a, b := Marked(c, vs, ws, epoch, i), Marked(c, vs, ws, epoch, i + 1);
    assert a[i] == vs[i];
    var us := if EligibleForQueue(c)(a[i]) then a[i := a[i].(activationEligibilityEpoch := At(epoch + 1))] else a;
    assert us == b;
    SpecExitEpochSame(c, ws, b, epoch);
    if ToEject(c, epoch)(vs[i]) {
      var at := SpecExitEpoch(c, ws, epoch);
      assert b[i := ExitAt(c, b[i], at)] == Marked(c, vs, ws[i := ExitAt(c, ws[i], at)], epoch, i + 1);
    }
  }

  lemma SelectedBelow(vs: seq<Validator>, p: Validator -> bool)
    ensures Below(Select(vs, p), |vs|)
  {
    SelectMembers(vs, p);
    assert forall i :: 0 <= i < |Select(vs, p)| ==> Select(vs, p)[i] in Select(vs, p);
  }

  lemma SelectedPrefixBelow(vs: seq<Validator>, p: Validator -> bool, i: nat)
    requires i <= |vs|
    ensures Below(Select(vs[..i], p), |vs|)
    ensures forall k: nat :: k in Select(vs[..i], p) ==> k < i
  {
    SelectedBelow(vs[..i], p);
    SelectMembers(vs[..i], p);
  }

  lemma SpecExitsNext(c: Config, vs: seq<Validator>, epoch: nat, i: nat)
    requires i < |vs|
    ensures Below(Select(vs[..i], ToEject(c, epoch)), |vs|) && Below(Select(vs[..i + 1], ToEject(c, epoch)), |vs|)
    ensures var ws := SpecExits(c, vs, epoch, Select(vs[..i], ToEject(c, epoch)));
      && ws[i] == vs[i]
      && (forall k :: 0 <= k < |vs| ==> SameButExit(vs[k], ws[k]))
      && SpecExits(c, vs, epoch, Select(vs[..i + 1], ToEject(c, epoch)))
         == if ToEject(c, epoch)(vs[i]) then SpecInitiateExit(c, ws, epoch, i) else ws
  {
    hide SpecInitiateExit, SpecExitEpoch, Select, IsActive;
    SelectedPrefixBelow(vs, ToEject(c, epoch), i);
    SelectedPrefixBelow(vs, ToEject(c, epoch), i + 1);
    var js, ks := Select(vs[..i], ToEject(c, epoch)), Select(vs[..i + 1], ToEject(c, epoch));
    SpecExitsTouch(c, vs, epoch, js);
    SelectStep(vs, ToEject(c, epoch), i);
    if ToEject(c, epoch)(vs[i]) {
      assert ks[..|ks| - 1] == js;
    } else {
      assert ks == js;
    }
  }

  /** The interleaved sweep of the specification comes to all its exits and then all its marks. */
  lemma {:induction false} SweepSplits(c: Config, vs: seq<Validator>, epoch: nat, i: nat)
    requires i <= |vs|
    ensures Below(Select(vs[..i], ToEject(c, epoch)), |vs|)
    ensures SpecSweep(c, vs, epoch, i)
         == Marked(c, vs, SpecExits(c, vs, epoch, Select(vs[..i], ToEject(c, epoch))), epoch, i)
  {
    hide SpecInitiateExit, SpecExitEpoch, Select, IsActive, SpecExits, ToEject, EligibleForQueue;
    if i == 0 {
      NoExits(c, vs, epoch);
    } else {
      SweepSplits(c, vs, epoch, i - 1);
      SpecExitsNext(c, vs, epoch, i - 1);
      var ws := SpecExits(c, vs, epoch, Select(vs[..i - 1], ToEject(c, epoch)));
      SweepStep(c, vs, ws, epoch, i - 1);
    }
  }

  lemma NoExits(c: Config, vs: seq<Validator>, epoch: nat)
    ensures Select(vs[..0], ToEject(c, epoch)) == []
    ensures SpecExits(c, vs, epoch, []) == vs
  {
  }

  // ----- Marks -----

  lemma {:induction false} MarksBelow(c: Config, vs: seq<Validator>, ws: seq<Validator>, epoch: nat, i: nat)
    requires i <= |vs| == |ws|
    ensures Below(Select(vs[..i], EligibleForQueue(c)), |ws|)
    ensures MarkEligible(ws, Select(vs[..i], EligibleForQueue(c)), epoch + 1) == Marked(c, vs, ws, epoch, i)
  {
    hide Select, EligibleForQueue;
    SelectedPrefixBelow(vs, EligibleForQueue(c), i);
    var ks := Select(vs[..i], EligibleForQueue(c));
    if i == 0 {
      NothingSelected(c, vs[..0]);
      assert Marked(c, vs, ws, epoch, 0) == ws;
    } else {
      MarksBelow(c, vs, ws, epoch, i - 1);
      SelectStep(vs, EligibleForQueue(c), i - 1);
      var js := Select(vs[..i - 1], EligibleForQueue(c));
      if EligibleForQueue(c)(vs[i - 1]) {
        assert ks[..|ks| - 1] == js;
      } else {
        assert ks == js;
      }
      assert Marked(c, vs, ws, epoch, i)
          == Marked(c, vs, ws, epoch, i - 1)[i - 1 := Mark(EligibleForQueue(c)(vs[i - 1]), ws[i - 1], epoch)];
    }
  }

  // ----- The activation queue after the sweep -----

  lemma {:induction false} InsertSame(vs: seq<Validator>, ws: seq<Validator>, q: seq<nat>, x: nat)
    requires Queued(vs, q) && Queued(vs, [x])
    requires Queued(ws, q) && Queued(ws, [x])
    requires [x][0] == x && ws[x].activationEligibilityEpoch == vs[x].activationEligibilityEpoch
    requires forall i :: 0 <= i < |q| ==> ws[q[i]].activationEligibilityEpoch == vs[q[i]].activationEligibilityEpoch
    ensures Insert(vs, q, x) == Insert(ws, q, x)
  {
    if q != [] {
      InsertSame(vs, ws, q[..|q| - 1], x);
    }
  }

  lemma {:induction false} SortSame(vs: seq<Validator>, ws: seq<Validator>, q: seq<nat>)
    requires Queued(vs, q) && Queued(ws, q) && Distinct(q)
    requires forall i :: 0 <= i < |q| ==> ws[q[i]].activationEligibilityEpoch == vs[q[i]].activationEligibilityEpoch
    ensures Sort(vs, q) == Sort(ws, q)
  {
    if q != [] {
      var n := |q| - 1;
      SortSame(vs, ws, q[..n]);
      SortSorts(vs, q[..n]);
      SameMembers(Sort(vs, q[..n]), q[..n]);
      var rest := Sort(vs, q[..n]);
      forall i | 0 <= i < |rest|
        ensures ws[rest[i]].activationEligibilityEpoch == vs[rest[i]].activationEligibilityEpoch
      {
        assert rest[i] in q[..n];
      }
      assert [q[n]][0] == q[n];
      InsertSame(vs, ws, rest, q[n]);
    }
  }

  /** Exits and fresh marks leave the queue of every finalized epoch up to now as it was. */
  lemma QueueAfterSweep(c: Config, vs: seq<Validator>, ws: seq<Validator>, epoch: nat, f: nat)
    requires |vs| == |ws| && f <= epoch
    requires forall k :: 0 <= k < |vs| ==> SameButExit(vs[k], ws[k])
    ensures SpecQueue(Marked(c, vs, ws, epoch, |vs|), f) == SpecQueue(vs, f)
  {
    var us := Marked(c, vs, ws, epoch, |vs|);
    SelectSame(vs, EligibleBy(f), us, EligibleBy(f));
    SelectedQueued(vs, f);
    SelectedQueued(us, f);
    var q := Select(vs, EligibleBy(f));
    SelectMembers(vs, EligibleBy(f));
    forall i | 0 <= i < |q|
      ensures us[q[i]].activationEligibilityEpoch == vs[q[i]].activationEligibilityEpoch
    {
      assert q[i] in q;
    }
    SortSame(vs, us, q);
  }

  // ----- The code and its refinement -----

  /** The activations of one epoch: at most `limit`, and none behind the finalized epoch. */
  function Dequeued(vs: seq<Validator>, q: seq<nat>, limit: nat, finalized: nat): (r: seq<nat>)
    requires Below(q, |vs|)
    ensures Below(r, |vs|)
  {
    var batch := Take(q, limit);
    batch[..EligibleHead(vs, batch, finalized)]
  }

  /** `processRegistryUpdates` */
  function FastRegistryUpdates(c: Config, r: QueuedRegistry, limit: nat, p: EpochProcess, finalized: nat): QueuedRegistry
    requires Below(p.indicesToEject, |r.vs|)
    requires Below(p.indicesEligibleForActivationQueue, |r.vs|)
    requires Below(p.indicesEligibleForActivation, |r.vs|)
  {
    var s := InitiateExits(c, r, limit, p.indicesToEject);
    var us := MarkEligible(s.vs, p.indicesEligibleForActivationQueue, p.currentEpoch + 1);
    s.(vs := Activate(us, Dequeued(us, p.indicesEligibleForActivation, limit, finalized),
                      c.ActivationExitEpoch(p.currentEpoch)))
  }

  lemma {:induction false} HeadOfPrefix(vs: seq<Validator>, q: seq<nat>, m: nat, f: nat)
    requires Below(q, |vs|) && m <= |q|
    ensures EligibleHead(vs, q[..m], f) == if EligibleHead(vs, q, f) < m then EligibleHead(vs, q, f) else m
  {
    if m > 0 && vs[q[0]].activationEligibilityEpoch.By(f) {
      assert q[..m][1..] == q[1..][..m - 1];
      HeadOfPrefix(vs, q[1..], m - 1, f);
    }
  }

  lemma {:induction false} HeadSame(vs: seq<Validator>, ws: seq<Validator>, q: seq<nat>, f: nat)
    requires |vs| == |ws| && Below(q, |vs|)
    requires forall i :: 0 <= i < |q| ==> ws[q[i]].activationEligibilityEpoch == vs[q[i]].activationEligibilityEpoch
    ensures EligibleHead(vs, q, f) == EligibleHead(ws, q, f)
  {
    if q != [] {
      HeadSame(vs, ws, q[1..], f);
    }
  }

  /** Batching and then stopping at the finalized epoch takes the specification's first entries. */
  lemma DequeuedIsSpec(c: Config, vs: seq<Validator>, ws: seq<Validator>, epoch: nat, f: nat, limit: nat)
    requires |vs| == |ws| && f <= epoch
    requires forall k :: 0 <= k < |vs| ==> SameButExit(vs[k], ws[k])
    ensures Below(SpecQueue(vs, epoch), |vs|)
    ensures Dequeued(Marked(c, vs, ws, epoch, |vs|), SpecQueue(vs, epoch), limit, f) == Take(SpecQueue(vs, f), limit)
  {
    hide Sort;
    var q, us := SpecQueue(vs, epoch), Marked(c, vs, ws, epoch, |vs|);
    QueueMembers(vs, epoch);
    PreparedQueueServes(vs, f, epoch);
    forall i | 0 <= i < |q|
      ensures us[q[i]].activationEligibilityEpoch == vs[q[i]].activationEligibilityEpoch
    {
      assert q[i] in q;
    }
    HeadSame(vs, us, q, f);
    HeadOfPrefix(us, q, |Take(q, limit)|, f);
  }

  /** With the same exits, the fast registry update is the specification's. */
  lemma SameExitsSuffice(c: Config, r: QueuedRegistry, limit: nat, p: EpochProcess, finalized: nat, ks: seq<nat>)
    requires finalized <= p.currentEpoch
    requires Below(p.indicesToEject, |r.vs|)
    requires Below(p.indicesEligibleForActivationQueue, |r.vs|)
    requires Below(p.indicesEligibleForActivation, |r.vs|)
    requires p.indicesEligibleForActivationQueue == Select(r.vs, EligibleForQueue(c))
    requires p.indicesEligibleForActivation == SpecQueue(r.vs, p.currentEpoch)
    requires ks == Select(r.vs, ToEject(c, p.currentEpoch)) && Below(ks, |r.vs|)
    requires var ws := SpecExits(c, r.vs, p.currentEpoch, ks);
      && InitiateExits(c, r, limit, p.indicesToEject).vs == ws
      && limit == ChurnLimit(c, |ActiveIndices(ws, p.currentEpoch)|)
    ensures FastRegistryUpdates(c, r, limit, p, finalized).vs == SpecRegistryUpdates(c, r.vs, p.currentEpoch, finalized)
  {
    hide Select, SpecExits, Sort, InitiateExits, MarkEligible, Activate, ToEject, SpecSweep, Dequeued, ActiveIndices, SpecQueue;
    var vs, epoch, n := r.vs, p.currentEpoch, |r.vs|;
    var ws := SpecExits(c, vs, epoch, ks);
    assert vs[..n] == vs;
    SweepSplits(c, vs, epoch, n);
    MarksBelow(c, vs, ws, epoch, n);
    SpecExitsTouch(c, vs, epoch, ks);
    QueueAfterSweep(c, vs, ws, epoch, finalized);
    DequeuedIsSpec(c, vs, ws, epoch, finalized, limit);
    SweptActive(c, vs, ws, epoch);
  }

  /** Marks leave the active set, and with it the churn limit, alone. */
  lemma SweptActive(c: Config, vs: seq<Validator>, ws: seq<Validator>, epoch: nat)
    requires |vs| == |ws|
    ensures ActiveIndices(Marked(c, vs, ws, epoch, |vs|), epoch) == ActiveIndices(ws, epoch)
  {
    SelectSame(ws, ActiveAt(epoch), Marked(c, vs, ws, epoch, |vs|), ActiveAt(epoch));
  }

  // ----- Where the exits differ -----

  /** An exit epoch that is set stays, and the first exit gets the epoch of the queue as it stood. */
  lemma {:induction false} FirstExit(c: Config, r: QueuedRegistry, limit: nat, ks: seq<nat>)
    requires Below(ks, |r.vs|) && ks != [] && r.vs[ks[0]].exitEpoch.Never?
    ensures InitiateExits(c, r, limit, ks).vs[ks[0]].exitEpoch == At(NextExitEpoch(r.queueEpoch, r.queueChurn, limit))
  {
    if |ks| == 1 {
      assert ks[..0] == [];
    } else {
      FirstExit(c, r, limit, ks[..|ks| - 1]);
    }
  }

  lemma {:induction false} FirstSpecExit(c: Config, vs: seq<Validator>, epoch: nat, ks: seq<nat>)
    requires Below(ks, |vs|) && ks != [] && vs[ks[0]].exitEpoch.Never?
    ensures SpecExits(c, vs, epoch, ks)[ks[0]].exitEpoch == At(SpecExitEpoch(c, vs, epoch))
  {
    hide SpecExitEpoch;
    if |ks| == 1 {
      assert ks[..0] == [];
    } else {
      FirstSpecExit(c, vs, epoch, ks[..|ks| - 1]);
    }
  }

  lemma {:induction false} OthersStay(c: Config, r: QueuedRegistry, limit: nat, ks: seq<nat>, k: nat)
    requires Below(ks, |r.vs|) && k < |r.vs| && k !in ks
    ensures InitiateExits(c, r, limit, ks).vs[k] == r.vs[k]
  {
    if ks != [] {
      assert ks == ks[..|ks| - 1] + [ks[|ks| - 1]];
      OthersStay(c, r, limit, ks[..|ks| - 1], k);
    }
  }

  lemma {:induction false} SpecExitsSet(c: Config, vs: seq<Validator>, epoch: nat, ks: seq<nat>, k: nat)
    requires Below(ks, |vs|) && k in ks
    ensures k < |vs| && SpecExits(c, vs, epoch, ks)[k].exitEpoch.At?
  {
    hide SpecExitEpoch;
    var n := |ks| - 1;
    assert ks == ks[..n] + [ks[n]];
    if k in ks[..n] {
      SpecExitsSet(c, vs, epoch, ks[..n], k);
    }
  }

  /** Activations leave exit epochs and balances alone. */
  lemma {:induction false} ActivateLeaves(vs: seq<Validator>, ks: seq<nat>, at: nat)
    requires Below(ks, |vs|)
    ensures forall k :: 0 <= k < |vs| ==>
      var w := Activate(vs, ks, at)[k]; w == vs[k].(activationEpoch := w.activationEpoch)
  {
    if ks != [] {
      ActivateLeaves(vs, ks[..|ks| - 1], at);
    }
  }

  /** The exit epochs after the fast update are those after its exits. */
  lemma FastExitEpochs(c: Config, r: QueuedRegistry, limit: nat, p: EpochProcess, finalized: nat)
    requires Below(p.indicesToEject, |r.vs|)
    requires Below(p.indicesEligibleForActivationQueue, |r.vs|)
    requires Below(p.indicesEligibleForActivation, |r.vs|)
    ensures var fast, exits := FastRegistryUpdates(c, r, limit, p, finalized).vs, InitiateExits(c, r, limit, p.indicesToEject).vs;
      && |fast| == |exits| == |r.vs|
      && forall k :: 0 <= k < |r.vs| ==> fast[k].exitEpoch == exits[k].exitEpoch
  {
    hide InitiateExits, MarkEligible, Activate, Dequeued;
    var s := InitiateExits(c, r, limit, p.indicesToEject);
    MarksKeep(s.vs, p.indicesEligibleForActivationQueue, p.currentEpoch + 1);
    var us := MarkEligible(s.vs, p.indicesEligibleForActivationQueue, p.currentEpoch + 1);
    ActivateLeaves(us, Dequeued(us, p.indicesEligibleForActivation, limit, finalized), c.ActivationExitEpoch(p.currentEpoch));
  }

  /** The exit epochs after the specification's update are those after its exits, and effective
      balances are what they were. */
  lemma SpecExitEpochs(c: Config, vs: seq<Validator>, epoch: nat, finalized: nat)
    ensures Below(Select(vs, ToEject(c, epoch)), |vs|)
    ensures var spec, exits := SpecRegistryUpdates(c, vs, epoch, finalized), SpecExits(c, vs, epoch, Select(vs, ToEject(c, epoch)));
      && |spec| == |exits| == |vs|
      && (forall k :: 0 <= k < |vs| ==> spec[k].exitEpoch == exits[k].exitEpoch)
      && forall k :: 0 <= k < |vs| ==> spec[k].effectiveBalance == vs[k].effectiveBalance
  {
    hide SpecExits, Activate, SpecSweep, ToEject, Select, SpecQueue, ActiveIndices, Take, EligibleForQueue;
    assert vs[..|vs|] == vs;
    SweepSplits(c, vs, epoch, |vs|);
    var ks := Select(vs, ToEject(c, epoch));
    SpecExitsTouch(c, vs, epoch, ks);
    var ws := SpecSweep(c, vs, epoch, |vs|);
    QueueMembers(ws, finalized);
    ActivateLeaves(ws, Take(SpecQueue(ws, finalized), ChurnLimit(c, |ActiveIndices(ws, epoch)|)), c.ActivationExitEpoch(epoch));
  }

  /** The `else if` chain loses no ejection on this registry, and nobody is ejected into a queue that
      skips room. */
  ghost predicate ExitsAgree(c: Config, vs: seq<Validator>, epoch: nat, queueEpoch: nat) {
    && Select(vs, ReachesEject(c, epoch)) == Select(vs, ToEject(c, epoch))
    && (SkipsRoom(c, vs, epoch, queueEpoch) ==> Select(vs, ToEject(c, epoch)) == [])
  }

  lemma AgreeingExits(c: Config, r: QueuedRegistry, limit: nat, epoch: nat)
    requires QueueKept(c, r.vs, epoch, r.queueEpoch, r.queueChurn)
    requires limit == ChurnLimit(c, |ActiveIndices(r.vs, epoch)|)
    requires ExitsAgree(c, r.vs, epoch, r.queueEpoch)
    ensures var ks := Select(r.vs, ToEject(c, epoch));
      && Below(ks, |r.vs|)
      && InitiateExits(c, r, limit, ks).vs == SpecExits(c, r.vs, epoch, ks)
      && limit == ChurnLimit(c, |ActiveIndices(SpecExits(c, r.vs, epoch, ks), epoch)|)
  {
    hide Select, ReachesEject, ToEject, QueueKept, SkipsRoom;
    SelectedBelow(r.vs, ToEject(c, epoch));
    if !SkipsRoom(c, r.vs, epoch, r.queueEpoch) {
      ExitsInStep(c, epoch, limit, r, Select(r.vs, ToEject(c, epoch)));
    }
  }

  lemma DifferingExits(c: Config, r: QueuedRegistry, limit: nat, epoch: nat) returns (k: nat)
    requires QueueKept(c, r.vs, epoch, r.queueEpoch, r.queueChurn)
    requires limit == ChurnLimit(c, |ActiveIndices(r.vs, epoch)|)
    requires !ExitsAgree(c, r.vs, epoch, r.queueEpoch)
    ensures var es, ts := Select(r.vs, ReachesEject(c, epoch)), Select(r.vs, ToEject(c, epoch));
      && Below(es, |r.vs|) && Below(ts, |r.vs|) && k < |r.vs|
      && InitiateExits(c, r, limit, es).vs[k].exitEpoch != SpecExits(c, r.vs, epoch, ts)[k].exitEpoch
  {
    hide Select, QueueKept, SkipsRoom, InitiateExits, SpecExits;
    var vs := r.vs;
    var es, ts := Select(vs, ReachesEject(c, epoch)), Select(vs, ToEject(c, epoch));
    SelectedBelow(vs, ReachesEject(c, epoch));
    SelectedBelow(vs, ToEject(c, epoch));
    SelectMembers(vs, ReachesEject(c, epoch));
    SelectMembers(vs, ToEject(c, epoch));
    if es != ts {
      k := LostEjection(c, vs, epoch);
      OthersStay(c, r, limit, es, k);
      SpecExitsSet(c, vs, epoch, ts, k);
    } else {
      k := ts[0];
      assert k in ts;
      FirstExit(c, r, limit, ts);
      FirstSpecExit(c, vs, epoch, ts);
      QueueAgrees(c, vs, epoch, r.queueEpoch, r.queueChurn);
    }
  }

  lemma LostEjection(c: Config, vs: seq<Validator>, epoch: nat) returns (k: nat)
    requires Select(vs, ReachesEject(c, epoch)) != Select(vs, ToEject(c, epoch))
    ensures k < |vs| && ToEject(c, epoch)(vs[k]) && !ReachesEject(c, epoch)(vs[k])
  {
    if forall j :: 0 <= j < |vs| ==> ReachesEject(c, epoch)(vs[j]) == ToEject(c, epoch)(vs[j]) {
      SelectSame(vs, ReachesEject(c, epoch), vs, ToEject(c, epoch));
      assert false;
    }
    k :| 0 <= k < |vs| && ReachesEject(c, epoch)(vs[k]) != ToEject(c, epoch)(vs[k]);
  }

  /** With the prepared lists the fast registry update is the specification's if and only if the
      exits agree. */
  lemma RegistryUpdatesRefine(c: Config, r: QueuedRegistry, limit: nat, p: EpochProcess, finalized: nat)
    requires QueueKept(c, r.vs, p.currentEpoch, r.queueEpoch, r.queueChurn)
    requires limit == ChurnLimit(c, |ActiveIndices(r.vs, p.currentEpoch)|)
    requires finalized <= p.currentEpoch
    requires p.indicesToEject == Select(r.vs, ReachesEject(c, p.currentEpoch))
    requires p.indicesEligibleForActivationQueue == Select(r.vs, EligibleForQueue(c))
    requires p.indicesEligibleForActivation == SpecQueue(r.vs, p.currentEpoch)
    ensures Below(p.indicesToEject, |r.vs|)
    ensures Below(p.indicesEligibleForActivationQueue, |r.vs|)
    ensures Below(p.indicesEligibleForActivation, |r.vs|)
    ensures FastRegistryUpdates(c, r, limit, p, finalized).vs == SpecRegistryUpdates(c, r.vs, p.currentEpoch, finalized)
            <==> ExitsAgree(c, r.vs, p.currentEpoch, r.queueEpoch)
  {
    hide Select, SpecExits, InitiateExits, ReachesEject, ToEject, EligibleForQueue, SpecQueue, QueueKept, ActiveIndices,
      SkipsRoom, FastRegistryUpdates, SpecRegistryUpdates;
    var vs, epoch := r.vs, p.currentEpoch;
    SelectedBelow(vs, ReachesEject(c, epoch));
    SelectedBelow(vs, EligibleForQueue(c));
    QueueMembers(vs, epoch);
    if ExitsAgree(c, vs, epoch, r.queueEpoch) {
      AgreeingExits(c, r, limit, epoch);
      SameExitsSuffice(c, r, limit, p, finalized, Select(vs, ToEject(c, epoch)));
    } else {
      var k := DifferingExits(c, r, limit, epoch);
      FastExitEpochs(c, r, limit, p, finalized);
      SpecExitEpochs(c, vs, epoch, finalized);
    }
  }

  /** On a staged registry, and on any with an ejection balance below the maximum, the update is the
      specification's if and only if the queue skips no room or nobody is ejected. */
  lemma RefinesUnlessRoomIsSkipped(c: Config, vs: seq<Validator>, epoch: nat, queueEpoch: nat)
    requires Staged(vs) || c.ejectionBalance < c.maxEffectiveBalance
    ensures ExitsAgree(c, vs, epoch, queueEpoch)
            <==> !SkipsRoom(c, vs, epoch, queueEpoch) || Select(vs, ToEject(c, epoch)) == []
  {
    hide Select, ReachesEject, ToEject, SkipsRoom, Staged;
    if Staged(vs) {
      StagedLosesNothing(c, vs, epoch);
    } else {
      ChainDomain(c, epoch);
    }
    assert Select(vs, ReachesEject(c, epoch)) == Select(vs, ToEject(c, epoch));
  }

  // ----- What the update keeps -----

  /** What a registry change within an epoch keeps. */
  ghost predicate Keeps(c: Config, epoch: nat, vs: seq<Validator>, ws: seq<Validator>) {
    && |ws| == |vs|
    && RegistryRules(c, epoch, vs, ws)
    && forall k :: 0 <= k < |vs| ==> ws[k].effectiveBalance == vs[k].effectiveBalance
  }

  lemma KeepsCompose(c: Config, epoch: nat, us: seq<Validator>, vs: seq<Validator>, ws: seq<Validator>)
    requires Keeps(c, epoch, us, vs) && Keeps(c, epoch, vs, ws)
    ensures Keeps(c, epoch, us, ws)
  {
    RulesCompose(c, epoch, us, vs, ws);
  }

  lemma {:induction false} InitiateExitsKeep(c: Config, epoch: nat, limit: nat, r: QueuedRegistry, ks: seq<nat>)
    requires Below(ks, |r.vs|) && limit > 0
    requires QueueKept(c, r.vs, epoch, r.queueEpoch, r.queueChurn)
    ensures var s := InitiateExits(c, r, limit, ks);
      Keeps(c, epoch, r.vs, s.vs) && QueueKept(c, s.vs, epoch, s.queueEpoch, s.queueChurn)
  {
    hide QueueKept, InitiateExit;
    if ks != [] {
      var s := InitiateExits(c, r, limit, ks[..|ks| - 1]);
      InitiateExitsKeep(c, epoch, limit, r, ks[..|ks| - 1]);
      ExitKeeps(c, epoch, limit, s, ks[|ks| - 1]);
    }
  }

  lemma {:induction false} MarksKeep(vs: seq<Validator>, ks: seq<nat>, at: nat)
    requires Below(ks, |vs|)
    ensures forall k :: 0 <= k < |vs| ==>
      var w := MarkEligible(vs, ks, at)[k]; w == vs[k].(activationEligibilityEpoch := w.activationEligibilityEpoch)
  {
    if ks != [] {
      MarksKeep(vs, ks[..|ks| - 1], at);
    }
  }

  lemma {:induction false} ActivateKeeps(vs: seq<Validator>, ks: seq<nat>, at: nat)
    requires Below(ks, |vs|)
    requires forall i :: 0 <= i < |ks| ==> vs[ks[i]].activationEpoch.Never?
    ensures forall k :: 0 <= k < |vs| ==>
      var w := Activate(vs, ks, at)[k];
      w == vs[k] || (vs[k].activationEpoch.Never? && w == vs[k].(activationEpoch := At(at)))
  {
    if ks != [] {
      ActivateKeeps(vs, ks[..|ks| - 1], at);
    }
  }

  /** The queue only looks at exit epochs. */
  lemma QueueKeptSame(c: Config, vs: seq<Validator>, ws: seq<Validator>, epoch: nat, queueEpoch: nat, queueChurn: nat)
    requires |vs| <= |ws|
    requires forall k :: 0 <= k < |vs| ==> ws[k].exitEpoch == vs[k].exitEpoch
    requires forall k :: |vs| <= k < |ws| ==> ws[k].exitEpoch.Never?
    requires QueueKept(c, vs, epoch, queueEpoch, queueChurn)
    ensures QueueKept(c, ws, epoch, queueEpoch, queueChurn)
  {
    ExitsSame(vs, ws, queueEpoch, c.ActivationExitEpoch(epoch));
  }

  lemma FastKeeps(c: Config, r: QueuedRegistry, limit: nat, p: EpochProcess, finalized: nat)
    requires Below(p.indicesToEject, |r.vs|)
    requires Below(p.indicesEligibleForActivationQueue, |r.vs|)
    requires Below(p.indicesEligibleForActivation, |r.vs|)
    requires forall i :: 0 <= i < |p.indicesEligibleForActivation| ==>
      r.vs[p.indicesEligibleForActivation[i]].activationEpoch.Never?
    requires QueueKept(c, r.vs, p.currentEpoch, r.queueEpoch, r.queueChurn) && limit > 0
    ensures var s := FastRegistryUpdates(c, r, limit, p, finalized);
      Keeps(c, p.currentEpoch, r.vs, s.vs) && QueueKept(c, s.vs, p.currentEpoch, s.queueEpoch, s.queueChurn)
  {
    hide QueueKept, InitiateExits, MarkEligible, Activate, Dequeued;
    var epoch := p.currentEpoch;
    var s := InitiateExits(c, r, limit, p.indicesToEject);
    InitiateExitsKeep(c, epoch, limit, r, p.indicesToEject);
    InitiateExitsTouch(c, r, limit, p.indicesToEject);
    var us := MarkEligible(s.vs, p.indicesEligibleForActivationQueue, epoch + 1);
    MarksKeep(s.vs, p.indicesEligibleForActivationQueue, epoch + 1);
    var ks := Dequeued(us, p.indicesEligibleForActivation, limit, finalized);
    DequeuedPrefix(us, p.indicesEligibleForActivation, limit, finalized);
    ActivateKeeps(us, ks, c.ActivationExitEpoch(epoch));
    var ws := Activate(us, ks, c.ActivationExitEpoch(epoch));
    QueueKeptSame(c, s.vs, ws, epoch, s.queueEpoch, s.queueChurn);
    assert Keeps(c, epoch, s.vs, ws);
    KeepsCompose(c, epoch, r.vs, s.vs, ws);
  }

  /** A queue that skips no room skips none after the update. */
  lemma FastKeepsRoom(c: Config, r: QueuedRegistry, limit: nat, p: EpochProcess, finalized: nat)
    requires Below(p.indicesToEject, |r.vs|)
    requires Below(p.indicesEligibleForActivationQueue, |r.vs|)
    requires Below(p.indicesEligibleForActivation, |r.vs|)
    requires forall i :: 0 <= i < |p.indicesEligibleForActivation| ==>
      r.vs[p.indicesEligibleForActivation[i]].activationEpoch.Never?
    requires InStep(c, p.currentEpoch, limit, r)
    ensures var s := FastRegistryUpdates(c, r, limit, p, finalized);
      !SkipsRoom(c, s.vs, p.currentEpoch, s.queueEpoch)
  {
    hide QueueKept, InitiateExits, FastRegistryUpdates, SkipsRoom, ActiveIndices, RegistryRules;
    var s, t := InitiateExits(c, r, limit, p.indicesToEject), FastRegistryUpdates(c, r, limit, p, finalized);
    ExitsInStep(c, p.currentEpoch, limit, r, p.indicesToEject);
    FastKeeps(c, r, limit, p, finalized);
    FastExitEpochs(c, r, limit, p, finalized);
    InitiateExitsKeep(c, p.currentEpoch, limit, r, p.indicesToEject);
    RulesActiveSame(c, p.currentEpoch, r.vs, s.vs, p.currentEpoch);
    RulesActiveSame(c, p.currentEpoch, r.vs, t.vs, p.currentEpoch);
    RoomSame(c, s.vs, t.vs, p.currentEpoch, s.queueEpoch);
    FastQueue(c, r, limit, p, finalized);
  }

  lemma RoomSame(c: Config, vs: seq<Validator>, ws: seq<Validator>, epoch: nat, queueEpoch: nat)
    requires |vs| == |ws| && ActiveIndices(vs, epoch) == ActiveIndices(ws, epoch)
    requires forall k :: 0 <= k < |vs| ==> ws[k].exitEpoch == vs[k].exitEpoch
    ensures SkipsRoom(c, ws, epoch, queueEpoch) == SkipsRoom(c, vs, epoch, queueEpoch)
  {
    hide ActiveIndices;
    var low := c.ActivationExitEpoch(epoch);
    ExitsSame(vs, ws, LatestExit(vs, low), low);
  }

  lemma FastQueue(c: Config, r: QueuedRegistry, limit: nat, p: EpochProcess, finalized: nat)
    requires Below(p.indicesToEject, |r.vs|)
    requires Below(p.indicesEligibleForActivationQueue, |r.vs|)
    requires Below(p.indicesEligibleForActivation, |r.vs|)
    ensures FastRegistryUpdates(c, r, limit, p, finalized).queueEpoch == InitiateExits(c, r, limit, p.indicesToEject).queueEpoch
  {
    hide InitiateExits, MarkEligible, Activate, Dequeued;
  }

  lemma DequeuedPrefix(vs: seq<Validator>, q: seq<nat>, limit: nat, finalized: nat)
    requires Below(q, |vs|)
    ensures Dequeued(vs, q, limit, finalized) <= q
  {
  }

  lemma {:induction false} InitiateExitsTouch(c: Config, r: QueuedRegistry, limit: nat, ks: seq<nat>)
    requires Below(ks, |r.vs|)
    ensures forall k :: 0 <= k < |r.vs| ==> SameButExit(r.vs[k], InitiateExits(c, r, limit, ks).vs[k])
  {
    if ks != [] {
      InitiateExitsTouch(c, r, limit, ks[..|ks| - 1]);
    }
  }

  // ----- Staging -----

  lemma {:induction false} ActivateStaged(vs: seq<Validator>, ks: seq<nat>, at: nat)
    requires Staged(vs) && Below(ks, |vs|)
    requires forall i :: 0 <= i < |ks| ==> vs[ks[i]].activationEligibilityEpoch.At?
    ensures Staged(Activate(vs, ks, at))
  {
    if ks != [] {
      ActivateStaged(vs, ks[..|ks| - 1], at);
      ActivateLeaves(vs, ks[..|ks| - 1], at);
    }
  }

  lemma {:induction false} HeadIsEligible(vs: seq<Validator>, q: seq<nat>, f: nat)
    requires Below(q, |vs|)
    ensures forall i :: 0 <= i < EligibleHead(vs, q, f) ==> vs[q[i]].activationEligibilityEpoch.By(f)
  {
    if q != [] && vs[q[0]].activationEligibilityEpoch.By(f) {
      HeadIsEligible(vs, q[1..], f);
      assert forall i :: 0 < i < |q| ==> q[i] == q[1..][i - 1];
    }
  }

  /** The update keeps a staged registry staged, whatever the lists. */
  lemma FastKeepsStaged(c: Config, r: QueuedRegistry, limit: nat, p: EpochProcess, finalized: nat)
    requires Staged(r.vs)
    requires Below(p.indicesToEject, |r.vs|)
    requires Below(p.indicesEligibleForActivationQueue, |r.vs|)
    requires Below(p.indicesEligibleForActivation, |r.vs|)
    ensures Staged(FastRegistryUpdates(c, r, limit, p, finalized).vs)
  {
    hide InitiateExits, MarkEligible, Activate, EligibleHead;
    var s := InitiateExits(c, r, limit, p.indicesToEject);
    InitiateExitsTouch(c, r, limit, p.indicesToEject);
    var us := MarkEligible(s.vs, p.indicesEligibleForActivationQueue, p.currentEpoch + 1);
    MarksKeep(s.vs, p.indicesEligibleForActivationQueue, p.currentEpoch + 1);
    MarksSet(s.vs, p.indicesEligibleForActivationQueue, p.currentEpoch + 1);
    HeadIsEligible(us, Take(p.indicesEligibleForActivation, limit), finalized);
    ActivateStaged(us, Dequeued(us, p.indicesEligibleForActivation, limit, finalized), c.ActivationExitEpoch(p.currentEpoch));
  }

  /** A mark only ever sets an eligibility epoch. */
  lemma {:induction false} MarksSet(vs: seq<Validator>, ks: seq<nat>, at: nat)
    requires Below(ks, |vs|)
    ensures forall k :: 0 <= k < |vs| && vs[k].activationEligibilityEpoch.At? ==>
      MarkEligible(vs, ks, at)[k].activationEligibilityEpoch.At?
  {
    if ks != [] {
      MarksSet(vs, ks[..|ks| - 1], at);
    }
  }

  // ----- Where the update leaves the exit queue -----

  /** With nobody to eject exits and queue stay; otherwise the queue ends up at the latest exit. */
  ghost predicate EjectsInto(c: Config, epoch: nat, r: QueuedRegistry, s: QueuedRegistry) {
    && |s.vs| == |r.vs|
    && if Select(r.vs, ToEject(c, epoch)) == []
       then s.queueEpoch == r.queueEpoch && forall k :: 0 <= k < |r.vs| ==> s.vs[k].exitEpoch == r.vs[k].exitEpoch
       else AtLatest(c, s.vs, epoch, s.queueEpoch)
  }

  lemma {:induction false} ExitsReachLatest(c: Config, epoch: nat, limit: nat, r: QueuedRegistry, ks: seq<nat>)
    requires Below(ks, |r.vs|) && limit > 0
    requires QueueKept(c, r.vs, epoch, r.queueEpoch, r.queueChurn)
    requires ks != [] && r.vs[ks[0]].exitEpoch.Never?
    ensures var s := InitiateExits(c, r, limit, ks); AtLatest(c, s.vs, epoch, s.queueEpoch)
  {
    hide QueueKept, AtLatest, SkipsRoom, RegistryRules;
    var n := |ks| - 1;
    var s := InitiateExits(c, r, limit, ks[..n]);
    InitiateExitsKeep(c, epoch, limit, r, ks[..n]);
    if n > 0 {
      ExitsReachLatest(c, epoch, limit, r, ks[..n]);
    }
    if s.vs[ks[n]].exitEpoch.Never? {
      QueueAfterExit(c, s.vs, epoch, s.queueEpoch, s.queueChurn, limit, ks[n]);
    }
  }

  lemma FastEjectsInto(c: Config, r: QueuedRegistry, limit: nat, p: EpochProcess, finalized: nat)
    requires Below(p.indicesToEject, |r.vs|)
    requires Below(p.indicesEligibleForActivationQueue, |r.vs|)
    requires Below(p.indicesEligibleForActivation, |r.vs|)
    requires p.indicesToEject == Select(r.vs, ToEject(c, p.currentEpoch))
    requires QueueKept(c, r.vs, p.currentEpoch, r.queueEpoch, r.queueChurn) && limit > 0
    ensures EjectsInto(c, p.currentEpoch, r, FastRegistryUpdates(c, r, limit, p, finalized))
  {
    hide QueueKept, InitiateExit, FastRegistryUpdates, Select;
    var ks, epoch := p.indicesToEject, p.currentEpoch;
    var s, t := InitiateExits(c, r, limit, ks), FastRegistryUpdates(c, r, limit, p, finalized);
    FastExitEpochs(c, r, limit, p, finalized);
    FastQueue(c, r, limit, p, finalized);
    if ks != [] {
      SelectMembers(r.vs, ToEject(c, epoch));
      assert ks[0] in ks;
      ExitsReachLatest(c, epoch, limit, r, ks);
      ExitsSame(s.vs, t.vs, 0, c.ActivationExitEpoch(epoch));
    }
  }
}
