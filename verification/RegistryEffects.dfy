/** What one registry update does to the validators, told from the registry before and after it alone. */
module RegistryEffects {
  import opened Params
  import opened Permutations
  import opened Registry
  import opened Cache
  import opened ActivationQueue
  import opened EpochProcess
  import opened EffectiveBalances
  import opened RegistryUpdates

  // ----- Activations -----

  /** Not yet activated, and eligible by epoch `f`. */
  predicate Waiting(v: Validator, f: nat) {
    v.activationEpoch == Never && v.activationEligibilityEpoch != Never && v.activationEligibilityEpoch.epoch <= f
  }

  /** `j` comes before `k`: eligible in an earlier epoch, or in the same with a lower index. */
  predicate Ahead(vs: seq<Validator>, j: nat, k: nat)
    requires j < |vs| && k < |vs|
  {
    var x, y := vs[j].activationEligibilityEpoch, vs[k].activationEligibilityEpoch;
    x.At? && y.At? && (x.epoch < y.epoch || (x.epoch == y.epoch && j < k))
  }

  /** The validators whose activation epoch changed. */
  ghost function Activated(vs: seq<Validator>, ws: seq<Validator>): set<nat>
    requires |vs| == |ws|
  {
    set k: nat | k < |vs| && ws[k].activationEpoch != vs[k].activationEpoch
  }

  /** At most `limit` validators are activated, all of them waiting since a finalized epoch; and one that
      was waiting too is left out only behind exactly `limit` others. */
  ghost predicate ActivatesFirst(c: Config, epoch: nat, limit: nat, finalized: nat, vs: seq<Validator>, ws: seq<Validator>) {
    && |ws| == |vs|
    && |Activated(vs, ws)| <= limit
    && (forall k :: k in Activated(vs, ws) ==>
          Waiting(vs[k], finalized) && Waiting(vs[k], epoch) && ws[k].activationEpoch == At(epoch + 1 + c.maxSeedLookahead))
    && (forall k: nat :: k < |vs| && Waiting(vs[k], finalized) && Waiting(vs[k], epoch) && k !in Activated(vs, ws) ==>
          |Activated(vs, ws)| == limit && forall j :: j in Activated(vs, ws) ==> Ahead(vs, j, k))
  }

  /** The members of a list without repetitions are as many as its entries. */
  lemma {:induction false} DistinctSize(q: seq<nat>, s: set<nat>)
    requires Distinct(q) && forall x :: x in s <==> x in q
    ensures |s| == |q|
  {
    if q == [] {
      assert s == {};
    } else {
      var n := |q| - 1;
      assert q == q[..n] + [q[n]];
      assert q[n] !in q[..n];
      DistinctSize(q[..n], s - {q[n]});
    }
  }

  lemma {:induction false} ActivateSets(vs: seq<Validator>, ks: seq<nat>, at: nat)
    requires Below(ks, |vs|)
    ensures forall k: nat :: k < |vs| ==>
      Activate(vs, ks, at)[k].activationEpoch == if k in ks then At(at) else vs[k].activationEpoch
  {
    if ks != [] {
      ActivateSets(vs, ks[..|ks| - 1], at);
      assert ks == ks[..|ks| - 1] + [ks[|ks| - 1]];
    }
  }

  /** How many entries are dequeued: those whose eligibility is final, but no more than the limit. */
  lemma DequeuedLength(vs: seq<Validator>, us: seq<Validator>, q: seq<nat>, limit: nat, f: nat)
    requires |us| == |vs| && Below(q, |vs|)
    requires forall i :: 0 <= i < |q| ==> us[q[i]].activationEligibilityEpoch == vs[q[i]].activationEligibilityEpoch
    ensures var d, m := Dequeued(us, q, limit, f), EligibleHead(vs, q, f);
      d <= q && |d| == if m < limit then m else limit
  {
    hide EligibleHead;
    HeadSame(vs, us, q, f);
    HeadOfPrefix(us, q, |Take(q, limit)|, f);
  }

  lemma FrontOfQueue(vs: seq<Validator>, q: seq<nat>, d: seq<nat>, limit: nat, f: nat, epoch: nat)
    requires Queued(vs, q) && InOrder(vs, q) && Distinct(q)
    requires forall k: nat :: k in q <==> k < |vs| && EligibleBy(epoch)(vs[k])
    requires var m := EligibleHead(vs, q, f); d <= q && |d| == if m < limit then m else limit
    ensures Distinct(d)
    ensures forall k: nat :: k in d ==> k < |vs| && Waiting(vs[k], f) && Waiting(vs[k], epoch)
    ensures forall k: nat :: k < |vs| && Waiting(vs[k], f) && Waiting(vs[k], epoch) && k !in d ==>
      |d| == limit && forall j: nat :: j in d ==> j < |vs| && Ahead(vs, j, k)
  {
    hide EligibleHead;
    HeadSplits(vs, q, f);
    forall k: nat | k in d ensures k < |vs| && Waiting(vs[k], f) && Waiting(vs[k], epoch) {
      var i :| 0 <= i < |d| && d[i] == k;
      assert q[i] == k && k in q;
    }
    forall k: nat | k < |vs| && Waiting(vs[k], f) && Waiting(vs[k], epoch) && k !in d
      ensures |d| == limit && forall j: nat :: j in d ==> j < |vs| && Ahead(vs, j, k)
    {
      LeftOut(vs, q, d, limit, f, epoch, k);
    }
  }

  lemma LeftOut(vs: seq<Validator>, q: seq<nat>, d: seq<nat>, limit: nat, f: nat, epoch: nat, k: nat)
    requires Queued(vs, q) && InOrder(vs, q)
    requires forall k: nat :: k in q <==> k < |vs| && EligibleBy(epoch)(vs[k])
    requires var m := EligibleHead(vs, q, f); d <= q && |d| == if m < limit then m else limit
    requires k < |vs| && Waiting(vs[k], f) && Waiting(vs[k], epoch) && k !in d
    ensures |d| == limit && forall j: nat :: j in d ==> j < |vs| && Ahead(vs, j, k)
  {
    hide EligibleHead;
    HeadSplits(vs, q, f);
    assert k in q;
    var i :| 0 <= i < |q| && q[i] == k;
    assert forall h :: 0 <= h < |d| ==> q[h] in d;
    forall j: nat | j in d ensures j < |vs| && Ahead(vs, j, k) {
      var h :| 0 <= h < |d| && d[h] == j;
      assert q[h] == j && Precedes(vs, q[h], q[i]);
    }
  }

  lemma {:induction false} MarksListed(vs: seq<Validator>, ks: seq<nat>, at: nat)
    requires Below(ks, |vs|)
    ensures forall k: nat :: k < |vs| ==>
      MarkEligible(vs, ks, at)[k] == if k in ks then vs[k].(activationEligibilityEpoch := At(at)) else vs[k]
  {
    if ks != [] {
      MarksListed(vs, ks[..|ks| - 1], at);
      assert ks == ks[..|ks| - 1] + [ks[|ks| - 1]];
    }
  }

  lemma QueueFacts(vs: seq<Validator>, epoch: nat)
    ensures var q := SpecQueue(vs, epoch);
      && Queued(vs, q) && InOrder(vs, q) && Distinct(q)
      && forall k: nat :: k in q <==> k < |vs| && EligibleBy(epoch)(vs[k])
  {
    hide SpecQueue, Select, InOrder;
    QueueIsOrdered(vs, epoch);
    QueueMembers(vs, epoch);
    SelectedQueued(vs, epoch);
    DistinctByMultiset(Select(vs, EligibleBy(epoch)), SpecQueue(vs, epoch));
  }

  /** Activation epochs after the update: set for the dequeued, and only for those. */
  lemma FastActivations(c: Config, r: QueuedRegistry, limit: nat, p: EpochProcess, finalized: nat)
    requires Below(p.indicesToEject, |r.vs|)
    requires p.indicesEligibleForActivationQueue == Select(r.vs, EligibleForQueue(c))
    requires p.indicesEligibleForActivation == SpecQueue(r.vs, p.currentEpoch)
    ensures Below(p.indicesEligibleForActivationQueue, |r.vs|) && Below(p.indicesEligibleForActivation, |r.vs|)
    ensures var q, ws := p.indicesEligibleForActivation, FastRegistryUpdates(c, r, limit, p, finalized).vs;
      var m := EligibleHead(r.vs, q, finalized);
      var d := q[..if m < limit then m else limit];
      && |ws| == |r.vs|
      && forall k: nat :: k < |r.vs| ==>
           ws[k].activationEpoch == if k in d then At(c.ActivationExitEpoch(p.currentEpoch)) else r.vs[k].activationEpoch
  {
    hide SpecQueue, Select, InitiateExits, MarkEligible, Activate, Dequeued, EligibleHead, RawConfig.ActivationExitEpoch;
    var vs, q := r.vs, p.indicesEligibleForActivation;
    QueueFacts(vs, p.currentEpoch);
    SelectedBelow(vs, EligibleForQueue(c));
    SelectMembers(vs, EligibleForQueue(c));
    var s := InitiateExits(c, r, limit, p.indicesToEject);
    InitiateExitsTouch(c, r, limit, p.indicesToEject);
    var us := MarkEligible(s.vs, p.indicesEligibleForActivationQueue, p.currentEpoch + 1);
    MarksListed(s.vs, p.indicesEligibleForActivationQueue, p.currentEpoch + 1);
    DequeuedLength(vs, us, q, limit, finalized);
    ActivateSets(us, Dequeued(us, q, limit, finalized), c.ActivationExitEpoch(p.currentEpoch));
  }

  /** With the prepared lists, the update activates whom it must. */
  lemma FastActivates(c: Config, r: QueuedRegistry, limit: nat, p: EpochProcess, finalized: nat)
    requires Below(p.indicesToEject, |r.vs|)
    requires p.indicesEligibleForActivationQueue == Select(r.vs, EligibleForQueue(c))
    requires p.indicesEligibleForActivation == SpecQueue(r.vs, p.currentEpoch)
    ensures Below(p.indicesEligibleForActivationQueue, |r.vs|) && Below(p.indicesEligibleForActivation, |r.vs|)
    ensures ActivatesFirst(c, p.currentEpoch, limit, finalized, r.vs, FastRegistryUpdates(c, r, limit, p, finalized).vs)
  {
    hide SpecQueue, Select, FastRegistryUpdates, EligibleHead, InOrder, Waiting, Ahead;
    var vs, q := r.vs, p.indicesEligibleForActivation;
    FastActivations(c, r, limit, p, finalized);
    QueueFacts(vs, p.currentEpoch);
    var ws := FastRegistryUpdates(c, r, limit, p, finalized).vs;
    var m := EligibleHead(vs, q, finalized);
    var d := q[..if m < limit then m else limit];
    FrontOfQueue(vs, q, d, limit, finalized, p.currentEpoch);
    WaitingNever(vs, d, finalized);
    DistinctSize(d, Activated(vs, ws));
  }

  lemma WaitingNever(vs: seq<Validator>, d: seq<nat>, f: nat)
    requires forall k: nat :: k in d ==> k < |vs| && Waiting(vs[k], f)
    ensures forall k: nat :: k in d ==> k < |vs| && vs[k].activationEpoch.Never?
  {
  }

  // ----- Marks -----

  /** Exactly the validators of full effective balance without an eligibility epoch get the next one. */
  ghost predicate MarksFull(c: Config, epoch: nat, vs: seq<Validator>, ws: seq<Validator>) {
    && |ws| == |vs|
    && forall k :: 0 <= k < |vs| ==>
         if vs[k].activationEligibilityEpoch == Never && vs[k].effectiveBalance == c.maxEffectiveBalance
         then ws[k].activationEligibilityEpoch == At(epoch + 1)
         else ws[k].activationEligibilityEpoch == vs[k].activationEligibilityEpoch
  }

  lemma FastMarks(c: Config, r: QueuedRegistry, limit: nat, p: EpochProcess, finalized: nat)
    requires Below(p.indicesToEject, |r.vs|) && Below(p.indicesEligibleForActivation, |r.vs|)
    requires p.indicesEligibleForActivationQueue == Select(r.vs, EligibleForQueue(c))
    ensures Below(p.indicesEligibleForActivationQueue, |r.vs|)
    ensures MarksFull(c, p.currentEpoch, r.vs, FastRegistryUpdates(c, r, limit, p, finalized).vs)
  {
    hide Select, InitiateExits, MarkEligible, Activate, Dequeued;
    var ks, at := p.indicesEligibleForActivationQueue, p.currentEpoch + 1;
    SelectedBelow(r.vs, EligibleForQueue(c));
    SelectMembers(r.vs, EligibleForQueue(c));
    var s := InitiateExits(c, r, limit, p.indicesToEject);
    InitiateExitsTouch(c, r, limit, p.indicesToEject);
    MarksListed(s.vs, ks, at);
    var us := MarkEligible(s.vs, ks, at);
    ActivateLeaves(us, Dequeued(us, p.indicesEligibleForActivation, limit, finalized), c.ActivationExitEpoch(p.currentEpoch));
  }

  // ----- Exits -----

  /** An active validator whose exit is not initiated and whose effective balance is too low. */
  predicate Ejectable(c: Config, v: Validator, epoch: nat) {
    && v.activationEpoch != Never && v.activationEpoch.epoch <= epoch
    && v.exitEpoch == Never
    && v.effectiveBalance <= c.ejectionBalance
  }

  /** Exactly those get an exit epoch, far enough ahead, and can withdraw so much later. */
  ghost predicate EjectsLow(c: Config, epoch: nat, vs: seq<Validator>, ws: seq<Validator>) {
    && |ws| == |vs|
    && forall k :: 0 <= k < |vs| ==>
         if Ejectable(c, vs[k], epoch) then Exited(c, epoch, ws[k])
         else ws[k].exitEpoch == vs[k].exitEpoch && ws[k].withdrawableEpoch == vs[k].withdrawableEpoch
  }

  predicate Exited(c: Config, epoch: nat, w: Validator) {
    && w.exitEpoch != Never && w.exitEpoch.epoch >= epoch + 1 + c.maxSeedLookahead
    && w.withdrawableEpoch == At(w.exitEpoch.epoch + c.minValidatorWithdrawabilityDelay)
  }

  lemma {:induction false} ExitsSet(c: Config, epoch: nat, r: QueuedRegistry, limit: nat, ks: seq<nat>)
    requires Below(ks, |r.vs|) && r.queueEpoch >= c.ActivationExitEpoch(epoch)
    ensures forall k: nat :: k < |r.vs| && k !in ks ==> InitiateExits(c, r, limit, ks).vs[k] == r.vs[k]
    ensures forall k: nat :: k < |r.vs| && k in ks ==>
      if r.vs[k].exitEpoch.Never? then Exited(c, epoch, InitiateExits(c, r, limit, ks).vs[k])
      else InitiateExits(c, r, limit, ks).vs[k] == r.vs[k]
  {
    if ks != [] {
      ExitsSet(c, epoch, r, limit, ks[..|ks| - 1]);
      assert ks == ks[..|ks| - 1] + [ks[|ks| - 1]];
    }
  }

  lemma FastEjects(c: Config, r: QueuedRegistry, limit: nat, p: EpochProcess, finalized: nat)
    requires Below(p.indicesEligibleForActivationQueue, |r.vs|) && Below(p.indicesEligibleForActivation, |r.vs|)
    requires p.indicesToEject == Select(r.vs, ToEject(c, p.currentEpoch))
    requires r.queueEpoch >= c.ActivationExitEpoch(p.currentEpoch)
    ensures Below(p.indicesToEject, |r.vs|)
    ensures EjectsLow(c, p.currentEpoch, r.vs, FastRegistryUpdates(c, r, limit, p, finalized).vs)
  {
    hide Select, InitiateExits, MarkEligible, Activate, Dequeued;
    SelectedBelow(r.vs, ToEject(c, p.currentEpoch));
    SelectMembers(r.vs, ToEject(c, p.currentEpoch));
    var s := InitiateExits(c, r, limit, p.indicesToEject);
    ExitsSet(c, p.currentEpoch, r, limit, p.indicesToEject);
    MarksKeep(s.vs, p.indicesEligibleForActivationQueue, p.currentEpoch + 1);
    var us := MarkEligible(s.vs, p.indicesEligibleForActivationQueue, p.currentEpoch + 1);
    ActivateLeaves(us, Dequeued(us, p.indicesEligibleForActivation, limit, finalized), c.ActivationExitEpoch(p.currentEpoch));
  }

  // ----- The exit churn -----

  /** The validators that exit at `x`. */
  ghost function Exiting(vs: seq<Validator>, x: nat): set<nat> {
    set k: nat | k < |vs| && vs[k].exitEpoch == At(x)
  }

  lemma {:induction false} ExitsCounted(vs: seq<Validator>, x: nat)
    ensures ExitsAt(vs, x) == |Exiting(vs, x)|
  {
    if vs == [] {
      assert Exiting(vs, x) == {};
    } else {
      var n := |vs| - 1;
      ExitsCounted(vs[..n], x);
      if vs[n].exitEpoch == At(x) {
        assert Exiting(vs, x) == Exiting(vs[..n], x) + {n};
      } else {
        assert Exiting(vs, x) == Exiting(vs[..n], x);
      }
    }
  }

  /** New exits go to the epochs from the old to the new queue epoch, no more than `limit` to each, and
      every epoch that the queue moved past is full. */
  ghost predicate FillsQueue(limit: nat, r: QueuedRegistry, s: QueuedRegistry) {
    && r.queueEpoch <= s.queueEpoch
    && (forall x: nat :: |Exiting(s.vs, x)| != |Exiting(r.vs, x)| ==>
          r.queueEpoch <= x <= s.queueEpoch && |Exiting(s.vs, x)| <= limit)
    && (forall x: nat :: r.queueEpoch <= x < s.queueEpoch ==> |Exiting(s.vs, x)| >= limit)
  }

  lemma ExitFillsQueue(c: Config, epoch: nat, limit: nat, r: QueuedRegistry, k: nat)
    requires k < |r.vs| && limit > 0 && QueueKept(c, r.vs, epoch, r.queueEpoch, r.queueChurn)
    ensures FillsQueue(limit, r, InitiateExit(c, r, limit, k))
  {
    hide LatestExit, ExitsAt, Exiting;
    var s := InitiateExit(c, r, limit, k);
    if r.vs[k].exitEpoch.Never? {
      ExitsCounted(r.vs, r.queueEpoch);
      NoExitsBeyond(r.vs, r.queueEpoch, r.queueEpoch + 1);
      forall x: nat ensures |Exiting(s.vs, x)| == |Exiting(r.vs, x)| + (if x == s.queueEpoch then 1 else 0) {
        ExitsCounted(r.vs, x);
        ExitsCounted(s.vs, x);
        ExitsUpdated(r.vs, k, s.vs[k], x);
      }
      ExitsCounted(r.vs, r.queueEpoch + 1);
    }
  }

  lemma FillsCompose(limit: nat, r: QueuedRegistry, s: QueuedRegistry, t: QueuedRegistry)
    requires FillsQueue(limit, r, s) && FillsQueue(limit, s, t)
    ensures FillsQueue(limit, r, t)
  {
    hide Exiting;
  }

  lemma {:induction false} ExitsFillQueue(c: Config, epoch: nat, limit: nat, r: QueuedRegistry, ks: seq<nat>)
    requires Below(ks, |r.vs|) && limit > 0 && QueueKept(c, r.vs, epoch, r.queueEpoch, r.queueChurn)
    ensures FillsQueue(limit, r, InitiateExits(c, r, limit, ks))
  {
    hide QueueKept, InitiateExit, FillsQueue, Keeps;
    if ks == [] {
      SameQueue(limit, r);
    } else {
      var n := |ks| - 1;
      var s := InitiateExits(c, r, limit, ks[..n]);
      ExitsFillQueue(c, epoch, limit, r, ks[..n]);
      InitiateExitsKeep(c, epoch, limit, r, ks[..n]);
      ExitFillsQueue(c, epoch, limit, s, ks[n]);
      FillsCompose(limit, r, s, InitiateExit(c, s, limit, ks[n]));
    }
  }

  lemma SameQueue(limit: nat, r: QueuedRegistry)
    ensures FillsQueue(limit, r, r)
  {
  }

  lemma FillsSame(limit: nat, r: QueuedRegistry, s: QueuedRegistry, t: QueuedRegistry)
    requires FillsQueue(limit, r, s) && t.queueEpoch == s.queueEpoch && |t.vs| == |s.vs|
    requires forall k :: 0 <= k < |s.vs| ==> t.vs[k].exitEpoch == s.vs[k].exitEpoch
    ensures FillsQueue(limit, r, t)
  {
    forall x: nat ensures Exiting(t.vs, x) == Exiting(s.vs, x) {
    }
  }

  lemma FastFillsQueue(c: Config, r: QueuedRegistry, limit: nat, p: EpochProcess, finalized: nat)
    requires Below(p.indicesToEject, |r.vs|)
    requires Below(p.indicesEligibleForActivationQueue, |r.vs|)
    requires Below(p.indicesEligibleForActivation, |r.vs|)
    requires QueueKept(c, r.vs, p.currentEpoch, r.queueEpoch, r.queueChurn) && limit > 0
    ensures FillsQueue(limit, r, FastRegistryUpdates(c, r, limit, p, finalized))
  {
    hide QueueKept, InitiateExits, FastRegistryUpdates, FillsQueue;
    ExitsFillQueue(c, p.currentEpoch, limit, r, p.indicesToEject);
    FastExitEpochs(c, r, limit, p, finalized);
    FastQueue(c, r, limit, p, finalized);
    FillsSame(limit, r, InitiateExits(c, r, limit, p.indicesToEject), FastRegistryUpdates(c, r, limit, p, finalized));
  }

  // ----- The whole update -----

  /** What the registry update of `epoch` does to the validators and to the exit queue. */
  ghost predicate RegistryMoved(c: Config, epoch: nat, limit: nat, finalized: nat, r: QueuedRegistry, s: QueuedRegistry) {
    && ActivatesFirst(c, epoch, limit, finalized, r.vs, s.vs)
    && MarksFull(c, epoch, r.vs, s.vs)
    && EjectsLow(c, epoch, r.vs, s.vs)
    && FillsQueue(limit, r, s)
    && OthersKept(r.vs, s.vs)
  }

  /** The rest of a validator. */
  ghost predicate OthersKept(vs: seq<Validator>, ws: seq<Validator>) {
    |ws| == |vs| && forall k :: 0 <= k < |vs| ==> ws[k].slashed == vs[k].slashed && ws[k].effectiveBalance == vs[k].effectiveBalance
  }

  lemma FastKeepsOthers(c: Config, r: QueuedRegistry, limit: nat, p: EpochProcess, finalized: nat)
    requires Below(p.indicesToEject, |r.vs|)
    requires Below(p.indicesEligibleForActivationQueue, |r.vs|)
    requires Below(p.indicesEligibleForActivation, |r.vs|)
    ensures OthersKept(r.vs, FastRegistryUpdates(c, r, limit, p, finalized).vs)
  {
    hide InitiateExits, MarkEligible, Activate, Dequeued;
    var s := InitiateExits(c, r, limit, p.indicesToEject);
    InitiateExitsTouch(c, r, limit, p.indicesToEject);
    MarksKeep(s.vs, p.indicesEligibleForActivationQueue, p.currentEpoch + 1);
    var us := MarkEligible(s.vs, p.indicesEligibleForActivationQueue, p.currentEpoch + 1);
    ActivateLeaves(us, Dequeued(us, p.indicesEligibleForActivation, limit, finalized), c.ActivationExitEpoch(p.currentEpoch));
  }

  /** With the prepared lists, on a staged registry: whom the update activates, marks and ejects, and how
      it fills the exit queue. */
  lemma FastMoves(c: Config, r: QueuedRegistry, limit: nat, p: EpochProcess, finalized: nat)
    requires Staged(r.vs) && limit > 0
    requires QueueKept(c, r.vs, p.currentEpoch, r.queueEpoch, r.queueChurn)
    requires p.indicesToEject == Select(r.vs, ReachesEject(c, p.currentEpoch))
    requires p.indicesEligibleForActivationQueue == Select(r.vs, EligibleForQueue(c))
    requires p.indicesEligibleForActivation == SpecQueue(r.vs, p.currentEpoch)
    ensures Below(p.indicesToEject, |r.vs|)
    ensures Below(p.indicesEligibleForActivationQueue, |r.vs|)
    ensures Below(p.indicesEligibleForActivation, |r.vs|)
    ensures RegistryMoved(c, p.currentEpoch, limit, finalized, r, FastRegistryUpdates(c, r, limit, p, finalized))
  {
    hide Staged, Select, ReachesEject, ToEject, EligibleForQueue, SpecQueue, FastRegistryUpdates, ActivatesFirst, MarksFull,
      EjectsLow, FillsQueue, OthersKept;
    StagedLosesNothing(c, r.vs, p.currentEpoch);
    SelectedBelow(r.vs, ToEject(c, p.currentEpoch));
    FastActivates(c, r, limit, p, finalized);
    FastMarks(c, r, limit, p, finalized);
    LatestExitBounds(r.vs, c.ActivationExitEpoch(p.currentEpoch));
    FastEjects(c, r, limit, p, finalized);
    FastFillsQueue(c, r, limit, p, finalized);
    FastKeepsOthers(c, r, limit, p, finalized);
  }

  // ----- Effective balances -----

  /** The largest whole number of increments up to the balance and to the maximum. */
  predicate LargestWhole(c: Config, balance: nat, r: nat) {
    && r % c.effectiveBalanceIncrement == 0 && r <= balance && r <= c.maxEffectiveBalance
    && (r + c.effectiveBalanceIncrement > balance || r + c.effectiveBalanceIncrement > c.maxEffectiveBalance)
  }

  /** The effective balance follows the balance where that leaves the hysteresis band, and only there. */
  ghost predicate BalancesFollow(c: Config, vs: seq<Validator>, balances: seq<nat>, ws: seq<Validator>) {
    && |ws| == |vs| == |balances|
    && forall k :: 0 <= k < |vs| ==>
         if vs[k].effectiveBalance - c.downwardThreshold <= balances[k] <= vs[k].effectiveBalance + c.upwardThreshold
         then ws[k].effectiveBalance == vs[k].effectiveBalance
         else LargestWhole(c, balances[k], ws[k].effectiveBalance)
  }

  /** What an epoch transition does to the validators. */
  ghost predicate EpochMoved(c: Config, epoch: nat, limit: nat, finalized: nat, vs: seq<Validator>, balances: seq<nat>,
                             ws: seq<Validator>)
  {
    && ActivatesFirst(c, epoch, limit, finalized, vs, ws)
    && MarksFull(c, epoch, vs, ws)
    && EjectsLow(c, epoch, vs, ws)
    && BalancesFollow(c, vs, balances, ws)
    && forall k :: 0 <= k < |vs| ==> ws[k].slashed == vs[k].slashed
  }

  lemma RoundedIsLargest(c: Config, balance: nat)
    ensures LargestWhole(c, balance, Rounded(c, balance))
  {
    hide RawConfig.Valid;
    ConfigPositive(c);
    RoundedWhole(c, balance);
  }

  /** Balance updates after a registry update complete the transition. */
  lemma UpdatesMove(c: Config, epoch: nat, limit: nat, finalized: nat, r: QueuedRegistry, s: QueuedRegistry,
                    balances: seq<nat>, ws: seq<Validator>)
    requires RegistryMoved(c, epoch, limit, finalized, r, s)
    requires |balances| == |s.vs| && ws == SpecBalanceUpdates(c, s.vs, balances)
    ensures EpochMoved(c, epoch, limit, finalized, r.vs, balances, ws)
    ensures FillsQueue(limit, r, s.(vs := ws))
  {
    hide Rounded, LargestWhole, Waiting, Ahead, FillsQueue;
    assert Activated(r.vs, ws) == Activated(r.vs, s.vs);
    FillsSame(limit, r, s, s.(vs := ws));
    forall k | 0 <= k < |balances| ensures LargestWhole(c, balances[k], Rounded(c, balances[k])) {
      RoundedIsLargest(c, balances[k]);
    }
  }
}
