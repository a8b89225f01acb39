/** The validator registry: activity, selections by a condition, and the exit queue. */
module Registry {
  import opened Params
  import opened Permutations
  import opened Shuffle
  import Arith

  /** The fields of a validator that the model uses. */
  datatype Validator = Validator(
    effectiveBalance: nat,
    slashed: bool,
    activationEligibilityEpoch: When,
    activationEpoch: When,
    exitEpoch: When,
    withdrawableEpoch: When)

  /** `isActiveValidator` */
  predicate IsActive(v: Validator, epoch: nat) {
    v.activationEpoch.By(epoch) && !v.exitEpoch.By(epoch)
  }

  function ActiveAt(epoch: nat): Validator -> bool {
    v => IsActive(v, epoch)
  }

  /** A validator joins the active set in its activation epoch and leaves it in its exit epoch. */
  lemma ActiveChanges(v: Validator, epoch: nat)
    ensures IsActive(v, 0) <==> v.activationEpoch == At(0) && v.exitEpoch != At(0)
    ensures !IsActive(v, epoch) && IsActive(v, epoch + 1)
            <==> v.activationEpoch == At(epoch + 1) && (v.exitEpoch == Never || epoch + 1 < v.exitEpoch.epoch)
    ensures IsActive(v, epoch) && !IsActive(v, epoch + 1)
            <==> v.exitEpoch == At(epoch + 1) && v.activationEpoch != Never && v.activationEpoch.epoch <= epoch
  {
  }

  // ----- Selections in index order -----

  /** The indices whose validator satisfies `p`, ascending. */
  function Select(vs: seq<Validator>, p: Validator -> bool): (r: seq<nat>) {
    if vs == [] then []
    else Select(vs[..|vs| - 1], p) + if p(vs[|vs| - 1]) then [|vs| - 1] else []
  }

  lemma SelectStep(vs: seq<Validator>, p: Validator -> bool, i: nat)
    requires i < |vs|
    ensures Select(vs[..i + 1], p) == Select(vs[..i], p) + if p(vs[i]) then [i] else []
  {
    assert vs[..i + 1][..i] == vs[..i];
  }

  lemma {:induction false} Selected(vs: seq<Validator>, p: Validator -> bool, k: nat)
    ensures k in Select(vs, p) <==> k < |vs| && p(vs[k])
  {
    if vs != [] {
      Selected(vs[..|vs| - 1], p, k);
    }
  }

  lemma {:induction false} SelectAscends(vs: seq<Validator>, p: Validator -> bool)
    ensures StrictlyIncreasing(Select(vs, p)) && |Select(vs, p)| <= |vs|
    ensures forall i :: 0 <= i < |Select(vs, p)| ==> Select(vs, p)[i] < |vs|
  {
    if vs != [] {
      SelectAscends(vs[..|vs| - 1], p);
    }
  }

  lemma SelectMembers(vs: seq<Validator>, p: Validator -> bool)
    ensures forall k: nat :: k in Select(vs, p) <==> k < |vs| && p(vs[k])
    ensures StrictlyIncreasing(Select(vs, p))
    ensures |Select(vs, p)| <= |vs|
  {
    hide Select;
    SelectAscends(vs, p);
    forall k: nat ensures k in Select(vs, p) <==> k < |vs| && p(vs[k]) {
      Selected(vs, p, k);
    }
  }

  /** Selections agree when the conditions do, and validators added later are not selected. */
  lemma {:induction false} SelectSame(vs: seq<Validator>, p: Validator -> bool, ws: seq<Validator>, q: Validator -> bool)
    requires |vs| <= |ws|
    requires forall k :: 0 <= k < |vs| ==> p(vs[k]) == q(ws[k])
    requires forall k :: |vs| <= k < |ws| ==> !q(ws[k])
    ensures Select(vs, p) == Select(ws, q)
  {
    if |ws| > |vs| {
      SelectSame(vs, p, ws[..|ws| - 1], q);
    } else if vs != [] {
      SelectSame(vs[..|vs| - 1], p, ws[..|ws| - 1], q);
    }
  }

  function ActiveIndices(vs: seq<Validator>, epoch: nat): seq<nat> {
    Select(vs, ActiveAt(epoch))
  }

  // ----- Stake -----

  function Increments(c: Config, v: Validator): nat {
    v.effectiveBalance / c.effectiveBalanceIncrement
  }

  /** Sum of the effective balance increments of the validators that satisfy `p`. */
  function Stake(c: Config, vs: seq<Validator>, p: Validator -> bool): nat {
    if vs == [] then 0
    else Stake(c, vs[..|vs| - 1], p) + if p(vs[|vs| - 1]) then Increments(c, vs[|vs| - 1]) else 0
  }

  lemma NothingSelected(c: Config, vs: seq<Validator>)
    requires vs == []
    ensures forall p :: Select(vs, p) == []
    ensures forall p :: Stake(c, vs, p) == 0
  {
  }

  lemma StakeStep(c: Config, vs: seq<Validator>, p: Validator -> bool, i: nat)
    requires i < |vs|
    ensures Stake(c, vs[..i + 1], p) == Stake(c, vs[..i], p) + if p(vs[i]) then Increments(c, vs[i]) else 0
  {
    assert vs[..i + 1][..i] == vs[..i];
  }

  lemma {:induction false} StakeSame(c: Config, vs: seq<Validator>, p: Validator -> bool, ws: seq<Validator>, q: Validator -> bool)
    requires |vs| <= |ws|
    requires forall k :: 0 <= k < |vs| ==> p(vs[k]) == q(ws[k])
    requires forall k :: 0 <= k < |vs| && p(vs[k]) ==> Increments(c, vs[k]) == Increments(c, ws[k])
    requires forall k :: |vs| <= k < |ws| ==> !q(ws[k])
    ensures Stake(c, vs, p) == Stake(c, ws, q)
  {
    if |ws| > |vs| {
      StakeSame(c, vs, p, ws[..|ws| - 1], q);
    } else if vs != [] {
      StakeSame(c, vs[..|vs| - 1], p, ws[..|ws| - 1], q);
    }
  }

  const MAX_SAFE_INTEGER: nat := 0x1F_FFFF_FFFF_FFFF

  /** An effective balance is a whole number of increments, up to the maximum. */
  predicate WholeBalance(c: Config, v: Validator) {
    v.effectiveBalance % c.effectiveBalanceIncrement == 0 && v.effectiveBalance <= c.maxEffectiveBalance
  }

  lemma IncrementsBound(c: Config, v: Validator)
    requires WholeBalance(c, v)
    ensures Increments(c, v) <= c.MaxIncrements() && Increments(c, v) * c.effectiveBalanceIncrement == v.effectiveBalance
  {
    Arith.DivMono(v.effectiveBalance, c.maxEffectiveBalance, c.effectiveBalanceIncrement);
  }

  ghost predicate Bounded(c: Config, vs: seq<Validator>) {
    forall k :: 0 <= k < |vs| ==> WholeBalance(c, vs[k])
  }

  lemma {:induction false} StakeBound(c: Config, vs: seq<Validator>, p: Validator -> bool)
    requires Bounded(c, vs)
    ensures Stake(c, vs, p) <= 256 * |vs|
  {
    if vs != [] {
      StakeBound(c, vs[..|vs| - 1], p);
      IncrementsBound(c, vs[|vs| - 1]);
    }
  }

  // ----- The churn limit and the exit queue -----

  /** `getChurnLimit` */
  function ChurnLimit(c: Config, activeValidatorCount: nat): (r: nat)
    ensures r > 0
  {
    Max(c.minPerEpochChurnLimit, activeValidatorCount / c.churnLimitQuotient)
  }

  /** The churn limit reaches `k` if the minimum does or the active set makes up `k` quotients. */
  lemma ChurnLimitReaches(c: Config, n: nat, k: nat)
    ensures k <= ChurnLimit(c, n) <==> k <= c.minPerEpochChurnLimit || k * c.churnLimitQuotient <= n
  {
    if k * c.churnLimitQuotient <= n {
      Arith.DivAtLeast(n, c.churnLimitQuotient, k);
    } else if k <= n / c.churnLimitQuotient {
      Arith.MulMono(k, n / c.churnLimitQuotient, c.churnLimitQuotient);
    }
  }

  /** The latest exit epoch of the registry, but no earlier than `low`. */
  function LatestExit(vs: seq<Validator>, low: nat): (r: nat) {
    if vs == [] then low
    else
      var rest := LatestExit(vs[..|vs| - 1], low);
      match vs[|vs| - 1].exitEpoch
      case At(x) => Max(rest, x)
      case Never => rest
  }

  function ExitsAt(vs: seq<Validator>, epoch: nat): (r: nat) {
    if vs == [] then 0
    else ExitsAt(vs[..|vs| - 1], epoch) + if vs[|vs| - 1].exitEpoch == At(epoch) then 1 else 0
  }

  ghost predicate NoExitAfter(vs: seq<Validator>, epoch: nat) {
    forall k :: 0 <= k < |vs| ==> vs[k].exitEpoch.Never? || vs[k].exitEpoch.By(epoch)
  }

  lemma {:induction false} LatestExitBounds(vs: seq<Validator>, low: nat)
    ensures LatestExit(vs, low) >= low && NoExitAfter(vs, LatestExit(vs, low))
    ensures LatestExit(vs, low) == low || exists k :: 0 <= k < |vs| && vs[k].exitEpoch == At(LatestExit(vs, low))
  {
    if vs != [] {
      LatestExitBounds(vs[..|vs| - 1], low);
    }
  }

  /** The latest exit is what a bound above everything else pins down. */
  lemma LatestExitUnique(vs: seq<Validator>, low: nat, x: nat)
    requires x >= low && NoExitAfter(vs, x)
    requires x == low || exists k :: 0 <= k < |vs| && vs[k].exitEpoch == At(x)
    ensures LatestExit(vs, low) == x
  {
    LatestExitBounds(vs, low);
  }

  /** A later floor moves the latest exit up to it, and no further. */
  lemma LatestExitRises(vs: seq<Validator>, low: nat, floor: nat)
    requires low <= floor
    ensures LatestExit(vs, floor) == Max(LatestExit(vs, low), floor)
  {
    LatestExitBounds(vs, low);
    LatestExitUnique(vs, floor, Max(LatestExit(vs, low), floor));
  }

  lemma {:induction false} NoExitsBeyond(vs: seq<Validator>, epoch: nat, x: nat)
    requires NoExitAfter(vs, epoch) && epoch < x
    ensures ExitsAt(vs, x) == 0
  {
    if vs != [] {
      NoExitsBeyond(vs[..|vs| - 1], epoch, x);
    }
  }

  lemma {:induction false} ExitsPositive(vs: seq<Validator>, x: nat, k: nat)
    requires k < |vs| && vs[k].exitEpoch == At(x)
    ensures ExitsAt(vs, x) > 0
  {
    if k < |vs| - 1 {
      ExitsPositive(vs[..|vs| - 1], x, k);
    }
  }

  lemma {:induction false} SomeExitAt(vs: seq<Validator>, x: nat)
    requires ExitsAt(vs, x) > 0
    ensures exists k :: 0 <= k < |vs| && vs[k].exitEpoch == At(x)
  {
    if vs[|vs| - 1].exitEpoch != At(x) {
      SomeExitAt(vs[..|vs| - 1], x);
    }
  }

  /** Setting an exit epoch that was not set adds one exit there and none elsewhere. */
  lemma {:induction false} ExitsUpdated(vs: seq<Validator>, k: nat, v: Validator, x: nat)
    requires k < |vs| && vs[k].exitEpoch.Never? && v.exitEpoch.At?
    ensures ExitsAt(vs[k := v], x) == ExitsAt(vs, x) + if v.exitEpoch == At(x) then 1 else 0
  {
    var n := |vs| - 1;
    if k < n {
      ExitsUpdated(vs[..n], k, v, x);
      assert vs[k := v][..n] == vs[..n][k := v];
    } else {
      assert vs[k := v][..n] == vs[..n];
    }
  }

  /** Changes that leave every exit epoch alone, or append validators that never exit. */
  lemma {:induction false} ExitsSame(vs: seq<Validator>, ws: seq<Validator>, x: nat, low: nat)
    requires |vs| <= |ws|
    requires forall k :: 0 <= k < |vs| ==> ws[k].exitEpoch == vs[k].exitEpoch
    requires forall k :: |vs| <= k < |ws| ==> ws[k].exitEpoch.Never?
    ensures ExitsAt(ws, x) == ExitsAt(vs, x) && LatestExit(ws, low) == LatestExit(vs, low)
  {
    if |ws| > |vs| {
      ExitsSame(vs, ws[..|ws| - 1], x, low);
    } else if vs != [] {
      ExitsSame(vs[..|vs| - 1], ws[..|ws| - 1], x, low);
    }
  }
}
