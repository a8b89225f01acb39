/** `processEffectiveBalanceUpdates`: hysteresis on the cached increments, and the total active
    balance of the next epoch on the way. */
module EffectiveBalances {
  import opened Params
  import opened Registry
  import opened Cache
  import Arith

  function Min(a: nat, b: nat): nat {
    if a < b then a else b
  }

  /** The balance rounded down to whole increments, up to the maximum. */
  function Rounded(c: Config, balance: nat): nat {
    Min(balance - balance % c.effectiveBalanceIncrement, c.maxEffectiveBalance)
  }

  /** `process_effective_balance_updates` of the phase0 specification, for one validator. */
  function SpecEffectiveBalance(c: Config, effectiveBalance: nat, balance: nat): nat {
    if balance + c.downwardThreshold < effectiveBalance || effectiveBalance + c.upwardThreshold < balance
    then Rounded(c, balance)
    else effectiveBalance
  }

  function SpecBalanceUpdates(c: Config, vs: seq<Validator>, balances: seq<nat>): (r: seq<Validator>)
    requires |balances| == |vs|
    ensures |r| == |vs|
    ensures forall k :: 0 <= k < |vs| ==>
      r[k] == vs[k].(effectiveBalance := SpecEffectiveBalance(c, vs[k].effectiveBalance, balances[k]))
  {
    seq(|vs|, k requires 0 <= k < |vs| =>
      vs[k].(effectiveBalance := SpecEffectiveBalance(c, vs[k].effectiveBalance, balances[k])))
  }

  /** A whole number of increments below the maximum. */
  lemma RoundedWhole(c: Config, balance: nat)
    ensures Rounded(c, balance) % c.effectiveBalanceIncrement == 0
  {
    var inc := c.effectiveBalanceIncrement;
    assert balance - balance % inc == balance / inc * inc;
    MultipleMod(balance / inc, inc);
  }

  lemma MultipleMod(q: nat, b: nat)
    requires b > 0
    ensures q * b % b == 0
  {
    Arith.DivUnique(q * b, b, q);
  }

  lemma UpdatedWhole(c: Config, v: Validator, balance: nat)
    requires WholeBalance(c, v)
    ensures WholeBalance(c, v.(effectiveBalance := SpecEffectiveBalance(c, v.effectiveBalance, balance)))
  {
    RoundedWhole(c, balance);
  }

  /** The loop over the balances. `increments` is the cached array, read instead of the registry. */
  method UpdateEffectiveBalances(c: Config, vs: seq<Validator>, balances: seq<nat>, increments: seq<nat>,
                                 isActiveNextEpoch: seq<bool>, ghost nextEpoch: nat)
    returns (vs': seq<Validator>, increments': seq<nat>, nextTotal: nat)
    requires |balances| == |vs| && |isActiveNextEpoch| == |vs|
    requires Bounded(c, vs) && Records(c, vs, increments)
    requires forall k :: 0 <= k < |vs| ==> isActiveNextEpoch[k] == IsActive(vs[k], nextEpoch)
    ensures vs' == SpecBalanceUpdates(c, vs, balances)
    ensures Bounded(c, vs') && Records(c, vs', increments')
    ensures |increments'| == |increments| && forall k :: |vs| <= k < |increments| ==> increments'[k] == increments[k]
    ensures nextTotal == Stake(c, vs', ActiveAt(nextEpoch))
  {
    hide Stake, SpecEffectiveBalance, WholeBalance, Increments, IsActive;
    vs', increments', nextTotal := vs, increments, 0;
    ghost var target := SpecBalanceUpdates(c, vs, balances);
    NothingSelected(c, target[..0]);
    var i: nat := 0;
    while i < |balances|
      invariant i <= |balances|
      invariant |vs'| == |vs| && vs'[..i] == target[..i] && vs'[i..] == vs[i..]
      invariant |increments'| == |increments|
      invariant forall k :: 0 <= k < i ==> increments'[k] == Increments(c, target[k])
      invariant forall k :: i <= k < |increments| ==> increments'[k] == increments[k]
      invariant forall k :: 0 <= k < i ==> WholeBalance(c, target[k])
      invariant nextTotal == Stake(c, target[..i], ActiveAt(nextEpoch))
    {
      assert vs'[i] == vs'[i..][0] == vs[i];
      UpdatedWhole(c, vs[i], balances[i]);
      StakeStep(c, target, ActiveAt(nextEpoch), i);
      var updated, increment := UpdateOne(c, vs'[i], balances[i], increments'[i]);
      ghost var before := vs';
      vs' := vs'[i := updated];
      assert vs'[..i + 1] == before[..i] + [updated];
      increments' := increments'[i := increment];
      if isActiveNextEpoch[i] {
        nextTotal := nextTotal + increment;
      }
      ActiveKept(vs[i], target[i], nextEpoch);
      i := i + 1;
    }
    assert vs' == vs'[..i] == target[..i] == target;
  }

  lemma ActiveKept(v: Validator, w: Validator, epoch: nat)
    requires w == v.(effectiveBalance := w.effectiveBalance)
    ensures IsActive(v, epoch) == IsActive(w, epoch) == ActiveAt(epoch)(w)
  {
  }

  /** The body of that loop for one validator: written to the registry only when it changes. */
  method UpdateOne(c: Config, v: Validator, balance: nat, increment: nat) returns (w: Validator, increment': nat)
    requires WholeBalance(c, v) && increment == Increments(c, v)
    ensures w == v.(effectiveBalance := SpecEffectiveBalance(c, v.effectiveBalance, balance))
    ensures increment' == Increments(c, w)
  {
    hide RawConfig.Valid, WholeBalance, RawConfig.MaxIncrements, Rounded, Increments;
    ConfigPositive(c);
    IncrementsBound(c, v);
    w, increment' := v, increment;
    var effectiveBalance := increment * c.effectiveBalanceIncrement;
    if effectiveBalance > balance + c.downwardThreshold ||
       (effectiveBalance < c.maxEffectiveBalance && effectiveBalance < balance - c.upwardThreshold)
    {
      effectiveBalance := Rounded(c, balance);
      w := v.(effectiveBalance := effectiveBalance);
      increment' := Increments(c, w);
    } else {
      AtMaximum(c, v, balance);
    }
  }

  /** At the maximum an upward update changes nothing. */
  lemma AtMaximum(c: Config, v: Validator, balance: nat)
    requires WholeBalance(c, v)
    requires balance + c.downwardThreshold >= v.effectiveBalance
    requires v.effectiveBalance >= c.maxEffectiveBalance || v.effectiveBalance + c.upwardThreshold >= balance
    ensures SpecEffectiveBalance(c, v.effectiveBalance, balance) == v.effectiveBalance
  {
    if v.effectiveBalance + c.upwardThreshold < balance {
      var inc := c.effectiveBalanceIncrement;
      Arith.DivMono(c.maxEffectiveBalance, balance, inc);
      Arith.MulMono(c.maxEffectiveBalance / inc, balance / inc, inc);
      assert balance - balance % inc == balance / inc * inc;
    }
  }
}
