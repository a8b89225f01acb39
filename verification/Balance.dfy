/** Balances by increment for the fork choice, and total balances, against the cached total. */
module Balance {
  import opened Params
  import opened Permutations
  import opened Shuffle
  import opened Registry
  import opened Cache
  import opened Rotation
  import opened EpochContext
  import opened CachedState

  /** `getEffectiveBalanceIncrementsZeroInactive`: two cursors, one over the validators and one over
      the active indices. */
  method GetEffectiveBalanceIncrementsZeroInactive(activeIndices: seq<nat>, validatorCount: nat, increments: seq<nat>)
    returns (r: seq<nat>)
    requires StrictlyIncreasing(activeIndices)
    requires validatorCount <= |increments|
    ensures |r| == validatorCount
    ensures forall i: nat :: i < validatorCount ==> r[i] == if i in activeIndices then increments[i] else 0
  {
    r := increments[..validatorCount];
    var j: nat := 0;
    for i := 0 to validatorCount
      invariant |r| == validatorCount && j <= |activeIndices|
      invariant forall k :: 0 <= k < j ==> activeIndices[k] < i
      invariant forall k :: j <= k < |activeIndices| ==> activeIndices[k] >= i
      invariant forall k: nat :: k < i ==> r[k] == if k in activeIndices then increments[k] else 0
      invariant forall k: nat :: i <= k < validatorCount ==> r[k] == increments[k]
    {
      if j < |activeIndices| && i == activeIndices[j] {
        j := j + 1;
      } else {
        r := r[i := 0];
      }
    }
  }

  function Sum(xs: seq<nat>): nat {
    if xs == [] then 0 else Sum(xs[..|xs| - 1]) + xs[|xs| - 1]
  }

  lemma {:induction false} SumIsStake(c: Config, vs: seq<Validator>, epoch: nat, xs: seq<nat>)
    requires |xs| == |vs|
    requires forall i :: 0 <= i < |vs| ==> xs[i] == if IsActive(vs[i], epoch) then Increments(c, vs[i]) else 0
    ensures Sum(xs) == ActiveStake(c, vs, epoch)
  {
    if vs != [] {
      var n := |vs| - 1;
      SumIsStake(c, vs[..n], epoch, xs[..n]);
    }
  }

  /** From any coherent cache, the increments of the active validators add up to the cached total,
      both taken as at least 1; a fresh context already holds the latter. */
  method JustifiedBalances(state: CachedBeaconState) returns (r: seq<nat>)
    requires state.Valid()
    ensures |r| == |state.state.validators|
    ensures forall i :: 0 <= i < |r| ==>
      r[i] == (if IsActive(state.state.validators[i], state.epochCtx.epoch)
               then Increments(state.config, state.state.validators[i]) else 0)
    ensures Max(1, Sum(r)) == Max(1, state.epochCtx.totalActiveBalanceIncrements)
         == Fresh(state.config, state.state).totalActiveBalanceIncrements
  {
    hide Select, Bounded, Increments, QueueKept, ProposersAt, ChurnLimit;
    var c, vs := state.config, state.state.validators;
    var e := state.epochCtx.epoch;
    ActiveCount(vs, e);
    SelectMembers(vs, ActiveAt(e));
    CurrentActive(c, state.state, state.epochCtx.View());
    r := GetEffectiveBalanceIncrementsZeroInactive(
      state.epochCtx.currentShuffling.activeIndices, |vs|, state.epochCtx.effectiveBalanceIncrements);
    SumIsStake(c, vs, e, r);
  }

  lemma CurrentActive(c: Config, st: BeaconState, k: Cache)
    requires |st.randaoMixes| == c.epochsPerHistoricalVector && Coherent(c, st, k)
    ensures k.currentShuffling.activeIndices == ActiveIndices(st.validators, k.epoch)
    ensures k.epoch == c.EpochAtSlot(st.slot)
    ensures |st.validators| <= |k.effectiveBalanceIncrements|
    ensures forall i :: 0 <= i < |st.validators| ==> k.effectiveBalanceIncrements[i] == Increments(c, st.validators[i])
    ensures Max(1, k.totalActiveBalanceIncrements) == Max(1, ActiveStake(c, st.validators, k.epoch))
         == Fresh(c, st).totalActiveBalanceIncrements
  {
    hide QueueKept, ProposersAt, Increments;
  }

  // ----- Total balances -----

  function SumOfBalances(vs: seq<Validator>, indices: seq<nat>): nat
    requires forall i :: 0 <= i < |indices| ==> indices[i] < |vs|
  {
    if indices == [] then 0
    else SumOfBalances(vs, indices[..|indices| - 1]) + vs[indices[|indices| - 1]].effectiveBalance
  }

  /** `getTotalBalance`: `get_total_balance` of the phase0 specification, which rereads the registry. */
  function GetTotalBalance(c: Config, vs: seq<Validator>, indices: seq<nat>): nat
    requires forall i :: 0 <= i < |indices| ==> indices[i] < |vs|
  {
    Max(c.effectiveBalanceIncrement, SumOfBalances(vs, indices))
  }

  lemma {:induction false} SumSamePrefix(vs: seq<Validator>, n: nat, indices: seq<nat>)
    requires n <= |vs| && forall i :: 0 <= i < |indices| ==> indices[i] < n
    ensures SumOfBalances(vs, indices) == SumOfBalances(vs[..n], indices)
  {
    if indices != [] {
      SumSamePrefix(vs, n, indices[..|indices| - 1]);
    }
  }

  lemma SumAppend(vs: seq<Validator>, indices: seq<nat>, k: nat)
    requires k < |vs| && forall i :: 0 <= i < |indices| ==> indices[i] < |vs|
    ensures SumOfBalances(vs, indices + [k]) == SumOfBalances(vs, indices) + vs[k].effectiveBalance
  {
    assert (indices + [k])[..|indices|] == indices;
  }

  lemma SelectLast(c: Config, vs: seq<Validator>, p: Validator -> bool)
    requires vs != []
    ensures var n := |vs| - 1;
      && Select(vs, p) == (if p(vs[n]) then Select(vs[..n], p) + [n] else Select(vs[..n], p))
      && Stake(c, vs, p) == Stake(c, vs[..n], p) + if p(vs[n]) then Increments(c, vs[n]) else 0
  {
  }

  lemma {:induction false} SelectedBalance(c: Config, vs: seq<Validator>, p: Validator -> bool)
    requires Bounded(c, vs)
    ensures forall i :: 0 <= i < |Select(vs, p)| ==> Select(vs, p)[i] < |vs|
    ensures SumOfBalances(vs, Select(vs, p)) == Stake(c, vs, p) * c.effectiveBalanceIncrement
  {
    hide RawConfig.Valid, Select, Stake, Increments, SumOfBalances, Bounded;
    SelectAscends(vs, p);
    if vs == [] {
      NothingSelected(c, vs);
      NothingSummed(vs);
    } else {
      var n := |vs| - 1;
      BoundedPrefix(c, vs);
      SelectedBalance(c, vs[..n], p);
      SelectAscends(vs[..n], p);
      SumSamePrefix(vs, n, Select(vs[..n], p));
      SelectLast(c, vs, p);
      if p(vs[n]) {
        SumAppend(vs, Select(vs[..n], p), n);
        Distribute(Stake(c, vs[..n], p), Increments(c, vs[n]), c.effectiveBalanceIncrement);
      }
    }
  }

  lemma NothingSummed(vs: seq<Validator>)
    ensures SumOfBalances(vs, []) == 0
  {
  }

  lemma BoundedPrefix(c: Config, vs: seq<Validator>)
    requires Bounded(c, vs) && vs != []
    ensures Bounded(c, vs[..|vs| - 1])
    ensures Increments(c, vs[|vs| - 1]) * c.effectiveBalanceIncrement == vs[|vs| - 1].effectiveBalance
  {
    IncrementsBound(c, vs[|vs| - 1]);
  }

  lemma Distribute(a: nat, b: nat, k: nat)
    ensures (a + b) * k == a * k + b * k
  {
  }

  /** The cached total of increments stands for the specification's total active balance. */
  lemma CachedTotalIsTotalBalance(c: Config, st: BeaconState)
    requires WellFormed(c, st)
    ensures var active := ActiveIndices(st.validators, c.EpochAtSlot(st.slot));
      && (forall i :: 0 <= i < |active| ==> active[i] < |st.validators|)
      && Fresh(c, st).totalActiveBalanceIncrements * c.effectiveBalanceIncrement == GetTotalBalance(c, st.validators, active)
  {
    hide Select, Stake, RawConfig.Valid, Bounded, SumOfBalances;
    ConfigPositive(c);
    var e := c.EpochAtSlot(st.slot);
    SelectedBalance(c, st.validators, ActiveAt(e));
    AtLeastOne(ActiveStake(c, st.validators, e), c.effectiveBalanceIncrement);
  }

  lemma AtLeastOne(a: nat, k: nat)
    requires k > 0
    ensures Max(1, a) * k == Max(k, a * k)
  {
    if a >= 1 {
      assert (a - 1) * k >= 0;
      assert a * k == (a - 1) * k + k;
    }
  }
}
