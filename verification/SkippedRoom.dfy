/** A registry that the chain can produce and on which a cache, built and then rotated, assigns an
    exit epoch other than the specification's. */
module SkippedRoom {
  import opened Params
  import opened Registry
  import opened Cache
  import opened Rotation
  import opened RegistryUpdates
  import opened Runs
  import Arith

  lemma SelectFour(a: Validator, b: Validator, c: Validator, d: Validator, p: Validator -> bool)
    ensures Select([a, b, c, d], p) == (if p(a) then [0] else []) + (if p(b) then [1] else [])
                                       + (if p(c) then [2] else []) + (if p(d) then [3] else [])
  {
    var vs := [a, b, c, d];
    assert vs[..0] == [] && vs[..4] == vs;
    SelectStep(vs, p, 0);
    SelectStep(vs, p, 1);
    SelectStep(vs, p, 2);
    SelectStep(vs, p, 3);
  }

  function Once(v: Validator, x: nat): nat {
    if v.exitEpoch == At(x) then 1 else 0
  }

  lemma ExitsFour(a: Validator, b: Validator, c: Validator, d: Validator, x: nat)
    ensures ExitsAt([a, b, c, d], x) == Once(a, x) + Once(b, x) + Once(c, x) + Once(d, x)
  {
    assert [a, b, c, d][..3] == [a, b, c] && [a, b, c][..2] == [a, b] && [a, b][..1] == [a] && [a][..0] == [];
    assert ExitsAt([a], x) == Once(a, x);
    assert ExitsAt([a, b], x) == Once(a, x) + Once(b, x);
    assert ExitsAt([a, b, c], x) == Once(a, x) + Once(b, x) + Once(c, x);
  }

  /** The epoch in which the cache is built. */
  function BuildEpoch(c: Config): nat {
    3 + c.maxSeedLookahead
  }

  function Member(c: Config): Validator {
    Validator(c.maxEffectiveBalance, false, At(0), At(0), Never, Never)
  }

  /** Three validators from genesis, two of which exited in the build epoch one after the other, as
      a churn limit of one lets them; and a fourth, eligible since epoch 1 and activated in epoch 3. */
  function Members(c: Config): seq<Validator> {
    var x := c.ActivationExitEpoch(BuildEpoch(c));
    [ExitAt(c, Member(c), x), ExitAt(c, Member(c), x + 1), Member(c),
     Validator(c.maxEffectiveBalance, false, At(1), At(c.ActivationExitEpoch(3)), Never, Never)]
  }

  /** The last slot of the build epoch. */
  function Before(c: Config): BeaconState {
    BeaconState((BuildEpoch(c) + 1) * c.slotsPerEpoch - 1, Members(c),
                seq(c.epochsPerHistoricalVector, _ => seq(32, _ => 0)), BuildEpoch(c) - 2)
  }

  /** The next slot, after an epoch transition that changed nothing in the registry. */
  function Behind(c: Config): BeaconState {
    Before(c).(slot := Before(c).slot + 1, randaoMixes := RandaoReset(c, BuildEpoch(c), Before(c).randaoMixes))
  }

  function BuiltMoment(c: Config): Moment {
    Moment(Before(c), Fresh(c, Before(c)))
  }

  function RotatedMoment(c: Config): Moment
    requires Fresh(c, Before(c)).nextShuffling.activeIndices != []
  {
    Moment(Behind(c), Rotate(c, Fresh(c, Before(c)), Behind(c), ActiveIndices(Members(c), BuildEpoch(c) + 2),
                             Stake(c, Members(c), ActiveAt(BuildEpoch(c) + 1))))
  }

  /** Active sets, churn limits and exits of that registry. */
  lemma MembersFacts(c: Config)
    requires c.minPerEpochChurnLimit == 1 && c.churnLimitQuotient == 2 && c.maxSeedLookahead >= 2
    ensures var vs, e, x := Members(c), BuildEpoch(c), c.ActivationExitEpoch(BuildEpoch(c));
      && ActiveIndices(vs, e) == [0, 1, 2] && ActiveIndices(vs, e + 1) == [0, 1, 2, 3]
      && ChurnLimit(c, 3) == 1 && ChurnLimit(c, 4) == 2
      && LatestExit(vs, x) == LatestExit(vs, x + 1) == x + 1 && ExitsAt(vs, x + 1) == 1
  {
    hide Select, LatestExit, ExitsAt, RawConfig.Valid;
    var vs, e, x := Members(c), BuildEpoch(c), c.ActivationExitEpoch(BuildEpoch(c));
    SelectFour(vs[0], vs[1], vs[2], vs[3], ActiveAt(e));
    SelectFour(vs[0], vs[1], vs[2], vs[3], ActiveAt(e + 1));
    ExitsFour(vs[0], vs[1], vs[2], vs[3], x + 1);
    assert vs[1].exitEpoch == At(x + 1);
    LatestExitUnique(vs, x, x + 1);
    LatestExitUnique(vs, x + 1, x + 1);
  }

  lemma Epochs(c: Config)
    ensures c.EpochAtSlot(Before(c).slot) == BuildEpoch(c)
    ensures c.EpochAtSlot(Behind(c).slot) == BuildEpoch(c) + 1
  {
    var e, n := BuildEpoch(c), c.slotsPerEpoch;
    assert (e + 1) * n == e * n + n;
    Arith.DivUnique(Before(c).slot, n, e);
    Arith.DivUnique(Behind(c).slot, n, e + 1);
  }

  /** Both caches are coherent with their states: the second comes from the first by a rotation. */
  lemma BothSound(c: Config)
    requires c.minPerEpochChurnLimit == 1 && c.churnLimitQuotient == 2 && c.maxSeedLookahead >= 2
    ensures Sound(c, BuiltMoment(c))
    ensures Fresh(c, Before(c)).nextShuffling.activeIndices != []
    ensures Sound(c, RotatedMoment(c))
  {
    hide ActiveIndices, ShufflingAt, ProposersAt, LatestExit, ExitsAt, QueueKept, Coherent, Rotate, ChurnLimit, WindowCurrent, Stake;
    var st, st' := Before(c), Behind(c);
    var k := Fresh(c, st);
    Epochs(c);
    MembersFacts(c);
    FreshCoherent(c, st);
    ShufflingEpochs(c, st, k);
    CoherentQueue(c, st, k);
    RotateCoherent(c, st, st', k, ActiveIndices(Members(c), BuildEpoch(c) + 2),
                   Stake(c, Members(c), ActiveAt(BuildEpoch(c) + 1)));
  }

  /** The exit of the third validator in the next epoch: the cached queue has moved past an exit epoch
      that, with the fourth validator active, has room for one more. */
  lemma SkippedRoomWitness(c: Config)
    requires c.minPerEpochChurnLimit == 1 && c.churnLimitQuotient == 2 && c.maxSeedLookahead >= 2
    ensures Fresh(c, Before(c)).nextShuffling.activeIndices != []
    ensures Sound(c, BuiltMoment(c)) && !Skips(c, BuiltMoment(c))
    ensures Sound(c, RotatedMoment(c)) && Skips(c, RotatedMoment(c))
    ensures var m := RotatedMoment(c);
      InitiateExit(c, QueueOf(m), m.cache.churnLimit, 2).vs
      != SpecInitiateExit(c, m.state.validators, m.cache.epoch, 2)
  {
    hide ActiveIndices, ShufflingAt, ProposersAt, LatestExit, ExitsAt, QueueKept, Coherent, ChurnLimit, Stake, WellFormed;
    BothSound(c);
    MembersFacts(c);
    Epochs(c);
    FreshSkipsNoRoom(c, Before(c));
    var m := RotatedMoment(c);
    QueueParts(c, m);
    assert InitiateExit(c, QueueOf(m), m.cache.churnLimit, 2).vs[2].exitEpoch
        != SpecInitiateExit(c, m.state.validators, m.cache.epoch, 2)[2].exitEpoch;
  }
}
