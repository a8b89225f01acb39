/** The presets and chain configuration the model keeps as parameters. */
module Params {
  import opened Bytes

  /** `FAR_FUTURE_EPOCH` is Infinity in the source: `Never` comes after every epoch. */
  datatype When = At(epoch: nat) | Never {

    /** `this <= e` */
    predicate By(e: nat) {
      At? && epoch <= e
    }
  }

  /** The two thresholds are EFFECTIVE_BALANCE_INCREMENT / HYSTERESIS_QUOTIENT times the downward
      and the upward hysteresis multiplier. */
  datatype RawConfig = RawConfig(
    hash: Hash,
    shuffleRoundCount: byte,
    slotsPerEpoch: nat,
    targetCommitteeSize: nat,
    maxCommitteesPerSlot: nat,
    epochsPerHistoricalVector: nat,
    epochsPerSlashingsVector: nat,
    minSeedLookahead: nat,
    maxSeedLookahead: nat,
    maxEffectiveBalance: nat,
    effectiveBalanceIncrement: nat,
    ejectionBalance: nat,
    downwardThreshold: nat,
    upwardThreshold: nat,
    syncCommitteeSize: nat,
    epochsPerSyncCommitteePeriod: nat,
    minPerEpochChurnLimit: nat,
    churnLimitQuotient: nat,
    minValidatorWithdrawabilityDelay: nat)
  {
    /** What both shipped presets satisfy and the code silently relies on. */
    predicate Valid() {
      && slotsPerEpoch > 0
      && targetCommitteeSize > 0
      && 0 < minSeedLookahead
      && minSeedLookahead + 2 < epochsPerHistoricalVector
      && effectiveBalanceIncrement > 0
      && maxEffectiveBalance % effectiveBalanceIncrement == 0
      && 0 < maxEffectiveBalance / effectiveBalanceIncrement < 256
      && epochsPerSyncCommitteePeriod > 0
      && minPerEpochChurnLimit > 0
      && churnLimitQuotient > 0
    }

    /** `MAX_EFFECTIVE_BALANCE / EFFECTIVE_BALANCE_INCREMENT`, a whole number in both presets. */
    function MaxIncrements(): nat
      requires Valid()
    {
      maxEffectiveBalance / effectiveBalanceIncrement
    }

    // ----- packages/beacon-state-transition/lib/util/epoch.js -----

    function EpochAtSlot(slot: nat): nat
      requires Valid()
    {
      slot / slotsPerEpoch
    }

    function StartSlotAtEpoch(epoch: nat): nat {
      epoch * slotsPerEpoch
    }

    function ActivationExitEpoch(epoch: nat): nat {
      epoch + 1 + maxSeedLookahead
    }

    function SyncPeriodAtEpoch(epoch: nat): nat
      requires Valid()
    {
      epoch / epochsPerSyncCommitteePeriod
    }

    function PreviousEpoch(epoch: nat): nat {
      if epoch == 0 then 0 else epoch - 1
    }
  }

  /** The minimal preset, with balances scaled down to increments of 4 and with a constant hash
      function, shows that the type is inhabited. */
  type Config = c: RawConfig | c.Valid()
    witness RawConfig(_ => seq(32, _ => 0), 10, 8, 4, 4, 64, 64, 1, 4, 128, 4, 64, 1, 5, 32, 8, 4, 32, 256)

  /** The divisors among the parameters. */
  lemma ConfigPositive(c: Config)
    ensures c.slotsPerEpoch > 0 && c.targetCommitteeSize > 0 && c.effectiveBalanceIncrement > 0
  {
  }
}
