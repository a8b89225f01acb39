/** The steps that the slot loop takes on a cached state: those of its scheduled events. */
module SlotRuns {
  import opened Params
  import opened Registry
  import opened Rotation
  import opened Runs
  import SlotProcessing

  /** The last slot of an epoch advances with the epoch. */
  function StepsFor(sch: SlotProcessing.Schedule, inputs: nat -> EpochInputs, event: SlotProcessing.Event): seq<Step> {
    match event
    case SlotAt(slot) => if sch.EndsEpoch(slot) then [] else [Slot]
    case EpochUnder(_, epoch) => [Epoch(inputs(epoch))]
    case UpgradeTo(_, _) => [Upgrade]
  }

  /** The steps of the given events, with what each epoch finds in `inputs`. */
  function StepsOf(sch: SlotProcessing.Schedule, inputs: nat -> EpochInputs, events: seq<SlotProcessing.Event>): seq<Step> {
    if events == [] then []
    else StepsOf(sch, inputs, events[..|events| - 1]) + StepsFor(sch, inputs, events[|events| - 1])
  }

  lemma {:induction false} StepsJoin(sch: SlotProcessing.Schedule, inputs: nat -> EpochInputs,
                                     xs: seq<SlotProcessing.Event>, ys: seq<SlotProcessing.Event>)
    ensures StepsOf(sch, inputs, xs + ys) == StepsOf(sch, inputs, xs) + StepsOf(sch, inputs, ys)
  {
    hide StepsFor;
    if ys == [] {
      assert xs + ys == xs;
    } else {
      var n := |ys| - 1;
      assert (xs + ys)[..|xs + ys| - 1] == xs + ys[..n];
      StepsJoin(sch, inputs, xs, ys[..n]);
    }
  }

  /** The steps of one slot. */
  function StepsIn(sch: SlotProcessing.Schedule, inputs: nat -> EpochInputs, slot: nat): seq<Step> {
    StepsOf(sch, inputs, SlotProcessing.Recorded(sch, slot))
  }

  /** The steps of a run of slots. */
  function StepsBetween(sch: SlotProcessing.Schedule, inputs: nat -> EpochInputs, a: nat, b: nat): seq<Step> {
    StepsOf(sch, inputs, SlotProcessing.Events(sch, a, b))
  }

  lemma NextSlotSteps(sch: SlotProcessing.Schedule, inputs: nat -> EpochInputs, a: nat, b: nat)
    requires a <= b
    ensures StepsBetween(sch, inputs, a, b + 1) == StepsBetween(sch, inputs, a, b) + StepsIn(sch, inputs, b)
  {
    hide StepsOf, SlotProcessing.Recorded;
    StepsJoin(sch, inputs, SlotProcessing.Events(sch, a, b), SlotProcessing.Recorded(sch, b));
  }

  function If(due: bool, step: Step): seq<Step> {
    if due then [step] else []
  }

  /** One slot, written out: the epoch and the due rebuilds where it ends an epoch, else the slot. */
  lemma SlotSteps(sch: SlotProcessing.Schedule, inputs: nat -> EpochInputs, slot: nat)
    ensures var epoch := sch.EpochOf(slot);
      StepsIn(sch, inputs, slot) ==
        if sch.EndsEpoch(slot)
        then [Epoch(inputs(epoch))] + If(At(epoch + 1) == sch.altairEpoch, Upgrade) + If(At(epoch + 1) == sch.bellatrixEpoch, Upgrade)
        else [Slot]
  {
    hide SlotProcessing.Schedule.ForkAt, SlotProcessing.Schedule.EndsEpoch, SlotProcessing.Schedule.EpochOf, StepsOf;
    var epoch, ends := sch.EpochOf(slot), sch.EndsEpoch(slot);
    var altair, bellatrix := ends && At(epoch + 1) == sch.altairEpoch, ends && At(epoch + 1) == sch.bellatrixEpoch;
    var a := SlotProcessing.Maybe(true, SlotProcessing.SlotAt(slot));
    var b := SlotProcessing.Maybe(ends, SlotProcessing.EpochUnder(sch.ForkAt(epoch), epoch));
    var c := SlotProcessing.Maybe(altair, SlotProcessing.UpgradeTo(SlotProcessing.Altair, epoch + 1));
    var d := SlotProcessing.Maybe(bellatrix, SlotProcessing.UpgradeTo(SlotProcessing.Bellatrix, epoch + 1));
    StepsJoin(sch, inputs, a, b);
    StepsJoin(sch, inputs, a + b, c);
    StepsJoin(sch, inputs, a + b + c, d);
    StepsMaybe(sch, inputs, true, SlotProcessing.SlotAt(slot));
    StepsMaybe(sch, inputs, ends, SlotProcessing.EpochUnder(sch.ForkAt(epoch), epoch));
    StepsMaybe(sch, inputs, altair, SlotProcessing.UpgradeTo(SlotProcessing.Altair, epoch + 1));
    StepsMaybe(sch, inputs, bellatrix, SlotProcessing.UpgradeTo(SlotProcessing.Bellatrix, epoch + 1));
  }

  lemma Regroup(taken: seq<Step>, a: seq<Step>, b: seq<Step>, c: seq<Step>)
    ensures ((taken + a) + b) + c == taken + (a + b + c)
  {
  }

  lemma StepsMaybe(sch: SlotProcessing.Schedule, inputs: nat -> EpochInputs, due: bool, event: SlotProcessing.Event)
    ensures StepsOf(sch, inputs, SlotProcessing.Maybe(due, event)) == if due then StepsFor(sch, inputs, event) else []
  {
    hide StepsFor;
    assert [event][..0] == [];
  }

  lemma SlotEpochs(c: Config, sch: SlotProcessing.Schedule, slot: nat)
    requires sch.slotsPerEpoch == c.slotsPerEpoch
    ensures sch.EpochOf(slot) == c.EpochAtSlot(slot)
    ensures sch.EndsEpoch(slot) ==> sch.EpochOf(slot + 1) == sch.EpochOf(slot) + 1
  {
    SlotProcessing.NextEpoch(sch, slot);
  }

  // ----- Traces -----

  /** A run goes on by one step. */
  lemma TraceExtends(c: Config, steps: seq<Step>, trace: seq<Moment>, step: Step, m: Moment)
    requires IsTrace(c, steps, trace) && Took(c, step, trace[|steps|], m)
    ensures IsTrace(c, steps + [step], trace + [m])
  {
    hide Coherent, Crossed, After, Fits, Stops;
  }
}
