/** How the fetch-execute loop of the machine, linked with either bitcpy, follows the reference. */
module Stepping {
  import opened Options
  import opened BitSpace
  import opened Geometry
  import opened MmioService
  import opened Machine
  import opened Round
  import opened Bitcpy

  /** Every announced copy is one the linked bitcpy does faithfully. */
  predicate AllFaithful(version: Version, trace: seq<Instr>) {
    forall k :: 0 <= k < |trace| ==> Faithful(version, trace[k].n, trace[k].src, trace[k].dst, true)
  }

  /** Every tick of the reference run asks for faithful copies only. */
  ghost predicate RunFaithful(version: Version, g: Geometry, m: Memory, devs: seq<Reaction>)
    requires Space(g, m)
    decreases |devs|
  {
    |devs| == 0 ||
    var t := RunTick(g, m, devs[0]);
    AllFaithful(version, t.trace) && (t.rc == VmOk ==> RunFaithful(version, g, t.mem, devs[1..]))
  }

  /** If the reference run asks for faithful copies only, the loop is the reference run. */
  ghost predicate FollowsReference(version: Version, g: Geometry, m: Memory, trace: seq<Instr>,
                                   fault: Option<Fault>, m': Memory)
    requires Space(g, m) && |m'| == |m|
  {
    AllFaithful(version, RunSlots(g, m, 0, g.processorN).trace) ==>
      Exec(m', trace, fault) == RunSlots(g, m, 0, g.processorN)
  }

  /** Whatever bitcpy does inside a destination range, a round that spares its later slots performs the
      copies that were read at its start, stops where they stop, and changes no bit outside their
      destinations. */
  ghost predicate KeepsToRound(g: Geometry, m: Memory, trace: seq<Instr>, fault: Option<Fault>, m': Memory)
    requires Space(g, m) && |m'| == |m|
  {
    SparesLaterSlots(g, Slots(g, m)) ==>
      && trace == Executed(g, Slots(g, m), 0) && fault == FaultOf(g, Slots(g, m), 0)
      && forall p :: 0 <= p < |m| && !Written(trace, p) ==> m'[p] == m[p]
  }

  /** One slot, with whatever the linked bitcpy makes of its copy. */
  ghost predicate SlotStep(version: Version, g: Geometry, now: Memory, slot: nat, next: Memory)
    requires Space(g, now) && |next| == |now| && slot < g.processorN
  {
    var ins := Fetch(g, now, slot);
    if ins.n == 0 then next == now
    else BoundsError(g, ins) == NoError && Outcome(version, ins.n, now, ins.src, now, ins.dst, true, next)
  }

  /** What a slot announces to note_copy. */
  function Announced(g: Geometry, now: Memory, slot: nat): seq<Instr>
    requires Space(g, now) && slot < g.processorN
  {
    if Fetch(g, now, slot).n == 0 then [] else [Fetch(g, now, slot)]
  }

  /** The first i slots lead from m to now, each fetched from the memory the ones before it left, and
      announce the trace. */
  ghost predicate Reaches(version: Version, g: Geometry, m: Memory, i: nat, trace: seq<Instr>, now: Memory)
    requires Space(g, m) && i <= g.processorN
    decreases i, 0
  {
    && |now| == |m|
    && if i == 0 then now == m && trace == [] else LastStep(version, g, m, i - 1, trace, now)
  }

  /** The last of these steps was that of the given slot. */
  ghost predicate LastStep(version: Version, g: Geometry, m: Memory, slot: nat, trace: seq<Instr>, now: Memory)
    requires Space(g, m) && slot < g.processorN && |now| == |m|
    decreases slot, 1
  {
    exists before: Memory, front: seq<Instr> ::
      && Reaches(version, g, m, slot, front, before)
      && SlotStep(version, g, before, slot, now)
      && trace == front + Announced(g, before, slot)
  }

  /** The loop ran through all slots, or up to the one whose instruction, as fetched from the memory
      it left, violates the bound that is reported. */
  ghost predicate StopsWhereItMust(version: Version, g: Geometry, m: Memory, trace: seq<Instr>,
                                   fault: Option<Fault>, m': Memory)
    requires Space(g, m) && |m'| == |m|
  {
    match fault
    case None => Reaches(version, g, m, g.processorN, trace, m')
    case Some(f) =>
      && f.slot < g.processorN && Reaches(version, g, m, f.slot, trace, m')
      && Fetch(g, m', f.slot) == f.ins && f.ins.n > 0 && f.kind == BoundsError(g, f.ins) != NoError
  }

  /** What the slot loop is known to do, for any program and either bitcpy. */
  ghost predicate SlotsOutcome(version: Version, g: Geometry, m: Memory, trace: seq<Instr>,
                               fault: Option<Fault>, m': Memory)
    requires Space(g, m) && |m'| == |m|
  {
    && StopsWhereItMust(version, g, m, trace, fault, m')
    && FollowsReference(version, g, m, trace, fault, m')
    && KeepsToRound(g, m, trace, fault, m')
  }

  /** The same in front of slot i. */
  ghost predicate Progress(version: Version, g: Geometry, m: Memory, trace: seq<Instr>, now: Memory, i: nat)
    requires Space(g, m) && |now| == |m| && i <= g.processorN
  {
    var all := RunSlots(g, m, 0, g.processorN);
    && (AllFaithful(version, all.trace) ==>
          var rest := RunSlots(g, now, i, g.processorN);
          all == Exec(rest.mem, trace + rest.trace, rest.fault))
    && (SparesLaterSlots(g, Slots(g, m)) ==>
          && HoldsFrom(g, now, Slots(g, m), i)
          && Executed(g, Slots(g, m), 0) == trace + Executed(g, Slots(g, m), i)
          && FaultOf(g, Slots(g, m), 0) == FaultOf(g, Slots(g, m), i)
          && forall p :: 0 <= p < |m| && !Written(trace, p) ==> now[p] == m[p])
  }

  lemma Start(version: Version, g: Geometry, m: Memory)
    requires Space(g, m)
    ensures Progress(version, g, m, [], m, 0)
  {
    var all := RunSlots(g, m, 0, g.processorN);
    assert [] + all.trace == all.trace;
    assert [] + Executed(g, Slots(g, m), 0) == Executed(g, Slots(g, m), 0);
  }

  lemma {:induction false} ExecutedFromSlots(g: Geometry, ops: seq<Instr>, i: nat)
    requires i <= |ops|
    ensures forall ins :: ins in Executed(g, ops, i) ==> ins in ops && ins.n > 0
    decreases |ops| - i
  {
    if i < |ops| { ExecutedFromSlots(g, ops, i + 1); }
  }

  lemma StepNop(version: Version, g: Geometry, m: Memory, trace: seq<Instr>, now: Memory, i: nat)
    requires Space(g, m) && |now| == |m| && i < g.processorN
    requires Progress(version, g, m, trace, now, i) && Fetch(g, now, i).n == 0
    ensures Progress(version, g, m, trace, now, i + 1)
  {
    hide Fetch, AllFaithful, BoundsError;
    if SparesLaterSlots(g, Slots(g, m)) { assert Fetch(g, now, i) == Slots(g, m)[i]; }
  }

  lemma StepFault(version: Version, g: Geometry, m: Memory, trace: seq<Instr>, now: Memory, i: nat)
    requires Space(g, m) && |now| == |m| && i < g.processorN
    requires Progress(version, g, m, trace, now, i)
    requires Fetch(g, now, i).n > 0 && BoundsError(g, Fetch(g, now, i)) != NoError
    ensures var fault := Some(Fault(BoundsError(g, Fetch(g, now, i)), i, Fetch(g, now, i)));
            FollowsReference(version, g, m, trace, fault, now) && KeepsToRound(g, m, trace, fault, now)
  {
    hide Fetch, AllFaithful, BoundsError;
    if SparesLaterSlots(g, Slots(g, m)) { assert Fetch(g, now, i) == Slots(g, m)[i]; }
    assert trace + [] == trace;
  }

  lemma StepCopy(version: Version, g: Geometry, m: Memory, trace: seq<Instr>, now: Memory, i: nat, next: Memory)
    requires Space(g, m) && |now| == |m| && i < g.processorN
    requires Progress(version, g, m, trace, now, i)
    requires Fetch(g, now, i).n > 0 && BoundsError(g, Fetch(g, now, i)) == NoError
    requires var ins := Fetch(g, now, i);
             Outcome(version, ins.n, now, ins.src, now, ins.dst, true, next)
    ensures Progress(version, g, m, trace + [Fetch(g, now, i)], next, i + 1)
  {
    hide Fetch;
    var ins := Fetch(g, now, i);
    var all := RunSlots(g, m, 0, g.processorN);
    if AllFaithful(version, all.trace) { StepCopyFaithful(version, g, m, trace, now, i, next); }
    if SparesLaterSlots(g, Slots(g, m)) { StepCopySpared(version, g, m, trace, now, i, next); }
  }

  lemma {:induction false} StepCopyFaithful(version: Version, g: Geometry, m: Memory, trace: seq<Instr>,
                                            now: Memory, i: nat, next: Memory)
    requires Space(g, m) && |now| == |m| && i < g.processorN
    requires Progress(version, g, m, trace, now, i)
    requires Fetch(g, now, i).n > 0 && BoundsError(g, Fetch(g, now, i)) == NoError
    requires var ins := Fetch(g, now, i);
             Outcome(version, ins.n, now, ins.src, now, ins.dst, true, next)
    requires AllFaithful(version, RunSlots(g, m, 0, g.processorN).trace)
    ensures var ins := Fetch(g, now, i);
            var rest := RunSlots(g, next, i + 1, g.processorN);
            RunSlots(g, m, 0, g.processorN) == Exec(rest.mem, (trace + [ins]) + rest.trace, rest.fault)
  {
    hide Fetch, Faithful;
    var ins := Fetch(g, now, i);
    var all := RunSlots(g, m, 0, g.processorN);
    var rest := RunSlots(g, Copy(now, ins.n, ins.dst, ins.src), i + 1, g.processorN);
    assert all.trace == trace + ([ins] + rest.trace) == (trace + [ins]) + rest.trace;
    assert all.trace[|trace|] == ins;
  }

  lemma {:induction false} StepCopySpared(version: Version, g: Geometry, m: Memory, trace: seq<Instr>,
                                          now: Memory, i: nat, next: Memory)
    requires Space(g, m) && |now| == |m| && i < g.processorN
    requires Progress(version, g, m, trace, now, i)
    requires Fetch(g, now, i).n > 0 && BoundsError(g, Fetch(g, now, i)) == NoError
    requires var ins := Fetch(g, now, i);
             Outcome(version, ins.n, now, ins.src, now, ins.dst, true, next)
    requires SparesLaterSlots(g, Slots(g, m))
    ensures var ops, ins := Slots(g, m), Fetch(g, now, i);
            && HoldsFrom(g, next, ops, i + 1)
            && Executed(g, ops, 0) == (trace + [ins]) + Executed(g, ops, i + 1)
            && FaultOf(g, ops, 0) == FaultOf(g, ops, i + 1)
            && forall p :: 0 <= p < |m| && !Written(trace + [ins], p) ==> next[p] == m[p]
  {
    hide Fetch, Faithful, AllFaithful, CopyBetween, Astray, SparesLaterSlots;
    var ins := Fetch(g, now, i);
    assert ins == Slots(g, m)[i];
    StillHolds(g, now, Slots(g, m), i, next);
    var later := Executed(g, Slots(g, m), i + 1);
    assert trace + ([ins] + later) == (trace + [ins]) + later;
    forall p | 0 <= p < |m| && !Written(trace + [ins], p) ensures next[p] == m[p] {
      assert ins in trace + [ins];
      assert forall x :: x in trace ==> x in trace + [ins];
      assert !Written(trace, p);
    }
  }

  lemma Finish(version: Version, g: Geometry, m: Memory, trace: seq<Instr>, now: Memory)
    requires Space(g, m) && |now| == |m| && Progress(version, g, m, trace, now, g.processorN)
    ensures FollowsReference(version, g, m, trace, None, now) && KeepsToRound(g, m, trace, None, now)
  {
    assert trace + [] == trace;
  }

  // ------------------------------------------------------------------ any number of steps

  lemma {:induction false} FirstStep(version: Version, g: Geometry, m: Memory)
    requires Space(g, m)
    ensures Reaches(version, g, m, 0, [], m)
  {
  }

  lemma {:induction false} NopStep(version: Version, g: Geometry, m: Memory, i: nat, trace: seq<Instr>, now: Memory)
    requires Space(g, m) && i < g.processorN && |now| == |m|
    requires Reaches(version, g, m, i, trace, now) && Fetch(g, now, i).n == 0
    ensures Reaches(version, g, m, i + 1, trace, now)
  {
    hide Fetch;
    assert trace == trace + Announced(g, now, i) && SlotStep(version, g, now, i, now);
    assert LastStep(version, g, m, i, trace, now);
  }

  lemma {:induction false} CopyStep(version: Version, g: Geometry, m: Memory, i: nat, trace: seq<Instr>,
                                    now: Memory, next: Memory)
    requires Space(g, m) && i < g.processorN && |next| == |now| == |m|
    requires Reaches(version, g, m, i, trace, now)
    requires Fetch(g, now, i).n > 0 && BoundsError(g, Fetch(g, now, i)) == NoError
    requires var ins := Fetch(g, now, i);
             Outcome(version, ins.n, now, ins.src, now, ins.dst, true, next)
    ensures Reaches(version, g, m, i + 1, trace + [Fetch(g, now, i)], next)
  {
    hide Fetch, Outcome;
    assert SlotStep(version, g, now, i, next);
    assert LastStep(version, g, m, i, trace + [Fetch(g, now, i)], next);
  }

  /** Every stretch of steps keeps the link to the reference run and to the round. */
  lemma {:induction false} StepsProgress(version: Version, g: Geometry, m: Memory, i: nat, trace: seq<Instr>,
                                         now: Memory)
    requires Space(g, m) && i <= g.processorN && Reaches(version, g, m, i, trace, now)
    ensures Progress(version, g, m, trace, now, i)
    decreases i
  {
    hide Progress, SlotStep, Announced, WellFormed;
    if i == 0 {
      Start(version, g, m);
    } else {
      var slot := i - 1;
      var before: Memory, front: seq<Instr> :|
        && Reaches(version, g, m, slot, front, before) && SlotStep(version, g, before, slot, now)
        && trace == front + Announced(g, before, slot);
      StepsProgress(version, g, m, slot, front, before);
      OneStepProgress(version, g, m, slot, front, before, now);
    }
  }

  lemma {:induction false} OneStepProgress(version: Version, g: Geometry, m: Memory, slot: nat, front: seq<Instr>,
                                           before: Memory, now: Memory)
    requires Space(g, m) && |now| == |before| == |m| && slot < g.processorN
    requires Progress(version, g, m, front, before, slot) && SlotStep(version, g, before, slot, now)
    ensures Progress(version, g, m, front + Announced(g, before, slot), now, slot + 1)
  {
    hide Progress, Fetch, Outcome, WellFormed;
    if Fetch(g, before, slot).n == 0 {
      StepNop(version, g, m, front, before, slot);
      assert front + [] == front;
    } else {
      StepCopy(version, g, m, front, before, slot, now);
    }
  }

  /** Hence all that is known of the slot loop follows from its steps. */
  lemma {:induction false} StepsOutcome(version: Version, g: Geometry, m: Memory, trace: seq<Instr>,
                                        fault: Option<Fault>, m': Memory)
    requires Space(g, m) && |m'| == |m| && StopsWhereItMust(version, g, m, trace, fault, m')
    ensures SlotsOutcome(version, g, m, trace, fault, m')
  {
    hide Progress, Fetch, FollowsReference, KeepsToRound, WellFormed, Reaches, BoundsError;
    if fault.None? {
      StepsProgress(version, g, m, g.processorN, trace, m');
      Finish(version, g, m, trace, m');
    } else {
      StepsProgress(version, g, m, fault.value.slot, trace, m');
      StepFault(version, g, m, trace, m', fault.value.slot);
    }
  }

  /** Steps whose announced copies are all faithful are those of the reference run. */
  lemma {:induction false} FaithfulSteps(version: Version, g: Geometry, m: Memory, i: nat, trace: seq<Instr>,
                                         now: Memory)
    requires Space(g, m) && i <= g.processorN && Reaches(version, g, m, i, trace, now) && AllFaithful(version, trace)
    ensures RunSlots(g, m, 0, i) == Exec(now, trace, None)
    decreases i
  {
    hide SlotStep, Announced, Faithful, WellFormed, RunSlots;
    if i == 0 {
      NoSlots(g, m, 0);
    } else {
      var slot := i - 1;
      var before: Memory, front: seq<Instr> :|
        && Reaches(version, g, m, slot, front, before) && SlotStep(version, g, before, slot, now)
        && trace == front + Announced(g, before, slot);
      assert forall k :: 0 <= k < |front| ==> trace[k] == front[k];
      FaithfulSteps(version, g, m, slot, front, before);
      RunSlotsInTwo(g, m, 0, slot, i);
      FaithfulStep(version, g, before, slot, trace, now);
    }
  }

  lemma {:induction false} NoSlots(g: Geometry, m: Memory, i: nat)
    requires Space(g, m) && i <= g.processorN
    ensures RunSlots(g, m, i, i) == Exec(m, [], None)
  {
  }

  lemma {:induction false} FaithfulStep(version: Version, g: Geometry, now: Memory, slot: nat,
                                        trace: seq<Instr>, next: Memory)
    requires Space(g, now) && |next| == |now| && slot < g.processorN && SlotStep(version, g, now, slot, next)
    requires AllFaithful(version, trace) && forall ins :: ins in Announced(g, now, slot) ==> ins in trace
    ensures RunSlots(g, now, slot, slot + 1) == Exec(next, Announced(g, now, slot), None)
  {
    hide Fetch, Faithful, WellFormed;
    var ins := Fetch(g, now, slot);
    if ins.n > 0 {
      assert ins in Announced(g, now, slot);
      assert Faithful(version, ins.n, ins.src, ins.dst, true);
      assert next == Copy(now, ins.n, ins.dst, ins.src);
      NoSlots(g, next, slot + 1);
    }
  }

  /** If the copies the loop announced are all faithful, it was the reference run, and replaying them
      gives the memory it left. */
  lemma {:induction false} FaithfulTrace(version: Version, g: Geometry, m: Memory, trace: seq<Instr>,
                                         fault: Option<Fault>, m': Memory)
    requires Space(g, m) && |m'| == |m| && StopsWhereItMust(version, g, m, trace, fault, m')
    requires AllFaithful(version, trace)
    ensures RunSlots(g, m, 0, g.processorN) == Exec(m', trace, fault)
    ensures fault.Some? ==> RunSlots(g, m, 0, fault.value.slot) == Exec(m', trace, None)
    ensures InBounds(g, trace) && Replay(g, m, trace) == m'
  {
    hide Fetch, WellFormed, Reaches, BoundsError, AllFaithful, Replay;
    var hi := if fault.None? then g.processorN else fault.value.slot;
    FaithfulSteps(version, g, m, hi, trace, m');
    RunSlotsInTwo(g, m, 0, hi, g.processorN);
    assert trace + [] == trace;
    TraceReplays(g, m, 0, g.processorN);
  }

  /** Only copies inside the space are announced. */
  lemma {:induction false} StepsInBounds(version: Version, g: Geometry, m: Memory, i: nat, trace: seq<Instr>,
                                         now: Memory)
    requires Space(g, m) && i <= g.processorN && Reaches(version, g, m, i, trace, now)
    ensures InBounds(g, trace)
    decreases i
  {
    hide Fetch, Outcome, WellFormed, BoundsError;
    if i > 0 {
      var slot := i - 1;
      var before: Memory, front: seq<Instr> :|
        && Reaches(version, g, m, slot, front, before) && SlotStep(version, g, before, slot, now)
        && trace == front + Announced(g, before, slot);
      StepsInBounds(version, g, m, slot, front, before);
    }
  }
}
