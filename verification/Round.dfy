/** A round seen as a fixed list of instructions: the slots read once, before any of them runs. */
module Round {
  import opened Options
  import opened BitSpace
  import opened Encoding
  import opened Geometry
  import opened MmioService
  import opened Machine

  /** All slots as they stand in the memory. */
  function Slots(g: Geometry, m: Memory): (ops: seq<Instr>)
    requires Space(g, m)
    ensures |ops| == g.processorN
    ensures forall k :: 0 <= k < |ops| ==> ops[k] == Fetch(g, m, k)
  {
    seq(g.processorN, k requires 0 <= k < g.processorN => Fetch(g, m, k))
  }

  /** The copies a fixed list performs from index i on: all but the NOPs, up to the first
      instruction that leaves the space. */
  function Executed(g: Geometry, ops: seq<Instr>, i: nat): (trace: seq<Instr>)
    requires i <= |ops|
    ensures InBounds(g, trace)
    decreases |ops| - i
  {
    if i == |ops| then []
    else if ops[i].n == 0 then Executed(g, ops, i + 1)
    else if BoundsError(g, ops[i]) != NoError then []
    else [ops[i]] + Executed(g, ops, i + 1)
  }

  function FaultOf(g: Geometry, ops: seq<Instr>, i: nat): Option<Fault>
    requires i <= |ops|
    decreases |ops| - i
  {
    if i == |ops| then None
    else if ops[i].n == 0 then FaultOf(g, ops, i + 1)
    else if BoundsError(g, ops[i]) != NoError then Some(Fault(BoundsError(g, ops[i]), i, ops[i]))
    else FaultOf(g, ops, i + 1)
  }

  /** The destination of ins contains bit p. */
  predicate Writes(ins: Instr, p: int) {
    ins.dst <= p < ins.dst + ins.n
  }

  ghost predicate Written(trace: seq<Instr>, p: int) {
    exists ins :: ins in trace && Writes(ins, p)
  }

  /** No instruction of the round writes into the processor area. */
  predicate SparesProcessor(g: Geometry, ops: seq<Instr>) {
    forall k :: 0 <= k < |ops| && ops[k].n > 0 ==> g.processorBits <= ops[k].dst
  }

  /** No instruction of the round writes a bit of a slot that is still to be fetched. */
  predicate SparesLaterSlots(g: Geometry, ops: seq<Instr>) {
    forall i, j :: 0 <= i < j < |ops| && ops[i].n > 0 ==> MissesSlot(g, ops[i], j)
  }

  predicate MissesSlot(g: Geometry, ins: Instr, slot: nat) {
    ins.dst + ins.n <= SlotIp(g, slot) || SlotIp(g, slot) + 3 * g.addrBits <= ins.dst
  }

  lemma SparingProcessorSparesSlots(g: Geometry, ops: seq<Instr>)
    requires WellFormed(g) && |ops| == g.processorN && SparesProcessor(g, ops)
    ensures SparesLaterSlots(g, ops)
  {
    hide SlotIp;
    forall i, j | 0 <= i < j < |ops| && ops[i].n > 0 ensures MissesSlot(g, ops[i], j) { SlotInside(g, j); }
  }

  /** Equal bits of a slot hold equal instructions. */
  lemma FetchSameBits(g: Geometry, m: Memory, m': Memory, slot: nat)
    requires Space(g, m) && Space(g, m') && slot < g.processorN
    requires forall p :: SlotIp(g, slot) <= p < SlotIp(g, slot) + 3 * g.addrBits && p < |m| ==> m[p] == m'[p]
    ensures Fetch(g, m, slot) == Fetch(g, m', slot)
  {
    hide Pow2, ReadUint, SlotIp;
    SlotInside(g, slot);
    var ip := SlotIp(g, slot);
    ReadSame(m, m', ip, g.nBits);
    ReadSame(m, m', ip + g.offDst, g.addrBits);
    ReadSame(m, m', ip + g.offSrc, g.addrBits);
  }

  /** Equal processor areas hold equal slots. */
  lemma FetchSame(g: Geometry, m: Memory, m': Memory, slot: nat)
    requires Space(g, m) && Space(g, m') && slot < g.processorN
    requires forall p :: 0 <= p < g.processorBits ==> m[p] == m'[p]
    ensures Fetch(g, m, slot) == Fetch(g, m', slot)
  {
    hide Fetch, SlotIp;
    SlotInside(g, slot);
    FetchSameBits(g, m, m', slot);
  }

  /** From slot i on the memory holds the instructions of the list. */
  ghost predicate HoldsFrom(g: Geometry, m: Memory, ops: seq<Instr>, i: nat)
    requires Space(g, m) && |ops| == g.processorN
  {
    forall k :: i <= k < g.processorN ==> Fetch(g, m, k) == ops[k]
  }

  /** A change that misses the later slots leaves them to be fetched as before. */
  lemma StillHolds(g: Geometry, m: Memory, ops: seq<Instr>, i: nat, m': Memory)
    requires Space(g, m) && |m'| == |m| && |ops| == g.processorN && i < g.processorN
    requires HoldsFrom(g, m, ops, i) && SparesLaterSlots(g, ops) && ops[i].n > 0
    requires forall p :: 0 <= p < |m| && !Writes(ops[i], p) ==> m'[p] == m[p]
    ensures HoldsFrom(g, m', ops, i + 1)
  {
    hide Fetch, SlotIp, WellFormed;
    forall k | i + 1 <= k < g.processorN ensures Fetch(g, m', k) == ops[k] {
      assert MissesSlot(g, ops[i], k);
      FetchSameBits(g, m, m', k);
    }
  }

  /** A round in which no instruction writes a bit of a later slot runs as the list that was read at
      its start. */
  lemma {:induction false} FetchOnceIsEnough(g: Geometry, m: Memory, ops: seq<Instr>, i: nat)
    requires Space(g, m) && |ops| == g.processorN && i <= g.processorN
    requires SparesLaterSlots(g, ops) && HoldsFrom(g, m, ops, i)
    ensures var e := RunSlots(g, m, i, g.processorN);
            && e.trace == Executed(g, ops, i) && e.fault == FaultOf(g, ops, i)
            && e.mem == Replay(g, m, Executed(g, ops, i))
    decreases g.processorN - i
  {
    hide Fetch, WellFormed, SparesLaterSlots;
    TraceReplays(g, m, i, g.processorN);
    if i < g.processorN {
      var ins := ops[i];
      assert Fetch(g, m, i) == ins;
      if ins.n == 0 {
        FetchOnceIsEnough(g, m, ops, i + 1);
      } else if BoundsError(g, ins) == NoError {
        var m' := Copy(m, ins.n, ins.dst, ins.src);
        StillHolds(g, m, ops, i, m');
        FetchOnceIsEnough(g, m', ops, i + 1);
      }
    }
  }

  lemma {:induction false} ReplayKeeps(g: Geometry, m: Memory, trace: seq<Instr>)
    requires |m| == g.spaceBits && InBounds(g, trace)
    ensures forall p :: 0 <= p < |m| && !Written(trace, p) ==> Replay(g, m, trace)[p] == m[p]
    decreases |trace|
  {
    if |trace| > 0 {
      var ins := trace[0];
      assert BoundsError(g, ins) == NoError;
      var m' := Copy(m, ins.n, ins.dst, ins.src);
      ReplayKeeps(g, m', trace[1..]);
      forall p | 0 <= p < |m| && !Written(trace, p) ensures Replay(g, m, trace)[p] == m[p] {
        assert trace[0] in trace && !Writes(trace[0], p);
        assert forall x :: x in trace[1..] ==> x in trace;
        assert !Written(trace[1..], p);
      }
    }
  }
}
