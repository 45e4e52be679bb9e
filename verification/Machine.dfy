/** What one tick and one run of the machine make of the memory, over the reference copy. */
module Machine {
  import opened Options
  import opened BitSpace
  import opened Encoding
  import opened Geometry
  import opened MmioService

  datatype Instr = Instr(n: nat, dst: nat, src: nat)

  datatype ErrKind = NoError | SrcBounds | DstBounds

  datatype Fault = Fault(kind: ErrKind, slot: nat, ins: Instr)

  /** Memory, the copies announced to note_copy, and the bounds error that stopped the slots. */
  datatype Exec = Exec(mem: Memory, trace: seq<Instr>, fault: Option<Fault>)

  // ------------------------------------------------------------------ slots

  /** vm_read_inst. */
  function ReadInst(g: Geometry, m: Memory, ip: nat): Instr
    requires WellFormed(g) && ip + 3 * g.addrBits <= |m|
  {
    Instr(ReadUint(m, ip + g.offN, g.nBits),
          ReadUint(m, ip + g.offDst, g.addrBits),
          ReadUint(m, ip + g.offSrc, g.addrBits))
  }

  /** vm_write_inst. */
  function WriteInst(g: Geometry, m: Memory, ip: nat, ins: Instr): (r: Memory)
    requires WellFormed(g) && ip + 3 * g.addrBits <= |m|
    ensures |r| == |m|
  {
    WriteUint(WriteUint(WriteUint(m, ip + g.offN, g.nBits, ins.n), ip + g.offDst, g.addrBits, ins.dst),
              ip + g.offSrc, g.addrBits, ins.src)
  }

  function Fetch(g: Geometry, m: Memory, slot: nat): Instr
    requires Space(g, m) && slot < g.processorN
  {
    SlotInside(g, slot);
    ReadInst(g, m, SlotIp(g, slot))
  }

  /** The source range is checked before the destination range. */
  function BoundsError(g: Geometry, ins: Instr): ErrKind {
    if ins.src + ins.n > g.spaceBits then SrcBounds
    else if ins.dst + ins.n > g.spaceBits then DstBounds
    else NoError
  }

  predicate InBounds(g: Geometry, trace: seq<Instr>) {
    forall k :: 0 <= k < |trace| ==> BoundsError(g, trace[k]) == NoError
  }

  /** The copies of a trace, one after the other. */
  function Replay(g: Geometry, m: Memory, trace: seq<Instr>): (r: Memory)
    requires |m| == g.spaceBits && InBounds(g, trace)
    ensures |r| == |m|
    decreases |trace|
  {
    if |trace| == 0 then m
    else
      assert BoundsError(g, trace[0]) == NoError;
      Replay(g, Copy(m, trace[0].n, trace[0].dst, trace[0].src), trace[1..])
  }

  /** The fetch-execute loop for slots i..hi.  Each slot is fetched from the memory the slots
      before it have left, so a slot may rewrite a later one. */
  function RunSlots(g: Geometry, m: Memory, i: nat, hi: nat): (e: Exec)
    requires Space(g, m) && i <= hi <= g.processorN
    ensures |e.mem| == |m| && InBounds(g, e.trace)
    decreases hi - i
  {
    if i == hi then Exec(m, [], None)
    else
      var ins := Fetch(g, m, i);
      if ins.n == 0 then RunSlots(g, m, i + 1, hi)
      else if BoundsError(g, ins) != NoError then Exec(m, [], Some(Fault(BoundsError(g, ins), i, ins)))
      else
        var rest := RunSlots(g, Copy(m, ins.n, ins.dst, ins.src), i + 1, hi);
        Exec(rest.mem, [ins] + rest.trace, rest.fault)
  }

  /** Replaying the announced copies gives the memory the slots leave, self-modifying programs
      included. */
  lemma {:induction false} TraceReplays(g: Geometry, m: Memory, i: nat, hi: nat)
    requires Space(g, m) && i <= hi <= g.processorN
    ensures var e := RunSlots(g, m, i, hi); Replay(g, m, e.trace) == e.mem
    decreases hi - i
  {
    hide Fetch, Copy, WellFormed;
    if i < hi {
      var ins := Fetch(g, m, i);
      if ins.n == 0 {
        TraceReplays(g, m, i + 1, hi);
      } else if BoundsError(g, ins) == NoError {
        var m' := Copy(m, ins.n, ins.dst, ins.src);
        TraceReplays(g, m', i + 1, hi);
        var rest := RunSlots(g, m', i + 1, hi).trace;
        assert ([ins] + rest)[1..] == rest;
      }
    }
  }

  /** After a bounds error the memory is the work of exactly the slots before the offending one,
      whose instruction, as fetched from that memory, violates the recorded bound. */
  lemma {:induction false} ErrorPrefix(g: Geometry, m: Memory, i: nat, hi: nat)
    requires Space(g, m) && i <= hi <= g.processorN
    requires RunSlots(g, m, i, hi).fault.Some?
    ensures var e := RunSlots(g, m, i, hi);
            var f := e.fault.value;
            && i <= f.slot < hi
            && RunSlots(g, m, i, f.slot) == Exec(e.mem, e.trace, None)
            && Fetch(g, e.mem, f.slot) == f.ins && f.ins.n > 0
            && f.kind == BoundsError(g, f.ins) != NoError
            && (f.kind == SrcBounds <==> f.ins.src + f.ins.n > g.spaceBits)
            && (f.kind == DstBounds <==> f.ins.src + f.ins.n <= g.spaceBits < f.ins.dst + f.ins.n)
    decreases hi - i
  {
    hide Fetch, Copy, WellFormed;
    var ins := Fetch(g, m, i);
    if ins.n == 0 {
      ErrorPrefix(g, m, i + 1, hi);
    } else if BoundsError(g, ins) == NoError {
      ErrorPrefix(g, Copy(m, ins.n, ins.dst, ins.src), i + 1, hi);
    }
  }

  /** Without a bounds error the loop passes through every intermediate slot. */
  lemma {:induction false} RunSlotsInTwo(g: Geometry, m: Memory, i: nat, k: nat, hi: nat)
    requires Space(g, m) && i <= k <= hi <= g.processorN
    requires RunSlots(g, m, i, k).fault.None?
    ensures var first := RunSlots(g, m, i, k);
            var second := RunSlots(g, first.mem, k, hi);
            RunSlots(g, m, i, hi) == Exec(second.mem, first.trace + second.trace, second.fault)
    decreases k - i
  {
    hide Fetch, Copy, WellFormed;
    if i < k {
      var ins := Fetch(g, m, i);
      if ins.n == 0 {
        RunSlotsInTwo(g, m, i + 1, k, hi);
      } else {
        var m' := Copy(m, ins.n, ins.dst, ins.src);
        RunSlotsInTwo(g, m', i + 1, k, hi);
        var first := RunSlots(g, m', i + 1, k);
        var second := RunSlots(g, first.mem, k, hi);
        assert [ins] + (first.trace + second.trace) == ([ins] + first.trace) + second.trace;
      }
    }
  }

  // ------------------------------------------------------------------ ticks and runs

  datatype Code = VmOk | VmHalt | VmErr

  datatype Tick = Tick(rc: Code, mem: Memory, trace: seq<Instr>, fault: Option<Fault>, sent: seq<bool>)

  /** The memory the slots start from: output is served first, then input. */
  function AfterMmio(g: Geometry, m: Memory, dev: Reaction): (r: Memory)
    requires Space(g, m)
    ensures |r| == |m|
  {
    ServiceIn(g, ServiceOut(g, m, dev.put), dev)
  }

  /** vm_tick. */
  function RunTick(g: Geometry, m: Memory, dev: Reaction): (t: Tick)
    requires Space(g, m)
    ensures |t.mem| == |m|
  {
    var m1 := AfterMmio(g, m, dev);
    var sent := Sent(g, m, dev.put);
    if m1[g.mmio.halt] then Tick(VmHalt, m1, [], None, sent)
    else
      var e := RunSlots(g, m1, 0, g.processorN);
      Tick(if e.fault.None? then VmOk else VmErr, e.mem, e.trace, e.fault, sent)
  }

  /** vm_run over the reactions of as many ticks. */
  function Run(g: Geometry, m: Memory, devs: seq<Reaction>): (r: (Code, Memory))
    requires Space(g, m)
    ensures |r.1| == |m|
    decreases |devs|
  {
    if |devs| == 0 then (VmOk, m)
    else
      var t := RunTick(g, m, devs[0]);
      if t.rc != VmOk then (t.rc, t.mem) else Run(g, t.mem, devs[1..])
  }

  /** Output is served first: one tick sends what the memory held before it, so that bits the device
      delivers reach no output of the same tick. */
  lemma OutputIsFirst(g: Geometry, m: Memory, dev: Reaction)
    requires Space(g, m)
    ensures var sent, at := RunTick(g, m, dev).sent, ReadUint(m, g.mmio.outSrc, g.addrBits);
            && |sent| == (if m[g.mmio.outReq] then 8 * OutMoved(g, m, dev.put) else 0)
            && forall k :: 0 <= k < |sent| ==>
                 at + k < |m| && sent[k] == (m[at + k] && (at + k == g.mmio.outReq || !OutStatus(g, at + k)))
  {
    hide ServiceOut, Sent, RunSlots, AfterMmio, Pow2, OutMoved, OutStatus, WellFormed, ReadUint;
    OutputHandshake(g, m, dev.put);
    SentByTick(g, m, dev);
  }

  lemma SentByTick(g: Geometry, m: Memory, dev: Reaction)
    requires Space(g, m)
    ensures RunTick(g, m, dev).sent == Sent(g, m, dev.put)
  {
    hide Sent, RunSlots, AfterMmio, WellFormed;
  }

  /** Input is served last: what the device delivers stands there when the slots start, also over the
      registers of the output channel. */
  lemma InputIsLast(g: Geometry, m: Memory, dev: Reaction)
    requires Space(g, m) && m[g.mmio.inReq]
    ensures var r, at, got := AfterMmio(g, m, dev), ReadUint(m, g.mmio.inDst, g.addrBits), InMoved(g, m, dev);
            && got <= |dev.data| && (got > 0 ==> at + 8 * got <= |m|)
            && forall i :: at <= i < at + 8 * got && i < |m| && !InStatus(g, i) ==>
                 r[i] == Bits(dev.data[..got])[i - at]
  {
    hide ServiceOut, ServiceIn, Bits, Pow2, InMoved, InStatus, WellFormed, ReadUint;
    ServiceOutKeepsRequest(g, m, dev.put);
    InputHandshake(g, m, dev);
    InputHandshake(g, ServiceOut(g, m, dev.put), dev);
  }

  // ------------------------------------------------------------------ HALT

  /** A halted machine: HALT is set and no input is pending. */
  predicate Halted(g: Geometry, m: Memory)
    requires Space(g, m)
  {
    m[g.mmio.halt] && !m[g.mmio.inReq]
  }

  /** Once a tick halts, every later tick halts whatever the devices do: no slot runs, only the
      output channel's status can still change, and after one further tick nothing does. */
  lemma HaltIsAbsorbing(g: Geometry, m: Memory, dev: Reaction, dev': Reaction, dev'': Reaction)
    requires Space(g, m) && RunTick(g, m, dev).rc == VmHalt
    ensures var m1 := RunTick(g, m, dev).mem;
            var t1 := RunTick(g, m1, dev');
            var t2 := RunTick(g, t1.mem, dev'');
            && Halted(g, m1) && Halted(g, t1.mem)
            && t1.rc == VmHalt && t1.trace == []
            && (forall i :: 0 <= i < |m| && !OutStatus(g, i) ==> t1.mem[i] == m1[i])
            && t2.rc == VmHalt && t2.trace == [] && t2.mem == t1.mem && t2.sent == []
  {
    hide ServiceOut, ServiceIn, Sent, OutCleared, OutMoved, InMoved, ReadUint, RunSlots;
    var s := ServiceOut(g, m, dev.put);
    InputHandshake(g, s, dev);
    var m1 := RunTick(g, m, dev).mem;
    HaltedTick(g, m1, dev');
    HaltedTick(g, RunTick(g, m1, dev').mem, dev'');
  }

  /** One tick of a halted machine serves at most an output request. */
  lemma HaltedTick(g: Geometry, m: Memory, dev: Reaction)
    requires Space(g, m) && Halted(g, m)
    ensures var t := RunTick(g, m, dev);
            && t.rc == VmHalt && t.trace == [] && Halted(g, t.mem) && !t.mem[g.mmio.outReq]
            && (forall i :: 0 <= i < |m| && !OutStatus(g, i) ==> t.mem[i] == m[i])
            && (!m[g.mmio.outReq] ==> t.mem == m && t.sent == [])
  {
    hide ServiceOut, OutCleared, ReadUint, RunSlots;
    OutputHandshake(g, m, dev.put);
    InputHandshake(g, ServiceOut(g, m, dev.put), dev);
  }

  /** The memory after as many calls of vm_tick, whatever they return. */
  function Ticks(g: Geometry, m: Memory, devs: seq<Reaction>): (r: Memory)
    requires Space(g, m)
    ensures |r| == |m|
    decreases |devs|
  {
    if |devs| == 0 then m else Ticks(g, RunTick(g, m, devs[0]).mem, devs[1..])
  }

  /** However often a halted machine is ticked, it reports HALT, runs no slot, and keeps the
      memory its first further tick left. */
  lemma {:induction false} HaltedForever(g: Geometry, m: Memory, devs: seq<Reaction>, dev: Reaction)
    requires Space(g, m) && Halted(g, m)
    ensures var later := Ticks(g, m, devs);
            && RunTick(g, later, dev).rc == VmHalt && RunTick(g, later, dev).trace == []
            && (|devs| > 0 ==> later == RunTick(g, m, devs[0]).mem && !later[g.mmio.outReq])
    ensures Halted(g, Ticks(g, m, devs))
    decreases |devs|
  {
    hide RunTick;
    if |devs| == 0 {
      HaltedTick(g, m, dev);
    } else {
      HaltedTick(g, m, devs[0]);
      var m' := RunTick(g, m, devs[0]).mem;
      HaltedForever(g, m', devs[1..], dev);
      if |devs| > 1 { HaltedTick(g, m', devs[1]); }
    }
  }
}
