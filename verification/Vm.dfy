/** The machine of src/vm/space.c as it updates its buffer in place, method by method against the
    functions of Machine and MmioService. */
module CopyVm {
  import opened Options
  import opened Numbers
  import opened BitSpace
  import opened Encoding
  import opened Geometry
  import opened MmioService
  import opened Machine
  import opened Bitcpy
  import opened Round
  import opened Stepping
  import opened Certificate
  import opened BootLoader
  import L1 = MemoryCheck

  /** vm_err_t, without the copy of space_bits. */
  datatype LastErr = LastErr(kind: ErrKind, tick: nat, slot: nat, ins: Instr)

  function Blank(tick: nat): LastErr {
    LastErr(NoError, tick, 0, Instr(0, 0, 0))
  }

  /** The bounds error a record stands for. */
  function Recorded(e: LastErr): Option<Fault> {
    if e.kind == NoError then None else Some(Fault(e.kind, e.slot, e.ins))
  }

  /** What one call of vm_tick is known to do. */
  ghost predicate TickOutcome(version: Version, g: Geometry, m: Memory, dev: Reaction, tick: nat,
                              rc: Code, sent: seq<bool>, trace: seq<Instr>, tick': nat, e: LastErr, m': Memory)
    requires Space(g, m) && |m'| == |m|
  {
    var m1 := AfterMmio(g, m, dev);
    && sent == Sent(g, m, dev.put)
    && e.tick == tick
    && (if m1[g.mmio.halt] then
          rc == VmHalt && m' == m1 && trace == [] && tick' == tick + 1 && e == Blank(tick)
        else
          && SlotsOutcome(version, g, m1, trace, Recorded(e), m')
          && rc == (if e.kind == NoError then VmOk else VmErr)
          && (rc == VmOk ==> e == Blank(tick))
          && tick' == (if rc == VmOk then tick + 1 else tick))
  }

  /** What a machine has become, and what it has sent. */
  datatype State = State(mem: Memory, tick: nat, err: LastErr, trace: seq<Instr>, sent: seq<bool>)

  /** One tick leads from one state to the other. */
  ghost predicate TickLeads(version: Version, g: Geometry, from: State, dev: Reaction, rc: Code, to: State)
    requires Space(g, from.mem)
  {
    && |to.mem| == |from.mem|
    && exists sent :: to.sent == from.sent + sent
                      && TickOutcome(version, g, from.mem, dev, from.tick, rc, sent, to.trace, to.tick, to.err, to.mem)
  }

  /** j ticks, all VM_OK, lead from one state to the other. */
  ghost predicate RunsOk(version: Version, g: Geometry, from: State, devs: seq<Reaction>, j: nat, to: State)
    requires Space(g, from.mem) && j <= |devs|
    decreases j, 0
  {
    if j == 0 then to == from else EndsWith(version, g, from, devs, j - 1, VmOk, to)
  }

  /** The tick after j that were VM_OK returns rc. */
  ghost predicate EndsWith(version: Version, g: Geometry, from: State, devs: seq<Reaction>, j: nat, rc: Code, to: State)
    requires Space(g, from.mem) && j < |devs|
    decreases j, 1
  {
    exists mid: State ::
      |mid.mem| == |from.mem| && RunsOk(version, g, from, devs, j, mid) && TickLeads(version, g, mid, devs[j], rc, to)
  }

  /** vm_run over the reactions of as many ticks: all of them VM_OK, or up to the first that is not. */
  ghost predicate RunOutcome(version: Version, g: Geometry, from: State, devs: seq<Reaction>, rc: Code, to: State)
    requires Space(g, from.mem)
  {
    if rc == VmOk then RunsOk(version, g, from, devs, |devs|, to)
    else exists j :: 0 <= j < |devs| && EndsWith(version, g, from, devs, j, rc, to)
  }

  lemma {:induction false} NoTickYet(version: Version, g: Geometry, from: State, devs: seq<Reaction>)
    requires Space(g, from.mem)
    ensures RunsOk(version, g, from, devs, 0, from)
  {
  }

  lemma {:induction false} OneTickMore(version: Version, g: Geometry, from: State, devs: seq<Reaction>, j: nat,
                                       mid: State, rc: Code, sent: seq<bool>, to: State)
    requires Space(g, from.mem) && j < |devs| && |from.mem| == |mid.mem| == |to.mem|
    requires RunsOk(version, g, from, devs, j, mid) && to.sent == mid.sent + sent
    requires TickOutcome(version, g, mid.mem, devs[j], mid.tick, rc, sent, to.trace, to.tick, to.err, to.mem)
    ensures EndsWith(version, g, from, devs, j, rc, to)
    ensures rc == VmOk ==> RunsOk(version, g, from, devs, j + 1, to)
    ensures rc != VmOk ==> RunOutcome(version, g, from, devs, rc, to)
  {
    hide TickOutcome;
    assert TickLeads(version, g, mid, devs[j], rc, to);
  }

  /** How the counter moves over a run: by one a tick, but for a tick that ends in an error. */
  lemma {:induction false} RunCounts(version: Version, g: Geometry, from: State, devs: seq<Reaction>, rc: Code,
                                     to: State)
    requires Space(g, from.mem) && RunOutcome(version, g, from, devs, rc, to)
    ensures rc == VmOk ==> to.tick == from.tick + |devs|
    ensures rc != VmOk ==> exists j :: 0 <= j < |devs| && EndsWith(version, g, from, devs, j, rc, to)
                                       && to.tick == from.tick + if rc == VmHalt then j + 1 else j
  {
    hide TickOutcome, RunsOk, EndsWith, TickLeads;
    if rc == VmOk {
      OkTicksCount(version, g, from, devs, |devs|, to);
    } else {
      var j :| 0 <= j < |devs| && EndsWith(version, g, from, devs, j, rc, to);
      LastTickCounts(version, g, from, devs, j, rc, to);
    }
  }

  lemma {:induction false} OkTicksCount(version: Version, g: Geometry, from: State, devs: seq<Reaction>, j: nat,
                                        to: State)
    requires Space(g, from.mem) && j <= |devs| && RunsOk(version, g, from, devs, j, to)
    ensures to.tick == from.tick + j
    decreases j, 0
  {
    hide TickLeads, EndsWith;
    if j > 0 { LastTickCounts(version, g, from, devs, j - 1, VmOk, to); }
  }

  lemma {:induction false} LastTickCounts(version: Version, g: Geometry, from: State, devs: seq<Reaction>, j: nat,
                                          rc: Code, to: State)
    requires Space(g, from.mem) && j < |devs| && EndsWith(version, g, from, devs, j, rc, to)
    ensures to.tick == from.tick + if rc == VmErr then j else j + 1
    decreases j, 1
  {
    hide RunsOk, SlotsOutcome, AfterMmio, Sent;
    var mid: State :|
      |mid.mem| == |from.mem| && RunsOk(version, g, from, devs, j, mid) && TickLeads(version, g, mid, devs[j], rc, to);
    OkTicksCount(version, g, from, devs, j, mid);
  }

  /** A faithful tick is the reference tick. */
  lemma TickIsReference(version: Version, g: Geometry, m: Memory, dev: Reaction, tick: nat,
                        rc: Code, sent: seq<bool>, trace: seq<Instr>, tick': nat, e: LastErr, m': Memory)
    requires Space(g, m) && |m'| == |m|
    requires TickOutcome(version, g, m, dev, tick, rc, sent, trace, tick', e, m')
    requires AllFaithful(version, RunTick(g, m, dev).trace)
    ensures var t := RunTick(g, m, dev);
            rc == t.rc && m' == t.mem && trace == t.trace && sent == t.sent
            && (t.rc != VmHalt ==> Recorded(e) == t.fault)
  {
    hide AfterMmio, Sent, RunSlots, AllFaithful;
  }

  class Vm {
    /** Which bitcpy the machine is linked with. */
    const version: Version

    var space: array?<Byte>
    var geo: Geometry
    var tickCounter: nat
    var lastErr: LastErr

    /** What the note_copy hook was told in the current tick. */
    ghost var trace: seq<Instr>

    ghost predicate Live()
      reads this
    {
      space != null && WellFormed(geo) && space.Length == geo.spaceBytes
    }

    ghost function Memory(): (m: BitSpace.Memory)
      requires Live()
      reads this, space
      ensures Space(geo, m)
    {
      Mem(space)
    }

    ghost function Now(sent: seq<bool>): State
      requires Live()
      reads this, space
    {
      State(Memory(), tickCounter, lastErr, trace, sent)
    }

    constructor (version: Version)
      ensures this.version == version && space == null
    {
      this.version := version;
      space := null;
      geo := Geometry(0, 0, 0, 0, 0, 0, 0, 0, 0, 0, 0, 0, MmioAt(0, 0), 0);
      tickCounter := 0;
      lastErr := LastErr(NoError, 0, 0, Instr(0, 0, 0));
      trace := [];
    }

    // ---------------------------------------------------------------- bits and fields

    /** vm_bit_get. */
    method BitGet(pos: nat) returns (v: bool)
      requires Live() && pos < geo.spaceBits
      ensures v == Memory()[pos]
    {
      v := BitGetPtr(space, pos);
    }

    /** vm_bit_set. */
    method BitSet(pos: nat, v: bool)
      requires Live() && pos < geo.spaceBits
      modifies space
      ensures Live() && Memory() == old(Memory())[pos := v]
    {
      BitSetPtr(space, pos, v);
    }

    /** vm_read_uint; the 64-bit accumulator never overflows, since v < 2^i after i bits. */
    method ReadField(pos: nat, width: nat) returns (v: nat)
      requires Live() && pos + width <= geo.spaceBits
      ensures v == if width == 0 || width > 64 then 0 else ReadUint(Memory(), pos, width)
    {
      hide Mem, UintOf, Pow2, WellFormed;
      if width == 0 || width > 64 { return 0; }
      v := 0;
      EmptyField(Memory(), pos);
      ghost var m := Memory();
      for i := 0 to width
        invariant v == UintOf(m[pos..pos + i])
      {
        var bit := BitGet(pos + i);
        v := 2 * v + if bit then 1 else 0;
        UintOfOneMore(m, pos, i);
      }
    }

    /** vm_write_uint. */
    method WriteField(pos: nat, width: nat, value: nat)
      requires Live() && pos + width <= geo.spaceBits
      modifies space
      ensures Live()
      ensures Memory() == if width == 0 || width > 64 then old(Memory())
                          else WriteUint(old(Memory()), pos, width, value)
    {
      if width == 0 || width > 64 { return; }
      ghost var m := Memory();
      ghost var bits := BitsOf(value, width);
      assert Memory() == Splice(m, pos, bits[..0]);
      for i := 0 to width
        invariant Live() && Memory() == Splice(m, pos, bits[..i])
      {
        var bit := value / Pow2(width - 1 - i) % 2 == 1;
        BitsOfShift(value, width, i);
        BitSet(pos + i, bit);
        SpliceOneMore(m, pos, bits, i);
      }
      assert bits[..width] == bits;
    }

    /** vm_read_inst. */
    method ReadInstAt(ip: nat) returns (ins: Instr)
      requires Live() && ip + 3 * geo.addrBits <= geo.spaceBits
      ensures ins == ReadInst(geo, Memory(), ip)
    {
      hide Mem, UintOf, Pow2;
      var n := ReadField(ip + geo.offN, geo.nBits);
      var dst := ReadField(ip + geo.offDst, geo.addrBits);
      var src := ReadField(ip + geo.offSrc, geo.addrBits);
      ins := Instr(n, dst, src);
    }

    /** vm_write_inst. */
    method WriteInstAt(ip: nat, ins: Instr)
      requires Live() && ip + 3 * geo.addrBits <= geo.spaceBits
      modifies space
      ensures Live() && Memory() == WriteInst(geo, old(Memory()), ip, ins)
    {
      hide Mem, WriteUint, Pow2;
      WriteField(ip + geo.offN, geo.nBits, ins.n);
      WriteField(ip + geo.offDst, geo.addrBits, ins.dst);
      WriteField(ip + geo.offSrc, geo.addrBits, ins.src);
    }

    // ---------------------------------------------------------------- vm_init

    /** vm_compute_mmio_layout: one running address, each register placed where it stands. */
    static method ComputeMmioLayout(processorBits: nat, addrBits: nat, nBits: nat) returns (mmio: Mmio)
      requires processorBits % 8 == 0 && addrBits % 8 == 0 && nBits == addrBits
      ensures mmio == MmioAt(processorBits, addrBits)
    {
      hide RoundUp8;
      LayoutIsRound(processorBits, addrBits);
      var p := processorBits;
      var base := p;
      var inReq := p; p := p + 1;
      var inDone := p; p := p + 1;
      var inEof := p; p := p + 1;
      var inErr := p; p := p + 1;
      var inDst := p; p := p + addrBits;
      var inLen := p; p := p + nBits;
      var inGot := p; p := p + nBits;
      var outReq := p; p := p + 1;
      var outDone := p; p := p + 1;
      var outErr := p; p := p + 1;
      var outSrc := p; p := p + addrBits;
      var outLen := p; p := p + nBits;
      var outGot := p; p := p + nBits;
      var halt := p; p := p + 1;
      mmio := Mmio(base, inReq, inDone, inEof, inErr, inDst, inLen, inGot,
                   outReq, outDone, outErr, outSrc, outLen, outGot, halt, RoundUp8(p));
    }

    /** vm_init.  It succeeds exactly when both sizes are positive, the buffer can be had, and the
        processor area with its registers fits; the width is then the least multiple of 8 that
        addresses the whole space, and all bits are 0.  No allocation exceeds 2^53 bytes. */
    method Init(spaceBytes: nat, processorN: nat, canAlloc: bool) returns (rc: int)
      requires canAlloc ==> spaceBytes <= 0x20_0000_0000_0000
      modifies this
      ensures rc == 0 || rc == -1
      ensures rc == 0 ==> Live() && fresh(space) && tickCounter == 0 && lastErr == Blank(0)
      ensures rc == 0 ==> geo.spaceBytes == spaceBytes && geo.processorN == processorN
      ensures rc == 0 ==> forall raw :: IsCeilLog2(8 * spaceBytes, raw) ==> geo.addrBits == WidthFor(raw)
      ensures rc == 0 ==> forall i :: 0 <= i < geo.spaceBits ==> !Memory()[i]
      ensures rc != 0 ==> space == null
      ensures rc == 0 <==> spaceBytes > 0 && processorN > 0 && canAlloc && InitFits(spaceBytes, processorN)
      ensures forall raw :: IsCeilLog2(8 * spaceBytes, raw) ==>
                (rc == 0 <==> spaceBytes > 0 && processorN > 0 && canAlloc
                              && processorN * (3 * WidthFor(raw)) + 8 + 6 * WidthFor(raw) <= 8 * spaceBytes)
    {
      hide Mem, WidthFor, IsCeilLog2, Pow2;
      space := null;
      tickCounter := 0;
      lastErr := LastErr(NoError, 0, 0, Instr(0, 0, 0));
      if spaceBytes == 0 { return -1; }
      if processorN == 0 { return -1; }
      if !canAlloc { return -1; }
      var buffer := new Byte[spaceBytes](_ => 0);
      var spaceBits := 8 * spaceBytes;
      WidthOfSpace(spaceBytes);
      var raw := CeilLog2(spaceBits);
      var addrBits := WidthFor(raw);
      UniqueWidth(spaceBytes, raw);
      WidthRange(spaceBytes, raw);
      var instrBits := 3 * addrBits;
      var processorBits := processorN * instrBits;
      InstrBytes(processorN, addrBits);
      if processorBits > spaceBits { return -1; }
      var mmio := ComputeMmioLayout(processorBits, addrBits, addrBits);
      if mmio.end > spaceBits { return -1; }
      geo := Geometry(spaceBytes, spaceBits, processorN, addrBits, addrBits, instrBits, instrBits / 8,
                      0, processorBits, 0, addrBits, 2 * addrBits, mmio, mmio.end);
      GeometryIsWellFormed(spaceBytes, processorN, raw);
      space := buffer;
      ZeroMemory(buffer);
      return 0;
    }

    // ---------------------------------------------------------------- service_in, service_out

    /** fwrite of nbytes from the byte at `from`: the device takes as many as it will. */
    method WriteOut(from: nat, nbytes: nat, put: nat) returns (moved: nat, ghost sent: seq<bool>)
      requires Live() && 8 * (from + nbytes) <= geo.spaceBits
      ensures moved == Min(put, nbytes) && sent == Memory()[8 * from..8 * from + 8 * moved]
    {
      moved := Min(put, nbytes);
      sent := Memory()[8 * from..8 * from + 8 * moved];
    }

    /** fread of up to nbytes to the byte at `to`. */
    method ReadIn(to: nat, nbytes: nat, data: seq<Byte>) returns (got: nat)
      requires Live() && 8 * (to + nbytes) <= geo.spaceBits
      modifies space
      ensures Live() && got == Min(|data|, nbytes)
      ensures Memory() == Splice(old(Memory()), 8 * to, Bits(data[..got]))
    {
      hide TestBit, Bits;
      got := Min(|data|, nbytes);
      ghost var before := space[..];
      forall k | 0 <= k < got { space[to + k] := data[k]; }
      BytesCopied(data[..got], 0, before, to, got, space[..]);
      CopyIsSplice(Bits(data[..got]), Bits(before), 8 * to);
    }

    /** The answer to a malformed request: ERR=1, DONE=1, REQ=0. */
    method Reject(err: nat, done: nat, req: nat)
      requires Live() && err < geo.spaceBits && done < geo.spaceBits && req < geo.spaceBits
      modifies space
      ensures Live() && Memory() == old(Memory())[err := true][done := true][req := false]
    {
      hide Mem;
      BitSet(err, true);
      BitSet(done, true);
      BitSet(req, false);
    }

    /** The end of a served request: GOT, DONE=1, REQ=0. */
    method Complete(got: nat, value: nat, done: nat, req: nat)
      requires Live() && got + geo.nBits <= geo.spaceBits && done < geo.spaceBits && req < geo.spaceBits
      modifies space
      ensures Live()
      ensures Memory() == WriteUint(old(Memory()), got, geo.nBits, value)[done := true][req := false]
    {
      hide Mem, WriteUint;
      WriteField(got, geo.nBits, value);
      BitSet(done, true);
      BitSet(req, false);
    }

    method ClearOut()
      requires Live()
      modifies space
      ensures Live() && Memory() == OutCleared(geo, old(Memory()))
    {
      hide Mem, WriteUint;
      BitSet(geo.mmio.outDone, false);
      BitSet(geo.mmio.outErr, false);
      WriteField(geo.mmio.outGot, geo.nBits, 0);
    }

    method ClearIn()
      requires Live()
      modifies space
      ensures Live() && Memory() == InCleared(geo, old(Memory()))
    {
      hide Mem, WriteUint;
      BitSet(geo.mmio.inDone, false);
      BitSet(geo.mmio.inEof, false);
      BitSet(geo.mmio.inErr, false);
      WriteField(geo.mmio.inGot, geo.nBits, 0);
    }

    /** fwrite, and ERR if something was left over. */
    method Transmit(src: nat, len: nat, put: nat) returns (moved: nat, ghost sent: seq<bool>)
      requires Live() && src % 8 == 0 && len % 8 == 0 && src + len <= geo.spaceBits
      modifies space
      ensures Live() && moved == Min(put, len / 8)
      ensures sent == old(Memory())[src..src + 8 * moved]
      ensures Memory() == if moved != len / 8 then old(Memory())[geo.mmio.outErr := true] else old(Memory())
    {
      hide Mem;
      var nbytes, at := len / 8, src / 8;
      assert 8 * at == src && 8 * nbytes == len;
      moved, sent := 0, [];
      if nbytes > 0 {
        moved, sent := WriteOut(at, nbytes, put);
        if moved != nbytes { BitSet(geo.mmio.outErr, true); }
      }
    }

    /** service_out. */
    method ServeOut(put: nat) returns (ghost sent: seq<bool>)
      requires Live()
      modifies space
      ensures Live() && Memory() == ServiceOut(geo, old(Memory()), put)
      ensures sent == Sent(geo, old(Memory()), put)
    {
      hide Mem, ReadUint, OutCleared, OutAnswered, Pow2, Span;
      sent := [];
      var req := BitGet(geo.mmio.outReq);
      if !req { return; }
      ClearOut();
      var src := ReadField(geo.mmio.outSrc, geo.addrBits);
      var len := ReadField(geo.mmio.outLen, geo.nBits);
      sent := AnswerOut(src, len, put);
    }

    /** The rest of service_out: reject the request or serve it. */
    method AnswerOut(src: nat, len: nat, put: nat) returns (ghost sent: seq<bool>)
      requires Live()
      modifies space
      ensures Live() && Memory() == OutAnswered(geo, old(Memory()), src, len, put)
      ensures sent == if Servable(geo, src, len) then old(Memory())[src..src + 8 * Min(put, len / 8)] else []
    {
      hide Mem, WriteUint, Pow2, Span;
      sent := [];
      if src % 8 != 0 || len % 8 != 0 {
        Reject(geo.mmio.outErr, geo.mmio.outDone, geo.mmio.outReq);
        return;
      }
      if src + len > geo.spaceBits {
        Reject(geo.mmio.outErr, geo.mmio.outDone, geo.mmio.outReq);
        return;
      }
      var moved;
      moved, sent := Transmit(src, len, put);
      Complete(geo.mmio.outGot, 8 * moved, geo.mmio.outDone, geo.mmio.outReq);
    }

    /** fread and the indicators it leaves. */
    method Receive(dst: nat, len: nat, dev: Reaction) returns (got: nat)
      requires Live() && dst % 8 == 0 && len % 8 == 0 && dst + len <= geo.spaceBits
      modifies space
      ensures Live() && got == Min(|dev.data|, len / 8)
      ensures Memory() == Received(geo, old(Memory()), dst, len, dev)
    {
      hide Mem, Bits, Splice;
      var nbytes, at := len / 8, dst / 8;
      assert 8 * at == dst && 8 * nbytes == len;
      got := 0;
      if nbytes > 0 {
        got := ReadIn(at, nbytes, dev.data);
        if got == 0 && dev.eof { BitSet(geo.mmio.inEof, true); }
        if dev.err { BitSet(geo.mmio.inErr, true); }
      }
    }

    /** service_in. */
    method ServeIn(dev: Reaction)
      requires Live()
      modifies space
      ensures Live() && Memory() == ServiceIn(geo, old(Memory()), dev)
    {
      hide Mem, ReadUint, WriteUint, InCleared, Received;
      var req := BitGet(geo.mmio.inReq);
      if !req { return; }
      ClearIn();
      var dst := ReadField(geo.mmio.inDst, geo.addrBits);
      var len := ReadField(geo.mmio.inLen, geo.nBits);
      if dst % 8 != 0 || len % 8 != 0 {
        Reject(geo.mmio.inErr, geo.mmio.inDone, geo.mmio.inReq);
        return;
      }
      if dst + len > geo.spaceBits {
        Reject(geo.mmio.inErr, geo.mmio.inDone, geo.mmio.inReq);
        return;
      }
      var got := Receive(dst, len, dev);
      Complete(geo.mmio.inGot, 8 * got, geo.mmio.inDone, geo.mmio.inReq);
    }

    // ---------------------------------------------------------------- vm_tick, vm_run

    /** The slot loop of vm_tick. */
    method ExecuteSlots() returns (rc: Code)
      requires Live() && lastErr == Blank(tickCounter)
      modifies space, this`trace, this`lastErr
      ensures Live() && lastErr.tick == tickCounter
      ensures SlotsOutcome(version, geo, old(Memory()), trace, Recorded(lastErr), Memory())
      ensures rc == if lastErr.kind == NoError then VmOk else VmErr
      ensures rc == VmOk ==> lastErr == old(lastErr)
    {
      hide SlotsOutcome, Reaches, Fetch, ReadInst, Mem, Outcome, SlotIp, BoundsError;
      ghost var m := Memory();
      trace := [];
      FirstStep(version, geo, m);
      for i := 0 to geo.processorN
        invariant Live() && lastErr == Blank(tickCounter)
        invariant Reaches(version, geo, m, i, trace, Memory())
      {
        SlotInside(geo, i);
        var ins := ReadInstAt(SlotIp(geo, i));
        ghost var now := Memory();
        FetchReads(geo, now, i);
        BoundsOf(geo, ins);
        if ins.n == 0 {
          NopStep(version, geo, m, i, trace, now);
          continue;
        }
        if ins.src + ins.n > geo.spaceBits {
          lastErr := LastErr(SrcBounds, tickCounter, i, ins);
          StepsOutcome(version, geo, m, trace, Recorded(lastErr), now);
          return VmErr;
        }
        if ins.dst + ins.n > geo.spaceBits {
          lastErr := LastErr(DstBounds, tickCounter, i, ins);
          StepsOutcome(version, geo, m, trace, Recorded(lastErr), now);
          return VmErr;
        }
        ghost var before := trace;
        trace := trace + [ins];
        Bitcpy.Bitcpy(version, ins.n, space, ins.src, space, ins.dst);
        CopyStep(version, geo, m, i, before, now, Memory());
      }
      StepsOutcome(version, geo, m, trace, None, Memory());
      rc := VmOk;
    }

    /** vm_tick. */
    method DoTick(dev: Reaction) returns (rc: Code, ghost sent: seq<bool>)
      requires space == null || Live()
      modifies this`trace, this`lastErr, this`tickCounter, space
      ensures space == null ==> rc == VmErr && unchanged(this)
      ensures space != null ==> Live()
      ensures space != null ==> TickOutcome(version, geo, old(Memory()), dev, old(tickCounter),
                                            rc, sent, trace, tickCounter, lastErr, Memory())
    {
      hide SlotsOutcome, ServiceOut, ServiceIn, Sent, Mem;
      sent := [];
      if space == null { return VmErr, sent; }
      lastErr := Blank(tickCounter);
      trace := [];
      sent := ServeOut(dev.put);
      ServeIn(dev);
      var halt := BitGet(geo.mmio.halt);
      if halt {
        tickCounter := tickCounter + 1;
        return VmHalt, sent;
      }
      rc := ExecuteSlots();
      if rc == VmErr { return; }
      tickCounter := tickCounter + 1;
    }

    /** vm_run.  For any program and either bitcpy it is a chain of ticks, each from the memory and
        counter the one before left: all but the last return VM_OK, and it ends after `life` of them
        or with the first that does not.  If the reference run asks for faithful copies only, it is
        the reference run.  And a sealed round runs for as long as one likes: VM_OK, and no bit
        outside the destinations of its instructions ever changes. */
    method DoRun(life: nat, devs: seq<Reaction>) returns (rc: Code, ghost sent: seq<bool>)
      requires |devs| == life && (space == null || Live())
      modifies this`trace, this`lastErr, this`tickCounter, space
      ensures space == null ==> rc == if life == 0 then VmOk else VmErr
      ensures space != null ==> Live()
      ensures space != null ==> RunOutcome(version, geo, old(Now([])), devs, rc, Now(sent))
      ensures space != null && RunFaithful(version, geo, old(Memory()), devs) ==>
                (rc, Memory()) == Run(geo, old(Memory()), devs)
      ensures space != null && SealedRound(geo, old(Memory())) ==>
                rc == VmOk && tickCounter == old(tickCounter) + life && SameOutside(geo, old(Memory()), Memory())
    {
      hide TickOutcome, RunTick, SealedRound, SameOutside, Mem, AllFaithful, WellFormed, RunsOk, EndsWith;
      ghost var m := if space == null then [] else Memory();
      ghost var start := if space == null then State([], 0, lastErr, [], []) else Now([]);
      var k := 0;
      sent := [];
      if space != null { NoTickYet(version, geo, start, devs); }
      if space != null { SealedStart(geo, m); assert devs[0..] == devs; }
      while k < life
        invariant k <= life && (space == null ==> k == 0)
        invariant space != null ==> Live() && Space(geo, m)
        invariant space != null && RunFaithful(version, geo, m, devs) ==>
                    RunFaithful(version, geo, Memory(), devs[k..]) && Run(geo, m, devs) == Run(geo, Memory(), devs[k..])
        invariant space != null ==> start.mem == m && RunsOk(version, geo, start, devs, k, Now(sent))
        invariant space != null && SealedRound(geo, m) ==>
                    tickCounter == old(tickCounter) + k && SameOutside(geo, m, Memory())
      {
        ghost var now, tick := if space == null then [] else Memory(), tickCounter;
        ghost var before := if space == null then start else Now(sent);
        ghost var out;
        rc, out := DoTick(devs[k]);
        if space != null {
          sent := sent + out;
          OneTickMore(version, geo, start, devs, k, before, rc, out, Now(sent));
          TickFollows(version, geo, now, devs[k..], tick, rc, out, trace, tickCounter, lastErr, Memory());
          assert devs[k..][1..] == devs[k + 1..];
          if SealedRound(geo, m) {
            SealedStep(version, geo, m, now, devs[k], tick, rc, out, trace, tickCounter, lastErr, Memory());
          }
        }
        if rc != VmOk { return; }
        k := k + 1;
      }
      rc := VmOk;
    }

    // ---------------------------------------------------------------- vm_build_boot_loader_layer

    /** clear_processor. */
    method ClearProcessor()
      requires Live()
      modifies space
      ensures Live() && forall i :: 0 <= i < geo.processorN ==> Fetch(geo, Memory(), i) == Instr(0, 0, 0)
      ensures forall p :: geo.processorBits <= p < geo.spaceBits ==> Memory()[p] == old(Memory())[p]
    {
      hide Fetch, WriteInst, SlotIp, Mem, Pow2;
      ghost var m := Memory();
      for i := 0 to geo.processorN
        invariant Live() && forall k :: 0 <= k < i ==> Fetch(geo, Memory(), k) == Instr(0, 0, 0)
        invariant forall p :: geo.processorBits <= p < geo.spaceBits ==> Memory()[p] == m[p]
      {
        SlotInside(geo, i);
        WriteSlot(i, Instr(0, 0, 0));
      }
    }

    /** vm_write_inst on a slot, which need not be one of the processor's. */
    method WriteSlot(slot: nat, ins: Instr)
      requires Live() && SlotInSpace(geo, slot) && Encodable(geo, ins)
      modifies space
      ensures Live() && ReadInst(geo, Memory(), SlotIp(geo, slot)) == ins
      ensures slot < geo.processorN ==> Fetch(geo, Memory(), slot) == ins
      ensures forall k :: 0 <= k < geo.processorN && k != slot ==>
                Fetch(geo, Memory(), k) == Fetch(geo, old(Memory()), k)
      ensures forall p | geo.processorBits <= p < geo.spaceBits :: slot < geo.processorN || !InSlot(geo, slot, p) ==>
                Memory()[p] == old(Memory())[p]
    {
      hide Fetch, ReadInst, WriteInst, SlotIp, Mem, Pow2, Encodable;
      WriteInstReadsBack(geo, Memory(), SlotIp(geo, slot), ins);
      if slot < geo.processorN {
        SlotInside(geo, slot);
        SlotWrite(geo, Memory(), slot, ins);
      } else {
        SlotWriteBehind(geo, Memory(), slot, ins);
      }
      WriteInstAt(SlotIp(geo, slot), ins);
    }

    /** vm_build_boot_loader_layer.  The patch slot's number is an unsigned difference: with one slot
        it wraps around, and the patch is written far behind the processor area.  The one demand
        is that it stays inside the buffer. */
    method BuildBootLoader(nextLayerPtr: nat) returns (rc: int)
      requires Live() && (nextLayerPtr < Pow2(geo.addrBits) ==> SlotInSpace(geo, PatchSlot(geo)))
      modifies space
      ensures Live() && rc == if nextLayerPtr >= Pow2(geo.addrBits) then -1 else 0
      ensures rc != 0 ==> Memory() == old(Memory())
      ensures rc == 0 ==> Boots(geo, Memory(), nextLayerPtr)
      ensures rc == 0 && geo.processorN >= 3 ==>
                var n, a, area := geo.processorN, geo.addrBits, geo.processorBits;
                && Fetch(geo, Memory(), 0) == Instr(0, nextLayerPtr, 0)
                && Fetch(geo, Memory(), n - 2) == Instr(a, area - a, a)
                && Fetch(geo, Memory(), n - 1) == Instr(area, 0, 0)
                && forall i :: 0 < i < n - 2 ==> Fetch(geo, Memory(), i) == Instr(0, 0, 0)
      ensures rc == 0 && geo.processorN == 1 ==>
                ReadInst(geo, Memory(), SlotIp(geo, PatchSlot(geo)))
                == Instr(geo.addrBits, 2 * geo.addrBits, geo.addrBits)
      ensures forall p | geo.processorBits <= p < geo.spaceBits ::
                geo.processorN >= 2 || !InSlot(geo, PatchSlot(geo), p) ==> Memory()[p] == old(Memory())[p]
    {
      hide Fetch, ReadInst, SlotIp, Mem, Pow2, Encodable, InSlot, Span;
      if nextLayerPtr >= Pow2(geo.addrBits) { return -1; }
      ghost var n := geo.processorN;
      PatchEncodable(geo, nextLayerPtr);
      BootSlotsEncodable(geo, nextLayerPtr, n - 1);
      PointerEncodable(geo, nextLayerPtr);
      ClearProcessor();
      SlotInside(geo, 0);
      WriteSlot(0, Instr(0, nextLayerPtr, 0));
      var patchSlot := PatchSlot(geo);
      var loadSlot := geo.processorN - 1;
      var srcFieldOfLoad := SlotIp(geo, loadSlot) + geo.offSrc;
      var dstFieldOfSlot0 := SlotIp(geo, 0) + geo.offDst;
      WriteSlot(patchSlot, Instr(geo.addrBits, srcFieldOfLoad, dstFieldOfSlot0));
      ghost var patched := Memory();
      SlotInside(geo, loadSlot);
      WriteSlot(loadSlot, Instr(geo.processorBits, geo.processorStart, 0));
      if n == 1 { PatchStays(geo, patched, Memory()); }
      if n >= 3 { BootLayerSpelled(geo, Memory(), nextLayerPtr); }
      rc := 0;
    }

    /** The loader at work: build the boot layer, then tick once.  On a quiet machine with at least
        three slots, linked with either bitcpy, the processor area becomes the layer at the
        pointer as it stood before the call, and nothing else changes. */
    method BootOneLayer(nextLayerPtr: nat, dev: Reaction) returns (rc: Code)
      requires Live() && geo.processorN >= 3 && LayerAddress(geo, nextLayerPtr) && Quiet(geo, Memory())
      modifies this`trace, this`lastErr, this`tickCounter, space
      ensures Live() && rc == VmOk && tickCounter == old(tickCounter) + 1
      ensures Memory() == Copy(old(Memory()), geo.processorBits, 0, nextLayerPtr)
    {
      hide Mem, Boots, Quiet, RunTick, Fetch, SlotIp, WellFormed, AllFaithful, Copy, TickOutcome, SlotInSpace, InSlot;
      ghost var m, tick := Memory(), tickCounter;
      LayerLoads(geo, m, nextLayerPtr);
      var built := BuildBootLoader(nextLayerPtr);
      ghost var now := Memory();
      QuietAgain(geo, m, now);
      BootTick(geo, now, nextLayerPtr, dev);
      FaithfulEitherWay(version, RunTick(geo, now, dev).trace);
      SameLoad(geo, m, now, nextLayerPtr);
      ghost var sent;
      rc, sent := DoTick(dev);
      TickIsReference(version, geo, now, dev, tick, rc, sent, trace, tickCounter, lastErr, Memory());
      OkIsCounted(version, geo, now, dev, tick, rc, sent, trace, tickCounter, lastErr, Memory());
    }
  }

  lemma LayerLoads(g: Geometry, m: Memory, ptr: nat)
    requires Space(g, m) && g.processorN >= 3 && LayerAddress(g, ptr)
    ensures ptr < Pow2(g.addrBits) && SlotInSpace(g, PatchSlot(g)) && ptr + g.processorBits <= |m|
  {
    hide SlotIp, Pow2;
    PointerFits(g, ptr);
    SlotInside(g, PatchSlot(g));
  }

  /** What leaves the bits behind the processor area alone leaves the machine quiet. */
  lemma QuietAgain(g: Geometry, m: Memory, m': Memory)
    requires Space(g, m) && |m'| == |m| && Quiet(g, m)
    requires forall p :: g.processorBits <= p < g.spaceBits ==> m'[p] == m[p]
    ensures Quiet(g, m')
  {
    hide Pow2, Span;
  }

  lemma FaithfulEitherWay(version: Version, trace: seq<Instr>)
    requires AllFaithful(AsWritten, trace)
    ensures AllFaithful(version, trace)
  {
  }

  lemma OkIsCounted(version: Version, g: Geometry, m: Memory, dev: Reaction, tick: nat,
                    rc: Code, sent: seq<bool>, trace: seq<Instr>, tick': nat, e: LastErr, m': Memory)
    requires Space(g, m) && |m'| == |m| && TickOutcome(version, g, m, dev, tick, rc, sent, trace, tick', e, m')
    ensures rc == VmOk ==> tick' == tick + 1
  {
    hide AfterMmio, Sent, SlotsOutcome;
  }

  /** The boot layer slot by slot. */
  lemma BootLayerSpelled(g: Geometry, m: Memory, ptr: nat)
    requires Space(g, m) && g.processorN >= 3 && Boots(g, m, ptr)
    ensures var n, a, area := g.processorN, g.addrBits, g.processorBits;
            && area >= a && Fetch(g, m, 0) == Instr(0, ptr, 0) && Fetch(g, m, n - 2) == Instr(a, area - a, a)
            && Fetch(g, m, n - 1) == Instr(area, 0, 0)
            && forall i :: 0 < i < n - 2 ==> Fetch(g, m, i) == Instr(0, 0, 0)
  {
    hide Fetch, Pow2;
    AreaEndsWithLastSlot(g);
    SlotZero(g);
    assert Fetch(g, m, 0) == BootSlot(g, ptr, 0);
    assert Fetch(g, m, g.processorN - 2) == BootSlot(g, ptr, g.processorN - 2);
    assert Fetch(g, m, g.processorN - 1) == BootSlot(g, ptr, g.processorN - 1);
  }

  lemma BoundsOf(g: Geometry, ins: Instr)
    ensures BoundsError(g, ins) == if ins.src + ins.n > g.spaceBits then SrcBounds
                                   else if ins.dst + ins.n > g.spaceBits then DstBounds else NoError
  {
  }

  lemma PointerEncodable(g: Geometry, ptr: nat)
    requires WellFormed(g) && ptr < Pow2(g.addrBits)
    ensures Encodable(g, Instr(0, ptr, 0)) && Encodable(g, Instr(0, 0, 0))
  {
  }

  /** What one tick records, for any self-modifying program and either bitcpy.  Each slot was fetched
      from the memory the ones before it left, and exactly those before the recorded one ran; the
      recorded instruction is the one fetched from the memory that is left and violates the
      recorded bound, and the tick is not counted.  If the announced copies are all faithful,
      which they are exactly if those of the reference tick are, replaying them gives that
      memory, and it is the work of the reference run up to that slot. */
  lemma {:induction false} TickTrace(version: Version, g: Geometry, m: Memory, dev: Reaction, tick: nat,
                  rc: Code, sent: seq<bool>, trace: seq<Instr>, tick': nat, e: LastErr, m': Memory)
    requires Space(g, m) && |m'| == |m|
    requires TickOutcome(version, g, m, dev, tick, rc, sent, trace, tick', e, m')
    ensures var m1 := AfterMmio(g, m, dev);
            && InBounds(g, trace)
            && (rc == VmHalt ==> m' == m1 && trace == [])
            && (rc == VmOk ==> Reaches(version, g, m1, g.processorN, trace, m'))
            && (rc == VmErr ==>
                  && e.slot < g.processorN && Reaches(version, g, m1, e.slot, trace, m')
                  && Fetch(g, m', e.slot) == e.ins && e.ins.n > 0
                  && e.kind == BoundsError(g, e.ins) != NoError && e.tick == tick == tick'
                  && (e.kind == SrcBounds <==> e.ins.src + e.ins.n > g.spaceBits)
                  && (e.kind == DstBounds <==> e.ins.src + e.ins.n <= g.spaceBits < e.ins.dst + e.ins.n))
            && (forall k :: 0 <= k < |trace| ==>
                  trace[k].src + trace[k].n <= g.spaceBits && trace[k].dst + trace[k].n <= g.spaceBits)
            && (rc != VmErr ==> tick' == tick + 1 && e == Blank(tick))
            && (AllFaithful(version, trace) <==> AllFaithful(version, RunTick(g, m, dev).trace))
            && (AllFaithful(version, trace) ==>
                  && Replay(g, m1, trace) == m'
                  && (rc == VmErr ==> RunSlots(g, m1, 0, e.slot) == Exec(m', trace, None)))
  {
    hide AfterMmio, Sent, RunSlots, AllFaithful, Replay, Fetch, Slots, Executed, FaultOf, Reaches, WellFormed;
    var m1 := AfterMmio(g, m, dev);
    if rc == VmHalt {
      NothingReplayed(g, m1);
    } else {
      StepsInBounds(version, g, m1, if rc == VmOk then g.processorN else e.slot, trace, m');
      if AllFaithful(version, trace) { FaithfulTrace(version, g, m1, trace, Recorded(e), m'); }
      if AllFaithful(version, RunTick(g, m, dev).trace) {
        TickIsReference(version, g, m, dev, tick, rc, sent, trace, tick', e, m');
      }
    }
  }

  lemma {:induction false} NothingReplayed(g: Geometry, m: Memory)
    requires |m| == g.spaceBits
    ensures InBounds(g, []) && Replay(g, m, []) == m
  {
  }

  /** When a tick of an image whose round passed L1 returns VM_ERR, for either bitcpy.  The image is
      judged before the tick serves the channels: if no pending input request asks for bits below
      processor_bits, and no instruction writes a bit of a later slot, it is exactly if HALT is
      clear after I/O and some source leaves the space. */
  lemma {:induction false} PassedTickFails(version: Version, g: Geometry, m: Memory, dev: Reaction, tick: nat,
                  rc: Code, sent: seq<bool>, trace: seq<Instr>, tick': nat, e: LastErr, m': Memory,
                  cfg: L1.Config, instrs: seq<Instruction>)
    requires Space(g, m) && |m'| == |m|
    requires TickOutcome(version, g, m, dev, tick, rc, sent, trace, tick', e, m')
    requires Decodes(g, m, instrs) && L1.Passes(cfg, instrs) && cfg.spaceBits == g.spaceBits
    requires InputSparesProcessor(g, m) && SparesLaterSlots(g, Slots(g, m))
    ensures rc == VmErr <==> !AfterMmio(g, m, dev)[g.mmio.halt] && !SourcesFit(g, instrs)
    ensures !InputMayWrite(g, m, g.mmio.halt) ==> (rc == VmErr <==> !m[g.mmio.halt] && !SourcesFit(g, instrs))
    ensures rc == VmErr ==> e.kind == SrcBounds
  {
    hide AfterMmio, Sent, Slots, SparesLaterSlots, KeepsToRound, FollowsReference, StopsWhereItMust, SourcesFit,
      L1.Passes, InputMayWrite, InputSparesProcessor;
    var m1 := AfterMmio(g, m, dev);
    SlotsAfterMmio(g, m, dev);
    if !m1[g.mmio.halt] {
      PassedRoundFailsOnlyOnSources(g, m1, trace, Recorded(e), m', cfg, instrs);
    }
  }

  // ------------------------------------------------------------------ runs

  /** A quiet machine whose round stays inside the space and writes behind the registers. */
  ghost predicate SealedRound(g: Geometry, m: Memory)
    requires Space(g, m)
  {
    && Quiet(g, m) && AllFit(g, Slots(g, m))
    && forall op :: op in Slots(g, m) && op.n > 0 ==> g.mmio.end <= op.dst
  }

  /** Only destinations of the round of m differ. */
  ghost predicate SameOutside(g: Geometry, m: Memory, now: Memory)
    requires Space(g, m) && |now| == |m|
  {
    forall p :: 0 <= p < |m| && !Written(Slots(g, m), p) ==> now[p] == m[p]
  }

  lemma SealedStart(g: Geometry, m: Memory)
    requires Space(g, m)
    ensures SameOutside(g, m, m)
  {
  }

  lemma SealedSlots(g: Geometry, m: Memory, now: Memory)
    requires Space(g, m) && |now| == |m| && SealedRound(g, m) && SameOutside(g, m, now)
    ensures Quiet(g, now) && Slots(g, now) == Slots(g, m) && SparesLaterSlots(g, Slots(g, m))
  {
    hide Fetch, Pow2;
    forall p | 0 <= p < g.mmio.end ensures now[p] == m[p] {
      forall op | op in Slots(g, m) ensures !Writes(op, p) { }
    }
    forall k | 0 <= k < g.processorN ensures Fetch(g, now, k) == Fetch(g, m, k) { FetchSame(g, now, m, k); }
    assert SparesProcessor(g, Slots(g, m));
    SparingProcessorSparesSlots(g, Slots(g, m));
  }

  lemma SealedStep(version: Version, g: Geometry, m: Memory, now: Memory, dev: Reaction, tick: nat,
                   rc: Code, sent: seq<bool>, trace: seq<Instr>, tick': nat, e: LastErr, next: Memory)
    requires Space(g, m) && |next| == |now| == |m| && SealedRound(g, m) && SameOutside(g, m, now)
    requires TickOutcome(version, g, now, dev, tick, rc, sent, trace, tick', e, next)
    ensures rc == VmOk && tick' == tick + 1 && SameOutside(g, m, next)
  {
    hide AfterMmio, Sent, RunSlots, Slots, AllFaithful, Executed, FaultOf, BoundsError;
    SealedSlots(g, m, now);
    QuietTick(g, now, dev);
    ExecutedIsAll(g, Slots(g, m), 0);
    ExecutedFromSlots(g, Slots(g, m), 0);
    forall p | 0 <= p < |m| && !Written(Slots(g, m), p) ensures next[p] == m[p] {
      assert !Written(trace, p);
    }
  }

  /** One faithful tick of a run. */
  lemma {:induction false} TickFollows(version: Version, g: Geometry, m: Memory, devs: seq<Reaction>, tick: nat,
                    rc: Code, sent: seq<bool>, trace: seq<Instr>, tick': nat, e: LastErr, next: Memory)
    requires Space(g, m) && |next| == |m| && |devs| > 0
    requires TickOutcome(version, g, m, devs[0], tick, rc, sent, trace, tick', e, next)
    ensures RunFaithful(version, g, m, devs) ==>
              if rc == VmOk then RunFaithful(version, g, next, devs[1..]) && Run(g, m, devs) == Run(g, next, devs[1..])
              else Run(g, m, devs) == (rc, next)
  {
    hide TickOutcome, RunTick, AllFaithful;
    if RunFaithful(version, g, m, devs) {
      TickIsReference(version, g, m, devs[0], tick, rc, sent, trace, tick', e, next);
    }
  }

  lemma ZeroMemory(p: array<Byte>)
    requires forall i :: 0 <= i < p.Length ==> p[i] == 0
    ensures forall i :: 0 <= i < 8 * p.Length ==> !Mem(p)[i]
  {
    hide TestBit;
    forall i | 0 <= i < 8 * p.Length ensures !Mem(p)[i] { ZeroBit(i % 8); }
  }

  lemma ZeroBit(k: nat)
    requires k < 8
    ensures !TestBit(0, k)
  {
  }

  lemma CopyIsSplice(bits: seq<bool>, m: Memory, pos: nat)
    requires pos + |bits| <= |m|
    ensures CopyBetween(bits, 0, m, pos, |bits|) == Splice(m, pos, bits)
  {
  }

  lemma LayoutIsRound(area: nat, a: nat)
    requires area % 8 == 0 && a % 8 == 0
    ensures RoundUp8(area + 8 + 6 * a) == area + 8 + 6 * a
  {
  }

  lemma EmptyField(m: Memory, pos: nat)
    requires pos <= |m|
    ensures UintOf(m[pos..pos]) == 0
  {
  }

  lemma FetchReads(g: Geometry, m: Memory, slot: nat)
    requires Space(g, m) && slot < g.processorN
    ensures SlotIp(g, slot) + 3 * g.addrBits <= g.processorBits
    ensures Fetch(g, m, slot) == ReadInst(g, m, SlotIp(g, slot))
  {
    hide ReadInst, SlotIp;
    SlotInside(g, slot);
  }

  lemma SpliceOneMore(m: Memory, pos: nat, bits: seq<bool>, i: nat)
    requires i < |bits| && pos + |bits| <= |m|
    ensures Splice(m, pos, bits[..i])[pos + i := bits[i]] == Splice(m, pos, bits[..i + 1])
  {
  }

  /** The processor area and the registers fit, for the width the space needs. */
  ghost predicate InitFits(spaceBytes: nat, processorN: nat) {
    forall raw :: IsCeilLog2(8 * spaceBytes, raw) ==>
      processorN * (3 * WidthFor(raw)) + 8 + 6 * WidthFor(raw) <= 8 * spaceBytes
  }

  lemma WidthOfSpace(spaceBytes: nat)
    requires 1 <= spaceBytes <= 0x20_0000_0000_0000
    ensures 1 <= 8 * spaceBytes <= 0x100_0000_0000_0000 == Pow2(56)
  {
    Pow2Of63();
    Pow2Sum(56, 7);
    assert Pow2(7) == 128;
  }

  lemma UniqueWidth(spaceBytes: nat, raw: nat)
    requires IsCeilLog2(8 * spaceBytes, raw)
    ensures forall k :: IsCeilLog2(8 * spaceBytes, k) ==> k == raw
  {
    hide *;
    forall k | IsCeilLog2(8 * spaceBytes, k) ensures k == raw { CeilLog2Unique(8 * spaceBytes, k, raw); }
  }

  lemma WidthRange(spaceBytes: nat, raw: nat)
    requires 1 <= spaceBytes <= 0x20_0000_0000_0000 && IsCeilLog2(8 * spaceBytes, raw)
    ensures var a := WidthFor(raw); 8 <= a <= 56 && a % 8 == 0 && 8 * spaceBytes <= Pow2(a)
  {
    hide Pow2, WidthFor;
    WidthOfSpace(spaceBytes);
    if raw > 56 { Pow2Monotone(56, raw - 1); }
    WidthIsLeast(8 * spaceBytes, raw, 56);
  }

  lemma {:induction false} InstrBytes(n: nat, a: nat)
    requires a % 8 == 0
    ensures 8 * (3 * a / 8) == 3 * a && n * (3 * a) == Span(n, 3 * a) && Span(n, 3 * a) % 8 == 0
  {
    SpanIsProduct(n, 3 * a);
    SpanAligned(n, 3 * a);
  }

  /** The geometry vm_init assembles from its two arguments and the derived width. */
  function GeometryFor(spaceBytes: nat, processorN: nat, a: nat): Geometry {
    var instrBits := 3 * a;
    var processorBits := Span(processorN, instrBits);
    Geometry(spaceBytes, 8 * spaceBytes, processorN, a, a, instrBits, instrBits / 8,
             0, processorBits, 0, a, 2 * a, MmioAt(processorBits, a), processorBits + 8 + 6 * a)
  }

  lemma {:induction false} GeometryIsWellFormed(spaceBytes: nat, processorN: nat, raw: nat)
    requires 1 <= spaceBytes <= 0x20_0000_0000_0000 && processorN >= 1 && IsCeilLog2(8 * spaceBytes, raw)
    ensures var a := WidthFor(raw);
            Span(processorN, 3 * a) + 8 + 6 * a <= 8 * spaceBytes ==> WellFormed(GeometryFor(spaceBytes, processorN, a))
  {
    hide Pow2, WidthFor;
    WidthRange(spaceBytes, raw);
    InstrBytes(processorN, WidthFor(raw));
  }
}
