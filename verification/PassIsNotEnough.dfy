/** The integration notes promise that a round which passed cannot make vm_tick fail.  It can, in three
    ways: no checker looks at the end of a source range; a configuration that does not protect the
    processor area lets a round rewrite itself into one that was never judged; and a pending
    input request lets the device replace the round before it is fetched. */
module PassIsNotEnough {
  import opened BitSpace
  import opened Encoding
  import opened Geometry
  import opened MmioService
  import opened Machine
  import opened Round
  import opened Stepping
  import opened Bitcpy
  import opened Certificate
  import opened BootLoader
  import opened Image
  import opened Options
  import L2 = ConflictCheck
  import L1 = MemoryCheck

  /** 20 bytes, one slot, 8-bit addresses. */
  const SMALL: Geometry :=
    Geometry(20, 160, 1, 8, 8, 24, 3, 0, 24, 0, 8, 16, MmioAt(24, 8), 80)

  /** copy(8, 80, 160): the source starts where the space ends. */
  const STRAY: Instr := Instr(8, 80, 160)

  function Blank(size: nat): (m: Memory)
    ensures |m| == size && forall i :: 0 <= i < size ==> !m[i]
  {
    seq(size, i => false)
  }

  lemma SmallIsWellFormed()
    ensures WellFormed(SMALL) && Encodable(SMALL, STRAY) && Pow2(8) == 256
  {
    assert Pow2(4) == 16;
    Pow2Sum(4, 4);
  }

  /** A concrete image that passes both checkers, with processor and registers protected and the
      machine quiet, and on which a tick returns VM_ERR whatever the devices do. */
  lemma PassDoesNotExcludeErrors() returns (m: Memory, cfg: L1.Config, instrs: seq<Instruction>)
    ensures Space(SMALL, m) && Decodes(SMALL, m, instrs) && Quiet(SMALL, m)
    ensures L1.Passes(cfg, instrs) && cfg.spaceBits == SMALL.spaceBits && Protects(cfg, 0, SMALL.mmio.end)
    ensures L2.TickConflicts(instrs, 0) == []
    ensures forall dev :: RunTick(SMALL, m, dev).rc == VmErr
  {
    hide WriteInst, Fetch, Slots, Pow2, RunSlots, RunTick, AfterMmio, L2.TickConflicts, L2.StrictlyDisjoint;
    m := StrayImage();
    instrs := [L2.Instruction(0, 8, 80, 160)];
    cfg := L1.Config(160, [L1.Region("code and io", Some(0), Some(80))], []);
    assert Ops(instrs) == Slots(SMALL, m);
    forall p | 0 <= p < 80 ensures L1.IsProtected(cfg, p) {
      assert L1.InRegion(cfg.protectedRegions[0], p);
    }
    NoConflict(instrs[0]);
    StrayFaults(m);
    forall dev ensures RunTick(SMALL, m, dev).rc == VmErr { QuietTick(SMALL, m, dev); }
  }

  lemma StrayImage() returns (m: Memory)
    ensures Space(SMALL, m) && Quiet(SMALL, m) && Fetch(SMALL, m, 0) == STRAY
  {
    hide WriteInst, ReadInst, Pow2;
    SmallIsWellFormed();
    m := WriteInst(SMALL, Blank(160), 0, STRAY);
    WriteInstReadsBack(SMALL, Blank(160), 0, STRAY);
  }

  lemma {:induction false} StrayFaults(m: Memory)
    requires Space(SMALL, m) && Fetch(SMALL, m, 0) == STRAY
    ensures RunSlots(SMALL, m, 0, 1).fault.Some?
  {
    hide Fetch;
  }

  lemma NoConflict(ins: Instruction)
    requires ins == L2.Instruction(0, 8, 80, 160) || ins.n == 0
    ensures L2.TickConflicts([ins], 0) == []
  {
    forall p: nat ensures L2.CoverCount(L2.Intervals([ins]), p) <= 1 {
      assert L2.Intervals([ins]) == L2.IntervalsOf(ins);
      L2.AtMostOne(L2.Intervals([ins]), p);
    }
    L2.VerdictIsExact([ins], 0);
  }

  // ------------------------------------------------------------------ a round that rewrites itself

  /** 30 bytes, two slots, 8-bit addresses. */
  const PAIR: Geometry :=
    Geometry(30, 240, 2, 8, 8, 24, 3, 0, 48, 0, 8, 16, MmioAt(48, 8), 104)

  /** copy(8, 40, 104) writes the src field of slot 1, and copy(8, 200, 184) stands there. */
  const REWRITE: Instr := Instr(8, 40, 104)
  const VICTIM: Instr := Instr(8, 200, 184)

  lemma PairIsWellFormed()
    ensures WellFormed(PAIR) && Encodable(PAIR, REWRITE) && Encodable(PAIR, VICTIM)
    ensures SlotIp(PAIR, 0) == 0 && SlotIp(PAIR, 1) == 24 && Pow2(8) == 256
  {
    hide Pow2, Span;
    SmallIsWellFormed();
    SpanIsProduct(0, 24);
    SpanIsProduct(1, 24);
    SpanIsProduct(2, 24);
  }

  /** Without protected regions every source may fit and the tick still fail: a round that passes both
      checkers, on a quiet machine, on which a tick returns VM_ERR whatever the devices do, because
      slot 0 gives slot 1 a source range that leaves the space.  The one copy performed is one
      that bitcpy does faithfully as written. */
  lemma FittingSourcesDoNotExcludeErrors() returns (m: Memory, cfg: L1.Config, instrs: seq<Instruction>)
    ensures Space(PAIR, m) && Decodes(PAIR, m, instrs) && Quiet(PAIR, m)
    ensures L1.Passes(cfg, instrs) && cfg.spaceBits == PAIR.spaceBits
    ensures L2.TickConflicts(instrs, 0) == []
    ensures SourcesFit(PAIR, instrs) && !SparesLaterSlots(PAIR, Slots(PAIR, m))
    ensures forall dev :: RunTick(PAIR, m, dev).rc == VmErr && AllFaithful(AsWritten, RunTick(PAIR, m, dev).trace)
  {
    hide WriteInst, Fetch, Slots, Pow2, RunSlots, RunTick, AfterMmio, L2.TickConflicts, L2.StrictlyDisjoint;
    m := RewritingImage();
    instrs := [L2.Instruction(0, 8, 40, 104), L2.Instruction(1, 8, 200, 184)];
    cfg := L1.Config(240, [], []);
    assert Ops(instrs) == Slots(PAIR, m);
    assert Slots(PAIR, m)[0] == REWRITE;
    PairIsWellFormed();
    assert !MissesSlot(PAIR, REWRITE, 1);
    NoConflictOfTwo(instrs);
    RewritingFaults(m);
    forall dev ensures RunTick(PAIR, m, dev).rc == VmErr && RunTick(PAIR, m, dev).trace == [REWRITE] {
      QuietTick(PAIR, m, dev);
    }
  }

  lemma RewritingImage() returns (m: Memory)
    ensures Space(PAIR, m) && Quiet(PAIR, m)
    ensures Fetch(PAIR, m, 0) == REWRITE && Fetch(PAIR, m, 1) == VICTIM && ReadUint(m, 104, 8) == 250
  {
    hide WriteInst, ReadInst, Fetch, Pow2, WellFormed, SlotIp, ReadUint, WriteUint;
    PairIsWellFormed();
    var blank := Blank(240);
    var one := WriteInst(PAIR, blank, SlotIp(PAIR, 0), REWRITE);
    SlotWrite(PAIR, blank, 0, REWRITE);
    var two := WriteInst(PAIR, one, SlotIp(PAIR, 1), VICTIM);
    SlotWrite(PAIR, one, 1, VICTIM);
    m := WriteUint(two, 104, 8, 250);
    WriteThenRead(two, 104, 8, 250);
    FetchSame(PAIR, two, m, 0);
    FetchSame(PAIR, two, m, 1);
  }

  /** Slot 0 copies the 250 into the src field of slot 1, which then asks for bits 250 to 258. */
  lemma {:induction false} RewritingFaults(m: Memory)
    requires Space(PAIR, m)
    requires Fetch(PAIR, m, 0) == REWRITE && Fetch(PAIR, m, 1) == VICTIM && ReadUint(m, 104, 8) == 250
    ensures RunSlots(PAIR, m, 0, 2).fault == Some(Fault(SrcBounds, 1, Instr(8, 200, 250)))
    ensures RunSlots(PAIR, m, 0, 2).trace == [REWRITE]
  {
    hide Fetch, Copy, WellFormed;
    var next := Copy(m, 8, 40, 104);
    RewrittenFetch(m, next);
    assert RunSlots(PAIR, next, 1, 2).trace == [];
    assert RunSlots(PAIR, next, 1, 2).fault == Some(Fault(SrcBounds, 1, Instr(8, 200, 250)));
  }

  lemma RewrittenFetch(m: Memory, next: Memory)
    requires Space(PAIR, m) && Fetch(PAIR, m, 1) == VICTIM && ReadUint(m, 104, 8) == 250
    requires next == Copy(m, 8, 40, 104)
    ensures Space(PAIR, next) && Fetch(PAIR, next, 1) == Instr(8, 200, 250)
  {
    hide Pow2, ReadUint, SlotIp;
    PairIsWellFormed();
    ReadSame(m, next, 24, 8);
    ReadSame(m, next, 32, 8);
    SameField(m, 104, next, 40, 8);
  }

  lemma NoConflictOfTwo(instrs: seq<Instruction>)
    requires instrs == [L2.Instruction(0, 8, 40, 104), L2.Instruction(1, 8, 200, 184)]
    ensures L2.TickConflicts(instrs, 0) == []
  {
    forall p: nat ensures L2.CoverCount(L2.Intervals(instrs), p) <= 1 {
      CoverIsClaim(instrs, p);
      assert Ops(instrs)[1..] == [VICTIM];
      assert ClaimCount([VICTIM], p) == Claim(VICTIM, p);
    }
    L2.VerdictIsExact(instrs, 0);
  }

  // ------------------------------------------------------------------ a round that is replaced

  /** A pending input request for the 24 bits of the one slot, a NOP. */
  lemma AskingImage() returns (m: Memory)
    ensures Space(SMALL, m) && Fetch(SMALL, m, 0) == Instr(0, 0, 0)
    ensures m[24] && !m[SMALL.mmio.outReq] && !m[SMALL.mmio.halt]
    ensures InAt(SMALL, m) == 0 && InLen(SMALL, m) == 24
  {
    hide Pow2, UintOf, WriteUint;
    SmallIsWellFormed();
    var asking := Blank(160)[24 := true];
    m := WriteUint(asking, 36, 8, 24);
    WriteThenRead(asking, 36, 8, 24);
    ZeroField(m, 0);
    ZeroField(m, 8);
    ZeroField(m, 16);
    ZeroField(m, 28);
  }

  lemma ZeroField(m: Memory, at: nat)
    requires at + 8 <= |m| && forall p :: at <= p < at + 8 ==> !m[p]
    ensures ReadUint(m, at, 8) == 0
  {
    hide UintOf;
    ZeroUint(m[at..at + 8]);
  }

  /** copy(8, 80, 160), as three bytes. */
  const DELIVERY: Reaction := Reaction([8, 80, 160], false, false, 0)

  /** Without a word about the registers a PASS says nothing of the round that is run: an image with
      processor and registers protected, one NOP, and HALT clear passes both checkers, and a
      device that answers its pending request delivers the instruction the tick fails on. */
  lemma JudgedRoundMayBeReplaced() returns (m: Memory, cfg: L1.Config, instrs: seq<Instruction>)
    ensures Space(SMALL, m) && Decodes(SMALL, m, instrs) && !m[SMALL.mmio.halt]
    ensures L1.Passes(cfg, instrs) && cfg.spaceBits == SMALL.spaceBits && Protects(cfg, 0, SMALL.mmio.end)
    ensures L2.TickConflicts(instrs, 0) == []
    ensures SourcesFit(SMALL, instrs) && SparesProcessor(SMALL, Slots(SMALL, m))
    ensures !InputSparesProcessor(SMALL, m) && RunTick(SMALL, m, DELIVERY).rc == VmErr
  {
    hide Fetch, Slots, Pow2, RunSlots, RunTick, AfterMmio, L2.TickConflicts, L2.StrictlyDisjoint, InAt, InLen;
    m := AskingImage();
    instrs := [L2.Instruction(0, 0, 0, 0)];
    cfg := L1.Config(160, [L1.Region("code and io", Some(0), Some(80))], []);
    assert Ops(instrs) == Slots(SMALL, m);
    forall p | 0 <= p < 80 ensures L1.IsProtected(cfg, p) {
      assert L1.InRegion(cfg.protectedRegions[0], p);
    }
    NoConflict(instrs[0]);
    Delivered(m);
    StrayFaults(AfterMmio(SMALL, m, DELIVERY));
    ErrorTick(m);
  }

  lemma ErrorTick(m: Memory)
    requires Space(SMALL, m) && !AfterMmio(SMALL, m, DELIVERY)[SMALL.mmio.halt]
    requires RunSlots(SMALL, AfterMmio(SMALL, m, DELIVERY), 0, 1).fault.Some?
    ensures RunTick(SMALL, m, DELIVERY).rc == VmErr
  {
    hide AfterMmio, RunSlots, Sent;
  }

  /** After the input service slot 0 holds what was delivered. */
  lemma Delivered(m: Memory)
    requires Space(SMALL, m) && m[24] && !m[SMALL.mmio.outReq] && !m[SMALL.mmio.halt]
    requires InAt(SMALL, m) == 0 && InLen(SMALL, m) == 24
    ensures var r := AfterMmio(SMALL, m, DELIVERY);
            !r[SMALL.mmio.halt] && Space(SMALL, r) && Fetch(SMALL, r, 0) == STRAY
  {
    hide ServiceIn, InAt, InLen, Pow2, Bits, UintOf;
    InputHandshake(SMALL, m, DELIVERY);
    assert DELIVERY.data[..3] == DELIVERY.data;
    var r := AfterMmio(SMALL, m, DELIVERY);
    DeliveredByte(r, 0);
    DeliveredByte(r, 1);
    DeliveredByte(r, 2);
  }

  lemma DeliveredByte(r: Memory, k: nat)
    requires k < 3 && |r| == 160 && forall i :: 0 <= i < 24 ==> r[i] == Bits(DELIVERY.data)[i]
    ensures ReadUint(r, 8 * k, 8) == Value(DELIVERY.data[k])
  {
    hide UintOf, TestBit, Value;
    var b := DELIVERY.data[k];
    var field := r[8 * k..8 * k + 8];
    forall j | 0 <= j < 8 ensures field[j] == OneByte(b)[j] {
      LastByteBit(b, j);
      assert (8 * k + j) / 8 == k && (8 * k + j) % 8 == j;
    }
    assert field == OneByte(b);
    OneByteValue(b);
  }
}
