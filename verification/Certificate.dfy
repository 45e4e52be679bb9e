/** What a PASS of the two checkers is worth to the machine that runs the round. */
module Certificate {
  import opened Options
  import opened BitSpace
  import opened Encoding
  import opened Geometry
  import opened MmioService
  import opened Machine
  import opened Round
  import opened Stepping
  import opened Bitcpy
  import L2 = ConflictCheck
  import L1 = MemoryCheck

  type Instruction = L2.Instruction

  /** The checker's view of an instruction, as the machine sees it. */
  function Op(ins: Instruction): Instr {
    Instr(ins.n, ins.dst, ins.src)
  }

  function Ops(instrs: seq<Instruction>): (ops: seq<Instr>)
    ensures |ops| == |instrs| && forall k :: 0 <= k < |ops| ==> ops[k] == Op(instrs[k])
  {
    seq(|instrs|, k requires 0 <= k < |instrs| => Op(instrs[k]))
  }

  /** The checkers were given the slots of this memory, read once. */
  ghost predicate Decodes(g: Geometry, m: Memory, instrs: seq<Instruction>)
    requires Space(g, m)
  {
    Ops(instrs) == Slots(g, m)
  }

  /** The hypothesis the checkers leave out: sources stay inside the space too. */
  ghost predicate SourcesFit(g: Geometry, instrs: seq<Instruction>) {
    forall k :: 0 <= k < |instrs| && instrs[k].n > 0 ==> instrs[k].src + instrs[k].n <= g.spaceBits
  }

  /** Every bit of the range lies in a protected region with explicit bounds. */
  ghost predicate Protects(cfg: L1.Config, lo: nat, hi: nat) {
    forall p :: lo <= p < hi ==> L1.IsProtected(cfg, p)
  }

  predicate AllFit(g: Geometry, ops: seq<Instr>) {
    forall k :: 0 <= k < |ops| && ops[k].n > 0 ==> BoundsError(g, ops[k]) == NoError
  }

  // ------------------------------------------------------------------ the simultaneous copy

  /** r is what m becomes if all copies happen at once: each destination bit gets its old source
      bit, every other bit stays. */
  ghost predicate IsSimultaneousCopy(g: Geometry, m: Memory, ops: seq<Instr>, r: Memory)
    requires |m| == g.spaceBits && AllFit(g, ops)
  {
    && |r| == |m|
    && (forall ins, p :: ins in ops && Writes(ins, p) ==>
          BoundsError(g, ins) == NoError && r[p] == m[ins.src + (p - ins.dst)])
    && (forall p :: 0 <= p < |m| && !Written(ops, p) ==> r[p] == m[p])
  }

  /** There is only one such memory. */
  lemma SimultaneousIsUnique(g: Geometry, m: Memory, ops: seq<Instr>, r: Memory, r': Memory)
    requires |m| == g.spaceBits && AllFit(g, ops)
    requires IsSimultaneousCopy(g, m, ops, r) && IsSimultaneousCopy(g, m, ops, r')
    ensures r == r'
  {
    forall p | 0 <= p < |m| ensures r[p] == r'[p] {
      if Written(ops, p) { var ins :| ins in ops && Writes(ins, p); }
    }
  }

  /** It depends on which instructions there are, not on their order or on the NOPs. */
  lemma SimultaneousSameMembers(g: Geometry, m: Memory, a: seq<Instr>, b: seq<Instr>, r: Memory)
    requires |m| == g.spaceBits && AllFit(g, a) && AllFit(g, b) && IsSimultaneousCopy(g, m, a, r)
    requires forall ins: Instr :: ins.n > 0 ==> (ins in a <==> ins in b)
    ensures IsSimultaneousCopy(g, m, b, r)
  {
    forall p ensures Written(a, p) <==> Written(b, p) {
      if Written(a, p) { var ins :| ins in a && Writes(ins, p); }
      if Written(b, p) { var ins :| ins in b && Writes(ins, p); }
    }
  }

  // ------------------------------------------------------------------ claims on a bit

  predicate Reads(ins: Instr, p: int) {
    ins.src <= p < ins.src + ins.n
  }

  function Claim(ins: Instr, p: nat): nat {
    (if Reads(ins, p) then 1 else 0) + (if Writes(ins, p) then 1 else 0)
  }

  /** How many source and destination ranges contain bit p. */
  function ClaimCount(ops: seq<Instr>, p: nat): nat {
    if |ops| == 0 then 0 else Claim(ops[0], p) + ClaimCount(ops[1..], p)
  }

  ghost predicate SingleClaims(ops: seq<Instr>) {
    forall p: nat :: ClaimCount(ops, p) <= 1
  }

  lemma {:induction false} CoverIsClaim(instrs: seq<Instruction>, p: nat)
    ensures L2.CoverCount(L2.Intervals(instrs), p) == ClaimCount(Ops(instrs), p)
  {
    if |instrs| > 0 {
      var x, rest := instrs[0], instrs[1..];
      assert instrs == [x] + rest && Ops(instrs)[1..] == Ops(rest);
      CoverIsClaim(rest, p);
      L2.IntervalsAppend([x], rest);
      L2.CoverAppend(L2.Intervals([x]), L2.Intervals(rest), p);
      assert L2.Intervals([x]) == L2.IntervalsOf(x);
      CoverOfOne(x, p);
    }
  }

  lemma {:induction false} CoverOfOne(x: Instruction, p: nat)
    ensures L2.CoverCount(L2.IntervalsOf(x), p) == Claim(Op(x), p)
  {
    var xs := L2.IntervalsOf(x);
    if x.n > 0 {
      assert xs[..1] == [xs[0]];
      assert L2.CoverCount([xs[0]], p) == if L2.Covers(xs[0], p) then 1 else 0;
    }
  }

  lemma {:induction false} MemberClaims(ops: seq<Instr>, k: nat, p: nat)
    requires k < |ops|
    ensures ClaimCount(ops, p) >= Claim(ops[k], p)
  {
    if k > 0 { MemberClaims(ops[1..], k - 1, p); }
  }

  /** The copies performed claim no more than the whole round. */
  lemma {:induction false} ExecutedClaims(g: Geometry, ops: seq<Instr>, i: nat, p: nat)
    requires i <= |ops|
    ensures ClaimCount(Executed(g, ops, i), p) <= ClaimCount(ops[i..], p)
    decreases |ops| - i
  {
    if i < |ops| {
      ExecutedClaims(g, ops, i + 1, p);
      assert ops[i..][1..] == ops[i + 1..];
      var later := Executed(g, ops, i + 1);
      assert ([ops[i]] + later)[1..] == later;
    }
  }

  /** A round without out-of-bounds instructions performs all of them but the NOPs. */
  lemma {:induction false} ExecutedIsAll(g: Geometry, ops: seq<Instr>, i: nat)
    requires i <= |ops| && AllFit(g, ops)
    ensures FaultOf(g, ops, i) == None
    ensures forall ins: Instr :: ins.n > 0 ==> (ins in Executed(g, ops, i) <==> ins in ops[i..])
    ensures AllFit(g, Executed(g, ops, i))
    decreases |ops| - i
  {
    if i < |ops| {
      ExecutedIsAll(g, ops, i + 1);
      assert ops[i..] == [ops[i]] + ops[i + 1..];
    }
  }

  /** Sequential copies that share no bit act at once. */
  lemma {:induction false} ReplayIsSimultaneous(g: Geometry, m: Memory, trace: seq<Instr>)
    requires |m| == g.spaceBits && InBounds(g, trace) && AllFit(g, trace) && SingleClaims(trace)
    ensures IsSimultaneousCopy(g, m, trace, Replay(g, m, trace))
    decreases |trace|
  {
    if |trace| > 0 {
      var ins, rest := trace[0], trace[1..];
      assert BoundsError(g, ins) == NoError;
      forall k | 0 <= k < |rest| ensures BoundsError(g, rest[k]) == NoError {
        assert rest[k] == trace[k + 1];
      }
      forall p: nat ensures ClaimCount(rest, p) <= 1 { assert ClaimCount(trace, p) <= 1; }
      var m' := Copy(m, ins.n, ins.dst, ins.src);
      ReplayIsSimultaneous(g, m', rest);
      FirstThenRest(g, m, trace, Replay(g, m', rest));
    }
  }

  lemma FirstThenRest(g: Geometry, m: Memory, trace: seq<Instr>, r: Memory)
    requires |m| == g.spaceBits && InBounds(g, trace) && AllFit(g, trace) && SingleClaims(trace)
    requires |trace| > 0 && InBounds(g, trace[1..]) && AllFit(g, trace[1..])
    requires BoundsError(g, trace[0]) == NoError
    requires var ins := trace[0];
             IsSimultaneousCopy(g, Copy(m, ins.n, ins.dst, ins.src), trace[1..], r)
    ensures IsSimultaneousCopy(g, m, trace, r)
  {
    hide SingleClaims, InBounds, Copy;
    assert trace == [trace[0]] + trace[1..];
    forall x, p | x in trace && Writes(x, p)
      ensures BoundsError(g, x) == NoError && r[p] == m[x.src + (p - x.dst)]
    {
      if x in trace[1..] { WrittenLater(g, m, trace, r, x, p); } else { WrittenFirst(g, m, trace, r, p); }
    }
    forall p | 0 <= p < |m| && !Written(trace, p) ensures r[p] == m[p] { WrittenNever(g, m, trace, r, p); }
  }

  lemma WrittenLater(g: Geometry, m: Memory, trace: seq<Instr>, r: Memory, x: Instr, p: int)
    requires |m| == g.spaceBits && SingleClaims(trace) && |trace| > 0 && AllFit(g, trace[1..])
    requires BoundsError(g, trace[0]) == NoError && x in trace[1..] && Writes(x, p)
    requires var ins := trace[0];
             IsSimultaneousCopy(g, Copy(m, ins.n, ins.dst, ins.src), trace[1..], r)
    ensures BoundsError(g, x) == NoError && r[p] == m[x.src + (p - x.dst)]
  {
    hide SingleClaims, ClaimCount, Claim;
    Alone(trace, x, x.src + (p - x.dst));
  }

  lemma WrittenFirst(g: Geometry, m: Memory, trace: seq<Instr>, r: Memory, p: int)
    requires |m| == g.spaceBits && SingleClaims(trace) && |trace| > 0 && AllFit(g, trace[1..])
    requires BoundsError(g, trace[0]) == NoError && Writes(trace[0], p)
    requires var ins := trace[0];
             IsSimultaneousCopy(g, Copy(m, ins.n, ins.dst, ins.src), trace[1..], r)
    ensures r[p] == m[trace[0].src + (p - trace[0].dst)]
  {
    hide SingleClaims, ClaimCount, Claim;
    NotWrittenLater(trace, p);
    assert r[p] == Copy(m, trace[0].n, trace[0].dst, trace[0].src)[p];
  }

  lemma NotWrittenLater(trace: seq<Instr>, p: int)
    requires SingleClaims(trace) && |trace| > 0 && Writes(trace[0], p)
    ensures !Written(trace[1..], p)
  {
    hide SingleClaims, ClaimCount, Claim;
    if Written(trace[1..], p) {
      var y :| y in trace[1..] && Writes(y, p);
      Alone(trace, y, p);
    }
  }

  lemma WrittenNever(g: Geometry, m: Memory, trace: seq<Instr>, r: Memory, p: int)
    requires |m| == g.spaceBits && |trace| > 0 && AllFit(g, trace[1..])
    requires BoundsError(g, trace[0]) == NoError && 0 <= p < |m| && !Written(trace, p)
    requires var ins := trace[0];
             IsSimultaneousCopy(g, Copy(m, ins.n, ins.dst, ins.src), trace[1..], r)
    ensures r[p] == m[p]
  {
    assert trace[0] in trace && forall y :: y in trace[1..] ==> y in trace;
    assert !Written(trace[1..], p);
  }

  /** A bit claimed by the first instruction is claimed by no later one. */
  lemma Alone(trace: seq<Instr>, x: Instr, p: nat)
    requires |trace| > 0 && SingleClaims(trace) && x in trace[1..]
    ensures !((Reads(trace[0], p) || Writes(trace[0], p)) && (Reads(x, p) || Writes(x, p)))
  {
    assert ClaimCount(trace, p) <= 1;
    var j :| 0 <= j < |trace[1..]| && trace[1..][j] == x;
    MemberClaims(trace[1..], j, p);
  }

  /** A list of strictly disjoint instructions that all fit acts as one simultaneous copy. */
  lemma {:induction false} DisjointActsAtOnce(g: Geometry, m: Memory, instrs: seq<Instruction>)
    requires |m| == g.spaceBits && L2.StrictlyDisjoint(instrs) && AllFit(g, Ops(instrs))
    ensures var ops := Ops(instrs);
            FaultOf(g, ops, 0) == None && IsSimultaneousCopy(g, m, ops, Replay(g, m, Executed(g, ops, 0)))
  {
    var ops := Ops(instrs);
    var trace := Executed(g, ops, 0);
    ExecutedIsAll(g, ops, 0);
    assert ops[0..] == ops;
    forall p: nat ensures ClaimCount(trace, p) <= 1 {
      ExecutedClaims(g, ops, 0, p);
      CoverIsClaim(instrs, p);
      assert L2.CoverCount(L2.Intervals(instrs), p) <= 1;
    }
    ReplayIsSimultaneous(g, m, trace);
    SimultaneousSameMembers(g, m, trace, ops, Replay(g, m, trace));
  }

  /** Any order of the same instructions leads to the same memory. */
  lemma {:induction false} AnyOrder(g: Geometry, m: Memory, instrs: seq<Instruction>, shuffled: seq<Instruction>)
    requires |m| == g.spaceBits && L2.StrictlyDisjoint(instrs) && AllFit(g, Ops(instrs))
    requires multiset(instrs) == multiset(shuffled)
    ensures AllFit(g, Ops(shuffled)) && FaultOf(g, Ops(shuffled), 0) == None
    ensures Replay(g, m, Executed(g, Ops(shuffled), 0)) == Replay(g, m, Executed(g, Ops(instrs), 0))
  {
    var a, b := Ops(instrs), Ops(shuffled);
    SameMembers(instrs, shuffled);
    forall k | 0 <= k < |b| && b[k].n > 0 ensures BoundsError(g, b[k]) == NoError {
      assert b[k] in a;
      var j :| 0 <= j < |a| && a[j] == b[k];
    }
    forall p: nat ensures L2.CoverCount(L2.Intervals(shuffled), p) <= 1 {
      L2.CoverPermutes(instrs, shuffled, p);
      assert L2.CoverCount(L2.Intervals(instrs), p) <= 1;
    }
    DisjointActsAtOnce(g, m, instrs);
    DisjointActsAtOnce(g, m, shuffled);
    var r := Replay(g, m, Executed(g, b, 0));
    SimultaneousSameMembers(g, m, b, a, r);
    SimultaneousIsUnique(g, m, a, r, Replay(g, m, Executed(g, a, 0)));
  }

  lemma SameMembers(instrs: seq<Instruction>, shuffled: seq<Instruction>)
    requires multiset(instrs) == multiset(shuffled)
    ensures forall op :: op in Ops(instrs) <==> op in Ops(shuffled)
  {
    forall op ensures op in Ops(instrs) <==> op in Ops(shuffled) {
      if op in Ops(instrs) {
        var j :| 0 <= j < |instrs| && Ops(instrs)[j] == op;
        assert instrs[j] in multiset(shuffled);
        var k :| 0 <= k < |shuffled| && shuffled[k] == instrs[j];
        assert Ops(shuffled)[k] == op;
      }
      if op in Ops(shuffled) {
        var j :| 0 <= j < |shuffled| && Ops(shuffled)[j] == op;
        assert shuffled[j] in multiset(instrs);
        var k :| 0 <= k < |instrs| && instrs[k] == shuffled[j];
        assert Ops(instrs)[k] == op;
      }
    }
  }

  // ------------------------------------------------------------------ L1 and the machine

  /** What a round that passed L1 can write: nothing protected, and only allowed bits where some
      are configured. */
  lemma PassedWrites(g: Geometry, m: Memory, cfg: L1.Config, instrs: seq<Instruction>, p: int)
    requires Space(g, m) && Decodes(g, m, instrs) && L1.Passes(cfg, instrs)
    requires Written(Slots(g, m), p)
    ensures p < cfg.spaceBits && !L1.IsProtected(cfg, p)
    ensures cfg.allowedRegions != [] ==> L1.IsAllowed(cfg, p)
  {
    var op :| op in Slots(g, m) && Writes(op, p);
    var k :| 0 <= k < |Ops(instrs)| && Ops(instrs)[k] == op;
    L1.SafeWrites(cfg, instrs[k], p);
  }

  /** Under a configuration that protects the processor area, a round that passed spares it. */
  lemma PassSparesProcessor(g: Geometry, m: Memory, cfg: L1.Config, instrs: seq<Instruction>)
    requires Space(g, m) && Decodes(g, m, instrs) && L1.Passes(cfg, instrs)
    requires Protects(cfg, 0, g.processorBits)
    ensures SparesProcessor(g, Slots(g, m)) && SparesLaterSlots(g, Slots(g, m))
  {
    hide Slots, WellFormed;
    var ops := Slots(g, m);
    forall k | 0 <= k < |ops| && ops[k].n > 0 ensures g.processorBits <= ops[k].dst {
      assert ops[k] in ops && Writes(ops[k], ops[k].dst);
      PassedWrites(g, m, cfg, instrs, ops[k].dst);
    }
    SparingProcessorSparesSlots(g, ops);
  }

  /** L1 alone gives isolation to a round that spares its later slots, also from L2 conflicts,
      also when the slots end in a bounds error, and also for the bitcpy that is linked as
      written: no protected bit changes, and where regions are allowed no bit outside them does. */
  lemma IsolationFromL1(g: Geometry, m: Memory, trace: seq<Instr>, fault: Option<Fault>, m': Memory,
                        cfg: L1.Config, instrs: seq<Instruction>)
    requires Space(g, m) && |m'| == |m| && KeepsToRound(g, m, trace, fault, m')
    requires Decodes(g, m, instrs) && L1.Passes(cfg, instrs) && SparesLaterSlots(g, Slots(g, m))
    ensures forall p :: 0 <= p < |m| && L1.IsProtected(cfg, p) ==> m'[p] == m[p]
    ensures cfg.allowedRegions != [] ==> forall p :: 0 <= p < |m| && !L1.IsAllowed(cfg, p) ==> m'[p] == m[p]
  {
    hide Slots, Space;
    ExecutedFromSlots(g, Slots(g, m), 0);
    forall p | 0 <= p < |m| && Written(trace, p)
      ensures !L1.IsProtected(cfg, p) && (cfg.allowedRegions != [] ==> L1.IsAllowed(cfg, p))
    {
      var ins :| ins in trace && Writes(ins, p);
      assert ins in Slots(g, m);
      PassedWrites(g, m, cfg, instrs, p);
    }
  }

  lemma FitsMeansSourcesFit(g: Geometry, cfg: L1.Config, instrs: seq<Instruction>)
    requires cfg.spaceBits == g.spaceBits && L1.Passes(cfg, instrs)
    ensures AllFit(g, Ops(instrs)) <==> SourcesFit(g, instrs)
    ensures forall k :: 0 <= k < |instrs| && instrs[k].n > 0 ==> BoundsError(g, Ops(instrs)[k]) != DstBounds
  {
    forall k | 0 <= k < |instrs| && instrs[k].n > 0
      ensures BoundsError(g, Ops(instrs)[k])
           == if instrs[k].src + instrs[k].n <= g.spaceBits then NoError else SrcBounds
    {
      assert L1.Safe(cfg, instrs[k]);
    }
    if AllFit(g, Ops(instrs)) {
      forall k | 0 <= k < |instrs| && instrs[k].n > 0 ensures instrs[k].src + instrs[k].n <= g.spaceBits {
        assert Ops(instrs)[k].n > 0;
      }
    }
  }

  lemma {:induction false} FaultOfFirstMisfit(g: Geometry, ops: seq<Instr>, i: nat)
    requires i <= |ops|
    ensures var f := FaultOf(g, ops, i);
            if f.None? then forall k :: i <= k < |ops| && ops[k].n > 0 ==> BoundsError(g, ops[k]) == NoError
            else i <= f.value.slot < |ops| && f.value.ins == ops[f.value.slot] && f.value.ins.n > 0
                 && f.value.kind == BoundsError(g, f.value.ins) != NoError
    decreases |ops| - i
  {
    if i < |ops| { FaultOfFirstMisfit(g, ops, i + 1); }
  }

  /** When a round that passed L1 ends in VM_ERR.  If none of its instructions writes a bit of a later
      slot, that is exactly if some source range leaves the space, which neither checker looks at;
      a destination error is impossible.  A round that does write a later slot is no longer the
      round that was judged. */
  lemma PassedRoundFailsOnlyOnSources(g: Geometry, m: Memory, trace: seq<Instr>, fault: Option<Fault>, m': Memory,
                                      cfg: L1.Config, instrs: seq<Instruction>)
    requires Space(g, m) && |m'| == |m| && KeepsToRound(g, m, trace, fault, m')
    requires Decodes(g, m, instrs) && L1.Passes(cfg, instrs) && cfg.spaceBits == g.spaceBits
    requires SparesLaterSlots(g, Slots(g, m))
    ensures fault.None? <==> SourcesFit(g, instrs)
    ensures fault.Some? ==> fault.value.kind == SrcBounds
  {
    hide Slots, Space, BoundsError;
    FitsMeansSourcesFit(g, cfg, instrs);
    FaultOfFirstMisfit(g, Ops(instrs), 0);
  }

  // ------------------------------------------------------------------ an image that was judged

  /** Serving the channels leaves the slots alone unless an input request asks for bits of them. */
  lemma SlotsAfterMmio(g: Geometry, m: Memory, dev: Reaction)
    requires Space(g, m) && InputSparesProcessor(g, m)
    ensures Slots(g, AfterMmio(g, m, dev)) == Slots(g, m)
    ensures !InputMayWrite(g, m, g.mmio.halt) ==> AfterMmio(g, m, dev)[g.mmio.halt] == m[g.mmio.halt]
  {
    hide ServiceOut, ServiceIn, Fetch, InAt, InLen, Pow2;
    var m1 := AfterMmio(g, m, dev);
    ServicesReach(g, m, dev);
    forall k | 0 <= k < g.processorN ensures Fetch(g, m1, k) == Fetch(g, m, k) { FetchSame(g, m1, m, k); }
  }

  lemma {:induction false} ReferenceKeepsToRound(g: Geometry, m: Memory)
    requires Space(g, m)
    ensures var e := RunSlots(g, m, 0, g.processorN); KeepsToRound(g, m, e.trace, e.fault, e.mem)
  {
    hide RunSlots, Slots, SparesLaterSlots, WellFormed, Executed, FaultOf;
    if SparesLaterSlots(g, Slots(g, m)) {
      FetchOnceIsEnough(g, m, Slots(g, m), 0);
      ReplayKeeps(g, m, Executed(g, Slots(g, m), 0));
    }
  }

  /** Bytes that clear every bit a request asks for. */
  function Zeros(size: nat): (data: seq<Byte>)
    ensures |data| == size
  {
    seq(size, i => 0)
  }

  lemma ZeroesHalt(g: Geometry, m: Memory)
    requires Space(g, m) && InputMayWrite(g, m, g.mmio.halt)
    ensures !AfterMmio(g, m, Reaction(Zeros(InLen(g, m) / 8), false, false, 0))[g.mmio.halt]
  {
    hide ServiceOut, ServiceIn, InAt, InLen, Pow2, Bits;
    var dev := Reaction(Zeros(InLen(g, m) / 8), false, false, 0);
    ServiceOutKeepsRequest(g, m, 0);
    InputHandshake(g, ServiceOut(g, m, 0), dev);
    assert dev.data[..|dev.data|] == dev.data;
    NoBits(|dev.data|);
  }

  lemma NoBits(size: nat)
    ensures forall i :: 0 <= i < 8 * size ==> !Bits(Zeros(size))[i]
  {
  }

  /** The promise to an image that passed L1, for every device: the tick never returns VM_ERR.  If no
      pending input request asks for bits below processor_bits and no instruction writes a bit of a
      later slot, it is kept if and only if every source fits, or HALT is set where no device can
      clear it. */
  lemma {:induction false} PassedImageNeverFails(g: Geometry, m: Memory, cfg: L1.Config, instrs: seq<Instruction>)
    requires Space(g, m) && Decodes(g, m, instrs) && L1.Passes(cfg, instrs) && cfg.spaceBits == g.spaceBits
    requires InputSparesProcessor(g, m) && SparesLaterSlots(g, Slots(g, m))
    ensures (forall dev :: RunTick(g, m, dev).rc != VmErr)
        <==> SourcesFit(g, instrs) || (m[g.mmio.halt] && !InputMayWrite(g, m, g.mmio.halt))
  {
    hide AfterMmio, Slots, SparesLaterSlots, KeepsToRound, SourcesFit, L1.Passes, InputMayWrite, InputSparesProcessor,
      RunSlots, RunTick, Sent;
    forall dev
      ensures RunTick(g, m, dev).rc == VmErr <==> !AfterMmio(g, m, dev)[g.mmio.halt] && !SourcesFit(g, instrs)
    {
      PassedReferenceTick(g, m, cfg, instrs, dev);
    }
    forall dev ensures !InputMayWrite(g, m, g.mmio.halt) ==> AfterMmio(g, m, dev)[g.mmio.halt] == m[g.mmio.halt] {
      SlotsAfterMmio(g, m, dev);
    }
    if InputMayWrite(g, m, g.mmio.halt) {
      ZeroesHalt(g, m);
      var dev := Reaction(Zeros(InLen(g, m) / 8), false, false, 0);
      assert RunTick(g, m, dev).rc == VmErr <==> !SourcesFit(g, instrs);
    } else {
      var dev := Reaction([], false, false, 0);
      assert RunTick(g, m, dev).rc == VmErr <==> !m[g.mmio.halt] && !SourcesFit(g, instrs);
    }
  }

  lemma {:induction false} PassedReferenceTick(g: Geometry, m: Memory, cfg: L1.Config, instrs: seq<Instruction>,
                                               dev: Reaction)
    requires Space(g, m) && Decodes(g, m, instrs) && L1.Passes(cfg, instrs) && cfg.spaceBits == g.spaceBits
    requires InputSparesProcessor(g, m) && SparesLaterSlots(g, Slots(g, m))
    ensures RunTick(g, m, dev).rc == VmErr <==> !AfterMmio(g, m, dev)[g.mmio.halt] && !SourcesFit(g, instrs)
  {
    hide AfterMmio, Slots, SparesLaterSlots, KeepsToRound, SourcesFit, L1.Passes, InputSparesProcessor, RunSlots, Sent;
    var m1 := AfterMmio(g, m, dev);
    var e := RunSlots(g, m1, 0, g.processorN);
    SlotsAfterMmio(g, m, dev);
    ReferenceKeepsToRound(g, m1);
    PassedRoundFailsOnlyOnSources(g, m1, e.trace, e.fault, e.mem, cfg, instrs);
  }

  // ------------------------------------------------------------------ the parallel meaning of a tick

  /** The slot loop of a round that passed both checkers, spares its later slots and whose sources
      fit: it returns VM_OK and leaves the simultaneous copy. */
  lemma {:induction false} VerifiedRound(g: Geometry, m: Memory, cfg: L1.Config, instrs: seq<Instruction>)
    requires Space(g, m) && Decodes(g, m, instrs)
    requires L1.Passes(cfg, instrs) && cfg.spaceBits == g.spaceBits && SparesLaterSlots(g, Slots(g, m))
    requires L2.StrictlyDisjoint(instrs) && SourcesFit(g, instrs)
    ensures var e := RunSlots(g, m, 0, g.processorN);
            && e.fault == None && AllFit(g, Slots(g, m))
            && IsSimultaneousCopy(g, m, Slots(g, m), e.mem)
            && e.mem == Replay(g, m, Executed(g, Slots(g, m), 0))
            && e.trace == Executed(g, Slots(g, m), 0)
  {
    hide Slots, WellFormed, BoundsError, RunSlots, IsSimultaneousCopy, Replay, Executed;
    FitsMeansSourcesFit(g, cfg, instrs);
    FetchOnceIsEnough(g, m, Slots(g, m), 0);
    DisjointActsAtOnce(g, m, instrs);
  }

  /** The same of the loop the machine really runs, for either bitcpy: if every copy of the round is
      one it does faithfully, the memory is the simultaneous copy. */
  lemma VerifiedRoundByCode(version: Version, g: Geometry, m: Memory, trace: seq<Instr>, fault: Option<Fault>,
                            m': Memory, cfg: L1.Config, instrs: seq<Instruction>)
    requires Space(g, m) && |m'| == |m| && FollowsReference(version, g, m, trace, fault, m')
    requires Decodes(g, m, instrs)
    requires L1.Passes(cfg, instrs) && cfg.spaceBits == g.spaceBits && SparesLaterSlots(g, Slots(g, m))
    requires L2.StrictlyDisjoint(instrs) && SourcesFit(g, instrs)
    requires forall ins :: ins in instrs && ins.n > 0 ==> Faithful(version, ins.n, ins.src, ins.dst, true)
    ensures fault == None && AllFit(g, Slots(g, m)) && IsSimultaneousCopy(g, m, Slots(g, m), m')
  {
    hide Slots, Space, BoundsError, RunSlots, IsSimultaneousCopy, Replay, Executed, Faithful;
    VerifiedRound(g, m, cfg, instrs);
    var copies := Executed(g, Slots(g, m), 0);
    ExecutedFromSlots(g, Slots(g, m), 0);
    forall k | 0 <= k < |copies| ensures Faithful(version, copies[k].n, copies[k].src, copies[k].dst, true) {
      assert copies[k] in Ops(instrs);
      var j :| 0 <= j < |instrs| && Ops(instrs)[j] == copies[k];
      assert instrs[j] in instrs;
    }
  }

  // ------------------------------------------------------------------ verify once, run forever

  /** No request is pending and HALT is clear. */
  predicate Quiet(g: Geometry, m: Memory)
    requires Space(g, m)
  {
    !m[g.mmio.inReq] && !m[g.mmio.outReq] && !m[g.mmio.halt]
  }

  lemma {:induction false} TwoClaims(ops: seq<Instr>, i: nat, j: nat, p: nat)
    requires i < j < |ops|
    ensures ClaimCount(ops, p) >= Claim(ops[i], p) + Claim(ops[j], p)
  {
    if i == 0 { MemberClaims(ops[1..], j - 1, p); } else { TwoClaims(ops[1..], i - 1, j - 1, p); }
  }

  /** What one instruction reads, none of them writes. */
  lemma ReadNotWritten(ops: seq<Instr>, x: Instr, p: nat)
    requires SingleClaims(ops) && x in ops && Reads(x, p)
    ensures !Written(ops, p)
  {
    var i :| 0 <= i < |ops| && ops[i] == x;
    assert ClaimCount(ops, p) <= 1;
    forall y | y in ops ensures !Writes(y, p) {
      var j :| 0 <= j < |ops| && ops[j] == y;
      MemberClaims(ops, i, p);
      if i < j { TwoClaims(ops, i, j, p); }
      if j < i { TwoClaims(ops, j, i, p); }
    }
  }

  /** A conflict-free round is idempotent. */
  lemma SimultaneousTwice(g: Geometry, m: Memory, ops: seq<Instr>, r: Memory)
    requires |m| == g.spaceBits && AllFit(g, ops) && SingleClaims(ops) && IsSimultaneousCopy(g, m, ops, r)
    ensures IsSimultaneousCopy(g, r, ops, r)
  {
    forall ins, p | ins in ops && Writes(ins, p)
      ensures BoundsError(g, ins) == NoError && r[p] == r[ins.src + (p - ins.dst)]
    {
      ReadNotWritten(ops, ins, ins.src + (p - ins.dst));
    }
  }

  /** A memory on which every tick is the identity stays as it is over any run. */
  lemma {:induction false} SteadyRun(g: Geometry, m: Memory, devs: seq<Reaction>)
    requires Space(g, m)
    requires forall dev :: RunTick(g, m, dev).rc == VmOk && RunTick(g, m, dev).mem == m
    ensures Run(g, m, devs) == (VmOk, m)
    decreases |devs|
  {
    hide RunTick;
    if |devs| > 0 { SteadyRun(g, m, devs[1..]); }
  }

  lemma {:induction false} QuietTick(g: Geometry, m: Memory, dev: Reaction)
    requires Space(g, m) && Quiet(g, m)
    ensures AfterMmio(g, m, dev) == m
    ensures var e := RunSlots(g, m, 0, g.processorN);
            RunTick(g, m, dev) == Tick(if e.fault.None? then VmOk else VmErr, e.mem, e.trace, e.fault, [])
  {
    hide RunSlots;
  }

  /** A verified round that also spares the registers leaves them, the slots and the quiet alone. */
  lemma VerifiedStaysQuiet(g: Geometry, m: Memory, cfg: L1.Config, instrs: seq<Instruction>, r: Memory)
    requires Space(g, m) && Decodes(g, m, instrs) && Quiet(g, m) && L1.Passes(cfg, instrs)
    requires Protects(cfg, 0, g.mmio.end)
    requires AllFit(g, Slots(g, m)) && IsSimultaneousCopy(g, m, Slots(g, m), r)
    ensures forall p :: 0 <= p < g.mmio.end ==> r[p] == m[p]
    ensures Quiet(g, r) && Slots(g, r) == Slots(g, m)
  {
    hide Fetch;
    forall p | 0 <= p < g.mmio.end ensures r[p] == m[p] {
      if Written(Slots(g, m), p) { PassedWrites(g, m, cfg, instrs, p); }
    }
    forall k | 0 <= k < g.processorN ensures Fetch(g, r, k) == Fetch(g, m, k) { FetchSame(g, r, m, k); }
  }

  /** Verify once, run forever: for every positive number of ticks and whatever the devices do, the
      run returns VM_OK, processor and registers never change, and the memory is the one the
      first tick left: the simultaneous copy. */
  lemma {:induction false} VerifyOnceRunForever(g: Geometry, m: Memory, cfg: L1.Config, instrs: seq<Instruction>,
                             devs: seq<Reaction>)
    requires Space(g, m) && Decodes(g, m, instrs) && Quiet(g, m) && |devs| >= 1
    requires L1.Passes(cfg, instrs) && cfg.spaceBits == g.spaceBits && Protects(cfg, 0, g.mmio.end)
    requires L2.StrictlyDisjoint(instrs) && SourcesFit(g, instrs)
    ensures var r := RunTick(g, m, devs[0]).mem;
            && Run(g, m, devs) == (VmOk, r)
            && AllFit(g, Slots(g, m)) && IsSimultaneousCopy(g, m, Slots(g, m), r)
            && forall p :: 0 <= p < g.mmio.end ==> r[p] == m[p]
  {
    hide Slots, WellFormed, BoundsError, RunSlots, IsSimultaneousCopy, Replay, Executed, RunTick, AllFit, Quiet;
    AreaBelowRegisters(g);
    PassSparesProcessor(g, m, cfg, instrs);
    VerifiedRound(g, m, cfg, instrs);
    QuietTick(g, m, devs[0]);
    var r := RunTick(g, m, devs[0]).mem;
    VerifiedStaysQuiet(g, m, cfg, instrs, r);
    VerifiedAgain(g, m, cfg, instrs, r);
    SteadyRun(g, r, devs[1..]);
  }

  /** On the memory a verified round has left, every further tick is the identity. */
  lemma VerifiedAgain(g: Geometry, m: Memory, cfg: L1.Config, instrs: seq<Instruction>, r: Memory)
    requires Space(g, m) && Space(g, r) && Decodes(g, r, instrs) && Quiet(g, r)
    requires L1.Passes(cfg, instrs) && cfg.spaceBits == g.spaceBits && Protects(cfg, 0, g.processorBits)
    requires L2.StrictlyDisjoint(instrs) && SourcesFit(g, instrs)
    requires AllFit(g, Slots(g, r)) && IsSimultaneousCopy(g, m, Slots(g, r), r)
    ensures forall dev :: RunTick(g, r, dev).rc == VmOk && RunTick(g, r, dev).mem == r
  {
    hide Slots, WellFormed, BoundsError, RunSlots, IsSimultaneousCopy, Replay, Executed, RunTick, AllFit, Quiet;
    PassSparesProcessor(g, r, cfg, instrs);
    VerifiedRound(g, r, cfg, instrs);
    ClaimsOfDisjoint(instrs);
    SimultaneousTwice(g, m, Slots(g, r), r);
    SimultaneousIsUnique(g, r, Slots(g, r), r, RunSlots(g, r, 0, g.processorN).mem);
    forall dev ensures RunTick(g, r, dev).rc == VmOk && RunTick(g, r, dev).mem == r { QuietTick(g, r, dev); }
  }

  lemma AreaBelowRegisters(g: Geometry)
    requires WellFormed(g)
    ensures g.processorBits <= g.mmio.end
  {
  }

  lemma ClaimsOfDisjoint(instrs: seq<Instruction>)
    requires L2.StrictlyDisjoint(instrs)
    ensures SingleClaims(Ops(instrs))
  {
    forall p: nat ensures ClaimCount(Ops(instrs), p) <= 1 {
      CoverIsClaim(instrs, p);
      assert L2.CoverCount(L2.Intervals(instrs), p) <= 1;
    }
  }
}