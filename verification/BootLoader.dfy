/** The self-patching boot layer of vm_build_boot_loader_layer, and chains of such layers. */
module BootLoader {
  import opened Options
  import opened BitSpace
  import opened Encoding
  import opened Geometry
  import opened MmioService
  import opened Machine
  import opened Round
  import opened Stepping
  import opened Bitcpy
  import opened Certificate

  // ------------------------------------------------------------------ writing instructions

  ghost predicate Encodable(g: Geometry, ins: Instr) {
    ins.n < Pow2(g.addrBits) && ins.dst < Pow2(g.addrBits) && ins.src < Pow2(g.addrBits)
  }

  /** An instruction whose fields fit is read back as it was written, and only its own bits
      change. */
  lemma WriteInstReadsBack(g: Geometry, m: Memory, ip: nat, ins: Instr)
    requires WellFormed(g) && ip + 3 * g.addrBits <= |m| && Encodable(g, ins)
    ensures var r := WriteInst(g, m, ip, ins);
            && ReadInst(g, r, ip) == ins
            && forall p :: 0 <= p < |m| && !(ip <= p < ip + 3 * g.addrBits) ==> r[p] == m[p]
  {
    hide Pow2, ReadUint, WriteUint;
    var a := g.addrBits;
    var m1 := WriteUint(m, ip, a, ins.n);
    var m2 := WriteUint(m1, ip + a, a, ins.dst);
    var m3 := WriteUint(m2, ip + 2 * a, a, ins.src);
    WriteThenRead(m, ip, a, ins.n);
    WriteThenRead(m1, ip + a, a, ins.dst);
    WriteThenRead(m2, ip + 2 * a, a, ins.src);
    ReadSame(m1, m3, ip, a);
    ReadSame(m2, m3, ip + a, a);
  }

  /** Equal bits hold equal instructions, wherever they lie. */
  lemma ReadInstMoved(g: Geometry, m: Memory, ip: nat, m': Memory, ip': nat)
    requires WellFormed(g) && ip + 3 * g.addrBits <= |m| && ip' + 3 * g.addrBits <= |m'|
    requires m[ip..ip + 3 * g.addrBits] == m'[ip'..ip' + 3 * g.addrBits]
    ensures ReadInst(g, m, ip) == ReadInst(g, m', ip')
  {
    hide Pow2, UintOf;
    var a := g.addrBits;
    SubField(m, ip, 3 * a, 0, a);
    SubField(m, ip, 3 * a, a, a);
    SubField(m, ip, 3 * a, 2 * a, a);
    SubField(m', ip', 3 * a, 0, a);
    SubField(m', ip', 3 * a, a, a);
    SubField(m', ip', 3 * a, 2 * a, a);
  }

  lemma SubField(m: Memory, at: nat, size: nat, off: nat, width: nat)
    requires at + size <= |m| && off + width <= size
    ensures m[at + off..at + off + width] == m[at..at + size][off..off + width]
  {
    var whole := m[at..at + size];
    var direct, nested := m[at + off..at + off + width], whole[off..off + width];
    forall k | 0 <= k < width ensures direct[k] == nested[k] {
      assert nested[k] == whole[off + k] && direct[k] == m[at + (off + k)];
    }
  }

  /** Writing one slot changes no other slot and nothing outside the processor area. */
  lemma SlotWrite(g: Geometry, m: Memory, slot: nat, ins: Instr)
    requires Space(g, m) && slot < g.processorN && Encodable(g, ins)
    requires SlotIp(g, slot) + 3 * g.addrBits <= |m|
    ensures var r := WriteInst(g, m, SlotIp(g, slot), ins);
            && Fetch(g, r, slot) == ins
            && (forall k :: 0 <= k < g.processorN && k != slot ==> Fetch(g, r, k) == Fetch(g, m, k))
            && (forall p :: g.processorBits <= p < |m| ==> r[p] == m[p])
  {
    hide WriteInst, ReadInst, SlotIp, Pow2, Encodable;
    var r := WriteInst(g, m, SlotIp(g, slot), ins);
    SlotInside(g, slot);
    WriteInstReadsBack(g, m, SlotIp(g, slot), ins);
    forall k | 0 <= k < g.processorN && k != slot ensures Fetch(g, r, k) == Fetch(g, m, k) {
      SlotInside(g, k);
      if k < slot { SlotsApart(g, k, slot); } else { SlotsApart(g, slot, k); }
      var ip := SlotIp(g, k);
      assert r[ip..ip + 3 * g.addrBits] == m[ip..ip + 3 * g.addrBits];
      ReadInstMoved(g, r, ip, m, ip);
    }
  }

  /** Bit p belongs to the slot of that number, whether or not the processor has one. */
  predicate InSlot(g: Geometry, slot: nat, p: int) {
    SlotIp(g, slot) <= p < SlotIp(g, slot) + 3 * g.addrBits
  }

  predicate SlotInSpace(g: Geometry, slot: nat) {
    SlotIp(g, slot) + 3 * g.addrBits <= g.spaceBits
  }

  /** An instruction written at a slot number the processor does not have lands behind the area. */
  lemma SlotWriteBehind(g: Geometry, m: Memory, slot: nat, ins: Instr)
    requires Space(g, m) && g.processorN <= slot && Encodable(g, ins) && SlotIp(g, slot) + 3 * g.addrBits <= |m|
    ensures forall k :: 0 <= k < g.processorN ==> Fetch(g, WriteInst(g, m, SlotIp(g, slot), ins), k) == Fetch(g, m, k)
  {
    hide Fetch, Pow2, WriteInst, SlotIp, Encodable;
    WriteInstReadsBack(g, m, SlotIp(g, slot), ins);
    SlotsApart(g, g.processorN - 1, slot);
    AreaEndsWithLastSlot(g);
    var r := WriteInst(g, m, SlotIp(g, slot), ins);
    forall k | 0 <= k < g.processorN ensures Fetch(g, r, k) == Fetch(g, m, k) { FetchSame(g, r, m, k); }
  }

  lemma AreaEndsWithLastSlot(g: Geometry)
    requires WellFormed(g)
    ensures SlotIp(g, g.processorN - 1) + 3 * g.addrBits == g.processorBits
  {
  }

  // ------------------------------------------------------------------ the boot layer

  /** The unsigned 32-bit difference processor_n - 2. */
  function PatchSlot(g: Geometry): nat {
    if g.processorN >= 2 then g.processorN - 2 else g.processorN + 0xFFFF_FFFE
  }

  /** Slot i of the boot layer for the layer at ptr.  With two slots only, the patch instruction
      takes the place of the pointer. */
  function BootSlot(g: Geometry, ptr: nat, i: nat): Instr {
    if i + 1 == g.processorN then Instr(g.processorBits, g.processorStart, 0)
    else if i + 2 == g.processorN then
      Instr(g.addrBits, SlotIp(g, g.processorN - 1) + g.offSrc, SlotIp(g, 0) + g.offDst)
    else if i == 0 then Instr(0, ptr, 0)
    else Instr(0, 0, 0)
  }

  lemma BootSlotsEncodable(g: Geometry, ptr: nat, i: nat)
    requires WellFormed(g) && i < g.processorN && ptr < Pow2(g.addrBits)
    ensures Encodable(g, BootSlot(g, ptr, i)) && Encodable(g, Instr(0, 0, 0))
  {
    hide SlotIp, Pow2;
    SlotInside(g, g.processorN - 1);
    SlotInside(g, 0);
    SlotZero(g);
    WidthBelowRange(g.addrBits);
  }

  /** The patch instruction and its slot, for any number of slots. */
  lemma PatchEncodable(g: Geometry, ptr: nat)
    requires WellFormed(g) && ptr < Pow2(g.addrBits)
    ensures Encodable(g, Instr(g.addrBits, SlotIp(g, g.processorN - 1) + g.offSrc, SlotIp(g, 0) + g.offDst))
    ensures g.processorN == 1 ==> SlotIp(g, 0) == 0 && SlotIp(g, PatchSlot(g)) >= g.processorBits
  {
    hide SlotIp, Pow2;
    SlotInside(g, g.processorN - 1);
    SlotInside(g, 0);
    SlotZero(g);
    WidthBelowRange(g.addrBits);
    if g.processorN == 1 {
      AreaEndsWithLastSlot(g);
      SlotsApart(g, 0, PatchSlot(g));
    }
  }

  /** What stands behind the processor area is read back as long as its bits stay. */
  lemma PatchStays(g: Geometry, m: Memory, m': Memory)
    requires Space(g, m) && Space(g, m') && g.processorN == 1 && SlotInSpace(g, PatchSlot(g))
    requires forall p :: g.processorBits <= p < g.spaceBits ==> m'[p] == m[p]
    ensures ReadInst(g, m', SlotIp(g, PatchSlot(g))) == ReadInst(g, m, SlotIp(g, PatchSlot(g)))
  {
    hide SlotIp, Pow2, ReadInst;
    AreaEndsWithLastSlot(g);
    SlotsApart(g, 0, PatchSlot(g));
    var ip := SlotIp(g, PatchSlot(g));
    assert m[ip..ip + 3 * g.addrBits] == m'[ip..ip + 3 * g.addrBits];
    ReadInstMoved(g, m, ip, m', ip);
  }

  lemma SlotZero(g: Geometry)
    requires WellFormed(g)
    ensures SlotIp(g, 0) == 0
  {
  }

  lemma {:induction false} WidthBelowRange(a: nat)
    ensures a < Pow2(a)
  {
    if a > 0 { WidthBelowRange(a - 1); }
  }

  /** The processor area holds the boot layer for ptr. */
  ghost predicate Boots(g: Geometry, m: Memory, ptr: nat)
    requires Space(g, m)
  {
    forall i :: 0 <= i < g.processorN ==> Fetch(g, m, i) == BootSlot(g, ptr, i)
  }

  /** The bits from `at` on hold the boot layer for ptr. */
  ghost predicate StoresBootLayer(g: Geometry, m: Memory, at: nat, ptr: nat)
    requires Space(g, m) && at + g.processorBits <= g.spaceBits
  {
    Boots(g, Copy(m, g.processorBits, 0, at), ptr)
  }

  /** A layer address the loader can use: whole bytes, behind the processor area, inside the space. */
  ghost predicate LayerAddress(g: Geometry, at: nat) {
    at % 8 == 0 && g.processorBits <= at && at + g.processorBits <= g.spaceBits
  }

  // ------------------------------------------------------------------ one boot tick

  lemma {:induction false} NopsDoNothing(g: Geometry, m: Memory, i: nat, hi: nat)
    requires Space(g, m) && i <= hi <= g.processorN
    requires forall k :: i <= k < hi ==> Fetch(g, m, k).n == 0
    ensures RunSlots(g, m, i, hi) == Exec(m, [], None)
    decreases hi - i
  {
    hide Fetch;
    if i < hi { NopsDoNothing(g, m, i + 1, hi); }
  }

  /** Copying slot 0's dst field over the src field of the last slot, which starts at ip. */
  lemma PatchedFetch(g: Geometry, m: Memory, ip: nat, m1: Memory)
    requires Space(g, m) && g.processorN >= 2
    requires ip == SlotIp(g, g.processorN - 1) && ip + 3 * g.addrBits <= g.processorBits <= |m|
    requires m1 == Copy(m, g.addrBits, ip + 2 * g.addrBits, g.addrBits)
    ensures Fetch(g, m1, g.processorN - 1)
         == Instr(Fetch(g, m, g.processorN - 1).n, Fetch(g, m, g.processorN - 1).dst, Fetch(g, m, 0).dst)
    ensures forall p :: g.processorBits <= p < |m| ==> m1[p] == m[p]
  {
    hide Pow2, ReadUint, SlotIp;
    var a := g.addrBits;
    SlotsApart(g, 0, g.processorN - 1);
    SlotZero(g);
    ReadSame(m, m1, ip, a);
    ReadSame(m, m1, ip + a, a);
    SameField(m, a, m1, ip + 2 * a, a);
  }

  lemma SameField(m: Memory, at: nat, m': Memory, at': nat, width: nat)
    requires at + width <= |m| && at' + width <= |m| == |m'|
    requires m' == Copy(m, width, at', at)
    ensures ReadUint(m, at, width) == ReadUint(m', at', width)
  {
    assert m[at..at + width] == m'[at'..at' + width];
  }

  /** Slot N-2 copies the pointer out of slot 0 into slot N-1, whose fetch then sees it. */
  lemma PatchIsSeen(g: Geometry, m: Memory, ptr: nat)
    requires Space(g, m) && g.processorN >= 3 && Boots(g, m, ptr)
    ensures var patch := BootSlot(g, ptr, g.processorN - 2);
            && BoundsError(g, patch) == NoError
            && Fetch(g, Copy(m, patch.n, patch.dst, patch.src), g.processorN - 1) == Instr(g.processorBits, 0, ptr)
            && forall p :: g.processorBits <= p < |m| ==> Copy(m, patch.n, patch.dst, patch.src)[p] == m[p]
  {
    hide Pow2, ReadUint, SlotIp, Fetch, Copy;
    var last := g.processorN - 1;
    SlotInside(g, last);
    SlotZero(g);
    var ip := SlotIp(g, last);
    PatchedFetch(g, m, ip, Copy(m, g.addrBits, ip + 2 * g.addrBits, g.addrBits));
    assert Fetch(g, m, last) == BootSlot(g, ptr, last);
    assert Fetch(g, m, 0) == BootSlot(g, ptr, 0);
  }

  /** One boot tick replaces the processor area by the bits at ptr.  Exactly two copies run: the
      patch, and the load as patched; no slot of the new layer does. */
  lemma {:induction false} BootSlots(g: Geometry, m: Memory, ptr: nat)
    requires Space(g, m) && g.processorN >= 3 && Boots(g, m, ptr)
    requires g.processorBits <= ptr && ptr + g.processorBits <= g.spaceBits
    ensures RunSlots(g, m, 0, g.processorN)
         == Exec(Copy(m, g.processorBits, 0, ptr),
                 [BootSlot(g, ptr, g.processorN - 2), Instr(g.processorBits, 0, ptr)], None)
  {
    hide Fetch, Copy, SlotIp, WellFormed;
    var n := g.processorN;
    WidthPositive(g);
    NopsDoNothing(g, m, 0, n - 2);
    RunSlotsInTwo(g, m, 0, n - 2, n);
    PatchIsSeen(g, m, ptr);
    var patch, load := BootSlot(g, ptr, n - 2), Instr(g.processorBits, 0, ptr);
    var m1 := Copy(m, patch.n, patch.dst, patch.src);
    SameLoad(g, m, m1, ptr);
    assert Fetch(g, m, n - 2) == patch;
    var m2 := Copy(m1, load.n, load.dst, load.src);
    assert RunSlots(g, m2, n, n) == Exec(m2, [], None);
    assert RunSlots(g, m1, n - 1, n) == Exec(m2, [load] + [], None);
    assert RunSlots(g, m, n - 2, n) == Exec(m2, [patch] + ([load] + []), None);
    assert [] + ([patch] + ([load] + [])) == [patch, load];
  }

  lemma WidthPositive(g: Geometry)
    requires WellFormed(g)
    ensures g.addrBits > 0 && g.processorBits > 0 && g.processorStart == 0
  {
    SlotInside(g, 0);
  }

  lemma AreaInside(g: Geometry)
    requires WellFormed(g)
    ensures g.processorBits <= g.spaceBits
  {
  }

  lemma SameLoad(g: Geometry, m: Memory, m1: Memory, ptr: nat)
    requires |m| == |m1| == g.spaceBits && g.processorBits <= ptr && ptr + g.processorBits <= g.spaceBits
    requires forall p :: g.processorBits <= p < |m| ==> m1[p] == m[p]
    ensures Copy(m1, g.processorBits, 0, ptr) == Copy(m, g.processorBits, 0, ptr)
  {
  }

  /** vm_tick on a booting memory. */
  lemma BootTick(g: Geometry, m: Memory, ptr: nat, dev: Reaction)
    requires Space(g, m) && g.processorN >= 3 && Boots(g, m, ptr) && Quiet(g, m) && LayerAddress(g, ptr)
    ensures var t := RunTick(g, m, dev);
            && t.rc == VmOk && t.mem == Copy(m, g.processorBits, 0, ptr)
            && |t.trace| == 2 && t.trace[1] == Instr(g.processorBits, 0, ptr)
            && AllFaithful(AsWritten, t.trace)
            && (forall p :: g.processorBits <= p < |m| ==> t.mem[p] == m[p])
            && Quiet(g, t.mem)
  {
    hide RunSlots, RunTick, Boots, SlotIp, AfterMmio;
    BootSlots(g, m, ptr);
    QuietTick(g, m, dev);
    BootCopiesAligned(g, ptr);
  }

  /** Both copies are between whole-byte offsets, where the code as written is right. */
  lemma BootCopiesAligned(g: Geometry, ptr: nat)
    requires WellFormed(g) && g.processorN >= 3 && ptr % 8 == 0
    ensures AllFaithful(AsWritten, [BootSlot(g, ptr, g.processorN - 2), Instr(g.processorBits, 0, ptr)])
  {
    hide SlotIp, Pow2;
    SlotInside(g, g.processorN - 1);
    SlotZero(g);
    AlignedSum(SlotIp(g, g.processorN - 1), g.addrBits);
  }

  lemma AlignedSum(ip: nat, a: nat)
    requires ip % 8 == 0 && a % 8 == 0
    ensures (ip + 2 * a) % 8 == 0
  {
  }

  // ------------------------------------------------------------------ chains of layers

  /** The processor area boots the first of the listed layers, and every stored layer but the last
      is a boot layer for the next. */
  ghost predicate Chained(g: Geometry, m: Memory, layers: seq<nat>)
    requires Space(g, m)
  {
    && (forall j :: 0 <= j < |layers| ==> LayerAddress(g, layers[j]))
    && (|layers| > 0 ==> Boots(g, m, layers[0]))
    && (forall j :: 0 <= j < |layers| - 1 ==> StoresBootLayer(g, m, layers[j], layers[j + 1]))
  }

  /** The memory after j ticks of a chain: layer j in the processor area, all else as at first. */
  function AfterLayers(g: Geometry, m: Memory, layers: seq<nat>, j: nat): (r: Memory)
    requires Space(g, m) && j <= |layers|
    requires forall k :: 0 <= k < |layers| ==> layers[k] + g.processorBits <= g.spaceBits
    ensures |r| == |m|
  {
    if j == 0 then m else Copy(m, g.processorBits, 0, layers[j - 1])
  }

  /** Layer chaining: run any number of ticks up to the length of the chain, with any devices.  The
      machine reports VM_OK, the processor area holds the layer of that number, and every bit
      behind it, stored layers and registers included, is as at first. */
  lemma {:induction false} ChainRuns(g: Geometry, m: Memory, layers: seq<nat>, i: nat, devs: seq<Reaction>)
    requires Space(g, m) && g.processorN >= 3 && Quiet(g, m) && Chained(g, m, layers)
    requires i + |devs| <= |layers|
    ensures Run(g, AfterLayers(g, m, layers, i), devs) == (VmOk, AfterLayers(g, m, layers, i + |devs|))
    ensures RunFaithful(AsWritten, g, AfterLayers(g, m, layers, i), devs)
    decreases |devs|
  {
    hide RunTick, Boots, AllFaithful;
    if |devs| > 0 {
      var now := AfterLayers(g, m, layers, i);
      ChainStep(g, m, layers, i, devs[0]);
      ChainRuns(g, m, layers, i + 1, devs[1..]);
    }
  }

  lemma ChainStep(g: Geometry, m: Memory, layers: seq<nat>, i: nat, dev: Reaction)
    requires Space(g, m) && g.processorN >= 3 && Quiet(g, m) && Chained(g, m, layers) && i < |layers|
    ensures var t := RunTick(g, AfterLayers(g, m, layers, i), dev);
            t.rc == VmOk && t.mem == AfterLayers(g, m, layers, i + 1) && AllFaithful(AsWritten, t.trace)
  {
    hide RunTick, Boots, AllFaithful;
    var now := AfterLayers(g, m, layers, i);
    if i > 0 { assert StoresBootLayer(g, m, layers[i - 1], layers[i]); }
    BootTick(g, now, layers[i], dev);
    SameLoad(g, m, now, layers[i]);
  }

  /** What the closed form says: the processor area is the stored layer, the rest is untouched. */
  lemma AfterLayersMeans(g: Geometry, m: Memory, layers: seq<nat>, j: nat)
    requires Space(g, m) && Chained(g, m, layers) && 0 < j <= |layers|
    ensures var r := AfterLayers(g, m, layers, j);
            && r[..g.processorBits] == m[layers[j - 1]..layers[j - 1] + g.processorBits]
            && r[g.processorBits..] == m[g.processorBits..]
  {
    hide Boots;
  }

  // ------------------------------------------------------------------ how many slots it takes

  lemma TwoSlotLayout(g: Geometry)
    requires WellFormed(g) && g.processorN == 2
    ensures SlotIp(g, 0) == 0 && SlotIp(g, 1) == 3 * g.addrBits && g.processorBits == 6 * g.addrBits
    ensures 12 * g.addrBits + 8 <= g.spaceBits
    ensures g.processorStart == 0 && g.offDst == g.addrBits && g.offSrc == 2 * g.addrBits
  {
    hide Pow2;
    assert Span(1, g.instrBits) == Span(0, g.instrBits) + g.instrBits;
  }

  /** With two slots the patch stands where the pointer should.  It copies its own dst field, and the
      load then fetches the processor area from there: out of its own src field, whatever the
      pointer was. */
  lemma {:induction false} TwoSlotsForgetThePointer(g: Geometry, m: Memory, ptr: nat)
    requires Space(g, m) && g.processorN == 2 && Boots(g, m, ptr)
    ensures g.processorBits == 6 * g.addrBits && 11 * g.addrBits <= |m|
    ensures var a := g.addrBits;
            RunSlots(g, m, 0, 2) == Exec(Copy(Copy(m, a, 5 * a, a), g.processorBits, 0, 5 * a),
                                         [Instr(a, 5 * a, a), Instr(g.processorBits, 0, 5 * a)], None)
  {
    hide Fetch, Copy, SlotIp, WellFormed;
    TwoSlotLayout(g);
    WidthPositive(g);
    var a := g.addrBits;
    var patch, load := Instr(a, 5 * a, a), Instr(g.processorBits, 0, 5 * a);
    var m1 := Copy(m, a, 5 * a, a);
    assert Fetch(g, m, 0) == BootSlot(g, ptr, 0) == patch;
    assert Fetch(g, m, 1) == BootSlot(g, ptr, 1);
    PatchedFetch(g, m, 3 * a, m1);
    var m2 := Copy(m1, load.n, load.dst, load.src);
    assert RunSlots(g, m2, 2, 2) == Exec(m2, [], None);
    assert RunSlots(g, m1, 1, 2) == Exec(m2, [load] + [], None);
    assert RunSlots(g, m, 0, 2) == Exec(m2, [patch] + ([load] + []), None);
  }

  /** With one slot nothing patches the load, which copies the processor area onto itself. */
  lemma {:induction false} OneSlotLoadsItself(g: Geometry, m: Memory, ptr: nat)
    requires Space(g, m) && g.processorN == 1 && Boots(g, m, ptr)
    ensures RunSlots(g, m, 0, 1) == Exec(m, [Instr(g.processorBits, 0, 0)], None)
  {
    hide Fetch, SlotIp, WellFormed;
    WidthPositive(g);
    AreaInside(g);
    var load := Instr(g.processorBits, 0, 0);
    assert Fetch(g, m, 0) == BootSlot(g, ptr, 0) == load;
    assert RunSlots(g, m, 1, 1) == Exec(m, [], None);
    assert Copy(m, g.processorBits, 0, 0) == m;
  }

  /** A quiet memory that boots the layer at ptr, with a one where the processor area that the boot
      layer of one or two slots loads has a zero. */
  lemma TellingMemory(g: Geometry, ptr: nat) returns (m: Memory)
    requires WellFormed(g) && LayerAddress(g, ptr)
    ensures Space(g, m) && Boots(g, m, ptr) && Quiet(g, m) && m[ptr + g.addrBits - 2]
  {
    hide Fetch, Pow2, SlotIp, Encodable, WriteInst;
    var blank: Memory := seq(g.spaceBits, i => false);
    var before := WithBootLayer(g, blank, ptr, g.processorN);
    WidthPositive(g);
    ProcessorAligned(g);
    m := before[ptr + g.addrBits - 2 := true];
    forall k | 0 <= k < g.processorN ensures Fetch(g, m, k) == BootSlot(g, ptr, k) { FetchSame(g, before, m, k); }
    RegistersApart(g, ptr);
  }

  /** The first k slots written as the boot layer asks, nothing behind the processor area changed. */
  lemma {:induction false} WithBootLayer(g: Geometry, m: Memory, ptr: nat, k: nat) returns (r: Memory)
    requires Space(g, m) && LayerAddress(g, ptr) && k <= g.processorN
    ensures Space(g, r) && forall i :: 0 <= i < k ==> Fetch(g, r, i) == BootSlot(g, ptr, i)
    ensures forall p :: g.processorBits <= p < |m| ==> r[p] == m[p]
    decreases k
  {
    hide Fetch, Pow2, SlotIp, Encodable, WriteInst, BootSlot;
    r := m;
    if k > 0 {
      r := WithBootLayer(g, m, ptr, k - 1);
      PointerFits(g, ptr);
      BootSlotsEncodable(g, ptr, k - 1);
      SlotInside(g, k - 1);
      SlotWrite(g, r, k - 1, BootSlot(g, ptr, k - 1));
      r := WriteInst(g, r, SlotIp(g, k - 1), BootSlot(g, ptr, k - 1));
    }
  }

  lemma PointerFits(g: Geometry, ptr: nat)
    requires WellFormed(g) && LayerAddress(g, ptr)
    ensures ptr < Pow2(g.addrBits)
  {
    hide Pow2;
    WidthPositive(g);
  }

  /** Request and halt bits are never the last but one of a byte. */
  lemma RegistersApart(g: Geometry, ptr: nat)
    requires WellFormed(g) && ptr % 8 == 0
    ensures ptr + g.addrBits - 2 != g.mmio.inReq && ptr + g.addrBits - 2 != g.mmio.outReq
    ensures ptr + g.addrBits - 2 != g.mmio.halt
  {
    hide Pow2, Span;
    ProcessorAligned(g);
  }

  /** The promise of the boot layer, that one tick loads the layer at the pointer, is kept on every
      quiet memory if and only if the processor has at least three slots. */
  lemma {:induction false} BootNeedsThreeSlots(g: Geometry, ptr: nat)
    requires WellFormed(g) && LayerAddress(g, ptr)
    ensures g.processorN >= 3
        <==> forall m, dev | Space(g, m) && Boots(g, m, ptr) && Quiet(g, m) ::
               RunTick(g, m, dev).mem == Copy(m, g.processorBits, 0, ptr)
  {
    hide WellFormed, Boots, Quiet, RunTick, Copy;
    if g.processorN >= 3 {
      forall m, dev | Space(g, m) && Boots(g, m, ptr) && Quiet(g, m)
        ensures RunTick(g, m, dev).mem == Copy(m, g.processorBits, 0, ptr)
      {
        BootTick(g, m, ptr, dev);
      }
    } else {
      var m := TellingMemory(g, ptr);
      var dev := Reaction([], false, false, 0);
      FewSlotsMiss(g, m, ptr, dev);
    }
  }

  /** A field that four divides ends in two zeros. */
  lemma SecondLastBit(m: Memory, pos: nat, width: nat, k: nat)
    requires 2 <= width && pos + width <= |m| && ReadUint(m, pos, width) == 4 * k
    ensures !m[pos + width - 2]
  {
    hide UintOf, Pow2;
    UintOfOneMore(m, pos, width - 1);
    UintOfOneMore(m, pos, width - 2);
  }

  /** The second last bits of the first two fields of slot 0. */
  lemma FirstSlotBits(g: Geometry, m: Memory, k: nat)
    requires Space(g, m) && 2 * g.addrBits <= |m|
    ensures Fetch(g, m, 0).n == 4 * k ==> !m[g.addrBits - 2]
    ensures Fetch(g, m, 0).dst == 4 * k ==> !m[2 * g.addrBits - 2]
  {
    hide UintOf, Pow2, ReadUint, Span;
    SlotZero(g);
    if Fetch(g, m, 0).n == 4 * k { SecondLastBit(m, 0, g.addrBits, k); }
    if Fetch(g, m, 0).dst == 4 * k { SecondLastBit(m, g.addrBits, g.addrBits, k); }
  }

  lemma CopiedBit(m: Memory, n: nat, dst: nat, src: nat, i: nat)
    requires src + n <= |m| && dst + n <= |m| && i < n
    ensures Copy(m, n, dst, src)[dst + i] == m[src + i]
  {
  }

  lemma TwoCopies(m: Memory, a: nat)
    requires 2 <= a && 11 * a <= |m|
    ensures Copy(Copy(m, a, 5 * a, a), 6 * a, 0, 5 * a)[a - 2] == m[2 * a - 2]
  {
    hide Copy;
    CopiedBit(m, a, 5 * a, a, a - 2);
    CopiedBit(Copy(m, a, 5 * a, a), 6 * a, 0, 5 * a, a - 2);
  }

  lemma FewSlotSizes(g: Geometry)
    requires WellFormed(g)
    ensures g.processorN >= 1 && g.addrBits >= 8 && g.processorStart == 0
    ensures g.processorBits == 4 * (2 * (g.processorBits / 8)) && 5 * g.addrBits == 4 * (5 * (2 * (g.addrBits / 8)))
    ensures 2 * g.addrBits <= g.spaceBits
  {
    hide Pow2, Span;
    ProcessorAligned(g);
    ByteMultiple(g.processorBits);
    ByteMultiple(g.addrBits);
  }

  lemma ByteMultiple(x: nat)
    requires x % 8 == 0
    ensures x == 4 * (2 * (x / 8))
  {
  }

  /** What one or two slots load has a zero there. */
  lemma {:induction false} FewSlotsLoadZero(g: Geometry, m: Memory, ptr: nat)
    requires Space(g, m) && g.processorN <= 2 && Boots(g, m, ptr) && 8 <= g.addrBits <= |m|
    ensures !RunSlots(g, m, 0, g.processorN).mem[g.addrBits - 2]
  {
    hide WellFormed, RunSlots, Fetch, SlotIp, Copy;
    FewSlotSizes(g);
    var a := g.addrBits;
    assert Fetch(g, m, 0) == BootSlot(g, ptr, 0);
    if g.processorN == 2 {
      TwoSlotLayout(g);
      TwoSlotsForgetThePointer(g, m, ptr);
      FirstSlotBits(g, m, 5 * (2 * (a / 8)));
      TwoCopies(m, a);
    } else {
      FirstSlotBits(g, m, 2 * (g.processorBits / 8));
      OneSlotLoadsItself(g, m, ptr);
    }
  }

  /** On the telling memory one or two slots load something else. */
  lemma {:induction false} FewSlotsMiss(g: Geometry, m: Memory, ptr: nat, dev: Reaction)
    requires Space(g, m) && g.processorN <= 2 && LayerAddress(g, ptr) && Boots(g, m, ptr) && Quiet(g, m)
    requires m[ptr + g.addrBits - 2]
    ensures RunTick(g, m, dev).mem != Copy(m, g.processorBits, 0, ptr)
  {
    hide Quiet, RunSlots, RunTick, Fetch, Pow2, Boots;
    QuietTick(g, m, dev);
    SlotInside(g, 0);
    SlotZero(g);
    FewSlotsLoadZero(g, m, ptr);
    assert Copy(m, g.processorBits, 0, ptr)[g.addrBits - 2];
  }
}
