/** The layout vm_init derives: address width, processor area, MMIO registers. */
module Geometry {
  import opened Encoding

  /** vm_mmio_layout: the bit address of every register. */
  datatype Mmio = Mmio(
    base: nat,
    inReq: nat, inDone: nat, inEof: nat, inErr: nat, inDst: nat, inLen: nat, inGot: nat,
    outReq: nat, outDone: nat, outErr: nat, outSrc: nat, outLen: nat, outGot: nat,
    halt: nat, end: nat)

  /** The size, width and layout fields of vm_t. */
  datatype Geometry = Geometry(
    spaceBytes: nat, spaceBits: nat, processorN: nat,
    addrBits: nat, nBits: nat, instrBits: nat, instrBytes: nat,
    processorStart: nat, processorBits: nat,
    offN: nat, offDst: nat, offSrc: nat,
    mmio: Mmio, workspaceBase: nat)

  /** Registers laid out one after the other from p. */
  function MmioAt(p: nat, a: nat): Mmio {
    Mmio(p,
         p, p + 1, p + 2, p + 3, p + 4, p + 4 + a, p + 4 + 2 * a,
         p + 4 + 3 * a, p + 5 + 3 * a, p + 6 + 3 * a, p + 7 + 3 * a, p + 7 + 4 * a, p + 7 + 5 * a,
         p + 7 + 6 * a, p + 8 + 6 * a)
  }

  /** k slots of w bits each: the product k * w, spelled as repeated addition so that the layout
      has no product of two unknowns. */
  function Span(k: nat, w: nat): nat {
    if k == 0 then 0 else Span(k - 1, w) + w
  }

  lemma {:induction false} SpanIsProduct(k: nat, w: nat)
    ensures Span(k, w) == k * w
  {
    if k > 0 {
      SpanIsProduct(k - 1, w);
      assert k * w == (k - 1) * w + w;
    }
  }

  lemma {:induction false} SpanMonotone(j: nat, k: nat, w: nat)
    requires j <= k
    ensures Span(j, w) <= Span(k, w)
    decreases k
  {
    if j < k { SpanMonotone(j, k - 1, w); }
  }

  lemma {:induction false} SpanAligned(k: nat, w: nat)
    requires w % 8 == 0
    ensures Span(k, w) % 8 == 0
  {
    if k > 0 { SpanAligned(k - 1, w); }
  }

  /** What a successful vm_init leaves behind.  56 bits of address is what an allocation of at
      most 2^53 bytes needs; sums of two addresses then stay below 2^64. */
  ghost predicate WellFormed(g: Geometry) {
    && g.spaceBits == 8 * g.spaceBytes
    && g.processorN >= 1
    && 8 <= g.addrBits <= 56 && g.addrBits % 8 == 0
    && g.spaceBits <= Pow2(g.addrBits)
    && g.nBits == g.addrBits && g.instrBits == 3 * g.addrBits && 8 * g.instrBytes == g.instrBits
    && g.processorStart == 0 && g.processorBits == Span(g.processorN, g.instrBits)
    && g.offN == 0 && g.offDst == g.addrBits && g.offSrc == 2 * g.addrBits
    && g.mmio == MmioAt(g.processorBits, g.addrBits)
    && g.workspaceBase == g.mmio.end <= g.spaceBits
  }

  // ------------------------------------------------------------------ widths

  /** k is the least exponent with x <= 2^k. */
  ghost predicate IsCeilLog2(x: nat, k: nat) {
    x <= Pow2(k) && (k > 0 ==> Pow2(k - 1) < x)
  }

  /** ceil_log2_u64: the 64-bit word p doubles until it reaches x.  Above 2^63 it would wrap to 0. */
  method CeilLog2(x: nat) returns (k: nat)
    requires 1 <= x <= 0x8000_0000_0000_0000
    ensures IsCeilLog2(x, k)
  {
    k := 0;
    var p := 1;
    while p < x
      invariant p == Pow2(k) && 1 <= p <= 0x8000_0000_0000_0000
      invariant k > 0 ==> Pow2(k - 1) < x
      invariant p < x ==> 2 * p <= 0x8000_0000_0000_0000
      decreases x - p
    {
      p := 2 * p % 0x1_0000_0000_0000_0000;
      k := k + 1;
      PowerBelow63(k);
    }
  }

  /** A power of two below 2^63 is at most half of it. */
  lemma {:induction false} PowerBelow63(k: nat)
    ensures Pow2(k) < 0x8000_0000_0000_0000 ==> 2 * Pow2(k) <= 0x8000_0000_0000_0000
  {
    Pow2Of63();
    if k < 63 {
      Pow2Monotone(k + 1, 63);
    } else {
      Pow2Monotone(63, k);
    }
  }

  lemma Pow2Of63()
    ensures Pow2(63) == 0x8000_0000_0000_0000
  {
    assert Pow2(7) == 128 && Pow2(8) == 256;
    Pow2Squares();
    Pow2Sum(32, 24);
    Pow2Sum(56, 7);
  }

  lemma Pow2Squares()
    requires Pow2(8) == 256
    ensures Pow2(24) == 0x100_0000 && Pow2(32) == 0x1_0000_0000
  {
    hide *;
    Pow2Sum(8, 8);
    Pow2Sum(16, 8);
    Pow2Sum(16, 16);
  }

  /** round_up_to_8: (x + 7) & ~7. */
  function RoundUp8(x: nat): (r: nat)
    ensures r % 8 == 0 && x <= r < x + 8
  {
    (x + 7) / 8 * 8
  }

  /** The width rule shared by vm_init and derive_addr_bits. */
  function WidthFor(raw: nat): (a: nat) {
    if RoundUp8(raw) < 8 then 8 else RoundUp8(raw)
  }

  /** The width is the least positive multiple of 8 whose addresses cover the space. */
  lemma {:induction false} WidthIsLeast(x: nat, raw: nat, b: nat)
    requires IsCeilLog2(x, raw)
    ensures WidthFor(raw) >= 8 && WidthFor(raw) % 8 == 0 && x <= Pow2(WidthFor(raw))
    ensures b > 0 && b % 8 == 0 && x <= Pow2(b) ==> WidthFor(raw) <= b
  {
    Pow2Monotone(raw, WidthFor(raw));
    if b > 0 && b % 8 == 0 && b < WidthFor(raw) {
      assert b <= raw - 1;
      Pow2Monotone(b, raw - 1);
    }
  }

  /** ceil(log2(x)) is unique, so both sides derive the same width. */
  lemma CeilLog2Unique(x: nat, k: nat, k': nat)
    requires IsCeilLog2(x, k) && IsCeilLog2(x, k')
    ensures k == k'
  {
    if k < k' { Pow2Monotone(k, k' - 1); }
    if k' < k { Pow2Monotone(k', k - 1); }
  }

  // ------------------------------------------------------------------ slots and registers

  /** vm_proc_slot_ip. */
  function SlotIp(g: Geometry, slot: nat): nat {
    g.processorStart + Span(slot, g.instrBits)
  }

  lemma SlotInside(g: Geometry, slot: nat)
    requires WellFormed(g) && slot < g.processorN
    ensures SlotIp(g, slot) + 3 * g.addrBits <= g.processorBits
    ensures SlotIp(g, slot) % 8 == 0
  {
    SpanMonotone(slot + 1, g.processorN, g.instrBits);
    SpanAligned(slot, g.instrBits);
  }

  /** Different slots do not meet. */
  lemma SlotsApart(g: Geometry, i: nat, j: nat)
    requires WellFormed(g) && i < j
    ensures SlotIp(g, i) + 3 * g.addrBits <= SlotIp(g, j)
  {
    SpanMonotone(i + 1, j, g.instrBits);
  }

  lemma ProcessorAligned(g: Geometry)
    requires WellFormed(g)
    ensures g.processorBits % 8 == 0 && g.mmio.end % 8 == 0
    ensures g.processorBits + 8 < g.spaceBits
  {
    hide Pow2, Span;
    assert g.instrBits == 8 * g.instrBytes;
    SpanAligned(g.processorN, g.instrBits);
    RegistersAligned(g.processorBits, g.addrBits);
  }

  lemma RegistersAligned(p: nat, a: nat)
    requires p % 8 == 0 && a % 8 == 0
    ensures (p + 8 + 6 * a) % 8 == 0
  {
    assert p + 8 + 6 * a == 8 * (p / 8 + 1 + 6 * (a / 8));
  }

  /** The registers in layout order, with their widths. */
  function Registers(g: Geometry): seq<(nat, nat)> {
    var m := g.mmio;
    [(m.inReq, 1), (m.inDone, 1), (m.inEof, 1), (m.inErr, 1),
     (m.inDst, g.addrBits), (m.inLen, g.nBits), (m.inGot, g.nBits),
     (m.outReq, 1), (m.outDone, 1), (m.outErr, 1),
     (m.outSrc, g.addrBits), (m.outLen, g.nBits), (m.outGot, g.nBits),
     (m.halt, 1)]
  }

  /** The registers tile the bits between the processor area and the workspace: the first starts
      the area, each starts where the one before it ends, and the last ends it on a byte
      boundary.  Hence no two meet and none leaves the space. */
  lemma RegistersTile(g: Geometry)
    requires WellFormed(g)
    ensures var rs := Registers(g);
            && rs[0].0 == g.processorBits == g.mmio.base
            && (forall i :: 0 <= i < |rs| - 1 ==> rs[i].0 + rs[i].1 == rs[i + 1].0)
            && rs[|rs| - 1].0 + rs[|rs| - 1].1 == g.mmio.end == g.workspaceBase
            && g.mmio.end % 8 == 0 && g.mmio.end <= g.spaceBits
    ensures var rs := Registers(g);
            forall i, j :: 0 <= i < j < |rs| ==> rs[i].0 + rs[i].1 <= rs[j].0
  {
    ProcessorAligned(g);
  }
}
