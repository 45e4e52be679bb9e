/** Images: the reader of src/image_reader.py, the fixture writer of src/snapshot.py and the width
    rule of src/config.py, against each other and against the machine's own decoder. */
module Image {
  import opened Options
  import opened BitSpace
  import opened Encoding
  import opened Geometry
  import opened MmioService
  import opened Machine
  import opened Round
  import opened Certificate
  import Bitcpy
  import L2 = ConflictCheck

  // ------------------------------------------------------------------ bytes as numbers

  /** int.from_bytes(chunk, 'big'). */
  function FromBytes(chunk: seq<Byte>): nat {
    if |chunk| == 0 then 0 else 256 * FromBytes(chunk[..|chunk| - 1]) + Value(chunk[|chunk| - 1])
  }

  function Value(b: Byte): nat {
    b as nat
  }

  /** data[lo:hi], which stops at the end of the data. */
  function Slice(data: seq<Byte>, lo: nat, hi: nat): seq<Byte>
    requires lo <= hi
  {
    if hi <= |data| then data[lo..hi] else if lo <= |data| then data[lo..] else []
  }

  function OneByte(b: Byte): (bits: seq<bool>)
    ensures |bits| == 8
  {
    [TestBit(b, 0), TestBit(b, 1), TestBit(b, 2), TestBit(b, 3),
     TestBit(b, 4), TestBit(b, 5), TestBit(b, 6), TestBit(b, 7)]
  }

  function Digit(b: bool): nat { if b then 1 else 0 }

  lemma ByteValue(b: Byte)
    ensures Value(b) == 128 * Digit(TestBit(b, 0)) + 64 * Digit(TestBit(b, 1)) + 32 * Digit(TestBit(b, 2))
                        + 16 * Digit(TestBit(b, 3)) + 8 * Digit(TestBit(b, 4)) + 4 * Digit(TestBit(b, 5))
                        + 2 * Digit(TestBit(b, 6)) + Digit(TestBit(b, 7))
  {
  }

  lemma {:induction false} UintOfEight(b: seq<bool>)
    requires |b| == 8
    ensures UintOf(b) == 128 * Digit(b[0]) + 64 * Digit(b[1]) + 32 * Digit(b[2]) + 16 * Digit(b[3])
                         + 8 * Digit(b[4]) + 4 * Digit(b[5]) + 2 * Digit(b[6]) + Digit(b[7])
  {
    hide UintOf;
    EmptyUint();
    assert b[0..0] == [] && b[0..8] == b;
    FourMore(b, 0);
    FourMore(b, 4);
  }

  lemma FourMore(b: seq<bool>, i: nat)
    requires i + 4 <= |b|
    ensures UintOf(b[0..i + 4])
         == 16 * UintOf(b[0..i]) + 8 * Digit(b[i]) + 4 * Digit(b[i + 1]) + 2 * Digit(b[i + 2]) + Digit(b[i + 3])
  {
    hide UintOf;
    UintOfOneMore(b, 0, i);
    UintOfOneMore(b, 0, i + 1);
    UintOfOneMore(b, 0, i + 2);
    UintOfOneMore(b, 0, i + 3);
  }

  lemma OneByteValue(b: Byte)
    ensures UintOf(OneByte(b)) == Value(b)
  {
    hide TestBit, UintOf, Value;
    ByteValue(b);
    UintOfEight(OneByte(b));
  }

  lemma BitsOfLast(chunk: seq<Byte>)
    requires |chunk| > 0
    ensures Bits(chunk) == Bits(chunk[..|chunk| - 1]) + OneByte(chunk[|chunk| - 1])
  {
    hide TestBit;
    var front, last := Bits(chunk[..|chunk| - 1]), chunk[|chunk| - 1];
    forall i | 0 <= i < 8 * |chunk| ensures Bits(chunk)[i] == (front + OneByte(last))[i] {
      if i >= |front| { LastByteBit(last, i - |front|); }
    }
  }

  lemma LastByteBit(b: Byte, k: nat)
    requires k < 8
    ensures OneByte(b)[k] == TestBit(b, k)
  {
    hide TestBit;
  }

  /** A big-endian number is the number its bits stand for. */
  lemma {:induction false} FromBytesIsUint(chunk: seq<Byte>)
    ensures FromBytes(chunk) == UintOf(Bits(chunk))
  {
    hide TestBit, UintOf, Value, OneByte, Pow2;
    if |chunk| == 0 {
      assert Bits(chunk) == [];
      EmptyUint();
    } else {
      var front, last := chunk[..|chunk| - 1], chunk[|chunk| - 1];
      FromBytesIsUint(front);
      OneByteValue(last);
      BitsOfLast(chunk);
      UintOfConcat(Bits(front), OneByte(last));
      PowerOfByte();
    }
  }

  lemma EmptyUint()
    ensures UintOf([]) == 0
  {
  }

  lemma PowerOfByte()
    ensures Pow2(8) == 256
  {
    assert Pow2(4) == 16;
    Pow2Sum(4, 4);
  }

  // ------------------------------------------------------------------ the two readers

  /** Bit pos of the data, or 0 behind its end. */
  predicate BitOrZero(data: seq<Byte>, pos: nat) {
    pos / 8 < |data| && TestBit(data[pos / 8], pos % 8)
  }

  function Window(data: seq<Byte>, start: nat, width: nat): (bits: seq<bool>)
    ensures |bits| == width && forall i :: 0 <= i < width ==> bits[i] == BitOrZero(data, start + i)
  {
    seq(width, i requires 0 <= i < width => BitOrZero(data, start + i))
  }

  /** _read_bits_slow: bit after bit, with zeros behind the end of the data. */
  method ReadBitsSlow(data: seq<Byte>, start: nat, width: nat) returns (result: nat)
    ensures result == UintOf(Window(data, start, width))
  {
    hide TestBit, UintOf;
    result := 0;
    ghost var bits := Window(data, start, width);
    EmptyUint();
    for i := 0 to width
      invariant result == UintOf(bits[0..i])
    {
      var pos := start + i;
      if pos / 8 < |data| {
        var bit := TestBit(data[pos / 8], pos % 8);
        result := 2 * result + if bit then 1 else 0;
      } else {
        result := 2 * result;
      }
      UintOfOneMore(bits, 0, i);
    }
    assert bits[0..width] == bits;
  }

  /** _read_bits for widths up to 64: one big-endian number, shifted and masked. */
  function ReadBitsFast(data: seq<Byte>, start: nat, width: nat): nat
    requires 1 <= width <= 64
  {
    var end := start + width;
    var startByte := start / 8;
    var endByte := (end - 1) / 8;
    var nBytes := endByte - startByte + 1;
    var val := FromBytes(Slice(data, startByte, startByte + nBytes));
    var shift := 8 * nBytes - start % 8 - width;
    var shifted := if shift > 0 then val / Pow2(shift) else val;
    shifted % Pow2(width)
  }

  /** _read_bits. */
  function ReadBits(data: seq<Byte>, start: nat, width: int): nat {
    if width <= 0 then 0
    else if width > 64 then UintOf(Window(data, start, width))
    else ReadBitsFast(data, start, width)
  }

  /** Every byte the fast reader asks for is there. */
  lemma FastReadsWindow(data: seq<Byte>, start: nat, width: nat)
    requires 1 <= width <= 64 && start + width <= 8 * |data|
    ensures ReadBitsFast(data, start, width) == UintOf(Window(data, start, width))
    ensures Window(data, start, width) == Bits(data)[start..start + width]
  {
    hide TestBit, UintOf, FromBytes, Pow2, Window, Bits;
    var startByte := start / 8;
    var nBytes := (start + width - 1) / 8 - startByte + 1;
    var chunk := data[startByte..startByte + nBytes];
    var off := start % 8;
    var shift := 8 * nBytes - off - width;
    var m := Bits(chunk);
    FromBytesIsUint(chunk);
    MiddleField(m, off, width);
    WindowInChunk(data, start, width, startByte, nBytes);
    WindowIsBits(data, start, width);
    if shift == 0 { PowerOfZero(); }
  }

  lemma {:induction false} MiddleField(m: seq<bool>, off: nat, width: nat)
    requires off + width <= |m|
    ensures UintOf(m) / Pow2(|m| - off - width) % Pow2(width) == UintOf(m[off..off + width])
  {
    hide UintOf, Pow2;
    UintOfMiddle(m[..off], m[off..off + width], m[off + width..]);
    assert m[..off] + m[off..off + width] + m[off + width..] == m;
  }

  lemma PowerOfZero()
    ensures Pow2(0) == 1
  {
  }

  lemma WindowInChunk(data: seq<Byte>, start: nat, width: nat, startByte: nat, nBytes: nat)
    requires start + width <= 8 * |data| && startByte == start / 8
    requires startByte + nBytes <= |data| && start % 8 + width <= 8 * nBytes
    ensures var m := Bits(data[startByte..startByte + nBytes]);
            Window(data, start, width) == m[start % 8..start % 8 + width]
  {
    hide TestBit;
    var m, off := Bits(data[startByte..startByte + nBytes]), start % 8;
    var field := m[off..off + width];
    forall i | 0 <= i < width ensures Window(data, start, width)[i] == field[i] {
      var pos := start + i;
      assert (off + i) / 8 == pos / 8 - startByte && (off + i) % 8 == pos % 8;
    }
  }

  /** The bytes of the range are all there, or none of them is. */
  predicate WholeOrAbsent(start: nat, width: nat, size: nat)
    requires width >= 1
  {
    (start + width - 1) / 8 < size || size <= start / 8
  }

  /** On data of a given size the fast reader agrees with the slow one for all contents exactly if
      the range is not cut by the end of the data. */
  lemma FastIsSlowExactly(start: nat, width: nat, size: nat)
    requires 1 <= width <= 64
    ensures WholeOrAbsent(start, width, size)
        <==> forall data: seq<Byte> | |data| == size ::
               ReadBitsFast(data, start, width) == UintOf(Window(data, start, width))
  {
    hide ReadBitsFast, Window, UintOf;
    if WholeOrAbsent(start, width, size) {
      forall data: seq<Byte> | |data| == size
        ensures ReadBitsFast(data, start, width) == UintOf(Window(data, start, width))
      {
        if (start + width - 1) / 8 < size {
          FastReadsWindow(data, start, width);
        } else {
          AbsentReadsZero(data, start, width);
        }
      }
    } else {
      var data := LastBitOnly(size);
      CutReadsDiffer(data, start, width);
    }
  }

  lemma {:induction false} ZeroUint(bits: seq<bool>)
    ensures UintOf(bits) == 0 <==> forall i :: 0 <= i < |bits| ==> !bits[i]
  {
    if |bits| > 0 { ZeroUint(bits[..|bits| - 1]); }
  }

  lemma AbsentReadsZero(data: seq<Byte>, start: nat, width: nat)
    requires 1 <= width <= 64 && |data| <= start / 8
    ensures ReadBitsFast(data, start, width) == 0 == UintOf(Window(data, start, width))
  {
    hide UintOf, Pow2, FromBytes;
    ZeroUint(Window(data, start, width));
    var shift := 8 * ((start + width - 1) / 8 - start / 8 + 1) - start % 8 - width;
    NoBytes();
    assert Slice(data, start / 8, (start + width - 1) / 8 + 1) == [];
    DivUnique(0, Pow2(width), 0, 0);
    if shift > 0 { DivUnique(0, Pow2(shift), 0, 0); }
  }

  lemma NoBytes()
    ensures FromBytes([]) == 0
  {
  }

  /** Zero bytes but for the very last bit. */
  lemma LastBitOnly(size: nat) returns (data: seq<Byte>)
    requires size > 0
    ensures |data| == size
    ensures forall i :: 0 <= i < 8 * size ==> Bits(data)[i] == (i == 8 * size - 1)
    ensures forall lo :: 0 <= lo < size ==> FromBytes(data[lo..]) == 1
  {
    data := seq(size, i => if i == size - 1 then 1 else 0);
    forall i | 0 <= i < 8 * size ensures Bits(data)[i] == (i == 8 * size - 1) {
      BitsOfOne(i % 8);
    }
    forall lo | 0 <= lo < size ensures FromBytes(data[lo..]) == 1 {
      ZeroBytes(data[lo..][..|data[lo..]| - 1]);
    }
  }

  lemma BitsOfOne(k: nat)
    requires k < 8
    ensures TestBit(1, k) == (k == 7) && !TestBit(0, k)
  {
  }

  lemma {:induction false} ZeroBytes(chunk: seq<Byte>)
    requires forall i :: 0 <= i < |chunk| ==> chunk[i] == 0
    ensures FromBytes(chunk) == 0
  {
    if |chunk| > 0 { ZeroBytes(chunk[..|chunk| - 1]); }
  }

  /** The fast reader shifts the one bit out or keeps it at the bottom; the slow one, which fills up
      with zeros, leaves it higher. */
  lemma CutReadsDiffer(data: seq<Byte>, start: nat, width: nat)
    requires 1 <= width <= 64 && start / 8 < |data| <= (start + width - 1) / 8
    requires forall i :: 0 <= i < 8 * |data| ==> Bits(data)[i] == (i == 8 * |data| - 1)
    requires forall lo :: 0 <= lo < |data| ==> FromBytes(data[lo..]) == 1
    ensures ReadBitsFast(data, start, width) != UintOf(Window(data, start, width))
  {
    hide TestBit, FromBytes, Pow2, Window, Bits;
    var bits := Window(data, start, width);
    var k := 8 * |data| - 1 - start;
    assert bits[k] by { assert Bits(data)[8 * |data| - 1]; }
    ZeroUint(bits);
    assert !bits[width - 1];
    assert UintOf(bits) >= 2;
    var startByte := start / 8;
    var nBytes := (start + width - 1) / 8 - startByte + 1;
    assert Slice(data, startByte, startByte + nBytes) == data[startByte..];
    ShiftOfOne(8 * nBytes - start % 8 - width, width);
  }

  lemma {:induction false} ShiftOfOne(shift: nat, width: nat)
    requires width >= 1
    ensures (if shift > 0 then 1 / Pow2(shift) else 1) % Pow2(width) <= 1
  {
    if shift > 0 { DivUnique(1, Pow2(shift), 0, 1); }
    Pow2Monotone(1, width);
    DivUnique(0, Pow2(width), 0, 0);
    DivUnique(1, Pow2(width), 0, 1);
  }

  // ------------------------------------------------------------------ widths

  /** ceil(log2(x)), exactly. */
  function CeilLog(x: nat): nat
    requires x >= 1
  {
    if x == 1 then 0 else 1 + CeilLog((x + 1) / 2)
  }

  lemma {:induction false} CeilLogIsLeast(x: nat)
    requires x >= 1
    ensures IsCeilLog2(x, CeilLog(x))
  {
    if x > 1 { CeilLogIsLeast((x + 1) / 2); }
  }

  /** derive_addr_bits. */
  function DeriveAddrBits(spaceBits: int): (a: nat)
    ensures spaceBits <= 1 ==> a == 8
  {
    if spaceBits <= 0 then 8 else WidthFor(CeilLog(spaceBits))
  }

  /** The reader's width is the least positive multiple of 8 that addresses the space, hence the one
      vm_init derives. */
  lemma {:induction false} WidthsAgree(spaceBits: nat, b: nat)
    requires spaceBits >= 1
    ensures var a := DeriveAddrBits(spaceBits);
            && 8 <= a && a % 8 == 0 && spaceBits <= Pow2(a)
            && (b > 0 && b % 8 == 0 && spaceBits <= Pow2(b) ==> a <= b)
            && forall raw :: IsCeilLog2(spaceBits, raw) ==> WidthFor(raw) == a
  {
    hide Pow2, CeilLog, WidthFor, IsCeilLog2;
    CeilLogIsLeast(spaceBits);
    WidthIsLeast(spaceBits, CeilLog(spaceBits), b);
    forall raw | IsCeilLog2(spaceBits, raw) ensures WidthFor(raw) == DeriveAddrBits(spaceBits) {
      CeilLog2Unique(spaceBits, raw, CeilLog(spaceBits));
    }
  }

  // ------------------------------------------------------------------ reading an image

  /** The fields of Config the reader uses. */
  datatype ReaderConfig = ReaderConfig(spaceBytes: nat, processorN: nat, addrBits: nat)

  /** _read_instruction. */
  function ReadInstruction(cfg: ReaderConfig, data: seq<Byte>, slot: nat): L2.Instruction {
    var start := Span(slot, 3 * cfg.addrBits);
    L2.Instruction(slot,
                   ReadBits(data, start, cfg.addrBits),
                   ReadBits(data, start + cfg.addrBits, cfg.addrBits),
                   ReadBits(data, start + 2 * cfg.addrBits, cfg.addrBits))
  }

  /** read; None stands for the ValueError on short data. */
  function Read(cfg: ReaderConfig, data: seq<Byte>): (read: Option<seq<L2.Instruction>>)
    ensures |data| < cfg.spaceBytes <==> read.None?
    ensures read.Some? ==> |read.value| == cfg.processorN
    ensures read.Some? ==> forall slot :: 0 <= slot < cfg.processorN ==> read.value[slot].slot == slot
  {
    if |data| < cfg.spaceBytes then None
    else Some(seq(cfg.processorN, slot requires 0 <= slot < cfg.processorN => ReadInstruction(cfg, data, slot)))
  }

  function ConfigOf(g: Geometry): ReaderConfig {
    ReaderConfig(g.spaceBytes, g.processorN, g.addrBits)
  }

  /** The three fields of `width` bits each that start at `at`. */
  function FieldsAt(m: Memory, at: nat, width: nat): Instr
    requires at + 3 * width <= |m|
  {
    Instr(ReadUint(m, at, width), ReadUint(m, at + width, width), ReadUint(m, at + 2 * width, width))
  }

  /** The processor area lies inside the space. */
  predicate AreaFits(cfg: ReaderConfig) {
    Span(cfg.processorN, 3 * cfg.addrBits) <= 8 * cfg.spaceBytes
  }

  lemma {:induction false} SlotFits(cfg: ReaderConfig, slot: nat)
    requires AreaFits(cfg) && slot < cfg.processorN
    ensures Span(slot, 3 * cfg.addrBits) + 3 * cfg.addrBits <= 8 * cfg.spaceBytes
  {
    SpanMonotone(slot + 1, cfg.processorN, 3 * cfg.addrBits);
  }

  /** _read_bits inside the data, for every width: the bit loop's number, which is that of the bits. */
  lemma ReadBitsInside(data: seq<Byte>, start: nat, width: nat)
    requires start + width <= 8 * |data|
    ensures ReadBits(data, start, width) == UintOf(Window(data, start, width)) == ReadUint(Bits(data), start, width)
  {
    hide Bits, TestBit, ReadBitsFast, UintOf, Window;
    WindowIsBits(data, start, width);
    if width == 0 {
      EmptyUint();
      assert Window(data, start, width) == [];
    } else if width <= 64 {
      FastReadsWindow(data, start, width);
    }
  }

  lemma WindowIsBits(data: seq<Byte>, start: nat, width: nat)
    requires start + width <= 8 * |data|
    ensures Window(data, start, width) == Bits(data)[start..start + width]
  {
    hide TestBit;
    var field := Bits(data)[start..start + width];
    forall i | 0 <= i < width ensures Window(data, start, width)[i] == field[i] { }
  }

  /** On an image of full size whose processor area fits the space, read never meets the end of the
      data: every field is the number the slow reader gives, and that of its bits. */
  lemma {:induction false} ReadIsUncut(cfg: ReaderConfig, data: seq<Byte>, slot: nat)
    requires AreaFits(cfg) && |data| >= cfg.spaceBytes && slot < cfg.processorN
    ensures var start, a := Span(slot, 3 * cfg.addrBits), cfg.addrBits;
            && start + 3 * a <= 8 * |data|
            && ReadInstruction(cfg, data, slot)
               == L2.Instruction(slot, UintOf(Window(data, start, a)), UintOf(Window(data, start + a, a)),
                                 UintOf(Window(data, start + 2 * a, a)))
            && Op(ReadInstruction(cfg, data, slot)) == FieldsAt(Bits(data), start, a)
  {
    hide Bits, ReadBits, UintOf, Window, Span;
    SlotFits(cfg, slot);
    var start, a := Span(slot, 3 * cfg.addrBits), cfg.addrBits;
    ReadBitsInside(data, start, a);
    ReadBitsInside(data, start + a, a);
    ReadBitsInside(data, start + 2 * a, a);
  }

  /** The machine fetches the three fields of the slot. */
  lemma {:induction false} FetchIsFields(g: Geometry, m: Memory, slot: nat)
    requires Space(g, m) && slot < g.processorN
    ensures SlotIp(g, slot) == Span(slot, 3 * g.addrBits) && Span(slot, 3 * g.addrBits) + 3 * g.addrBits <= |m|
    ensures Fetch(g, m, slot) == FieldsAt(m, Span(slot, 3 * g.addrBits), g.addrBits)
  {
    hide Pow2, ReadUint, Span;
    SlotInside(g, slot);
  }

  lemma GeometryFits(g: Geometry)
    requires WellFormed(g)
    ensures AreaFits(ConfigOf(g))
  {
    hide Span;
  }

  lemma FieldsOfPrefix(m: Memory, size: nat, at: nat, width: nat)
    requires at + 3 * width <= size <= |m|
    ensures FieldsAt(m[..size], at, width) == FieldsAt(m, at, width)
  {
    hide UintOf;
    PrefixField(m, size, at, width);
    PrefixField(m, size, at + width, width);
    PrefixField(m, size, at + 2 * width, width);
  }

  lemma PrefixField(m: Memory, size: nat, at: nat, width: nat)
    requires at + width <= size <= |m|
    ensures ReadUint(m[..size], at, width) == ReadUint(m, at, width)
  {
    assert m[..size][at..at + width] == m[at..at + width];
  }

  /** Reader and machine decode the same instructions from the same bytes, and the reader numbers
      them apart: what the checkers judge is what the machine will fetch. */
  lemma ReaderAgreesWithMachine(g: Geometry, data: seq<Byte>)
    requires WellFormed(g) && |data| >= g.spaceBytes
    ensures var m := Bits(data)[..g.spaceBits];
            var read := Read(ConfigOf(g), data);
            && read.Some? && Space(g, m) && Decodes(g, m, read.value)
            && L2.DistinctSlots(read.value)
  {
    hide Bits, ReadInstruction, FieldsAt, Span, Fetch, SlotIp, AreaFits;
    var m := Bits(data)[..g.spaceBits];
    GeometryFits(g);
    var instrs := Read(ConfigOf(g), data).value;
    forall k | 0 <= k < g.processorN ensures Op(instrs[k]) == Slots(g, m)[k] && instrs[k].slot == k {
      ReadIsUncut(ConfigOf(g), data, k);
      FetchIsFields(g, m, k);
      FieldsOfPrefix(Bits(data), g.spaceBits, Span(k, 3 * g.addrBits), g.addrBits);
    }
    assert Ops(instrs) == Slots(g, m);
  }

  // ------------------------------------------------------------------ writing a fixture

  /** The bits write_bits changes: those of the field that lie inside the data. */
  function WriteClipped(m: Memory, offset: nat, width: nat, value: int): (r: Memory)
    ensures |r| == |m|
    ensures forall p :: 0 <= p < |m| ==>
              r[p] == if offset <= p < offset + width then BitsOf(value, width)[p - offset] else m[p]
  {
    seq(|m|, p requires 0 <= p < |m| =>
      if offset <= p < offset + width then BitsOf(value, width)[p - offset] else m[p])
  }

  /** write_bits: bit after bit, in place, until the field or the data ends. */
  method WriteBits(data: array<Byte>, offset: nat, width: nat, value: int)
    modifies data
    ensures Mem(data) == WriteClipped(old(Mem(data)), offset, width, value)
  {
    hide Mem, BitsOf, Pow2;
    ghost var m := Mem(data);
    for i := 0 to width
      invariant forall p :: 0 <= p < |m| ==>
                  Mem(data)[p] == if offset <= p < offset + i then BitsOf(value, width)[p - offset] else m[p]
    {
      var bit := value / Pow2(width - 1 - i) % 2 == 1;
      BitsOfShift(value, width, i);
      var pos := offset + i;
      if pos / 8 >= data.Length { break; }
      Bitcpy.BitSetPtr(data, pos, bit);
    }
  }

  /** The three fields of one slot. */
  function WriteTriple(m: Memory, offset: nat, width: nat, t: (int, int, int)): (r: Memory)
    ensures |r| == |m|
  {
    WriteClipped(WriteClipped(WriteClipped(m, offset, width, t.0), offset + width, width, t.1),
                 offset + 2 * width, width, t.2)
  }

  /** make_fixture after k slots; a slot that does not fit the space is left out. */
  function Fixture(instrs: seq<(int, int, int)>, slotSize: nat, spaceBytes: nat, k: nat): (m: Memory)
    requires k <= |instrs|
    ensures |m| == 8 * spaceBytes
  {
    if k == 0 then seq(8 * spaceBytes, i => false)
    else
      var before := Fixture(instrs, slotSize, spaceBytes, k - 1);
      var offset := Span(k - 1, slotSize);
      if offset + slotSize > 8 * spaceBytes then before
      else WriteTriple(before, offset, slotSize / 3, instrs[k - 1])
  }

  /** make_fixture. */
  method MakeFixture(instrs: seq<(int, int, int)>, slotSize: nat, spaceBytes: nat) returns (data: array<Byte>)
    ensures data.Length == spaceBytes
    ensures Mem(data) == Fixture(instrs, slotSize, spaceBytes, |instrs|)
  {
    hide Mem, WriteClipped, TestBit, Fixture;
    FixtureStart(instrs, slotSize, spaceBytes);
    data := new Byte[spaceBytes](_ => 0);
    ZeroFixture(data);
    var fieldW := slotSize / 3;
    for k := 0 to |instrs|
      invariant Mem(data) == Fixture(instrs, slotSize, spaceBytes, k)
    {
      FixtureMore(instrs, slotSize, spaceBytes, k);
      SpanIsProduct(k, slotSize);
      var bitOffset := k * slotSize;
      if bitOffset + slotSize > spaceBytes * 8 { continue; }
      WriteBits(data, bitOffset, fieldW, instrs[k].0);
      WriteBits(data, bitOffset + fieldW, fieldW, instrs[k].1);
      WriteBits(data, bitOffset + 2 * fieldW, fieldW, instrs[k].2);
    }
  }

  lemma {:induction false} FixtureStart(instrs: seq<(int, int, int)>, slotSize: nat, spaceBytes: nat)
    ensures Fixture(instrs, slotSize, spaceBytes, 0) == seq(8 * spaceBytes, i => false)
  {
  }

  lemma {:induction false} FixtureMore(instrs: seq<(int, int, int)>, slotSize: nat, spaceBytes: nat, k: nat)
    requires k < |instrs|
    ensures Fixture(instrs, slotSize, spaceBytes, k + 1)
         == var before := Fixture(instrs, slotSize, spaceBytes, k);
            if Span(k, slotSize) + slotSize > 8 * spaceBytes then before
            else WriteTriple(before, Span(k, slotSize), slotSize / 3, instrs[k])
  {
  }

  lemma ZeroFixture(data: array<Byte>)
    requires forall i :: 0 <= i < data.Length ==> data[i] == 0
    ensures Mem(data) == seq(8 * data.Length, i => false)
  {
    hide TestBit;
    forall i | 0 <= i < 8 * data.Length ensures !Mem(data)[i] { BitsOfOne(i % 8); }
  }

  // ------------------------------------------------------------------ the round trip

  /** The slots a fixture is expected to hold: the given triples, then NOPs. */
  function Expected(instrs: seq<(nat, nat, nat)>, slot: nat): Instr {
    if slot < |instrs| then Instr(instrs[slot].0, instrs[slot].1, instrs[slot].2) else Instr(0, 0, 0)
  }

  function AsInts(instrs: seq<(nat, nat, nat)>): seq<(int, int, int)> {
    seq(|instrs|, i requires 0 <= i < |instrs| => (instrs[i].0 as int, instrs[i].1 as int, instrs[i].2 as int))
  }

  ghost predicate FieldsFit(width: nat, instrs: seq<(nat, nat, nat)>) {
    forall i :: 0 <= i < |instrs| ==>
      instrs[i].0 < Pow2(width) && instrs[i].1 < Pow2(width) && instrs[i].2 < Pow2(width)
  }

  /** Inside the data, write_bits writes the whole field. */
  lemma ClippedIsWriteUint(m: Memory, offset: nat, width: nat, value: int)
    requires offset + width <= |m|
    ensures WriteClipped(m, offset, width, value) == WriteUint(m, offset, width, value)
  {
    hide BitsOf;
  }

  /** The three fields of a slot are read back as written, and no other bit changes. */
  lemma {:induction false} TripleReadsBack(m: Memory, at: nat, width: nat, t: (nat, nat, nat))
    requires at + 3 * width <= |m| && t.0 < Pow2(width) && t.1 < Pow2(width) && t.2 < Pow2(width)
    ensures var r := WriteTriple(m, at, width, (t.0 as int, t.1 as int, t.2 as int));
            && FieldsAt(r, at, width) == Instr(t.0, t.1, t.2)
            && forall p :: 0 <= p < |m| && !(at <= p < at + 3 * width) ==> r[p] == m[p]
  {
    hide Pow2, WriteTriple, FieldsAt;
    TripleDigits(m, at, width, (t.0 as int, t.1 as int, t.2 as int));
    DivUnique(t.0, Pow2(width), 0, t.0);
    DivUnique(t.1, Pow2(width), 0, t.1);
    DivUnique(t.2, Pow2(width), 0, t.2);
  }

  lemma FieldsSame(m: Memory, m': Memory, at: nat, width: nat)
    requires at + 3 * width <= |m| == |m'|
    requires forall p :: at <= p < at + 3 * width ==> m[p] == m'[p]
    ensures FieldsAt(m, at, width) == FieldsAt(m', at, width)
  {
    hide ReadUint;
    ReadSame(m, m', at, width);
    ReadSame(m, m', at + width, width);
    ReadSame(m, m', at + 2 * width, width);
  }

  /** The slots of the image hold the first k triples, then NOPs. */
  ghost predicate Holds(cfg: ReaderConfig, m: Memory, instrs: seq<(nat, nat, nat)>, k: nat)
    requires AreaFits(cfg) && |m| == 8 * cfg.spaceBytes
  {
    forall slot :: 0 <= slot < cfg.processorN ==> HoldsAt(cfg, m, instrs, k, slot)
  }

  predicate HoldsAt(cfg: ReaderConfig, m: Memory, instrs: seq<(nat, nat, nat)>, k: nat, slot: nat)
    requires AreaFits(cfg) && |m| == 8 * cfg.spaceBytes && slot < cfg.processorN
  {
    SlotFits(cfg, slot);
    FieldsAt(m, Span(slot, 3 * cfg.addrBits), cfg.addrBits)
    == if slot < k then Expected(instrs, slot) else Instr(0, 0, 0)
  }

  lemma {:induction false} FixtureSlots(cfg: ReaderConfig, instrs: seq<(nat, nat, nat)>, k: nat)
    requires AreaFits(cfg) && FieldsFit(cfg.addrBits, instrs) && k <= |instrs|
    ensures Holds(cfg, Fixture(AsInts(instrs), 3 * cfg.addrBits, cfg.spaceBytes, k), instrs, k)
  {
    hide HoldsAt, Fixture, WriteTriple, Span, Pow2, AreaFits;
    FixtureStart(AsInts(instrs), 3 * cfg.addrBits, cfg.spaceBytes);
    if k == 0 {
      var m := Fixture(AsInts(instrs), 3 * cfg.addrBits, cfg.spaceBytes, 0);
      forall slot | 0 <= slot < cfg.processorN ensures HoldsAt(cfg, m, instrs, 0, slot) {
        BlankSlot(cfg, m, instrs, slot);
      }
    } else {
      FixtureSlots(cfg, instrs, k - 1);
      FixtureMore(AsInts(instrs), 3 * cfg.addrBits, cfg.spaceBytes, k - 1);
      FixtureStep(cfg, Fixture(AsInts(instrs), 3 * cfg.addrBits, cfg.spaceBytes, k - 1), instrs, k);
    }
  }

  lemma BlankSlot(cfg: ReaderConfig, m: Memory, instrs: seq<(nat, nat, nat)>, slot: nat)
    requires AreaFits(cfg) && |m| == 8 * cfg.spaceBytes && slot < cfg.processorN
    requires forall p :: 0 <= p < |m| ==> !m[p]
    ensures HoldsAt(cfg, m, instrs, 0, slot)
  {
    hide UintOf, Pow2, Span;
    SlotFits(cfg, slot);
    var at, a := Span(slot, 3 * cfg.addrBits), cfg.addrBits;
    ZeroUint(m[at..at + a]);
    ZeroUint(m[at + a..at + a + a]);
    ZeroUint(m[at + 2 * a..at + 2 * a + a]);
  }

  /** Triple k - 1 goes into its slot, and into no other one: a triple beyond the last slot lands
      behind the processor area, or is left out. */
  lemma {:induction false} FixtureStep(cfg: ReaderConfig, m: Memory, instrs: seq<(nat, nat, nat)>, k: nat)
    requires AreaFits(cfg) && |m| == 8 * cfg.spaceBytes && FieldsFit(cfg.addrBits, instrs) && 0 < k <= |instrs|
    requires Holds(cfg, m, instrs, k - 1)
    ensures var a, t := cfg.addrBits, instrs[k - 1];
            var at := Span(k - 1, 3 * a);
            Holds(cfg, if at + 3 * a > |m| then m else WriteTriple(m, at, a, (t.0 as int, t.1 as int, t.2 as int)),
                  instrs, k)
  {
    hide WriteTriple, Span, Pow2, FieldsAt;
    var a, t := cfg.addrBits, instrs[k - 1];
    var at := Span(k - 1, 3 * a);
    if at + 3 * a > |m| {
      forall slot | 0 <= slot < cfg.processorN ensures HoldsAt(cfg, m, instrs, k, slot) {
        SlotFits(cfg, slot);
        assert HoldsAt(cfg, m, instrs, k - 1, slot);
      }
    } else {
      var r := WriteTriple(m, at, a, (t.0 as int, t.1 as int, t.2 as int));
      TripleReadsBack(m, at, a, t);
      forall slot | 0 <= slot < cfg.processorN
        ensures HoldsAt(cfg, r, instrs, k, slot)
      {
        SlotFits(cfg, slot);
        if slot != k - 1 {
          SpansApart(slot, k - 1, 3 * a);
          FieldsSame(m, r, Span(slot, 3 * a), a);
          assert HoldsAt(cfg, m, instrs, k - 1, slot);
        }
      }
    }
  }

  lemma {:induction false} SpansApart(i: nat, j: nat, w: nat)
    ensures i < j ==> Span(i, w) + w <= Span(j, w)
    ensures j < i ==> Span(j, w) + w <= Span(i, w)
  {
    if i < j { SpanMonotone(i + 1, j, w); }
    if j < i { SpanMonotone(j + 1, i, w); }
  }

  /** make_fixture skips triple i if its slot would reach over the end of the space. */
  predicate SlotWritten(slotSize: nat, spaceBytes: nat, i: nat) {
    Span(i, slotSize) + slotSize <= 8 * spaceBytes
  }

  /** The low digits of the three numbers. */
  function LowTriple(t: (int, int, int), width: nat): Instr {
    Instr(t.0 % Pow2(width), t.1 % Pow2(width), t.2 % Pow2(width))
  }

  /** Bit p belongs to the fields of a written triple before k. */
  ghost predicate InSomeTriple(slotSize: nat, spaceBytes: nat, k: nat, p: nat) {
    exists i: nat :: i < k && SlotWritten(slotSize, spaceBytes, i)
                     && Span(i, slotSize) <= p < Span(i, slotSize) + 3 * (slotSize / 3)
  }

  /** Everything a fixture holds, for any triples and any slot size: every triple whose slot fits the
      space, beyond the processor too, as far as the fields hold its digits; and zeros elsewhere. */
  lemma {:induction false} FixtureHolds(instrs: seq<(int, int, int)>, slotSize: nat, spaceBytes: nat, k: nat)
    requires k <= |instrs|
    ensures var m := Fixture(instrs, slotSize, spaceBytes, k);
            && (forall i: nat :: i < k && SlotWritten(slotSize, spaceBytes, i) ==>
                  HasTriple(m, slotSize, i, instrs[i]))
            && forall p: nat :: p < |m| && !InSomeTriple(slotSize, spaceBytes, k, p) ==> !m[p]
  {
    hide Fixture, Span, Pow2, HasTriple, InSomeTriple, WriteTriple;
    FixtureStart(instrs, slotSize, spaceBytes);
    if k > 0 {
      var m, w := Fixture(instrs, slotSize, spaceBytes, k - 1), slotSize / 3;
      FixtureHolds(instrs, slotSize, spaceBytes, k - 1);
      FixtureMore(instrs, slotSize, spaceBytes, k - 1);
      if SlotWritten(slotSize, spaceBytes, k - 1) {
        var r := WriteTriple(m, Span(k - 1, slotSize), w, instrs[k - 1]);
        TripleStands(m, slotSize, k - 1, instrs[k - 1]);
        forall i: nat | i < k - 1 && SlotWritten(slotSize, spaceBytes, i) ensures HasTriple(r, slotSize, i, instrs[i]) {
          TripleKept(m, slotSize, i, k - 1, instrs[i], instrs[k - 1]);
        }
      }
      forall p: nat | p < |m| && !InSomeTriple(slotSize, spaceBytes, k, p)
        ensures !Fixture(instrs, slotSize, spaceBytes, k)[p]
      {
        OutsideTriples(slotSize, spaceBytes, k, p);
      }
    }
  }

  predicate HasTriple(m: Memory, slotSize: nat, i: nat, t: (int, int, int)) {
    Span(i, slotSize) + slotSize <= |m| && FieldsAt(m, Span(i, slotSize), slotSize / 3) == LowTriple(t, slotSize / 3)
  }

  lemma {:induction false} OutsideTriples(slotSize: nat, spaceBytes: nat, k: nat, p: nat)
    requires k > 0 && !InSomeTriple(slotSize, spaceBytes, k, p)
    ensures !InSomeTriple(slotSize, spaceBytes, k - 1, p)
    ensures SlotWritten(slotSize, spaceBytes, k - 1) ==>
              !(Span(k - 1, slotSize) <= p < Span(k - 1, slotSize) + 3 * (slotSize / 3))
  {
    hide Span;
  }

  lemma {:induction false} TripleStands(m: Memory, slotSize: nat, i: nat, t: (int, int, int))
    requires Span(i, slotSize) + slotSize <= |m|
    ensures var r := WriteTriple(m, Span(i, slotSize), slotSize / 3, t);
            && HasTriple(r, slotSize, i, t)
            && forall p :: 0 <= p < |m| && !(Span(i, slotSize) <= p < Span(i, slotSize) + 3 * (slotSize / 3)) ==>
                 r[p] == m[p]
  {
    hide Span, Pow2, ReadUint, WriteTriple;
    TripleDigits(m, Span(i, slotSize), slotSize / 3, t);
  }

  lemma {:induction false} TripleKept(m: Memory, slotSize: nat, i: nat, k: nat, t: (int, int, int), u: (int, int, int))
    requires i < k && Span(k, slotSize) + slotSize <= |m| && HasTriple(m, slotSize, i, t)
    ensures HasTriple(WriteTriple(m, Span(k, slotSize), slotSize / 3, u), slotSize, i, t)
  {
    hide Span, Pow2, FieldsAt, WriteTriple;
    var r := WriteTriple(m, Span(k, slotSize), slotSize / 3, u);
    TripleStands(m, slotSize, k, u);
    SpansApart(i, k, slotSize);
    FieldsSame(m, r, Span(i, slotSize), slotSize / 3);
  }

  lemma TripleDigits(m: Memory, at: nat, width: nat, t: (int, int, int))
    requires at + 3 * width <= |m|
    ensures var r := WriteTriple(m, at, width, t);
            && FieldsAt(r, at, width) == LowTriple(t, width)
            && forall p :: 0 <= p < |m| && !(at <= p < at + 3 * width) ==> r[p] == m[p]
  {
    hide Pow2, BitsOf, ReadUint, WriteUint, WriteClipped;
    var m1 := WriteUint(m, at, width, t.0);
    var m2 := WriteUint(m1, at + width, width, t.1);
    var m3 := WriteUint(m2, at + 2 * width, width, t.2);
    ClippedIsWriteUint(m, at, width, t.0);
    ClippedIsWriteUint(m1, at + width, width, t.1);
    ClippedIsWriteUint(m2, at + 2 * width, width, t.2);
    WriteThenReadAny(m, at, width, t.0);
    WriteThenReadAny(m1, at + width, width, t.1);
    WriteThenReadAny(m2, at + 2 * width, width, t.2);
    ReadSame(m1, m3, at, width);
    ReadSame(m2, m3, at + width, width);
  }

  /** Image round trip, for any width of fields and any processor area that fits the space: reading
      back what make_fixture wrote gives the instructions, as many as there are slots, followed
      by NOPs. */
  lemma {:induction false} FixtureRoundTrip(cfg: ReaderConfig, instrs: seq<(nat, nat, nat)>, data: seq<Byte>)
    requires AreaFits(cfg) && FieldsFit(cfg.addrBits, instrs) && |data| == cfg.spaceBytes
    requires Bits(data) == Fixture(AsInts(instrs), 3 * cfg.addrBits, cfg.spaceBytes, |instrs|)
    ensures var read := Read(cfg, data);
            && read.Some? && |read.value| == cfg.processorN
            && forall slot :: 0 <= slot < cfg.processorN ==>
                 read.value[slot].slot == slot && Op(read.value[slot]) == Expected(instrs, slot)
  {
    hide Fixture, Bits, AreaFits, FieldsFit, Span, FieldsAt, ReadInstruction, UintOf, Window;
    FixtureSlots(cfg, instrs, |instrs|);
    var read := Read(cfg, data).value;
    forall slot | 0 <= slot < cfg.processorN
      ensures read[slot].slot == slot && Op(read[slot]) == Expected(instrs, slot)
    {
      ReadIsUncut(cfg, data, slot);
      assert HoldsAt(cfg, Bits(data), instrs, |instrs|, slot);
    }
  }

  /** And a machine of that layout fetches the same ones. */
  lemma {:induction false} FixtureOnMachine(g: Geometry, instrs: seq<(nat, nat, nat)>, data: seq<Byte>, slot: nat)
    requires WellFormed(g) && FieldsFit(g.addrBits, instrs) && |data| == g.spaceBytes && slot < g.processorN
    requires Bits(data) == Fixture(AsInts(instrs), 3 * g.addrBits, g.spaceBytes, |instrs|)
    ensures Space(g, Bits(data)) && Fetch(g, Bits(data), slot) == Expected(instrs, slot)
  {
    hide Fixture, Bits, AreaFits, FieldsFit, Span, FieldsAt, ReadInstruction, UintOf, Window, Fetch, SlotIp;
    GeometryFits(g);
    FixtureRoundTrip(ConfigOf(g), instrs, data);
    ReadIsUncut(ConfigOf(g), data, slot);
    FetchIsFields(g, Bits(data), slot);
    assert Read(ConfigOf(g), data).value[slot] == ReadInstruction(ConfigOf(g), data, slot);
  }
}
