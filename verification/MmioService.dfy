/** The handshake registers: what one service step makes of the memory, and its contract. */
module MmioService {
  import opened Numbers
  import opened BitSpace
  import opened Encoding
  import opened Geometry

  ghost predicate Space(g: Geometry, m: Memory) {
    WellFormed(g) && |m| == g.spaceBits
  }

  /** What the two streams answer during one tick: the bytes a read would deliver, the end-of-file
      and error indicators after it, and the bytes a write would accept. */
  datatype Reaction = Reaction(data: seq<Byte>, eof: bool, err: bool, put: nat)

  /** A request is served only if it is byte-aligned and stays inside the space. */
  predicate Servable(g: Geometry, at: nat, len: nat) {
    at % 8 == 0 && len % 8 == 0 && at + len <= g.spaceBits
  }

  // ------------------------------------------------------------------ output channel

  function OutAt(g: Geometry, m: Memory): nat
    requires Space(g, m)
  {
    ReadUint(m, g.mmio.outSrc, g.addrBits)
  }

  function OutLen(g: Geometry, m: Memory): nat
    requires Space(g, m)
  {
    ReadUint(m, g.mmio.outLen, g.nBits)
  }

  /** Bytes the device takes. */
  function OutMoved(g: Geometry, m: Memory, put: nat): nat
    requires Space(g, m)
  {
    if Servable(g, OutAt(g, m), OutLen(g, m)) then Min(put, OutLen(g, m) / 8) else 0
  }

  function OutCleared(g: Geometry, m: Memory): (r: Memory)
    requires Space(g, m)
    ensures |r| == |m|
  {
    WriteUint(m[g.mmio.outDone := false][g.mmio.outErr := false], g.mmio.outGot, g.nBits, 0)
  }

  /** service_out. */
  function ServiceOut(g: Geometry, m: Memory, put: nat): (r: Memory)
    requires Space(g, m)
    ensures |r| == |m|
  {
    if !m[g.mmio.outReq] then m
    else
      var m1 := OutCleared(g, m);
      OutAnswered(g, m1, OutAt(g, m1), OutLen(g, m1), put)
  }

  /** The status a pending output request ends with. */
  function OutAnswered(g: Geometry, m: Memory, at: nat, len: nat, put: nat): (r: Memory)
    requires Space(g, m)
    ensures |r| == |m|
  {
    if !Servable(g, at, len) then
      m[g.mmio.outErr := true][g.mmio.outDone := true][g.mmio.outReq := false]
    else
      var moved := Min(put, len / 8);
      var m2 := if moved != len / 8 then m[g.mmio.outErr := true] else m;
      WriteUint(m2, g.mmio.outGot, g.nBits, 8 * moved)[g.mmio.outDone := true][g.mmio.outReq := false]
  }

  /** The bits handed to the output stream. */
  function Sent(g: Geometry, m: Memory, put: nat): seq<bool>
    requires Space(g, m)
  {
    if !m[g.mmio.outReq] then []
    else
      var m1 := OutCleared(g, m);
      var at, len := OutAt(g, m1), OutLen(g, m1);
      if !Servable(g, at, len) then [] else m1[at..at + 8 * Min(put, len / 8)]
  }

  predicate OutStatus(g: Geometry, i: int) {
    i == g.mmio.outReq || i == g.mmio.outDone || i == g.mmio.outErr
    || g.mmio.outGot <= i < g.mmio.outGot + g.nBits
  }

  // ------------------------------------------------------------------ input channel

  function InAt(g: Geometry, m: Memory): nat
    requires Space(g, m)
  {
    ReadUint(m, g.mmio.inDst, g.addrBits)
  }

  function InLen(g: Geometry, m: Memory): nat
    requires Space(g, m)
  {
    ReadUint(m, g.mmio.inLen, g.nBits)
  }

  /** Bytes the device delivers. */
  function InMoved(g: Geometry, m: Memory, dev: Reaction): nat
    requires Space(g, m)
  {
    if Servable(g, InAt(g, m), InLen(g, m)) then Min(|dev.data|, InLen(g, m) / 8) else 0
  }

  function InCleared(g: Geometry, m: Memory): (r: Memory)
    requires Space(g, m)
    ensures |r| == |m|
  {
    WriteUint(m[g.mmio.inDone := false][g.mmio.inEof := false][g.mmio.inErr := false],
              g.mmio.inGot, g.nBits, 0)
  }

  /** fread into the space, then the indicators it leaves. */
  function Received(g: Geometry, m: Memory, at: nat, len: nat, dev: Reaction): (r: Memory)
    requires Space(g, m) && at + len <= g.spaceBits && len % 8 == 0
    ensures |r| == |m|
  {
    if len == 0 then m
    else
      var got := Min(|dev.data|, len / 8);
      var m1 := Splice(m, at, Bits(dev.data[..got]));
      var m2 := if got == 0 && dev.eof then m1[g.mmio.inEof := true] else m1;
      if dev.err then m2[g.mmio.inErr := true] else m2
  }

  /** service_in. */
  function ServiceIn(g: Geometry, m: Memory, dev: Reaction): (r: Memory)
    requires Space(g, m)
    ensures |r| == |m|
  {
    if !m[g.mmio.inReq] then m
    else
      var m1 := InCleared(g, m);
      var at, len := InAt(g, m1), InLen(g, m1);
      if !Servable(g, at, len) then
        m1[g.mmio.inErr := true][g.mmio.inDone := true][g.mmio.inReq := false]
      else
        var got := Min(|dev.data|, len / 8);
        WriteUint(Received(g, m1, at, len, dev), g.mmio.inGot, g.nBits, 8 * got)
          [g.mmio.inDone := true][g.mmio.inReq := false]
  }

  predicate InStatus(g: Geometry, i: int) {
    g.mmio.inReq <= i <= g.mmio.inErr || g.mmio.inGot <= i < g.mmio.inGot + g.nBits
  }

  // ------------------------------------------------------------------ the contract

  /** Writing GOT and then two single bits that lie outside it. */
  lemma GotReadsBack(g: Geometry, m: Memory, got: nat, value: nat, done: nat, req: nat)
    requires got + g.nBits <= |m| && value < Pow2(g.nBits)
    requires done < |m| && req < |m|
    requires !(got <= done < got + g.nBits) && !(got <= req < got + g.nBits)
    ensures ReadUint(WriteUint(m, got, g.nBits, value)[done := true][req := false], got, g.nBits) == value
  {
    var w := WriteUint(m, got, g.nBits, value);
    WriteThenRead(m, got, g.nBits, value);
    ReadSame(w, w[done := true][req := false], got, g.nBits);
  }

  /** Writing 0 clears a field. */
  lemma ZeroField(m: Memory, pos: nat, width: nat)
    requires pos + width <= |m|
    ensures forall i :: pos <= i < pos + width ==> !WriteUint(m, pos, width, 0)[i]
  {
    hide BitsOf;
    ZeroBits(width);
  }

  lemma OutClearedKeeps(g: Geometry, m: Memory)
    requires Space(g, m)
    ensures var m1 := OutCleared(g, m);
            && OutAt(g, m1) == OutAt(g, m) && OutLen(g, m1) == OutLen(g, m)
            && ReadUint(m1, g.mmio.outGot, g.nBits) == 0 && !m1[g.mmio.outErr]
            && forall i :: 0 <= i < |m| ==> m1[i] == (m[i] && (i == g.mmio.outReq || !OutStatus(g, i)))
  {
    hide Pow2, UintOf, BitsOf, ReadUint, WriteUint;
    var m0 := m[g.mmio.outDone := false][g.mmio.outErr := false];
    var m1 := OutCleared(g, m);
    WriteThenRead(m0, g.mmio.outGot, g.nBits, 0);
    ZeroField(m0, g.mmio.outGot, g.nBits);
    ReadSame(m, m1, g.mmio.outSrc, g.addrBits);
    ReadSame(m, m1, g.mmio.outLen, g.nBits);
  }

  /** A pending output request ends with REQ=0, DONE=1 and GOT reading back as 8 times the bytes
      moved, which are none if the request is not byte-aligned or leaves the space and as many as
      the device takes otherwise; ERR tells whether something was left over or malformed; only
      status registers change.  What is sent is the memory from the source address on as it was
      before the tick, but for status bits in it, which have been cleared by then (REQ is still
      set).  Without a request nothing changes and nothing is sent. */
  lemma OutputHandshake(g: Geometry, m: Memory, put: nat)
    requires Space(g, m)
    ensures var r, sent := ServiceOut(g, m, put), Sent(g, m, put);
            var at, len := ReadUint(m, g.mmio.outSrc, g.addrBits), ReadUint(m, g.mmio.outLen, g.nBits);
            var fits := at % 8 == 0 && len % 8 == 0 && at + len <= g.spaceBits;
            var moved := if !fits then 0 else if put <= len / 8 then put else len / 8;
            && OutMoved(g, m, put) == moved
            && (!m[g.mmio.outReq] ==> r == m && sent == [])
            && (m[g.mmio.outReq] ==>
                  && !r[g.mmio.outReq] && r[g.mmio.outDone]
                  && ReadUint(r, g.mmio.outGot, g.nBits) == 8 * moved
                  && (r[g.mmio.outErr] <==> !fits || 8 * moved != len)
                  && (forall i :: 0 <= i < |m| && !OutStatus(g, i) ==> r[i] == m[i])
                  && |sent| == 8 * moved && (moved > 0 ==> at + 8 * moved <= |m|)
                  && forall k :: 0 <= k < |sent| ==>
                       sent[k] == (m[at + k] && (at + k == g.mmio.outReq || !OutStatus(g, at + k))))
  {
    hide Pow2, UintOf, BitsOf, ReadUint, WriteUint, OutCleared, OutAt, OutLen;
    OutFields(g, m);
    if m[g.mmio.outReq] {
      var m1 := OutCleared(g, m);
      OutClearedKeeps(g, m);
      var at, len := OutAt(g, m1), OutLen(g, m1);
      if Servable(g, at, len) {
        var moved := Min(put, len / 8);
        var m2 := if moved != len / 8 then m1[g.mmio.outErr := true] else m1;
        OutLenBound(g, m1);
        GotReadsBack(g, m2, g.mmio.outGot, 8 * moved, g.mmio.outDone, g.mmio.outReq);
      } else {
        ReadSame(m1, ServiceOut(g, m, put), g.mmio.outGot, g.nBits);
      }
    }
  }

  lemma OutFields(g: Geometry, m: Memory)
    requires Space(g, m)
    ensures OutAt(g, m) == ReadUint(m, g.mmio.outSrc, g.addrBits) && OutLen(g, m) == ReadUint(m, g.mmio.outLen, g.nBits)
  {
  }

  lemma InFields(g: Geometry, m: Memory)
    requires Space(g, m)
    ensures InAt(g, m) == ReadUint(m, g.mmio.inDst, g.addrBits) && InLen(g, m) == ReadUint(m, g.mmio.inLen, g.nBits)
  {
  }

  lemma OutLenBound(g: Geometry, m: Memory)
    requires Space(g, m)
    ensures OutLen(g, m) < Pow2(g.nBits)
  {
  }

  lemma InLenBound(g: Geometry, m: Memory)
    requires Space(g, m)
    ensures InLen(g, m) < Pow2(g.nBits)
  {
  }

  lemma InClearedKeeps(g: Geometry, m: Memory)
    requires Space(g, m)
    ensures var m1 := InCleared(g, m);
            && InAt(g, m1) == InAt(g, m) && InLen(g, m1) == InLen(g, m)
            && ReadUint(m1, g.mmio.inGot, g.nBits) == 0 && !m1[g.mmio.inErr] && !m1[g.mmio.inEof]
            && forall i :: 0 <= i < |m| && !InStatus(g, i) ==> m1[i] == m[i]
  {
    hide Pow2, UintOf, BitsOf, ReadUint, WriteUint;
    var m0 := m[g.mmio.inDone := false][g.mmio.inEof := false][g.mmio.inErr := false];
    var m1 := InCleared(g, m);
    WriteThenRead(m0, g.mmio.inGot, g.nBits, 0);
    ReadSame(m, m1, g.mmio.inDst, g.addrBits);
    ReadSame(m, m1, g.mmio.inLen, g.nBits);
  }

  /** The same for input.  Beyond its status registers a request changes just the bits the device
      delivered, and those hold the delivered bytes. */
  lemma InputHandshake(g: Geometry, m: Memory, dev: Reaction)
    requires Space(g, m)
    ensures var r := ServiceIn(g, m, dev);
            var at, len := ReadUint(m, g.mmio.inDst, g.addrBits), ReadUint(m, g.mmio.inLen, g.nBits);
            var fits := at % 8 == 0 && len % 8 == 0 && at + len <= g.spaceBits;
            var got := if !fits then 0 else if |dev.data| <= len / 8 then |dev.data| else len / 8;
            && InAt(g, m) == at && InLen(g, m) == len && InMoved(g, m, dev) == got
            && (!m[g.mmio.inReq] ==> r == m)
            && (m[g.mmio.inReq] ==>
                  && !r[g.mmio.inReq] && r[g.mmio.inDone]
                  && ReadUint(r, g.mmio.inGot, g.nBits) == 8 * got
                  && (!fits ==> r[g.mmio.inErr] && !r[g.mmio.inEof])
                  && forall i :: 0 <= i < |m| && !InStatus(g, i) ==>
                       r[i] == if at <= i < at + 8 * got then Bits(dev.data[..got])[i - at] else m[i])
  {
    hide Pow2, UintOf, BitsOf, ReadUint, WriteUint, InCleared, InAt, InLen, Bits, TestBit;
    InFields(g, m);
    if m[g.mmio.inReq] {
      var m1 := InCleared(g, m);
      InClearedKeeps(g, m);
      var at, len := InAt(g, m1), InLen(g, m1);
      if Servable(g, at, len) {
        var m2 := Received(g, m1, at, len, dev);
        InLenBound(g, m1);
        GotReadsBack(g, m2, g.mmio.inGot, 8 * Min(|dev.data|, len / 8), g.mmio.inDone, g.mmio.inReq);
      } else {
        ReadSame(m1, ServiceIn(g, m, dev), g.mmio.inGot, g.nBits);
      }
    }
  }

  /** The indicators of a served request: EOF when bytes were asked for, none came and the stream has
      ended; ERR when bytes were asked for and the stream reports an error.  An indicator that
      is not raised is clear, unless the delivered data themselves lie over it. */
  lemma InputIndicators(g: Geometry, m: Memory, dev: Reaction)
    requires Space(g, m) && m[g.mmio.inReq] && Servable(g, InAt(g, m), InLen(g, m))
    ensures var r := ServiceIn(g, m, dev);
            var asked, got := InLen(g, m) > 0, InMoved(g, m, dev);
            && (r[g.mmio.inEof] <==> (asked && got == 0 && dev.eof) || Delivers(g, m, dev, g.mmio.inEof))
            && (r[g.mmio.inErr] <==> (asked && dev.err) || Delivers(g, m, dev, g.mmio.inErr))
  {
    hide Pow2, UintOf, BitsOf, ReadUint, WriteUint, InCleared, InAt, InLen, Bits, TestBit;
    InClearedKeeps(g, m);
  }

  /** The delivered data put a one on bit p. */
  predicate Delivers(g: Geometry, m: Memory, dev: Reaction, p: nat)
    requires Space(g, m)
  {
    var at, got := InAt(g, m), InMoved(g, m, dev);
    at <= p < at + 8 * got && Bits(dev.data[..got])[p - at]
  }

  // ------------------------------------------------------------------ what a request can reach

  /** Bit p lies in the range a pending, well-formed input request asks for. */
  predicate InputMayWrite(g: Geometry, m: Memory, p: int)
    requires Space(g, m)
  {
    m[g.mmio.inReq] && Servable(g, InAt(g, m), InLen(g, m)) && InAt(g, m) <= p < InAt(g, m) + InLen(g, m)
  }

  /** No pending input request asks for bits below processor_bits. */
  predicate InputSparesProcessor(g: Geometry, m: Memory)
    requires Space(g, m)
  {
    m[g.mmio.inReq] && Servable(g, InAt(g, m), InLen(g, m)) && InLen(g, m) > 0 ==> g.processorBits <= InAt(g, m)
  }

  /** Serving output leaves the input request as it is. */
  lemma ServiceOutKeepsRequest(g: Geometry, m: Memory, put: nat)
    requires Space(g, m)
    ensures var s := ServiceOut(g, m, put);
            && s[g.mmio.inReq] == m[g.mmio.inReq] && InAt(g, s) == InAt(g, m) && InLen(g, s) == InLen(g, m)
            && forall i :: 0 <= i < |m| && !OutStatus(g, i) ==> s[i] == m[i]
  {
    hide ServiceOut, ReadUint, Pow2;
    var s := ServiceOut(g, m, put);
    OutputHandshake(g, m, put);
    ReadSame(m, s, g.mmio.inDst, g.addrBits);
    ReadSame(m, s, g.mmio.inLen, g.nBits);
  }

  /** Whatever the devices do, serving both channels changes status registers and the range of the
      input request only. */
  lemma ServicesReach(g: Geometry, m: Memory, dev: Reaction)
    requires Space(g, m)
    ensures var r := ServiceIn(g, ServiceOut(g, m, dev.put), dev);
            forall i :: 0 <= i < |m| && !OutStatus(g, i) && !InStatus(g, i) && !InputMayWrite(g, m, i) ==> r[i] == m[i]
  {
    hide ServiceOut, ServiceIn, InAt, InLen, Pow2, Bits;
    ServiceOutKeepsRequest(g, m, dev.put);
    InputHandshake(g, ServiceOut(g, m, dev.put), dev);
  }
}
