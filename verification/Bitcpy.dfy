/** The bit-range copy of src/vm/bitcpy.c.

    The code as it is written does not copy faithfully on every branch.  One method below
    carries both versions: `AsWritten` follows the C text, `Repaired` differs from it at the
    four places marked "Repair".  `InDomain` says for which offsets the text is right. */
module Bitcpy {
  import opened BitSpace
  import opened Words

  datatype Version = AsWritten | Repaired

  /** The table keep_hi: the top k bits. */
  function KeepHi(k: nat): Byte
    requires k <= 8
  {
    [0x00, 0x80, 0xC0, 0xE0, 0xF0, 0xF8, 0xFC, 0xFE, 0xFF][k]
  }

  /** The table keep_lo: the bottom 8-k bits. */
  function KeepLo(k: nat): Byte
    requires k <= 8
  {
    [0xFF, 0x7F, 0x3F, 0x1F, 0x0F, 0x07, 0x03, 0x01, 0x00][k]
  }

  lemma KeepMasks(k: nat, j: nat)
    requires k <= 8 && j < 8
    ensures TestBit(KeepHi(k), j) == (j < k)
    ensures TestBit(KeepLo(k), j) == (k <= j)
  {
  }

  /** ~(keep_hi[from] | keep_lo[from + head]): the bits from..from+head of a byte. */
  function HeadMask(from: nat, head: nat): Byte
    requires from + head <= 8
  {
    !(KeepHi(from) | KeepLo(from + head))
  }

  lemma HeadMaskBits(from: nat, head: nat, j: nat)
    requires from + head <= 8 && j < 8
    ensures TestBit(HeadMask(from, head), j) == (from <= j < from + head)
  {
    hide TestBit;
    KeepMasks(from, j);
    KeepMasks(from + head, j);
    OrBit(KeepHi(from), KeepLo(from + head), j);
    NotBit(KeepHi(from) | KeepLo(from + head), j);
  }

  /** src[0] & keep_lo[from]. */
  function HeadPart(b: Byte, from: nat): Byte
    requires from <= 8
  {
    b & KeepLo(from)
  }

  lemma HeadPartBits(b: Byte, from: nat, j: nat)
    requires from <= 8 && j < 8
    ensures TestBit(HeadPart(b, from), j) == (from <= j && TestBit(b, j))
  {
    hide TestBit;
    AndBit(b, KeepLo(from), j);
    KeepMasks(from, j);
  }

  // ------------------------------------------------------------------ agreement

  predicate Overlapping(s: nat, d: nat, n: nat) {
    s < d + n && d < s + n
  }

  /** Bits of the first, partial destination byte. */
  function Head(d: nat): nat {
    if d % 8 == 0 then 0 else 8 - d % 8
  }

  /** The offsets for which the text of bitcpy.c copies faithfully: no bits, a copy onto itself,
      a short copy, overlapping ranges, whole-byte offsets; or, on the two mask-and-shift paths,
      a source offset not below the destination offset and no 64-bit step. */
  predicate InDomain(n: nat, s: nat, d: nat, same: bool) {
    || n < 8
    || (same && s == d)
    || (same && Overlapping(s, d, n))
    || (s % 8 == 0 && d % 8 == 0)
    || (d % 8 <= s % 8 && n < Head(d) + 64)
  }

  predicate Faithful(version: Version, n: nat, s: nat, d: nat, same: bool) {
    version.Repaired? || InDomain(n, s, d, same)
  }

  predicate Fits(n: nat, source: Memory, s: nat, target: Memory, d: nat) {
    s + n <= |source| && d + n <= |target|
  }

  // ------------------------------------------------------------------ outside the domain

  /** The 64-bit loop of a call: whether the offsets differ, by how much it shifts, where its words
      start in the source, where the destination range and the loop's part of it start, and
      whether source and destination are one buffer. */
  datatype Bulk = Bulk(slides: bool, shift: nat, start: nat, first: nat, dest: nat, same: bool)

  /** The distance of the offsets in their bytes, `left` of the source. */
  function Left(s: nat, d: nat): (left: nat)
    requires s % 8 != d % 8
    ensures 1 <= left <= 7
  {
    if s % 8 > d % 8 then s % 8 - d % 8 else 8 - (d % 8 - s % 8)
  }

  function BulkOf(s: nat, d: nat, same: bool): (b: Bulk)
    ensures b.first == d && b.dest == d + Head(d) && b.same == same
  {
    if s % 8 == d % 8 then Bulk(false, s % 8, s + Head(d), d, d + Head(d), same)
    else Bulk(true, Left(s, d), s + Head(d) - Left(s, d), d, d + Head(d), same)
  }

  /** Step k of the loop stores, as bit j of byte t, the or of the source bits at these two positions.
      The right position would be the one called p when the loop slides, and the one `shift`
      places before it when it does not. */
  function NearOrigin(b: Bulk, k: nat, t: nat, j: nat): nat {
    var p := b.start + 64 * k + 8 * t + j + b.shift;
    if j + b.shift < 8 then p
    else if t > 0 then p - 16
    else if b.slides then p + 56 else p + 112
  }

  function FarOrigin(b: Bulk, k: nat, t: nat, j: nat): nat {
    var p := b.start + 64 * k + 8 * t + j + b.shift;
    if !b.slides then NearOrigin(b, k, t, j)
    else if j + b.shift >= 8 then p + 56
    else if t < 7 then p + 72 else p
  }

  /** Source bit p as a step finds it: what was stored from `first` up to `upto` is new. */
  predicate Seen(b: Bulk, source: Memory, now: Memory, upto: nat, p: nat)
    requires p < |source| && (b.same ==> |source| == |now|)
  {
    if b.same && b.first <= p < upto then now[p] else source[p]
  }

  /** Bit j of byte t is what step k stores there, as far as the loads are inside the buffer. */
  predicate StepBit(b: Bulk, source: Memory, now: Memory, k: nat, t: nat, j: nat)
    requires t < 8 && j < 8 && b.dest + 64 * k + 64 <= |now| && (b.same ==> |source| == |now|)
  {
    var p, q := NearOrigin(b, k, t, j), FarOrigin(b, k, t, j);
    p < |source| && q < |source| ==>
      now[b.dest + 64 * k + 8 * t + j]
      == (Seen(b, source, now, b.dest + 64 * k, p) || Seen(b, source, now, b.dest + 64 * k, q))
  }

  ghost predicate StepsDone(b: Bulk, source: Memory, now: Memory, count: nat)
    requires b.dest + 64 * count <= |now| && (b.same ==> |source| == |now|)
  {
    forall k: nat, t: nat, j: nat :: k < count && t < 8 && j < 8 ==> StepBit(b, source, now, k, t, j)
  }

  /** How often the 64-bit loop runs. */
  function Steps(n: nat, d: nat): nat
    requires Head(d) <= n
  {
    (n - Head(d)) / 64
  }

  /** What the code as written leaves outside its domain, bit by bit: the head is right, or taken from
      8 bits too far along when the source offset is the smaller one; every whole 64-bit step
      stores the or of its two origins; every bit behind the last whole step is right.  (Of a
      load behind the end of the buffer nothing is known.) */
  ghost predicate Astray(n: nat, source: Memory, s: nat, target: Memory, d: nat, same: bool, r: Memory)
    requires Fits(n, source, s, target, d) && |r| == |target| && (same ==> |source| == |target|)
    requires !InDomain(n, s, d, same)
  {
    var skew := if s % 8 < d % 8 then 8 else 0;
    var behind := Head(d) + 64 * Steps(n, d);
    && (forall i :: d <= i < d + Head(d) && s + skew + (i - d) < |source| ==> r[i] == source[s + skew + (i - d)])
    && StepsDone(BulkOf(s, d, same), source, r, Steps(n, d))
    && (forall i :: d + behind <= i < d + n ==> r[i] == source[s + (i - d)])
  }

  /** Where the stray bit of the first sliding step comes from: 72 bits on, unless the head, already
      written, lies there. */
  function StrayOrigin(s: nat, d: nat, same: bool): nat {
    var p := s + Head(d) + 72;
    if same && d <= p < d + Head(d) then s + (p - d) else p
  }

  /** What is known of one call: nothing outside the destination range ever changes; the copy is
      the reference copy where the version is faithful; elsewhere it goes astray as described. */
  ghost predicate Outcome(version: Version, n: nat, source: Memory, s: nat, target: Memory, d: nat,
                          same: bool, r: Memory)
    requires Fits(n, source, s, target, d) && (same ==> |source| == |target|)
  {
    && |r| == |target|
    && (forall i :: 0 <= i < |r| && !(d <= i < d + n) ==> r[i] == target[i])
    && (if Faithful(version, n, s, d, same)
        then r == CopyBetween(source, s, target, d, n)
        else Astray(n, source, s, target, d, same, r))
  }

  // ------------------------------------------------------------------ single bits and bytes

  /** A load that may lie behind the end of the buffer, where C promises nothing. */
  method Peek(p: array<Byte>, at: nat) returns (b: Byte)
    ensures at < p.Length ==> b == p[at]
  {
    if at < p.Length { b := p[at]; } else { b := *; }
  }

  method BitGetPtr(p: array<Byte>, bitpos: nat) returns (v: bool)
    requires bitpos < 8 * p.Length
    ensures v == Mem(p)[bitpos]
  {
    var byte := p[bitpos / 8];
    var shift := 7 - bitpos % 8;
    v := Shr(byte, shift) & 1 == 1;
    ShiftedOut(byte, bitpos % 8);
  }

  method BitSetPtr(p: array<Byte>, bitpos: nat, v: bool)
    requires bitpos < 8 * p.Length
    modifies p
    ensures Mem(p) == old(Mem(p))[bitpos := v]
  {
    hide TestBit, SetBit;
    var at := bitpos / 8;
    ghost var was := p[at];
    ghost var before := Mem(p);
    p[at] := SetBit(p[at], bitpos % 8, v);
    forall i | 0 <= i < |before| ensures Mem(p)[i] == before[bitpos := v][i] {
      if i / 8 == at { SetBitEffect(was, bitpos % 8, v, i % 8); }
    }
  }

  /** *dst = (*dst & ~mask) | (incoming & mask), where the mask selects bits lo..hi of the byte. */
  method StoreMasked(p: array<Byte>, at: nat, incoming: Byte, mask: Byte, ghost lo: nat, ghost hi: nat)
    requires at < p.Length && lo <= hi <= 8
    requires forall j :: 0 <= j < 8 ==> TestBit(mask, j) == (lo <= j < hi)
    modifies p
    ensures var before := old(Mem(p));
            forall i :: 0 <= i < |before| ==>
              Mem(p)[i]
              == if 8 * at + lo <= i < 8 * at + hi then TestBit(incoming, i - 8 * at) else before[i]
  {
    hide TestBit, Merge;
    ghost var was := p[at];
    ghost var before := Mem(p);
    p[at] := Merge(p[at], incoming, mask);
    forall i | 0 <= i < |before|
      ensures Mem(p)[i]
           == if 8 * at + lo <= i < 8 * at + hi then TestBit(incoming, i - 8 * at) else before[i]
    {
      if i / 8 == at { MergeBit(was, incoming, mask, i % 8); }
    }
  }

  /** Store the top k bits of c. */
  method StoreTop(p: array<Byte>, at: nat, c: Byte, k: nat)
    requires at < p.Length && k <= 8
    modifies p
    ensures var before := old(Mem(p));
            forall i :: 0 <= i < |before| ==>
              Mem(p)[i] == if 8 * at <= i < 8 * at + k then TestBit(c, i - 8 * at) else before[i]
  {
    hide *;
    forall j | 0 <= j < 8 ensures TestBit(KeepHi(k), j) == (0 <= j < k) { KeepMasks(k, j); }
    StoreMasked(p, at, c, KeepHi(k), 0, k);
  }

  /** The eight source bits that start `left` bits into src[at].  src[at + 1] may lie behind the
      buffer in the code as written; the bits that come from src[at] are known even then. */
  method ShiftedByte(version: Version, src: array<Byte>, at: nat, left: nat) returns (c: Byte)
    requires at < src.Length && 1 <= left <= 7
    requires version.Repaired? ==> at + 1 < src.Length
    ensures forall j :: 0 <= j < 8 && 8 * at + left + j < 8 * src.Length ==>
              TestBit(c, j) == Mem(src)[8 * at + left + j]
  {
    hide TestBit, Join;
    var first := src[at];
    var second := Peek(src, at + 1);
    c := Join(first, second, left);
    forall j | 0 <= j < 8 && 8 * at + left + j < 8 * src.Length
      ensures TestBit(c, j) == Mem(src)[8 * at + left + j]
    {
      JoinBit(first, second, left, j);
    }
  }

  // ------------------------------------------------------------------ overlap-safe loop

  /** The bit loop picks its direction from dst_bit < src_bit; whatever the overlap, the result
      is the copy taken from the old contents. */
  method OverlapFallback(n: nat, src: array<Byte>, s: nat, dst: array<Byte>, d: nat)
    requires s + n <= 8 * src.Length && d + n <= 8 * dst.Length
    modifies dst
    ensures Mem(dst) == CopyBetween(old(Mem(src)), s, old(Mem(dst)), d, n)
  {
    hide *;
    if d < s { Upwards(n, src, s, dst, d); } else { Downwards(n, src, s, dst, d); }
  }

  method Upwards(n: nat, src: array<Byte>, s: nat, dst: array<Byte>, d: nat)
    requires s + n <= 8 * src.Length && d + n <= 8 * dst.Length && d < s
    modifies dst
    ensures Mem(dst) == CopyBetween(old(Mem(src)), s, old(Mem(dst)), d, n)
  {
    hide *;
    ghost var source, target := Mem(src), Mem(dst);
    NothingCopied(source, s, target, d);
    for i := 0 to n
      invariant Mem(dst) == CopyBetween(source, s, target, d, i)
      invariant src != dst ==> Mem(src) == source
    {
      var v := BitGetPtr(src, s + i);
      assert v == source[s + i];
      BitSetPtr(dst, d + i, v);
      CopyOneMore(source, s, target, d, n, i);
    }
  }

  method Downwards(n: nat, src: array<Byte>, s: nat, dst: array<Byte>, d: nat)
    requires s + n <= 8 * src.Length && d + n <= 8 * dst.Length && s <= d
    modifies dst
    ensures Mem(dst) == CopyBetween(old(Mem(src)), s, old(Mem(dst)), d, n)
  {
    hide *;
    ghost var source, target := Mem(src), Mem(dst);
    NothingCopied(source, s + n, target, d + n);
    for i := n downto 0
      invariant Mem(dst) == CopyBetween(source, s + i, target, d + i, n - i)
      invariant src != dst ==> Mem(src) == source
    {
      var v := BitGetPtr(src, s + i);
      assert v == source[s + i];
      ghost var before := Mem(dst);
      BitSetPtr(dst, d + i, v);
      CopyOneMore(source, s, target, d, n, i);
      assert Mem(dst) == before[d + i := v];
    }
  }

  // ------------------------------------------------------------------ whole bytes

  lemma ByteHere(p: array<Byte>, at: nat)
    requires at < p.Length
    ensures forall j :: 0 <= j < 8 ==> TestBit(p[at], j) == Mem(p)[8 * at + j]
  {
    hide TestBit;
  }

  method MemMove(dst: array<Byte>, di: nat, src: array<Byte>, si: nat, nbytes: nat)
    requires si + nbytes <= src.Length && di + nbytes <= dst.Length
    modifies dst
    ensures Mem(dst)
         == CopyBetween(old(Mem(src)), 8 * si, old(Mem(dst)), 8 * di, 8 * nbytes)
  {
    hide TestBit, Bits, CopyBetween;
    ghost var source, target := src[..], dst[..];
    forall k | 0 <= k < nbytes { dst[di + k] := src[si + k]; }
    BytesCopied(source, si, target, di, nbytes, dst[..]);
  }

  /** memmove for the whole bytes, then the top bits of one more byte under a mask. */
  method BytesAndTail(n: nat, src: array<Byte>, si: nat, dst: array<Byte>, di: nat)
    requires 8 * si + n <= 8 * src.Length && 8 * di + n <= 8 * dst.Length
    requires Apart(src == dst, 8 * si, 8 * di, n)
    modifies dst
    ensures Mem(dst) == CopyBetween(old(Mem(src)), 8 * si, old(Mem(dst)), 8 * di, n)
  {
    hide *;
    ghost var source, target := Mem(src), Mem(dst);
    ghost var s, d := 8 * si, 8 * di;
    var nbytes := n / 8;
    var rem := n % 8;
    if nbytes > 0 {
      MemMove(dst, di, src, si, nbytes);
    }
    ghost var mid := Mem(dst);
    assert mid == CopyBetween(source, s, target, d, 8 * nbytes);
    if rem > 0 {
      var c := src[si + nbytes];
      ByteHere(src, si + nbytes);
      RestUntouched(source, s, target, d, 8 * nbytes, n, src == dst, mid, Mem(src));
      StoreTop(dst, di + nbytes, c, rem);
      CopyOneByteMore(source, s, target, d, 8 * nbytes, di + nbytes, 0, rem, c, mid, Mem(dst));
    }
  }

  /** The source bits still to be copied are the old ones: the target range lies elsewhere. */
  lemma RestUntouched(source: Memory, s: nat, target: Memory, d: nat, k: nat, n: nat, same: bool,
                      mid: Memory, now: Memory)
    requires k <= n && Fits(n, source, s, target, d)
    requires Apart(same, s, d, n) && (same ==> source == target)
    requires mid == CopyBetween(source, s, target, d, k) && now == if same then mid else source
    ensures forall i {:trigger now[i]} :: s + k <= i < s + n ==> now[i] == source[i]
  {
  }

  // ------------------------------------------------------------------ equal offsets

  /** The partial first byte when both offsets are `from`. */
  method SameOffsetHead(src: array<Byte>, si: nat, dst: array<Byte>, di: nat, from: nat)
    requires si < src.Length && di < dst.Length && 1 <= from <= 7
    modifies dst
    ensures Mem(dst)
         == CopyBetween(old(Mem(src)), 8 * si + from, old(Mem(dst)), 8 * di + from, 8 - from)
  {
    hide *;
    ghost var source, target := Mem(src), Mem(dst);
    var head := 8 - from;
    var c := HeadPart(src[si], from);
    HeadByte(src, si, from);
    forall j | 0 <= j < 8 ensures TestBit(HeadMask(from, head), j) == (from <= j < 8) {
      HeadMaskBits(from, head, j);
    }
    StoreMasked(dst, di, c, HeadMask(from, head), from, 8);
    NothingCopied(source, 8 * si + from, target, 8 * di + from);
    CopyOneByteMore(source, 8 * si + from, target, 8 * di + from, 0, di, from, 8, c, target, Mem(dst));
  }

  lemma HeadByte(p: array<Byte>, at: nat, from: nat)
    requires at < p.Length && from <= 8
    ensures forall j :: from <= j < 8 ==> TestBit(HeadPart(p[at], from), j) == Mem(p)[8 * at + j]
  {
    hide *;
    forall j | from <= j < 8 ensures TestBit(HeadPart(p[at], from), j) == Mem(p)[8 * at + j] {
      ByteHere(p, at);
      HeadPartBits(p[at], from, j);
    }
  }

  lemma NothingCopied(source: Memory, s: nat, target: Memory, d: nat)
    requires s <= |source| && d <= |target|
    ensures target == CopyBetween(source, s, target, d, 0)
  {
  }

  /** The word holds the bits from `at` on, as far as there are any. */
  ghost predicate Loaded(w: bv64, m: Memory, at: nat) {
    forall t: nat, j: nat :: t < 8 && j < 8 && at + 8 * t + j < |m| ==> StoredBit(w, t, j) == m[at + 8 * t + j]
  }

  /** memcpy into a word; the part of it behind the buffer is unknown. */
  method LoadWord(p: array<Byte>, at: nat) returns (w: bv64)
    ensures Loaded(w, Mem(p), 8 * at)
  {
    hide *;
    var b0 := Peek(p, at);
    var b1 := Peek(p, at + 1);
    var b2 := Peek(p, at + 2);
    var b3 := Peek(p, at + 3);
    var b4 := Peek(p, at + 4);
    var b5 := Peek(p, at + 5);
    var b6 := Peek(p, at + 6);
    var b7 := Peek(p, at + 7);
    var bytes := [b0, b1, b2, b3, b4, b5, b6, b7];
    w := WordOf(bytes);
    WordHolds(p, at, bytes);
  }

  lemma WordHolds(p: array<Byte>, at: nat, bytes: seq<Byte>)
    requires |bytes| == 8 && forall t :: 0 <= t < 8 && at + t < p.Length ==> bytes[t] == p[at + t]
    ensures Loaded(WordOf(bytes), Mem(p), 8 * at)
  {
    hide TestBit, ByteOf, WordOf, Mem;
    forall t: nat, j: nat | t < 8 && j < 8 && 8 * at + 8 * t + j < |Mem(p)|
      ensures StoredBit(WordOf(bytes), t, j) == Mem(p)[8 * at + 8 * t + j]
    {
      WordBytes(bytes, t);
      ByteHere(p, at + t);
      assert 8 * (at + t) + j == 8 * at + 8 * t + j;
    }
  }

  /** The bits from `at` on are those of the word. */
  ghost predicate Stored(w: bv64, m: Memory, at: nat)
    requires at + 64 <= |m|
  {
    forall t: nat, j: nat :: t < 8 && j < 8 ==> m[at + 8 * t + j] == StoredBit(w, t, j)
  }

  /** memcpy of a word into the buffer. */
  method StoreWord(p: array<Byte>, at: nat, w: bv64)
    requires at + 8 <= p.Length
    modifies p
    ensures Stored(w, Mem(p), 8 * at)
    ensures var before := old(Mem(p));
            forall i :: 0 <= i < |before| && !(8 * at <= i < 8 * at + 64) ==> Mem(p)[i] == before[i]
  {
    hide TestBit, ByteOf;
    forall k | 0 <= k < 8 { p[at + k] := ByteOf(w, k); }
    forall t: nat, j: nat | t < 8 && j < 8 ensures Mem(p)[8 * at + 8 * t + j] == StoredBit(w, t, j) {
      assert p[at + t] == ByteOf(w, t);
      assert (8 * at + 8 * t + j) / 8 == at + t && (8 * at + 8 * t + j) % 8 == j;
    }
  }

  // ------------------------------------------------------------------ the 64-bit loops

  /** cur is the source as the loop finds it after storing up to `upto`. */
  ghost predicate Linked(b: Bulk, source: Memory, cur: Memory, now: Memory, upto: nat)
    requires b.same ==> |source| == |now|
  {
    && |cur| == |source| && (b.same ==> cur == now)
    && forall p: nat :: p < |source| ==> cur[p] == Seen(b, source, now, upto, p)
  }

  /** The word of one step. */
  function StepWord(b: Bulk, w: bv64, v: bv64): bv64
    requires 1 <= b.shift <= 7
  {
    if b.slides then SlidingStep(w, v, b.shift) else SameOffsetStep(w, v, b.shift)
  }

  lemma StepWordBit(b: Bulk, w: bv64, v: bv64, t: nat, j: nat)
    requires 1 <= b.shift <= 7 && t < 8 && j < 8
    ensures var c := j + b.shift;
            StoredBit(StepWord(b, w, v), t, j)
            == if !b.slides then
                 (if c < 8 then StoredBit(w, t, c)
                  else if t > 0 then StoredBit(w, t - 1, c - 8) else StoredBit(v, 7, c - 8))
               else if c < 8 then StoredBit(w, t, c) || (t < 7 && StoredBit(v, t + 1, c))
               else (t > 0 && StoredBit(w, t - 1, c - 8)) || StoredBit(v, t, c - 8)
  {
    hide StoredBit, SlidingStep, SameOffsetStep;
    if b.slides { SlidingStores(w, v, b.shift, t, j); } else { SameOffsetStores(w, v, b.shift, t, j); }
  }

  lemma SeenAt(b: Bulk, source: Memory, cur: Memory, now: Memory, next: Memory, upto: nat, p: nat)
    requires p < |source| && |next| == |now| && (b.same ==> |source| == |now|) && upto <= |now|
    requires Linked(b, source, cur, now, upto) && forall i :: 0 <= i < upto ==> next[i] == now[i]
    ensures |cur| == |source| && cur[p] == Seen(b, source, next, upto, p)
  {
    assert cur[p] == Seen(b, source, now, upto, p);
  }

  /** One bit of one step. */
  lemma StepStores(b: Bulk, source: Memory, cur: Memory, now: Memory, k: nat, w: bv64, v: bv64, next: Memory,
                   t: nat, j: nat)
    requires 1 <= b.shift <= 7 && t < 8 && j < 8 && |next| == |now| && (b.same ==> |source| == |now|)
    requires b.dest + 64 * k + 64 <= |now| && Linked(b, source, cur, now, b.dest + 64 * k)
    requires Loaded(w, cur, b.start + 64 * k) && Loaded(v, cur, b.start + 64 * k + 64)
    requires next[b.dest + 64 * k + 8 * t + j] == StoredBit(StepWord(b, w, v), t, j)
    requires forall i :: 0 <= i < b.dest + 64 * k ==> next[i] == now[i]
    ensures StepBit(b, source, next, k, t, j)
  {
    hide StoredBit, StepWord, Seen, Linked;
    StepWordBit(b, w, v, t, j);
    var c, at := j + b.shift, b.start + 64 * k;
    var p, q := NearOrigin(b, k, t, j), FarOrigin(b, k, t, j);
    if p < |source| && q < |source| {
      SeenAt(b, source, cur, now, next, b.dest + 64 * k, p);
      SeenAt(b, source, cur, now, next, b.dest + 64 * k, q);
      if c < 8 {
        assert p == at + 8 * t + c;
        if b.slides && t < 7 { assert q == at + 64 + 8 * (t + 1) + c; }
      } else {
        if t > 0 { assert p == at + 8 * (t - 1) + (c - 8); }
        if b.slides { assert q == at + 64 + 8 * t + (c - 8); }
        if !b.slides && t == 0 { assert p == at + 64 + 8 * 7 + (c - 8); }
      }
    }
  }

  /** Later stores leave what earlier steps did. */
  lemma StepsKept(b: Bulk, source: Memory, now: Memory, next: Memory, count: nat)
    requires b.dest + 64 * count <= |now| == |next| && (b.same ==> |source| == |now|)
    requires StepsDone(b, source, now, count)
    requires forall i :: b.first <= i < b.dest + 64 * count || b.dest <= i < b.dest + 64 * count ==> next[i] == now[i]
    ensures StepsDone(b, source, next, count)
  {
    forall k: nat, t: nat, j: nat | k < count && t < 8 && j < 8 ensures StepBit(b, source, next, k, t, j) {
      StepBitKept(b, source, now, next, k, t, j);
    }
  }

  lemma StepBitKept(b: Bulk, source: Memory, now: Memory, next: Memory, k: nat, t: nat, j: nat)
    requires t < 8 && j < 8 && b.dest + 64 * k + 64 <= |now| == |next| && (b.same ==> |source| == |now|)
    requires StepBit(b, source, now, k, t, j)
    requires forall i :: b.first <= i < b.dest + 64 * k + 64 || b.dest <= i < b.dest + 64 * k + 64 ==> next[i] == now[i]
    ensures StepBit(b, source, next, k, t, j)
  {
    hide NearOrigin, FarOrigin;
  }

  /** What the loop stores next is new, the rest of the source as it was. */
  lemma LinkKept(b: Bulk, source: Memory, cur: Memory, now: Memory, upto: nat, next: Memory)
    requires |next| == |now| && (b.same ==> |source| == |now|) && b.first <= upto
    requires Linked(b, source, cur, now, upto)
    requires forall i :: 0 <= i < |now| && !(upto <= i < upto + 64) ==> next[i] == now[i]
    ensures Linked(b, source, if b.same then next else cur, next, upto + 64)
  {
    var later := if b.same then next else cur;
    forall p: nat | p < |source| ensures later[p] == Seen(b, source, next, upto + 64, p) {
      assert cur[p] == Seen(b, source, now, upto, p);
    }
  }

  lemma OneStepMore(b: Bulk, source: Memory, cur: Memory, now: Memory, k: nat, w: bv64, v: bv64, next: Memory)
    requires 1 <= b.shift <= 7 && |next| == |now| && (b.same ==> |source| == |now|) && b.first <= b.dest
    requires b.dest + 64 * k + 64 <= |now| && Linked(b, source, cur, now, b.dest + 64 * k)
    requires Loaded(w, cur, b.start + 64 * k) && Loaded(v, cur, b.start + 64 * k + 64)
    requires Stored(StepWord(b, w, v), next, b.dest + 64 * k)
    requires forall i :: 0 <= i < |now| && !(b.dest + 64 * k <= i < b.dest + 64 * k + 64) ==> next[i] == now[i]
    requires StepsDone(b, source, now, k)
    ensures StepsDone(b, source, next, k + 1)
    ensures Linked(b, source, if b.same then next else cur, next, b.dest + 64 * (k + 1))
  {
    hide StepBit, StoredBit, StepWord, Loaded;
    StepsKept(b, source, now, next, k);
    LinkKept(b, source, cur, now, b.dest + 64 * k, next);
    forall k': nat, t: nat, j: nat | k' < k + 1 && t < 8 && j < 8 ensures StepBit(b, source, next, k', t, j) {
      if k' == k {
        assert next[b.dest + 64 * k + 8 * t + j] == StoredBit(StepWord(b, w, v), t, j);
        StepStores(b, source, cur, now, k, w, v, next, t, j);
      }
    }
  }

  lemma NoStep(b: Bulk, source: Memory, now: Memory)
    requires b.dest <= |now| && (b.same ==> |source| == |now|)
    ensures StepsDone(b, source, now, 0)
  {
  }

  lemma StepWordIs(b: Bulk, w: bv64, v: bv64)
    requires 1 <= b.shift <= 7
    ensures StepWord(b, w, v) == if b.slides then SlidingStep(w, v, b.shift) else SameOffsetStep(w, v, b.shift)
  {
  }

  /** The source after the head has been written. */
  lemma LinkStart(b: Bulk, source: Memory, cur: Memory, target: Memory, now: Memory)
    requires |cur| == |source| && |now| == |target| && b.first <= b.dest
    requires if b.same then source == target && cur == now else cur == source
    requires forall i :: 0 <= i < |target| && !(b.first <= i < b.dest) ==> now[i] == target[i]
    ensures Linked(b, source, cur, now, b.dest)
  {
  }

  /** The 64-bit loop for equal, non-zero offsets.  It writes nothing outside its range, and every bit
      it stores comes from the origin the relation names. */
  method SameOffsetWords(n: nat, src: array<Byte>, si: nat, dst: array<Byte>, di: nat, from: nat, ghost b: Bulk,
    ghost source: Memory)
    returns (n': nat, si': nat, di': nat, ghost count: nat)
    requires 1 <= from <= 7 && b == Bulk(false, from, 8 * si, b.first, 8 * di, src == dst) && b.first <= b.dest
    requires 8 * si + n <= 8 * src.Length == |source| && 8 * di + n <= 8 * dst.Length
    requires Linked(b, source, Mem(src), Mem(dst), 8 * di)
    modifies dst
    ensures n' < 64 && n == n' + 64 * count && si' == si + 8 * count && di' == di + 8 * count
    ensures forall i :: 0 <= i < old(|Mem(dst)|) && !(8 * di <= i < 8 * di') ==> Mem(dst)[i] == old(Mem(dst))[i]
    ensures StepsDone(b, source, Mem(dst), count)
  {
    hide *;
    ghost var target := Mem(dst);
    n', si', di', count := n, si, di, 0;
    NoStep(b, source, target);
    while n' >= 64
      invariant n == n' + 64 * count && si' == si + 8 * count && di' == di + 8 * count
      invariant forall i :: 0 <= i < |target| && !(8 * di <= i < 8 * di') ==> Mem(dst)[i] == target[i]
      invariant Linked(b, source, Mem(src), Mem(dst), 8 * di')
      invariant StepsDone(b, source, Mem(dst), count)
    {
      ghost var cur, now := Mem(src), Mem(dst);
      var w := LoadWord(src, si');
      var v := LoadWord(src, si' + 8);
      var word := SameOffsetStep(w, v, from);
      StepWordIs(b, w, v);
      StoreWord(dst, di', word);
      OneStepMore(b, source, cur, now, count, w, v, Mem(dst));
      n', si', di', count := n' - 64, si' + 8, di' + 8, count + 1;
    }
  }

  /** Equal offsets: align once, then whole words (as written), whole bytes and a tail.
      Repair: no 64-bit loop. */
  method SameOffset(version: Version, n: nat, src: array<Byte>, s: nat, dst: array<Byte>, d: nat)
    requires n >= 8 && s + n <= 8 * src.Length && d + n <= 8 * dst.Length
    requires s % 8 == d % 8 != 0 && Apart(src == dst, s, d, n)
    modifies dst
    ensures Outcome(version, n, old(Mem(src)), s, old(Mem(dst)), d, src == dst, Mem(dst))
  {
    hide *;
    ghost var source, target, same := Mem(src), Mem(dst), src == dst;
    var n', si, di, from := AlignSame(version, n, src, s, dst, d);
    ghost var mid, count := Mem(dst), 0;
    SameBulk(version, s, d, same, si, di, from, source, Mem(src), target, mid);
    if version.AsWritten? {
      n', si, di, count := SameOffsetWords(n', src, si, dst, di, from, BulkOf(s, d, same), source);
    } else {
      NoStep(BulkOf(s, d, same), source, mid);
    }
    ghost var bulk := Mem(dst);
    ApartLater(same, s, d, n, 8 * si, 8 * di, n');
    BytesAndTail(n', src, si, dst, di);
    PhasesOutcome(version, n, source, s, target, d, same, mid, bulk, count, Mem(dst));
  }

  /** The alignment step for equal offsets: what is left to do starts on a byte of either side. */
  method AlignSame(version: Version, n: nat, src: array<Byte>, s: nat, dst: array<Byte>, d: nat)
    returns (n': nat, si: nat, di: nat, from: nat)
    requires n >= 8 && s + n <= 8 * src.Length && d + n <= 8 * dst.Length && s % 8 == d % 8 != 0
    modifies dst
    ensures from == s % 8 && 1 <= from <= 7 && 8 * si == s + Head(d) && 8 * di == d + Head(d) && n' == n - Head(d)
    ensures HeadDone(version, old(Mem(src)), s, old(Mem(dst)), d, Mem(dst))
  {
    hide *;
    ghost var source, target := Mem(src), Mem(dst);
    from := s % 8;
    SameOffsetStart(s, d);
    SameOffsetHead(src, s / 8, dst, d / 8, from);
    n', si, di := n - (8 - from), s / 8 + 1, d / 8 + 1;
    SameHeadDone(version, source, s, target, d, Mem(dst));
  }

  lemma SameHeadDone(version: Version, source: Memory, s: nat, target: Memory, d: nat, mid: Memory)
    requires s % 8 == d % 8 && s + Head(d) <= |source| && d + Head(d) <= |target|
    requires mid == CopyBetween(source, s, target, d, Head(d))
    ensures HeadDone(version, source, s, target, d, mid)
  {
  }

  lemma SameOffsetStart(s: nat, d: nat)
    requires s % 8 == d % 8 != 0
    ensures 8 * (s / 8) + s % 8 == s && 8 * (d / 8) + s % 8 == d && Head(d) == 8 - s % 8
    ensures 8 * (s / 8 + 1) == s + Head(d) && 8 * (d / 8 + 1) == d + Head(d)
  {
  }

  lemma SameBulk(version: Version, s: nat, d: nat, same: bool, si: nat, di: nat, from: nat,
                 source: Memory, cur: Memory, target: Memory, mid: Memory)
    requires s % 8 == d % 8 != 0 && 8 * si == s + Head(d) && 8 * di == d + Head(d) && from == s % 8
    requires s + Head(d) <= |source| == |cur| && d + Head(d) <= |target| == |mid|
    requires if same then source == target && cur == mid else cur == source
    requires HeadDone(version, source, s, target, d, mid)
    ensures var b := BulkOf(s, d, same);
            b == Bulk(false, from, 8 * si, d, 8 * di, same) && Linked(b, source, cur, mid, 8 * di)
  {
    LinkStart(BulkOf(s, d, same), source, cur, target, mid);
  }

  /** Head and rest were both copied faithfully. */
  lemma AlignedOutcome(version: Version, n: nat, source: Memory, s: nat, target: Memory, d: nat, same: bool,
                       mid: Memory, r: Memory)
    requires Fits(n, source, s, target, d) && Apart(same, s, d, n) && (same ==> source == target)
    requires Head(d) <= n && mid == CopyBetween(source, s, target, d, Head(d))
    requires r == CopyBetween(if same then mid else source, s + Head(d), mid, d + Head(d), n - Head(d))
    requires Faithful(version, n, s, d, same)
    ensures Outcome(version, n, source, s, target, d, same, r)
  {
    hide Faithful;
    CopyInTwo(source, s, target, d, Head(d), n, same);
  }

  /** What head, whole steps and the rest add up to outside the domain. */
  lemma AstrayOutcome(n: nat, source: Memory, s: nat, target: Memory, d: nat, same: bool,
                      mid: Memory, bulk: Memory, count: nat, r: Memory)
    requires n >= 8 && Fits(n, source, s, target, d) && Apart(same, s, d, n) && (same ==> source == target)
    requires !InDomain(n, s, d, same) && |mid| == |bulk| == |target|
    requires HeadDone(AsWritten, source, s, target, d, mid)
    requires 64 * count <= n - Head(d) < 64 * count + 64
    requires forall i :: 0 <= i < |mid| && !(d + Head(d) <= i < d + Head(d) + 64 * count) ==> bulk[i] == mid[i]
    requires StepsDone(BulkOf(s, d, same), source, bulk, count)
    requires var done := Head(d) + 64 * count;
             r == CopyBetween(if same then bulk else source, s + done, bulk, d + done, n - done)
    ensures Outcome(AsWritten, n, source, s, target, d, same, r)
  {
    hide StepsDone, BulkOf, HeadDone, CopyBetween;
    var done := Head(d) + 64 * count;
    assert count == Steps(n, d);
    CopyFrame(if same then bulk else source, s + done, bulk, d + done, n - done);
    StepsKept(BulkOf(s, d, same), source, bulk, r, count);
    HeadLeft(n, source, s, target, d, mid, bulk, count, r);
    RestIsCopy(n, source, s, target, d, same, mid, bulk, count, r);
  }

  lemma CopyFrame(source: Memory, s: nat, target: Memory, d: nat, n: nat)
    requires s + n <= |source| && d + n <= |target|
    ensures forall i :: 0 <= i < |target| && !(d <= i < d + n) ==> CopyBetween(source, s, target, d, n)[i] == target[i]
  {
  }

  /** The head and everything outside the range stay as the first phase left them. */
  lemma HeadLeft(n: nat, source: Memory, s: nat, target: Memory, d: nat, mid: Memory, bulk: Memory,
                 count: nat, r: Memory)
    requires Fits(n, source, s, target, d) && |mid| == |bulk| == |r| == |target| && Head(d) + 64 * count <= n
    requires HeadDone(AsWritten, source, s, target, d, mid)
    requires forall i :: 0 <= i < |mid| && !(d + Head(d) <= i < d + Head(d) + 64 * count) ==> bulk[i] == mid[i]
    requires forall i :: 0 <= i < |r| && !(d + Head(d) + 64 * count <= i < d + n) ==> r[i] == bulk[i]
    ensures var skew := if s % 8 < d % 8 then 8 else 0;
            forall i :: d <= i < d + Head(d) && s + skew + (i - d) < |source| ==> r[i] == source[s + skew + (i - d)]
    ensures forall i :: 0 <= i < |r| && !(d <= i < d + n) ==> r[i] == target[i]
  {
  }

  /** The rest is copied from source bits that nothing has touched. */
  lemma RestIsCopy(n: nat, source: Memory, s: nat, target: Memory, d: nat, same: bool, mid: Memory, bulk: Memory,
                   count: nat, r: Memory)
    requires Fits(n, source, s, target, d) && Apart(same, s, d, n) && (same ==> source == target)
    requires |mid| == |bulk| == |target| && Head(d) + 64 * count <= n
    requires HeadDone(AsWritten, source, s, target, d, mid)
    requires forall i :: 0 <= i < |mid| && !(d + Head(d) <= i < d + Head(d) + 64 * count) ==> bulk[i] == mid[i]
    requires var done := Head(d) + 64 * count;
             r == CopyBetween(if same then bulk else source, s + done, bulk, d + done, n - done)
    ensures forall i :: d + Head(d) + 64 * count <= i < d + n ==> r[i] == source[s + (i - d)]
  {
    hide CopyBetween;
    var done := Head(d) + 64 * count;
    var from := if same then bulk else source;
    forall i | d + done <= i < d + n ensures r[i] == source[s + (i - d)] {
      CopiedAt(from, s + done, bulk, d + done, n - done, i);
    }
  }

  lemma CopiedAt(source: Memory, s: nat, target: Memory, d: nat, n: nat, i: nat)
    requires s + n <= |source| && d + n <= |target| && d <= i < d + n
    ensures CopyBetween(source, s, target, d, n)[i] == source[s + (i - d)]
  {
  }

  /** The destination's partial first byte has been written. */
  ghost predicate HeadDone(version: Version, source: Memory, s: nat, target: Memory, d: nat, mid: Memory)
    requires s + Head(d) <= |source| && d + Head(d) <= |target| == |mid|
  {
    && (forall i :: 0 <= i < |target| && !(d <= i < d + Head(d)) ==> mid[i] == target[i])
    && (if version.AsWritten? && s % 8 < d % 8
        then forall i :: d <= i < d + Head(d) && s + 8 + (i - d) < |source| ==> mid[i] == source[s + 8 + (i - d)]
        else mid == CopyBetween(source, s, target, d, Head(d)))
  }

  // ------------------------------------------------------------------ different offsets

  /** The byte to be merged into the partial first byte, for source offset 8*si+sm and
      destination offset dm in its byte.  As written it holds the source bits one byte too far
      along when sm is the smaller offset.
      Repair: shift the one source byte to the right instead. */
  method ShiftedHeadByte(version: Version, src: array<Byte>, si: nat, sm: nat, dm: nat) returns (c: Byte)
    requires sm < 8 && 1 <= dm < 8 && sm != dm && 8 * si + sm + (8 - dm) <= 8 * src.Length
    ensures var at := if version.AsWritten? && sm < dm then 8 * si + sm + 8 else 8 * si + sm;
            forall j :: dm <= j < 8 && at + (j - dm) < 8 * src.Length ==>
              TestBit(c, j) == Mem(src)[at + (j - dm)]
  {
    hide *;
    var left := if sm > dm then sm - dm else 8 - (dm - sm);
    if version.Repaired? && sm < dm {
      c := Shr(src[si], dm - sm);
      forall j | dm <= j < 8 ensures TestBit(c, j) == Mem(src)[8 * si + sm + (j - dm)] {
        ShrBit(src[si], dm - sm, j);
        ByteHere(src, si);
      }
    } else {
      c := ShiftedByte(version, src, si, left);
    }
  }

  method ShiftedHead(version: Version, src: array<Byte>, si: nat, sm: nat, dst: array<Byte>, di: nat, dm: nat)
    requires sm < 8 && 1 <= dm < 8 && sm != dm
    requires 8 * si + sm + (8 - dm) <= 8 * src.Length && di < dst.Length
    modifies dst
    ensures var source, target, s, d := old(Mem(src)), old(Mem(dst)), 8 * si + sm, 8 * di + dm;
            && (forall i :: 0 <= i < |target| && !(d <= i < 8 * di + 8) ==> Mem(dst)[i] == target[i])
            && (if version.AsWritten? && sm < dm
                then forall i :: d <= i < 8 * di + 8 && s + 8 + (i - d) < |source| ==>
                       Mem(dst)[i] == source[s + 8 + (i - d)]
                else Mem(dst) == CopyBetween(source, s, target, d, 8 - dm))
  {
    hide *;
    ghost var source, target, s, d := Mem(src), Mem(dst), 8 * si + sm, 8 * di + dm;
    var c := ShiftedHeadByte(version, src, si, sm, dm);
    var mask := HeadMask(dm, 8 - dm);
    forall j | 0 <= j < 8 ensures TestBit(mask, j) == (dm <= j < 8) { HeadMaskBits(dm, 8 - dm, j); }
    StoreMasked(dst, di, c, mask, dm, 8);
    if version.Repaired? || sm > dm {
      NothingCopied(source, s, target, d);
      CopyOneByteMore(source, s, target, d, 0, di, dm, 8, c, target, Mem(dst));
    }
  }

  /** The 64-bit loop for different offsets.  It writes nothing outside its range, and every bit it
      stores is the or of the two origins the relation names. */
  method SlidingWords(n: nat, src: array<Byte>, si: nat, dst: array<Byte>, di: nat, left: nat, ghost b: Bulk,
    ghost source: Memory)
    returns (n': nat, si': nat, di': nat, ghost count: nat)
    requires 1 <= left <= 7 && b == Bulk(true, left, 8 * si, b.first, 8 * di, src == dst) && b.first <= b.dest
    requires 8 * si + left + n <= 8 * src.Length == |source| && 8 * di + n <= 8 * dst.Length
    requires Linked(b, source, Mem(src), Mem(dst), 8 * di)
    modifies dst
    ensures n' < 64 && n == n' + 64 * count && si' == si + 8 * count && di' == di + 8 * count
    ensures forall i :: 0 <= i < old(|Mem(dst)|) && !(8 * di <= i < 8 * di') ==> Mem(dst)[i] == old(Mem(dst))[i]
    ensures StepsDone(b, source, Mem(dst), count)
  {
    hide *;
    ghost var target := Mem(dst);
    n', si', di', count := n, si, di, 0;
    NoStep(b, source, target);
    while n' >= 64
      invariant n == n' + 64 * count && si' == si + 8 * count && di' == di + 8 * count
      invariant forall i :: 0 <= i < |target| && !(8 * di <= i < 8 * di') ==> Mem(dst)[i] == target[i]
      invariant Linked(b, source, Mem(src), Mem(dst), 8 * di')
      invariant StepsDone(b, source, Mem(dst), count)
    {
      ghost var cur, now := Mem(src), Mem(dst);
      var w := LoadWord(src, si');
      var v := LoadWord(src, si' + 8);
      var word := SlidingStep(w, v, left);
      StepWordIs(b, w, v);
      StoreWord(dst, di', word);
      OneStepMore(b, source, cur, now, count, w, v, Mem(dst));
      n', si', di', count := n' - 64, si' + 8, di' + 8, count + 1;
    }
  }

  /** The next m source bits, at most a byte of them, starting `left` bits into src[si].
      Repair: a byte that has no use is not loaded. */
  method NextBits(version: Version, m: nat, src: array<Byte>, si: nat, left: nat) returns (c: Byte)
    requires 1 <= left <= 7 && 0 < m <= 8 && 8 * si + left + m <= 8 * src.Length
    ensures forall j :: 0 <= j < m ==> TestBit(c, j) == Mem(src)[8 * si + left + j]
  {
    hide *;
    if version.Repaired? && left + m <= 8 {
      c := Shl(src[si], left);
      forall j | 0 <= j < m ensures TestBit(c, j) == Mem(src)[8 * si + left + j] {
        ShlBit(src[si], left, j);
        ByteHere(src, si);
      }
    } else {
      c := ShiftedByte(version, src, si, left);
    }
  }

  /** One step of the byte loop, or its tail: m more bits after the first k. */
  method SlideOn(version: Version, m: nat, src: array<Byte>, si: nat, dst: array<Byte>, di: nat, left: nat,
                 ghost source: Memory, ghost s: nat, ghost target: Memory, ghost d: nat, ghost k: nat, ghost n: nat)
    requires 1 <= left <= 7 && 0 < m <= 8 && k + m <= n
    requires 8 * si + left == s + k && 8 * di == d + k
    requires s + n <= 8 * src.Length == |source| && d + n <= 8 * dst.Length == |target|
    requires Apart(src == dst, s, d, n) && (src == dst ==> source == target)
    requires Mem(dst) == CopyBetween(source, s, target, d, k) && (src != dst ==> Mem(src) == source)
    modifies dst
    ensures Mem(dst) == CopyBetween(source, s, target, d, k + m)
  {
    hide *;
    var c := NextBits(version, m, src, si, left);
    ghost var mid := Mem(dst);
    RestUntouched(source, s, target, d, k, n, src == dst, mid, Mem(src));
    StoreTop(dst, di, c, m);
    CopyOneByteMore(source, s, target, d, k, di, 0, m, c, mid, Mem(dst));
  }

  /** The byte loop and the masked tail for different offsets; right for any n. */
  method SlidingBytes(version: Version, n: nat, src: array<Byte>, si: nat, dst: array<Byte>, di: nat, left: nat)
    requires 1 <= left <= 7
    requires 8 * si + left + n <= 8 * src.Length && 8 * di + n <= 8 * dst.Length
    requires Apart(src == dst, 8 * si + left, 8 * di, n)
    modifies dst
    ensures Mem(dst) == CopyBetween(old(Mem(src)), 8 * si + left, old(Mem(dst)), 8 * di, n)
  {
    hide *;
    ghost var source, target, s, d := Mem(src), Mem(dst), 8 * si + left, 8 * di;
    var n': nat, si', di' := n, si, di;
    ghost var k: nat := 0;
    NothingCopied(source, s, target, d);
    while n' >= 8
      invariant n == n' + 8 * k && si' == si + k && di' == di + k
      invariant Mem(dst) == CopyBetween(source, s, target, d, 8 * k)
      invariant src != dst ==> Mem(src) == source
    {
      SlideOn(version, 8, src, si', dst, di', left, source, s, target, d, 8 * k, n);
      n', si', di' := n' - 8, si' + 1, di' + 1;
      k := k + 1;
    }
    if n' > 0 {
      SlideOn(version, n', src, si', dst, di', left, source, s, target, d, 8 * k, n);
    }
  }

  /** The alignment step for different offsets: what is left to do starts on a destination byte,
      `left` bits into a source byte. */
  method Align(version: Version, n: nat, src: array<Byte>, s: nat, dst: array<Byte>, d: nat)
    returns (n': nat, si: nat, di: nat, left: nat)
    requires n >= 8 && s + n <= 8 * src.Length && d + n <= 8 * dst.Length && s % 8 != d % 8
    modifies dst
    ensures left == Left(s, d) && 1 <= left <= 7
    ensures 8 * si + left == s + Head(d) && 8 * di == d + Head(d) && n' == n - Head(d)
    ensures HeadDone(version, old(Mem(src)), s, old(Mem(dst)), d, Mem(dst))
  {
    hide Mem, CopyBetween;
    ghost var source, target := Mem(src), Mem(dst);
    var sm, dm := s % 8, d % 8;
    si, di := s / 8, d / 8;
    left := if sm > dm then sm - dm else 8 - (dm - sm);
    n' := n;
    if dm > 0 {
      ShiftedHead(version, src, si, sm, dst, di, dm);
      n', di := n - (8 - dm), di + 1;
      if sm > dm { si := si + 1; }
    } else {
      NothingCopied(source, s, target, d);
    }
  }

  /** Different offsets: a partial head, whole words (as written), single bytes and a tail.
      Repair: no 64-bit loop. */
  method DifferentOffsets(version: Version, n: nat, src: array<Byte>, s: nat, dst: array<Byte>, d: nat)
    requires n >= 8 && s + n <= 8 * src.Length && d + n <= 8 * dst.Length
    requires s % 8 != d % 8 && Apart(src == dst, s, d, n)
    modifies dst
    ensures Outcome(version, n, old(Mem(src)), s, old(Mem(dst)), d, src == dst, Mem(dst))
  {
    hide *;
    ghost var source, target, same := Mem(src), Mem(dst), src == dst;
    var n', si, di, left := Align(version, n, src, s, dst, d);
    ghost var mid, count := Mem(dst), 0;
    AlignedBulk(version, s, d, same, si, di, left, source, Mem(src), target, mid);
    if version.AsWritten? {
      n', si, di, count := SlidingWords(n', src, si, dst, di, left, BulkOf(s, d, same), source);
    } else {
      NoStep(BulkOf(s, d, same), source, mid);
    }
    ghost var bulk := Mem(dst);
    ApartLater(same, s, d, n, 8 * si + left, 8 * di, n');
    SlidingBytes(version, n', src, si, dst, di, left);
    PhasesOutcome(version, n, source, s, target, d, same, mid, bulk, count, Mem(dst));
  }

  lemma AlignedBulk(version: Version, s: nat, d: nat, same: bool, si: nat, di: nat, left: nat,
                    source: Memory, cur: Memory, target: Memory, mid: Memory)
    requires s % 8 != d % 8 && 8 * si + left == s + Head(d) && 8 * di == d + Head(d) && left == Left(s, d)
    requires s + Head(d) <= |source| == |cur| && d + Head(d) <= |target| == |mid|
    requires if same then source == target && cur == mid else cur == source
    requires HeadDone(version, source, s, target, d, mid)
    ensures var b := BulkOf(s, d, same);
            b == Bulk(true, left, 8 * si, d, 8 * di, same) && Linked(b, source, cur, mid, 8 * di)
  {
    LinkStart(BulkOf(s, d, same), source, cur, target, mid);
  }

  lemma ApartLater(same: bool, s: nat, d: nat, n: nat, s': nat, d': nat, rest: nat)
    requires Apart(same, s, d, n) && s <= s' && d <= d' && s' + rest == s + n && d' + rest == d + n
    ensures Apart(same, s', d', rest)
  {
  }

  /** What the three phases add up to. */
  lemma PhasesOutcome(version: Version, n: nat, source: Memory, s: nat, target: Memory, d: nat, same: bool,
                         mid: Memory, bulk: Memory, count: nat, r: Memory)
    requires n >= 8 && s + n <= |source| && d + n <= |target| && Apart(same, s, d, n) && (same ==> source == target)
    requires (s % 8 != 0 || d % 8 != 0) && |mid| == |bulk| == |r| == |target|
    requires HeadDone(version, source, s, target, d, mid)
    requires if version.Repaired? then count == 0 else 64 * count <= n - Head(d) < 64 * count + 64
    requires Head(d) + 64 * count <= n
    requires forall i :: 0 <= i < |mid| && !(d + Head(d) <= i < d + Head(d) + 64 * count) ==> bulk[i] == mid[i]
    requires StepsDone(BulkOf(s, d, same), source, bulk, count)
    requires var done := Head(d) + 64 * count;
             r == CopyBetween(if same then bulk else source, s + done, bulk, d + done, n - done)
    ensures Outcome(version, n, source, s, target, d, same, r)
  {
    hide Outcome, StepsDone, CopyBetween;
    if Faithful(version, n, s, d, same) {
      assert count == 0 && bulk == mid;
      AlignedOutcome(version, n, source, s, target, d, same, mid, r);
    } else {
      AstrayOutcome(n, source, s, target, d, same, mid, bulk, count, r);
    }
  }

  // ------------------------------------------------------------------ the whole function

  /** bitcpy.  Every branch keeps all bits outside the destination range; the destination receives
      the old source bits wherever the version is faithful, and goes astray elsewhere.  The source
      and the destination may be one buffer. */
  method Bitcpy(version: Version, n: nat, src: array<Byte>, s: nat, dst: array<Byte>, d: nat)
    requires s + n <= 8 * src.Length && d + n <= 8 * dst.Length
    modifies dst
    ensures Outcome(version, n, old(Mem(src)), s, old(Mem(dst)), d, src == dst, Mem(dst))
  {
    hide *;
    FaithfulOutcome(version, n, Mem(src), s, Mem(dst), d, src == dst);
    if n == 0 { return; }
    if src == dst && s == d { return; }
    if n < 8 {
      OverlapFallback(n, src, s, dst, d);
      return;
    }
    if src == dst && Overlapping(s, d, n) {
      OverlapFallback(n, src, s, dst, d);
      return;
    }
    ApartIfNotOverlapping(src == dst, s, d, n);
    if s % 8 == 0 && d % 8 == 0 {
      BytesAndTail(n, src, s / 8, dst, d / 8);
      return;
    }
    if s % 8 == d % 8 {
      SameOffset(version, n, src, s, dst, d);
      return;
    }
    DifferentOffsets(version, n, src, s, dst, d);
  }

  lemma ApartIfNotOverlapping(same: bool, s: nat, d: nat, n: nat)
    ensures !(same && Overlapping(s, d, n)) ==> Apart(same, s, d, n)
  {
  }

  /** The cases that never reach the mask-and-shift paths. */
  lemma FaithfulOutcome(version: Version, n: nat, source: Memory, s: nat, target: Memory, d: nat, same: bool)
    requires s + n <= |source| && d + n <= |target| && (same ==> source == target)
    ensures n < 8 || (same && Overlapping(s, d, n)) || (s % 8 == 0 && d % 8 == 0) ==>
              Outcome(version, n, source, s, target, d, same, CopyBetween(source, s, target, d, n))
    ensures n == 0 || (same && s == d) ==> Outcome(version, n, source, s, target, d, same, target)
  {
    hide CopyBetween, Astray;
    if n == 0 || (same && s == d) {
      assert CopyBetween(source, s, target, d, n) == target;
    }
  }

  // ------------------------------------------------------------------ how exact the domain is

  /** Every byte the first wrong step loads lies inside a source buffer of `size` bits.  (Where it
      does not, C leaves the result open.) */
  predicate LoadsInside(n: nat, s: nat, d: nat, size: nat) {
    && (s % 8 < d % 8 ==> s + 8 < size)
    && (s % 8 > d % 8 && n >= Head(d) + 64 ==> s + Head(d) + 72 < size)
  }

  /** A memory of `size` bits that is zero but for bit `one`. */
  function OneBit(size: nat, one: nat): (m: Memory)
    ensures |m| == size && forall i :: 0 <= i < size ==> m[i] == (i == one)
  {
    seq(size, i => i == one)
  }

  /** Outside the domain there are contents on which every possible result is wrong. */
  lemma DivergesOutsideDomain(n: nat, s: nat, d: nat, size: nat, size': nat, same: bool)
    returns (source: Memory, target: Memory)
    requires s + n <= size && d + n <= size' && (same ==> size == size')
    requires !InDomain(n, s, d, same) && LoadsInside(n, s, d, size)
    ensures |source| == size && |target| == size' && (same ==> source == target)
    ensures forall r | Outcome(AsWritten, n, source, s, target, d, same, r) ::
              r != CopyBetween(source, s, target, d, n)
  {
    hide CopyBetween, OneBit;
    var at := Head(d);
    var one := if s % 8 < d % 8 then s else if s % 8 == d % 8 then s + at else StrayOrigin(s, d, same);
    source := OneBit(size, one);
    target := if same then source else OneBit(size', size');
    forall r | Outcome(AsWritten, n, source, s, target, d, same, r)
      ensures r != CopyBetween(source, s, target, d, n)
    {
      OneBitGoesAstray(n, source, s, target, d, same, r, one);
    }
  }

  lemma OneBitGoesAstray(n: nat, source: Memory, s: nat, target: Memory, d: nat, same: bool, r: Memory, one: nat)
    requires Fits(n, source, s, target, d) && !InDomain(n, s, d, same) && LoadsInside(n, s, d, |source|)
    requires same ==> source == target
    requires one == if s % 8 < d % 8 then s else if s % 8 == d % 8 then s + Head(d) else StrayOrigin(s, d, same)
    requires forall i :: 0 <= i < |source| ==> source[i] == (i == one)
    requires Outcome(AsWritten, n, source, s, target, d, same, r)
    ensures r != CopyBetween(source, s, target, d, n)
  {
    hide CopyBetween, StepsDone;
    var probe := if s % 8 < d % 8 then d else d + Head(d);
    CopiedAt(source, s, target, d, n, probe);
    if s % 8 >= d % 8 { FirstStepBit(n, source, s, target, d, same, r); }
    assert r[probe] != source[s + (probe - d)];
  }

  /** What the first bit of the first step becomes. */
  lemma FirstStepBit(n: nat, source: Memory, s: nat, target: Memory, d: nat, same: bool, r: Memory)
    requires Fits(n, source, s, target, d) && (same ==> source == target) && |r| == |target|
    requires !InDomain(n, s, d, same) && s % 8 >= d % 8 && LoadsInside(n, s, d, |source|)
    requires Astray(n, source, s, target, d, same, r)
    ensures var at := Head(d);
            r[d + at] == if s % 8 == d % 8 then source[s + at + s % 8]
                         else source[s + at] || source[StrayOrigin(s, d, same)]
  {
    assert StepBit(BulkOf(s, d, same), source, r, 0, 0, 0);
  }

  /** The code as written copies faithfully for all contents exactly on its domain. */
  lemma DomainIsExact(n: nat, s: nat, d: nat, size: nat, size': nat, same: bool)
    requires s + n <= size && d + n <= size' && (same ==> size == size')
    requires LoadsInside(n, s, d, size)
    ensures InDomain(n, s, d, same)
        <==> forall source: Memory, target: Memory, r: Memory
               | |source| == size && |target| == size' && (same ==> source == target)
                 && Outcome(AsWritten, n, source, s, target, d, same, r)
               :: r == CopyBetween(source, s, target, d, n)
  {
    if !InDomain(n, s, d, same) {
      var source, target := DivergesOutsideDomain(n, s, d, size, size', same);
      var r := SomeOutcome(n, source, s, target, d, same);
    }
  }

  /** Some memory is what the loop leaves. */
  lemma {:induction false} SomeSteps(b: Bulk, source: Memory, now: Memory, count: nat) returns (r: Memory)
    requires b.first <= b.dest && b.dest + 64 * count <= |now| && (b.same ==> |source| == |now|)
    ensures |r| == |now| && StepsDone(b, source, r, count)
    ensures forall i :: 0 <= i < |now| && !(b.dest <= i < b.dest + 64 * count) ==> r[i] == now[i]
    decreases count
  {
    hide StepBit, NearOrigin, FarOrigin;
    r := now;
    if count > 0 {
      var k := count - 1;
      var before := SomeSteps(b, source, now, k);
      r := WithStep(b, source, before, k);
      StepsKept(b, source, before, r, k);
      forall k': nat, t: nat, j: nat | k' < count && t < 8 && j < 8 ensures StepBit(b, source, r, k', t, j) {
        if k' == k { StepBitOfWithStep(b, source, before, k, t, j); }
      }
    }
  }

  /** The or of the two origins, where they are inside the source. */
  predicate Origins(b: Bulk, source: Memory, now: Memory, k: nat, t: nat, j: nat)
    requires b.same ==> |source| == |now|
  {
    var p, q, upto := NearOrigin(b, k, t, j), FarOrigin(b, k, t, j), b.dest + 64 * k;
    p < |source| && q < |source| && (Seen(b, source, now, upto, p) || Seen(b, source, now, upto, q))
  }

  function WithStep(b: Bulk, source: Memory, now: Memory, k: nat): (r: Memory)
    requires b.same ==> |source| == |now|
    ensures |r| == |now|
  {
    var at := b.dest + 64 * k;
    seq(|now|, i requires 0 <= i < |now| =>
      if at <= i < at + 64 then Origins(b, source, now, k, (i - at) / 8, (i - at) % 8) else now[i])
  }

  lemma StepBitOfWithStep(b: Bulk, source: Memory, now: Memory, k: nat, t: nat, j: nat)
    requires t < 8 && j < 8 && b.dest + 64 * k + 64 <= |now| && (b.same ==> |source| == |now|)
    ensures StepBit(b, source, WithStep(b, source, now, k), k, t, j)
  {
    hide NearOrigin, FarOrigin;
    var r, at := WithStep(b, source, now, k), b.dest + 64 * k;
    var p, q := NearOrigin(b, k, t, j), FarOrigin(b, k, t, j);
    assert (8 * t + j) / 8 == t && (8 * t + j) % 8 == j;
    assert at + 8 * t + j - at == 8 * t + j;
    if p < |source| && q < |source| {
      assert Seen(b, source, r, at, p) == Seen(b, source, now, at, p);
      assert Seen(b, source, r, at, q) == Seen(b, source, now, at, q);
      assert r[at + 8 * t + j] == Origins(b, source, now, k, t, j);
    }
  }

  lemma SomeOutcome(n: nat, source: Memory, s: nat, target: Memory, d: nat, same: bool) returns (r: Memory)
    requires Fits(n, source, s, target, d) && (same ==> source == target)
    requires !InDomain(n, s, d, same)
    ensures Outcome(AsWritten, n, source, s, target, d, same, r)
  {
    hide StepsDone, BulkOf, Prepared;
    var start := Prepared(n, source, s, target, d);
    r := SomeSteps(BulkOf(s, d, same), source, start, Steps(n, d));
    PreparedIsAstray(n, source, s, target, d, same, r);
  }

  /** Head and rest as the code leaves them, nothing stored between. */
  function Prepared(n: nat, source: Memory, s: nat, target: Memory, d: nat): (start: Memory)
    requires Fits(n, source, s, target, d) && Head(d) <= n
    ensures |start| == |target|
  {
    var behind, skew := Head(d) + 64 * Steps(n, d), if s % 8 < d % 8 then 8 else 0;
    seq(|target|, i requires 0 <= i < |target| =>
      if d <= i < d + Head(d) && s + skew + (i - d) < |source| then source[s + skew + (i - d)]
      else if d + behind <= i < d + n then source[s + (i - d)] else target[i])
  }

  lemma PreparedIsAstray(n: nat, source: Memory, s: nat, target: Memory, d: nat, same: bool, r: Memory)
    requires Fits(n, source, s, target, d) && (same ==> source == target) && !InDomain(n, s, d, same)
    requires |r| == |target| && StepsDone(BulkOf(s, d, same), source, r, Steps(n, d))
    requires forall i :: 0 <= i < |r| && !(d + Head(d) <= i < d + Head(d) + 64 * Steps(n, d)) ==>
               r[i] == Prepared(n, source, s, target, d)[i]
    ensures Outcome(AsWritten, n, source, s, target, d, same, r)
  {
    hide StepsDone, BulkOf;
  }

  // ------------------------------------------------------------------ how complete the description is

  /** Every byte the call loads lies inside a source buffer of `size` bits. */
  predicate AllLoadsInside(n: nat, s: nat, d: nat, same: bool, size: nat)
    requires Head(d) <= n
  {
    && (s % 8 < d % 8 ==> s + 8 + Head(d) <= size)
    && (Steps(n, d) > 0 ==> BulkOf(s, d, same).start + 64 * Steps(n, d) + 64 <= size)
  }

  /** Then the description of the code as written leaves nothing open, on any branch. */
  lemma OutcomeIsUnique(n: nat, source: Memory, s: nat, target: Memory, d: nat, same: bool, r: Memory, r': Memory)
    requires Fits(n, source, s, target, d) && (same ==> source == target)
    requires Head(d) <= n ==> AllLoadsInside(n, s, d, same, |source|)
    requires Outcome(AsWritten, n, source, s, target, d, same, r)
    requires Outcome(AsWritten, n, source, s, target, d, same, r')
    ensures r == r'
  {
    hide StepsDone, BulkOf, CopyBetween;
    if !InDomain(n, s, d, same) {
      var at, count := d + Head(d), Steps(n, d);
      forall i | d <= i < at ensures r[i] == r'[i] { }
      BulkShape(s, d, same);
      StepsAgree(BulkOf(s, d, same), source, r, r', count);
      forall i | 0 <= i < |target| ensures r[i] == r'[i] {
        if at + 64 * count <= i < d + n { assert r[i] == source[s + (i - d)]; }
      }
    }
  }

  lemma BulkShape(s: nat, d: nat, same: bool)
    requires s % 8 != 0 || d % 8 != 0
    ensures 1 <= BulkOf(s, d, same).shift <= 7
  {
  }

  lemma {:induction false} StepsAgree(b: Bulk, source: Memory, r: Memory, r': Memory, count: nat)
    requires 1 <= b.shift <= 7 && b.first <= b.dest && b.dest + 64 * count <= |r| == |r'|
    requires b.same ==> |source| == |r|
    requires count > 0 ==> b.start + 64 * count + 64 <= |source|
    requires StepsDone(b, source, r, count) && StepsDone(b, source, r', count)
    requires forall i :: b.first <= i < b.dest ==> r[i] == r'[i]
    ensures forall i :: b.first <= i < b.dest + 64 * count ==> r[i] == r'[i]
    decreases count
  {
    hide StepBit;
    if count > 0 {
      var k := count - 1;
      StepsAgree(b, source, r, r', k);
      forall i | b.dest + 64 * k <= i < b.dest + 64 * count ensures r[i] == r'[i] {
        var y := i - (b.dest + 64 * k);
        assert StepBit(b, source, r, k, y / 8, y % 8) && StepBit(b, source, r', k, y / 8, y % 8);
        StepBitAgrees(b, source, r, r', k, y / 8, y % 8);
      }
    }
  }

  lemma StepBitAgrees(b: Bulk, source: Memory, r: Memory, r': Memory, k: nat, t: nat, j: nat)
    requires 1 <= b.shift <= 7 && t < 8 && j < 8 && b.dest + 64 * k + 64 <= |r| == |r'|
    requires b.same ==> |source| == |r|
    requires b.start + 64 * k + 128 <= |source|
    requires StepBit(b, source, r, k, t, j) && StepBit(b, source, r', k, t, j)
    requires forall i :: b.first <= i < b.dest + 64 * k ==> r[i] == r'[i]
    ensures r[b.dest + 64 * k + 8 * t + j] == r'[b.dest + 64 * k + 8 * t + j]
  {
    var p, q, upto := NearOrigin(b, k, t, j), FarOrigin(b, k, t, j), b.dest + 64 * k;
    assert p < |source| && q < |source|;
    assert Seen(b, source, r, upto, p) == Seen(b, source, r', upto, p);
    assert Seen(b, source, r, upto, q) == Seen(b, source, r', upto, q);
  }
}
