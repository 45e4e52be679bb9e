/** Bytes, bits and bit-addressed memory.

    A byte is numbered from its most significant bit: positions 0..7 are the masks
    0x80, 0x40, ..., 0x01.  A byte string is seen as one long sequence of bits, and every
    higher-level statement of this project is made about that sequence. */
module BitSpace {

  type Byte = bv8

  /** A bit-addressed memory. */
  type Memory = seq<bool>

  function Mask(k: nat): Byte
    requires k < 8
  {
    match k
    case 0 => 0x80
    case 1 => 0x40
    case 2 => 0x20
    case 3 => 0x10
    case 4 => 0x08
    case 5 => 0x04
    case 6 => 0x02
    case _ => 0x01
  }

  /** Bit k of b, counted from the most significant. */
  predicate TestBit(b: Byte, k: nat)
    requires k < 8
  {
    b & Mask(k) != 0
  }

  /** b << k inside one byte.  The amount is spelled out so that no integer has to be turned
      into a bit vector. */
  function Shl(b: Byte, k: nat): Byte
    requires k < 8
  {
    match k
    case 0 => b
    case 1 => b << 1
    case 2 => b << 2
    case 3 => b << 3
    case 4 => b << 4
    case 5 => b << 5
    case 6 => b << 6
    case _ => b << 7
  }

  /** b >> k inside one byte. */
  function Shr(b: Byte, k: nat): Byte
    requires k < 8
  {
    match k
    case 0 => b
    case 1 => b >> 1
    case 2 => b >> 2
    case 3 => b >> 3
    case 4 => b >> 4
    case 5 => b >> 5
    case 6 => b >> 6
    case _ => b >> 7
  }

  lemma ShiftedOut(b: Byte, j: nat)
    requires j < 8
    ensures TestBit(b, j) == (Shr(b, 7 - j) & 1 == 1)
    ensures Mask(j) == Shl(1, 7 - j)
  {
  }

  lemma ShlBit(b: Byte, k: nat, j: nat)
    requires k < 8 && j < 8
    ensures TestBit(Shl(b, k), j) == (j + k < 8 && TestBit(b, j + k))
  {
    match k {
      case 0 => case 1 => case 2 => case 3 => case 4 => case 5 => case 6 => case _ =>
    }
  }

  lemma ShrBit(b: Byte, k: nat, j: nat)
    requires k < 8 && j < 8
    ensures TestBit(Shr(b, k), j) == (k <= j && TestBit(b, j - k))
  {
    match k {
      case 0 => case 1 => case 2 => case 3 => case 4 => case 5 => case 6 => case _ =>
    }
  }

  lemma OrBit(x: Byte, y: Byte, j: nat)
    requires j < 8
    ensures TestBit(x | y, j) == (TestBit(x, j) || TestBit(y, j))
  {
  }

  lemma AndBit(x: Byte, y: Byte, j: nat)
    requires j < 8
    ensures TestBit(x & y, j) == (TestBit(x, j) && TestBit(y, j))
  {
  }

  lemma NotBit(x: Byte, j: nat)
    requires j < 8
    ensures TestBit(!x, j) == !TestBit(x, j)
  {
  }

  /** *b |= mask, or *b &= ~mask, for the one-bit mask of position k. */
  function SetBit(b: Byte, k: nat, v: bool): Byte
    requires k < 8
  {
    if v then b | Shl(1, 7 - k) else b & !Shl(1, 7 - k)
  }

  lemma SetBitEffect(b: Byte, k: nat, v: bool, j: nat)
    requires k < 8 && j < 8
    ensures TestBit(SetBit(b, k, v), j) == if j == k then v else TestBit(b, j)
  {
    if v { SetOne(b, k, j); } else { SetZero(b, k, j); }
  }

  lemma MaskBit(k: nat, j: nat)
    requires k < 8 && j < 8
    ensures TestBit(Mask(k), j) == (j == k)
  {
  }

  lemma SetOne(b: Byte, k: nat, j: nat)
    requires k < 8 && j < 8
    ensures TestBit(b | Shl(1, 7 - k), j) == (j == k || TestBit(b, j))
  {
    hide TestBit, Mask, Shl;
    ShiftedOut(b, k);
    OrBit(b, Mask(k), j);
    MaskBit(k, j);
  }

  lemma SetZero(b: Byte, k: nat, j: nat)
    requires k < 8 && j < 8
    ensures TestBit(b & !Shl(1, 7 - k), j) == (j != k && TestBit(b, j))
  {
    hide TestBit, Mask, Shl;
    ShiftedOut(b, k);
    AndBit(b, !Mask(k), j);
    NotBit(Mask(k), j);
    MaskBit(k, j);
  }

  /** Overwriting under a mask takes the masked bits from `incoming` and the others from `b`. */
  function Merge(b: Byte, incoming: Byte, mask: Byte): Byte {
    (b & !mask) | (incoming & mask)
  }

  lemma MergeBit(b: Byte, incoming: Byte, mask: Byte, j: nat)
    requires j < 8
    ensures TestBit(Merge(b, incoming, mask), j)
         == if TestBit(mask, j) then TestBit(incoming, j) else TestBit(b, j)
  {
    var m := Mask(j);
    assert ((b & !mask) | (incoming & mask)) & m == (b & m & !mask) | (incoming & m & mask);
    match j {
      case 0 => case 1 => case 2 => case 3 => case 4 => case 5 => case 6 => case _ =>
    }
  }

  /** (first << left) | (second >> (8 - left)): eight bits of the pair, from bit `left` on. */
  function Join(first: Byte, second: Byte, left: nat): Byte
    requires 1 <= left <= 7
  {
    Shl(first, left) | Shr(second, 8 - left)
  }

  lemma JoinBit(first: Byte, second: Byte, left: nat, j: nat)
    requires 1 <= left <= 7 && j < 8
    ensures TestBit(Join(first, second, left), j)
         == if j + left < 8 then TestBit(first, j + left) else TestBit(second, j + left - 8)
  {
    hide TestBit, Shl, Shr;
    OrBit(Shl(first, left), Shr(second, 8 - left), j);
    ShlBit(first, left, j);
    ShrBit(second, 8 - left, j);
  }

  /** The bits of a byte string, most significant bit of the first byte first. */
  function Bits(s: seq<Byte>): (m: Memory)
    ensures |m| == 8 * |s|
    ensures forall i :: 0 <= i < |m| ==> m[i] == TestBit(s[i / 8], i % 8)
  {
    seq(8 * |s|, i requires 0 <= i < 8 * |s| => TestBit(s[i / 8], i % 8))
  }

  /** The bits of a buffer. */
  function Mem(p: array<Byte>): (m: Memory)
    reads p
    ensures |m| == 8 * p.Length
  {
    Bits(p[..])
  }

  /** m with the bits from pos on replaced by `bits`. */
  function Splice(m: Memory, pos: nat, bits: seq<bool>): (r: Memory)
    requires pos + |bits| <= |m|
    ensures |r| == |m|
    ensures forall i :: 0 <= i < |m| ==> r[i] == if pos <= i < pos + |bits| then bits[i - pos] else m[i]
  {
    seq(|m|, i requires 0 <= i < |m| => if pos <= i < pos + |bits| then bits[i - pos] else m[i])
  }

  /** The reference copy between two memories: n bits of `source` from s replace those of
      `target` from d, and every other bit of the target keeps its value. */
  function CopyBetween(source: Memory, s: nat, target: Memory, d: nat, n: nat): (r: Memory)
    requires s + n <= |source| && d + n <= |target|
    ensures |r| == |target|
    ensures forall i :: 0 <= i < |target| ==> r[i] == if d <= i < d + n then source[s + (i - d)] else target[i]
  {
    seq(|target|, i requires 0 <= i < |target| => if d <= i < d + n then source[s + (i - d)] else target[i])
  }

  /** The machine's one instruction: copy(n, dst, src) inside one memory. */
  function Copy(m: Memory, n: nat, dst: nat, src: nat): (r: Memory)
    requires src + n <= |m| && dst + n <= |m|
    ensures |r| == |m|
  {
    CopyBetween(m, src, m, dst, n)
  }

  /** Two ranges of n bits that do not meet, or that lie in different buffers. */
  predicate Apart(same: bool, s: nat, d: nat, n: nat) {
    same ==> s + n <= d || d + n <= s
  }

  /** Copying whole bytes copies their bits. */
  lemma BytesCopied(source: seq<Byte>, si: nat, target: seq<Byte>, di: nat, nbytes: nat, after: seq<Byte>)
    requires si + nbytes <= |source| && di + nbytes <= |target| == |after|
    requires forall k :: 0 <= k < |after| ==>
               after[k] == if di <= k < di + nbytes then source[si + (k - di)] else target[k]
    ensures Bits(after) == CopyBetween(Bits(source), 8 * si, Bits(target), 8 * di, 8 * nbytes)
  {
    hide *;
    forall i | 0 <= i < 8 * |after|
      ensures Bits(after)[i] == CopyBetween(Bits(source), 8 * si, Bits(target), 8 * di, 8 * nbytes)[i]
    {
      var k, j := i / 8, i % 8;
      assert i == 8 * k + j && Bits(after)[i] == TestBit(after[k], j);
      if di <= k < di + nbytes {
        var at := 8 * si + (i - 8 * di);
        assert at == 8 * (si + (k - di)) + j && at / 8 == si + (k - di) && at % 8 == j;
        assert Bits(source)[at] == TestBit(source[si + (k - di)], j);
      }
    }
  }

  /** One more bit at the end, or at the front, of a copy. */
  lemma CopyOneMore(source: Memory, s: nat, target: Memory, d: nat, n: nat, i: nat)
    requires i < n && s + n <= |source| && d + n <= |target|
    ensures CopyBetween(source, s, target, d, i)[d + i := source[s + i]]
         == CopyBetween(source, s, target, d, i + 1)
    ensures CopyBetween(source, s + i + 1, target, d + i + 1, n - i - 1)[d + i := source[s + i]]
         == CopyBetween(source, s + i, target, d + i, n - i)
  {
    hide *;
  }

  /** The next piece of a copy, stored as the bits lo..hi of the byte at `at`. */
  lemma CopyOneByteMore(source: Memory, s: nat, target: Memory, d: nat, k: nat, at: nat, lo: nat, hi: nat,
                        c: Byte, mid: Memory, r: Memory)
    requires lo <= hi <= 8 && 8 * at + lo == d + k
    requires s + k + (hi - lo) <= |source| && d + k + (hi - lo) <= |target| == |r|
    requires mid == CopyBetween(source, s, target, d, k)
    requires forall j :: lo <= j < hi ==> TestBit(c, j) == source[s + k + (j - lo)]
    requires forall i :: 0 <= i < |r| ==>
               r[i] == if 8 * at + lo <= i < 8 * at + hi then TestBit(c, i - 8 * at) else mid[i]
    ensures r == CopyBetween(source, s, target, d, k + (hi - lo))
  {
    hide *;
    forall i | 0 <= i < |r| ensures r[i] == CopyBetween(source, s, target, d, k + (hi - lo))[i] {
      if 8 * at + lo <= i < 8 * at + hi {
        var j := i - 8 * at;
        assert TestBit(c, j) == source[s + k + (j - lo)];
      }
    }
  }

  /** A copy may be done in two pieces, the second reading the memory the first one left. */
  lemma CopyInTwo(source: Memory, s: nat, target: Memory, d: nat, k: nat, n: nat, same: bool)
    requires k <= n && s + n <= |source| && d + n <= |target|
    requires Apart(same, s, d, n) && (same ==> source == target)
    ensures var mid := CopyBetween(source, s, target, d, k);
            CopyBetween(if same then mid else source, s + k, mid, d + k, n - k)
            == CopyBetween(source, s, target, d, n)
  {
  }
}
