/** The 64-bit steps of src/vm/bitcpy.c on a little-endian host: what one step makes of every bit of
    the two words it loads. */
module Words {
  import opened BitSpace

  /** Byte k of a word, in memory order. */
  function ByteOf(w: bv64, k: nat): Byte
    requires k < 8
  {
    match k
    case 0 => (w & 0xFF) as Byte
    case 1 => ((w >> 8) & 0xFF) as Byte
    case 2 => ((w >> 16) & 0xFF) as Byte
    case 3 => ((w >> 24) & 0xFF) as Byte
    case 4 => ((w >> 32) & 0xFF) as Byte
    case 5 => ((w >> 40) & 0xFF) as Byte
    case 6 => ((w >> 48) & 0xFF) as Byte
    case _ => ((w >> 56) & 0xFF) as Byte
  }

  /** memcpy of eight bytes into a word. */
  function WordOf(b: seq<Byte>): bv64
    requires |b| == 8
  {
    (b[0] as bv64) | (b[1] as bv64 << 8) | (b[2] as bv64 << 16) | (b[3] as bv64 << 24)
    | (b[4] as bv64 << 32) | (b[5] as bv64 << 40) | (b[6] as bv64 << 48) | (b[7] as bv64 << 56)
  }

  lemma WordBytes(b: seq<Byte>, k: nat)
    requires |b| == 8 && k < 8
    ensures ByteOf(WordOf(b), k) == b[k]
  {
    match k { case 0 => case 1 => case 2 => case 3 => case 4 => case 5 => case 6 => case _ => }
  }

  // ------------------------------------------------------------------ shifts, bit by bit

  /** w << s, one place at a time. */
  function Up(w: bv64, s: nat): bv64 {
    if s == 0 then w else Up(w, s - 1) << 1
  }

  /** w >> s, one place at a time. */
  function Down(w: bv64, s: nat): bv64 {
    if s == 0 then w else Down(w, s - 1) >> 1
  }

  /** The binary digit of weight 2^q. */
  predicate WordDigit(w: bv64, q: nat)
    requires q < 64
  {
    TestBit(ByteOf(w, q / 8), 7 - q % 8)
  }

  lemma UpByte(w: bv64, k: nat)
    requires 1 <= k < 8
    ensures ByteOf(w << 1, k) == Shl(ByteOf(w, k), 1) | Shr(ByteOf(w, k - 1), 7)
  {
    match k { case 1 => case 2 => case 3 => case 4 => case 5 => case 6 => case _ => }
  }

  lemma UpFirstByte(w: bv64)
    ensures ByteOf(w << 1, 0) == Shl(ByteOf(w, 0), 1)
  {
  }

  lemma DownByte(w: bv64, k: nat)
    requires k < 7
    ensures ByteOf(w >> 1, k) == Shr(ByteOf(w, k), 1) | Shl(ByteOf(w, k + 1), 7)
  {
    match k { case 0 => case 1 => case 2 => case 3 => case 4 => case 5 => case _ => }
  }

  lemma DownLastByte(w: bv64)
    ensures ByteOf(w >> 1, 7) == Shr(ByteOf(w, 7), 1)
  {
  }

  lemma OrByte(a: bv64, b: bv64, k: nat)
    requires k < 8
    ensures ByteOf(a | b, k) == ByteOf(a, k) | ByteOf(b, k)
  {
    match k { case 0 => case 1 => case 2 => case 3 => case 4 => case 5 => case 6 => case _ => }
  }

  lemma UpOne(w: bv64, q: nat)
    requires q < 64
    ensures WordDigit(w << 1, q) == (q > 0 && WordDigit(w, q - 1))
  {
    hide TestBit, ByteOf, Shl, Shr;
    var k, j := q / 8, 7 - q % 8;
    ShlBit(ByteOf(w, k), 1, j);
    if k > 0 {
      UpByte(w, k);
      OrBit(Shl(ByteOf(w, k), 1), Shr(ByteOf(w, k - 1), 7), j);
      ShrBit(ByteOf(w, k - 1), 7, j);
    } else {
      UpFirstByte(w);
    }
  }

  lemma DownOne(w: bv64, q: nat)
    requires q < 64
    ensures WordDigit(w >> 1, q) == (q < 63 && WordDigit(w, q + 1))
  {
    hide TestBit, ByteOf, Shl, Shr;
    var k, j := q / 8, 7 - q % 8;
    ShrBit(ByteOf(w, k), 1, j);
    if k < 7 {
      DownByte(w, k);
      OrBit(Shr(ByteOf(w, k), 1), Shl(ByteOf(w, k + 1), 7), j);
      ShlBit(ByteOf(w, k + 1), 7, j);
    } else {
      DownLastByte(w);
    }
  }

  lemma {:induction false} UpDigit(w: bv64, s: nat, q: nat)
    requires q < 64
    ensures WordDigit(Up(w, s), q) == (q >= s && WordDigit(w, q - s))
  {
    hide WordDigit;
    if s > 0 {
      UpOne(Up(w, s - 1), q);
      if q > 0 { UpDigit(w, s - 1, q - 1); }
    }
  }

  lemma {:induction false} DownDigit(w: bv64, s: nat, q: nat)
    requires q < 64
    ensures WordDigit(Down(w, s), q) == (q + s < 64 && WordDigit(w, q + s))
  {
    hide WordDigit;
    if s > 0 {
      DownOne(Down(w, s - 1), q);
      if q < 63 { DownDigit(w, s - 1, q + 1); }
    }
  }

  lemma OrDigit(a: bv64, b: bv64, q: nat)
    requires q < 64
    ensures WordDigit(a | b, q) == (WordDigit(a, q) || WordDigit(b, q))
  {
    hide TestBit, ByteOf;
    OrByte(a, b, q / 8);
    OrBit(ByteOf(a, q / 8), ByteOf(b, q / 8), 7 - q % 8);
  }

  // ------------------------------------------------------------------ the two steps

  /** Bit j of byte k as the word is stored: the digit of weight 2^(8k + 7 - j). */
  predicate StoredBit(w: bv64, k: nat, j: nat)
    requires k < 8 && j < 8
  {
    TestBit(ByteOf(w, k), j)
  }

  lemma StoredIsDigit(w: bv64, k: nat, j: nat)
    requires k < 8 && j < 8
    ensures StoredBit(w, k, j) == WordDigit(w, 8 * k + 7 - j)
  {
    hide TestBit, ByteOf;
    assert (8 * k + 7 - j) / 8 == k && (8 * k + 7 - j) % 8 == 7 - j;
  }

  /** (a << s) | (b >> (64 - s)), the step taken when both offsets are s. */
  function SameOffsetStep(a: bv64, b: bv64, s: nat): bv64
    requires 1 <= s <= 7
  {
    Up(a, s) | Down(b, 64 - s)
  }

  /** (a << left) | (b >> (8 - left)), the step taken when the offsets differ. */
  function SlidingStep(a: bv64, b: bv64, left: nat): bv64
    requires 1 <= left <= 7
  {
    Up(a, left) | Down(b, 8 - left)
  }

  /** What the step on equal offsets stores: the bit `s` places further on in its byte, and behind the
      end of the byte one of the byte before; for the first byte, one of the last byte of b. */
  lemma SameOffsetStores(a: bv64, b: bv64, s: nat, k: nat, j: nat)
    requires 1 <= s <= 7 && k < 8 && j < 8
    ensures StoredBit(SameOffsetStep(a, b, s), k, j)
         == if j + s < 8 then StoredBit(a, k, j + s)
            else if k > 0 then StoredBit(a, k - 1, j + s - 8)
            else StoredBit(b, 7, j + s - 8)
  {
    hide WordDigit, StoredBit;
    var q := 8 * k + 7 - j;
    StoredIsDigit(SameOffsetStep(a, b, s), k, j);
    OrDigit(Up(a, s), Down(b, 64 - s), q);
    UpDigit(a, s, q);
    DownDigit(b, 64 - s, q);
    if j + s < 8 {
      StoredIsDigit(a, k, j + s);
    } else {
      if k > 0 { StoredIsDigit(a, k - 1, j + s - 8); }
      StoredIsDigit(b, 7, j + s - 8);
    }
  }

  /** What the step on different offsets stores: bits of a and b or-ed together. */
  lemma SlidingStores(a: bv64, b: bv64, left: nat, k: nat, j: nat)
    requires 1 <= left <= 7 && k < 8 && j < 8
    ensures StoredBit(SlidingStep(a, b, left), k, j)
         == if j + left < 8 then StoredBit(a, k, j + left) || (k < 7 && StoredBit(b, k + 1, j + left))
            else (k > 0 && StoredBit(a, k - 1, j + left - 8)) || StoredBit(b, k, j + left - 8)
  {
    hide WordDigit, StoredBit;
    var q := 8 * k + 7 - j;
    StoredIsDigit(SlidingStep(a, b, left), k, j);
    OrDigit(Up(a, left), Down(b, 8 - left), q);
    UpDigit(a, left, q);
    DownDigit(b, 8 - left, q);
    if j + left < 8 {
      StoredIsDigit(a, k, j + left);
      if k < 7 { StoredIsDigit(b, k + 1, j + left); }
    } else {
      if k > 0 { StoredIsDigit(a, k - 1, j + left - 8); }
      StoredIsDigit(b, k, j + left - 8);
    }
  }
}
