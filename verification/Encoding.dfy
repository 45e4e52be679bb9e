/** Unsigned numbers as bit strings, most significant bit first. */
module Encoding {
  import opened BitSpace

  function Pow2(k: nat): (p: nat)
    ensures p >= 1
  {
    if k == 0 then 1 else 2 * Pow2(k - 1)
  }

  /** The number a bit string stands for. */
  function UintOf(bits: seq<bool>): (v: nat)
    ensures v < Pow2(|bits|)
  {
    if |bits| == 0 then 0
    else 2 * UintOf(bits[..|bits| - 1]) + if bits[|bits| - 1] then 1 else 0
  }

  /** The low `width` bits of a number. */
  function BitsOf(value: int, width: nat): (bits: seq<bool>)
    ensures |bits| == width
    decreases width
  {
    if width == 0 then [] else BitsOf(value / 2, width - 1) + [value % 2 == 1]
  }

  /** The field of `width` bits at pos. */
  function ReadUint(m: Memory, pos: nat, width: nat): (v: nat)
    requires pos + width <= |m|
    ensures v < Pow2(width)
  {
    UintOf(m[pos..pos + width])
  }

  /** The field of `width` bits at pos replaced by a number. */
  function WriteUint(m: Memory, pos: nat, width: nat, value: int): (r: Memory)
    requires pos + width <= |m|
    ensures |r| == |m|
    ensures forall i :: 0 <= i < |m| && !(pos <= i < pos + width) ==> r[i] == m[i]
  {
    Splice(m, pos, BitsOf(value, width))
  }

  // ------------------------------------------------------------------ powers of two

  lemma {:induction false} Pow2Monotone(a: nat, b: nat)
    requires a <= b
    ensures Pow2(a) <= Pow2(b)
    decreases b - a
  {
    if a < b { Pow2Monotone(a + 1, b); }
  }

  lemma {:induction false} Pow2Sum(a: nat, b: nat)
    ensures Pow2(a + b) == Pow2(a) * Pow2(b)
  {
    if a > 0 {
      Pow2Sum(a - 1, b);
      assert Pow2(a + b) == 2 * Pow2(a - 1 + b);
    }
  }

  // ------------------------------------------------------------------ round trips

  /** A number that fits is read back as it was written. */
  lemma {:induction false} UintOfBitsOf(value: nat, width: nat)
    requires value < Pow2(width)
    ensures UintOf(BitsOf(value, width)) == value
  {
    if width > 0 {
      UintOfBitsOf(value / 2, width - 1);
      assert BitsOf(value, width)[..width - 1] == BitsOf(value / 2, width - 1);
    }
  }

  lemma {:induction false} ZeroBits(width: nat)
    ensures forall i :: 0 <= i < width ==> !BitsOf(0, width)[i]
  {
    if width > 0 { ZeroBits(width - 1); }
  }

  lemma {:induction false} WriteThenRead(m: Memory, pos: nat, width: nat, value: nat)
    requires pos + width <= |m| && value < Pow2(width)
    ensures ReadUint(WriteUint(m, pos, width, value), pos, width) == value
  {
    UintOfBitsOf(value, width);
    assert WriteUint(m, pos, width, value)[pos..pos + width] == BitsOf(value, width);
  }

  /** A field keeps the low digits of any number written to it, negative ones included. */
  lemma {:induction false} LowDigits(value: int, width: nat)
    ensures UintOf(BitsOf(value, width)) == value % Pow2(width)
    decreases width
  {
    if width > 0 {
      var p := Pow2(width - 1);
      LowDigits(value / 2, width - 1);
      assert BitsOf(value, width)[..width - 1] == BitsOf(value / 2, width - 1);
      Euclid(value / 2, p);
      Double(p, value / 2 / p);
      DivUnique(value, 2 * p, value / 2 / p, 2 * (value / 2 % p) + value % 2);
    }
  }

  lemma {:induction false} WriteThenReadAny(m: Memory, pos: nat, width: nat, value: int)
    requires pos + width <= |m|
    ensures ReadUint(WriteUint(m, pos, width, value), pos, width) == value % Pow2(width)
  {
    hide Pow2, BitsOf, UintOf;
    LowDigits(value, width);
    assert WriteUint(m, pos, width, value)[pos..pos + width] == BitsOf(value, width);
  }

  /** A field depends on its own bits only. */
  lemma ReadSame(m: Memory, m': Memory, pos: nat, width: nat)
    requires pos + width <= |m| == |m'|
    requires forall i :: pos <= i < pos + width ==> m[i] == m'[i]
    ensures ReadUint(m, pos, width) == ReadUint(m', pos, width)
  {
    assert m[pos..pos + width] == m'[pos..pos + width];
  }

  lemma DivTwice(v: int, p: nat)
    requires p >= 1
    ensures v / 2 / p == v / (2 * p)
  {
    var q, r := v / 2 / p, v / 2 % p;
    assert v / 2 == p * q + r && v == 2 * (v / 2) + v % 2;
    assert v == (2 * p) * q + (2 * r + v % 2);
    DivUnique(v, 2 * p, q, 2 * r + v % 2);
  }

  lemma DivUnique(v: int, d: nat, q: int, r: nat)
    requires d >= 1 && v == d * q + r && r < d
    ensures v / d == q && v % d == r
  {
    var q', r' := v / d, v % d;
    Euclid(v, d);
    if q < q' { MulStep(d, q + 1, q'); }
    if q' < q { MulStep(d, q' + 1, q); }
  }

  lemma Euclid(v: int, d: nat)
    requires d >= 1
    ensures v == d * (v / d) + v % d && 0 <= v % d < d
  {
  }

  lemma MulStep(d: nat, x: int, y: int)
    requires x <= y
    ensures d * x <= d * y && d * x == d * (x - 1) + d
  {
  }

  /** Bit i is what shifting right by width-1-i and masking with 1 leaves. */
  lemma {:induction false} BitsOfShift(value: int, width: nat, i: nat)
    requires i < width
    ensures BitsOf(value, width)[i] == (value / Pow2(width - 1 - i) % 2 == 1)
    decreases width
  {
    if i < width - 1 {
      BitsOfShift(value / 2, width - 1, i);
      DivTwice(value, Pow2(width - 2 - i));
    }
  }

  /** One more bit on the right: v = (v << 1) | bit. */
  lemma UintOfOneMore(m: Memory, pos: nat, i: nat)
    requires pos + i < |m|
    ensures UintOf(m[pos..pos + i + 1]) == 2 * UintOf(m[pos..pos + i]) + if m[pos + i] then 1 else 0
  {
    assert m[pos..pos + i + 1][..i] == m[pos..pos + i];
  }

  // ------------------------------------------------------------------ concatenation

  lemma {:induction false} UintOfConcat(a: seq<bool>, b: seq<bool>)
    ensures UintOf(a + b) == Pow2(|b|) * UintOf(a) + UintOf(b)
  {
    if |b| == 0 {
      assert a + b == a;
    } else {
      UintOfConcat(a, b[..|b| - 1]);
      ConcatLast(a, b);
      Double(Pow2(|b| - 1), UintOf(a));
    }
  }

  lemma {:induction false} ConcatLast(a: seq<bool>, b: seq<bool>)
    requires |b| > 0
    ensures UintOf(a + b) == 2 * UintOf(a + b[..|b| - 1]) + if b[|b| - 1] then 1 else 0
  {
    assert (a + b)[..|a + b| - 1] == a + b[..|b| - 1] && (a + b)[|a + b| - 1] == b[|b| - 1];
  }

  lemma Double(p: nat, v: int)
    ensures (2 * p) * v == 2 * (p * v)
  {
  }

  /** The middle of a bit string: shift the rest out on the right, mask the rest off on the left. */
  lemma {:induction false} UintOfMiddle(a: seq<bool>, mid: seq<bool>, b: seq<bool>)
    ensures UintOf(a + mid + b) / Pow2(|b|) % Pow2(|mid|) == UintOf(mid)
  {
    hide *;
    UintOfConcat(a + mid, b);
    UintOfConcat(a, mid);
    DivUnique(UintOf(a + mid + b), Pow2(|b|), UintOf(a + mid), UintOf(b));
    DivUnique(UintOf(a + mid), Pow2(|mid|), UintOf(a), UintOf(mid));
  }
}
