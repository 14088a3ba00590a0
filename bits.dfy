/**
 * Fixed-width integers and the C bit operators the HID decoders use.
 *
 * Values are mathematical integers restricted to the range of their C type.
 * The bitwise operators `&` and `|` are defined bit by bit on non-negative
 * integers, so that the decoders can be written with the same operators as
 * the C code; the lemmas below turn them into arithmetic where the proofs
 * need it. Shifts of non-negative values are multiplication and division by
 * a power of two.
 */
module Bits {

  /** uint8_t */
  type byte = x: int | 0 <= x < 0x100
  /** uint16_t */
  type u16 = x: int | 0 <= x < 0x1_0000
  /** int8_t */
  type int8 = x: int | -0x80 <= x < 0x80
  /** int16_t */
  type int16 = x: int | -0x8000 <= x < 0x8000

  function Pow2(k: nat): (r: nat)
    ensures r >= 1
  {
    if k == 0 then 1 else 2 * Pow2(k - 1)
  }

  /** The powers of two the decoders use. */
  lemma Pow2Values()
    ensures Pow2(0) == 1 && Pow2(1) == 2 && Pow2(2) == 4 && Pow2(3) == 8
    ensures Pow2(4) == 0x10 && Pow2(5) == 0x20 && Pow2(6) == 0x40 && Pow2(7) == 0x80
    ensures Pow2(8) == 0x100 && Pow2(11) == 0x800 && Pow2(12) == 0x1000
    ensures Pow2(15) == 0x8000 && Pow2(16) == 0x1_0000
  {
  }

  /** Reference definition of "bit k of a is set". */
  predicate BitSet(a: nat, k: nat) {
    (a / Pow2(k)) % 2 == 1
  }

  /** C's `a & b` on non-negative operands. */
  function And(a: nat, b: nat): (r: nat)
    ensures r <= a && r <= b
  {
    if a == 0 || b == 0 then 0
    else 2 * And(a / 2, b / 2) + (if a % 2 == 1 && b % 2 == 1 then 1 else 0)
  }

  /** C's `a | b` on non-negative operands. */
  function Or(a: nat, b: nat): (r: nat)
    decreases a + b
  {
    if a == 0 then b
    else if b == 0 then a
    else 2 * Or(a / 2, b / 2) + (if a % 2 == 1 || b % 2 == 1 then 1 else 0)
  }

  /** C's `a << k` for a non-negative `a` that does not overflow. */
  function Shl(a: nat, k: nat): nat {
    a * Pow2(k)
  }

  /** C's `a >> k` for a non-negative `a`. */
  function Shr(a: nat, k: nat): nat {
    DivOfNat(a, Pow2(k));
    a / Pow2(k)
  }

  lemma DivOfNat(a: nat, d: nat)
    requires d >= 1
    ensures a / d >= 0
  {
  }

  /** Two's-complement reading of an 8-bit pattern. */
  function Signed8(v: nat): int
    requires v < 0x100
  {
    if v < 0x80 then v else v - 0x100
  }

  /** Two's-complement reading of a 12-bit pattern. */
  function Signed12(v: nat): int
    requires v < 0x1000
  {
    if v < 0x800 then v else v - 0x1000
  }

  /** Two's-complement reading of a 16-bit pattern. */
  function Signed16(v: nat): int
    requires v < 0x1_0000
  {
    if v < 0x8000 then v else v - 0x1_0000
  }

  /**
   * Conversion of an int to int8_t. C leaves it implementation-defined for
   * out-of-range values; the target compiler keeps the low 8 bits.
   */
  function CastInt8(x: int): (r: int8)
    ensures r % 0x100 == x % 0x100
    ensures 0 <= x < 0x100 ==> r == Signed8(x)
  {
    var w := x % 0x100;
    if w < 0x80 then w else w - 0x100
  }

  /** Conversion of an int to int16_t, keeping the low 16 bits. */
  function CastInt16(x: int): (r: int16)
    ensures r % 0x1_0000 == x % 0x1_0000
    ensures 0 <= x < 0x1_0000 ==> r == Signed16(x)
  {
    var w := x % 0x1_0000;
    if w < 0x8000 then w else w - 0x1_0000
  }

  /** The 32-bit pattern of a C `int`, as `|` sees it. */
  function IntBits(x: int): (r: nat)
    ensures r < 0x1_0000_0000
    ensures r % 0x1_0000_0000 == x % 0x1_0000_0000
  {
    x % 0x1_0000_0000
  }

  /** The low k bits of a, taken one bit at a time (a mod 2^k). */
  function LowBits(a: nat, k: nat): nat {
    if k == 0 then 0 else 2 * LowBits(a / 2, k - 1) + a % 2
  }

  /** The bits of a above the low k (a div 2^k). */
  function HighBits(a: nat, k: nat): nat {
    if k == 0 then a else HighBits(a / 2, k - 1)
  }

  function BitValue(b: bool): nat { if b then 1 else 0 }

  /** The number whose bits, lowest first, are `bits`. */
  function PackBits(bits: seq<bool>): nat {
    if bits == [] then 0 else BitValue(bits[0]) + 2 * PackBits(bits[1..])
  }

  /** The low n bits of a, lowest first. */
  function BitsOf(a: nat, n: nat): (bits: seq<bool>)
    ensures |bits| == n
  {
    if n == 0 then [] else [a % 2 == 1] + BitsOf(a / 2, n - 1)
  }

  // ---------------------------------------------------------------- lemmas

  lemma DivModUnique(a: int, d: int, q: int, r: int)
    requires d >= 1 && 0 <= r < d && a == q * d + r
    ensures a / d == q && a % d == r
  {
    var q', r' := a / d, a % d;
    assert a == q' * d + r';
    assert (q - q') * d == r' - r by {
      assert (q - q') * d == q * d - q' * d;
    }
    if q > q' {
      MulAtLeast(q - q', d);
    } else if q < q' {
      MulAtLeast(q' - q, d);
    }
  }

  lemma MulAtLeast(x: int, d: int)
    requires x >= 1 && d >= 1
    ensures x * d >= d
  {
  }

  lemma MulDouble(x: int, p: int)
    ensures 2 * (x * p) == x * (2 * p)
  {
  }

  /** A number is its high bits shifted back up, plus its low bits. */
  lemma {:induction false} HighLowSplit(a: nat, k: nat)
    ensures a == HighBits(a, k) * Pow2(k) + LowBits(a, k)
    ensures LowBits(a, k) < Pow2(k)
  {
    if k > 0 {
      var p := Pow2(k - 1);
      HighLowSplit(a / 2, k - 1);
      MulDouble(HighBits(a, k), p);
    }
  }

  /** The bit-by-bit split agrees with division by 2^k. */
  lemma DivModPow2(a: nat, k: nat)
    ensures a / Pow2(k) == HighBits(a, k)
    ensures a % Pow2(k) == LowBits(a, k)
  {
    HighLowSplit(a, k);
    DivModUnique(a, Pow2(k), HighBits(a, k), LowBits(a, k));
  }

  lemma {:induction false} BitsOfSmall(a: nat, k: nat)
    requires a < Pow2(k)
    ensures HighBits(a, k) == 0 && LowBits(a, k) == a
  {
    HighLowSplit(a, k);
    if HighBits(a, k) >= 1 {
      MulAtLeast(HighBits(a, k), Pow2(k));
    }
  }

  /** Masking with 2^k - 1 keeps the low k bits. */
  lemma {:induction false} AndLowMask(a: nat, k: nat)
    ensures And(a, Pow2(k) - 1) == a % Pow2(k)
  {
    AndLowMaskBits(a, k);
    DivModPow2(a, k);
  }

  lemma {:induction false} AndLowMaskBits(a: nat, k: nat)
    ensures And(a, Pow2(k) - 1) == LowBits(a, k)
  {
    if k > 0 {
      var p := Pow2(k - 1);
      assert (Pow2(k) - 1) / 2 == p - 1 && (Pow2(k) - 1) % 2 == 1;
      AndLowMaskBits(a / 2, k - 1);
    }
  }

  /** Masking with the single bit 2^k tests that bit. */
  lemma AndSingleBit(a: nat, k: nat)
    ensures And(a, Pow2(k)) == if BitSet(a, k) then Pow2(k) else 0
  {
    AndSingleBitHigh(a, k);
    DivModPow2(a, k);
  }

  lemma {:induction false} AndSingleBitHigh(a: nat, k: nat)
    ensures And(a, Pow2(k)) == if HighBits(a, k) % 2 == 1 then Pow2(k) else 0
  {
    if k > 0 {
      var p := Pow2(k - 1);
      assert Pow2(k) / 2 == p && Pow2(k) % 2 == 0;
      AndSingleBitHigh(a / 2, k - 1);
    }
  }

  lemma {:induction false} OrCommutes(a: nat, b: nat)
    ensures Or(a, b) == Or(b, a)
    decreases a + b
  {
    if a != 0 && b != 0 {
      OrCommutes(a / 2, b / 2);
    }
  }

  /**
   * When `a` has its low k bits clear, `a | b` is the OR of the high parts
   * followed by the low k bits of `b` unchanged.
   */
  lemma {:induction false} OrSplit(a: nat, b: nat, k: nat)
    requires LowBits(a, k) == 0
    ensures Or(a, b) == Or(HighBits(a, k), HighBits(b, k)) * Pow2(k) + LowBits(b, k)
  {
    if k == 0 {
    } else if a == 0 || b == 0 {
      HighLowSplit(a, k);
      HighLowSplit(b, k);
      BitsOfSmall(0, k);
    } else {
      var p := Pow2(k - 1);
      OrSplit(a / 2, b / 2, k - 1);
      var x := Or(HighBits(a, k), HighBits(b, k));
      assert Or(a, b) == 2 * Or(a / 2, b / 2) + b % 2;
      MulDouble(x, p);
    }
  }

  /** OR of bit fields that do not overlap is addition. */
  lemma OrDisjoint(hi: nat, lo: nat, k: nat)
    requires hi % Pow2(k) == 0 && lo < Pow2(k)
    ensures Or(hi, lo) == hi + lo
  {
    DivModPow2(hi, k);
    HighLowSplit(hi, k);
    BitsOfSmall(lo, k);
    OrSplit(hi, lo, k);
  }

  /** ORing a k-bit value with the all-ones k-bit mask gives the mask. */
  lemma {:induction false} OrAllOnes(a: nat, k: nat)
    requires a < Pow2(k)
    ensures Or(a, Pow2(k) - 1) == Pow2(k) - 1
  {
    if k > 0 && a != 0 {
      var p := Pow2(k - 1);
      assert (Pow2(k) - 1) / 2 == p - 1 && (Pow2(k) - 1) % 2 == 1;
      OrAllOnes(a / 2, k - 1);
    }
  }

  lemma {:induction false} PackBitsHigh(bits: seq<bool>, k: nat)
    requires k <= |bits|
    ensures HighBits(PackBits(bits), k) == PackBits(bits[k..])
  {
    if k > 0 {
      assert PackBits(bits) / 2 == PackBits(bits[1..]);
      PackBitsHigh(bits[1..], k - 1);
      assert bits[1..][k - 1..] == bits[k..];
    }
  }

  lemma {:induction false} PackBitsBound(bits: seq<bool>)
    ensures PackBits(bits) < Pow2(|bits|)
  {
    if bits != [] {
      PackBitsBound(bits[1..]);
    }
  }

  /** Bit k of a packed number is the k-th boolean. */
  lemma PackBitsBit(bits: seq<bool>, k: nat)
    requires k < |bits|
    ensures BitSet(PackBits(bits), k) <==> bits[k]
  {
    DivModPow2(PackBits(bits), k);
    PackBitsHigh(bits, k);
  }

  /** Unpacking and packing again keeps the low n bits. */
  lemma {:induction false} PackBitsOf(a: nat, n: nat)
    ensures PackBits(BitsOf(a, n)) == LowBits(a, n)
  {
    if n > 0 {
      PackBitsOf(a / 2, n - 1);
      assert BitsOf(a, n)[1..] == BitsOf(a / 2, n - 1);
    }
  }

  /** The k-th unpacked boolean is bit k. */
  lemma BitsOfBit(a: nat, n: nat, k: nat)
    requires k < n
    ensures BitsOf(a, n)[k] <==> BitSet(a, k)
  {
    BitsOfHigh(a, n, k);
    DivModPow2(a, k);
  }

  lemma {:induction false} BitsOfHigh(a: nat, n: nat, k: nat)
    requires k < n
    ensures BitsOf(a, n)[k] <==> HighBits(a, k) % 2 == 1
  {
    if k > 0 {
      BitsOfHigh(a / 2, n - 1, k - 1);
    }
  }

  /**
   * ORing a value below 2^k into the low bits of a C `int` whose low k bits
   * are clear, and converting the result to int16_t, adds the two.
   */
  lemma CastInt16OrLowBits(s: int, q: int, lo: nat, k: nat, c: nat)
    requires s == q * Pow2(k) && Pow2(k) * c == 0x1_0000_0000
    requires lo < Pow2(k) && -0x8000 <= s && s + lo < 0x8000
    ensures CastInt16(Or(IntBits(s), lo)) == s + lo
  {
    var m := Pow2(k);
    var bits := IntBits(s);
    if s >= 0 {
      DivModUnique(s, 0x1_0000_0000, 0, s);
      DivModUnique(bits, m, q, 0);
    } else {
      DivModUnique(s, 0x1_0000_0000, -1, s + 0x1_0000_0000);
      assert bits == (q + c) * m;
      DivModUnique(bits, m, q + c, 0);
    }
    OrDisjoint(bits, lo, k);
    var x := bits + lo;
    if s >= 0 {
      DivModUnique(x, 0x1_0000, 0, s + lo);
    } else if s + lo >= 0 {
      DivModUnique(x, 0x1_0000, 0x1_0000, s + lo);
    } else {
      DivModUnique(x, 0x1_0000, 0xFFFF, s + lo + 0x1_0000);
    }
  }
}
