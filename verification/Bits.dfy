/** Machine words and the mask macros of `shared/maths/maths.h`.

    The macros are written with the bitwise operators, bit by bit; the lemmas show once, for
    every power of two, that they compute the division and remainder the rest of the kernel
    reads them as. */
module Bits {

  const TWO32: nat := 0x1_0000_0000
  const TWO63: nat := 0x8000_0000_0000_0000
  const TWO64: nat := 0x1_0000_0000_0000_0000

  type U64 = x: int | 0 <= x < TWO64

  function Pow2(k: nat): (r: nat)
    ensures r > 0
  {
    if k == 0 then 1 else 2 * Pow2(k - 1)
  }

  ghost predicate PowerOfTwo(x: nat) {
    exists k: nat :: x == Pow2(k)
  }

  // ---------------------------------------------------------------- bitwise operators

  function And(a: nat, b: nat): nat {
    if a == 0 || b == 0 then 0
    else 2 * And(a / 2, b / 2) + (if a % 2 == 1 && b % 2 == 1 then 1 else 0)
  }

  function Or(a: nat, b: nat): nat {
    if a == 0 then b
    else if b == 0 then a
    else 2 * Or(a / 2, b / 2) + (if a % 2 == 1 || b % 2 == 1 then 1 else 0)
  }

  function Not64(x: U64): U64 {
    TWO64 - 1 - x
  }

  // ---------------------------------------------------------------- the macros

  /** `ALIGN_UP_VALUE`, with the 64-bit wrap of the addition written out. */
  function AlignUp(v: U64, align: U64): nat
    requires align > 0
  {
    And((v + (align - 1)) % TWO64, Not64(align - 1))
  }

  /** `ALIGN_DOWN_VALUE` and `ALIGN_DOWN_EXP`. */
  function AlignDown(v: U64, align: U64): nat
    requires align > 0
  {
    And(v, Not64(align - 1))
  }

  /** `RING_RANGE_VALUE`. */
  function RingRange(v: U64, ringSize: U64): nat
    requires ringSize > 0
  {
    And(v, ringSize - 1)
  }

  /** `__builtin_ctzll`. */
  function TrailingZeros(d: nat): nat
    requires d > 0
  {
    if d % 2 == 1 then 0 else 1 + TrailingZeros(d / 2)
  }

  /** `CEILING_DIV_VALUE`: add, wrap, shift right by the trailing zeros of the divisor. */
  function CeilDiv(v: U64, divisor: U64): nat
    requires divisor > 0
  {
    ((v + divisor - 1) % TWO64) / Pow2(TrailingZeros(divisor))
  }

  // ---------------------------------------------------------------- what they compute

  lemma DivMod(v: nat, d: nat, q: nat, r: nat)
    requires d > 0 && v == q * d + r && r < d
    ensures v / d == q && v % d == r
  {
    if q > v / d {
      MulMono(1, q - v / d, d);
    } else if q < v / d {
      MulMono(1, v / d - q, d);
    }
  }

  lemma MulMono(a: int, b: int, c: nat)
    requires a <= b
    ensures a * c <= b * c
  {}

  lemma MulAssoc(a: int, b: int, c: int)
    ensures a * (b * c) == (a * b) * c
  {}

  lemma MulDist(a: int, b: int, c: int)
    ensures (a + b) * c == a * c + b * c
  {}

  lemma MulStrict(a: int, b: int, c: nat)
    requires a < b && c > 0
    ensures a * c < b * c
  {
    MulMono(a + 1, b, c);
    MulDist(a, 1, c);
  }

  lemma HalveMod(v: nat, m: nat)
    requires m > 0
    ensures v % (2 * m) == 2 * ((v / 2) % m) + v % 2
    ensures v / (2 * m) == (v / 2) / m
  {
    var q, r := (v / 2) / m, (v / 2) % m;
    assert v == q * (2 * m) + (2 * r + v % 2) by {
      assert v == 2 * (v / 2) + v % 2;
      assert v / 2 == q * m + r;
      assert 2 * (q * m) == q * (2 * m);
    }
    DivMod(v, 2 * m, q, 2 * r + v % 2);
  }

  lemma {:induction false} AndMask(v: nat, k: nat)
    ensures And(v, Pow2(k) - 1) == v % Pow2(k)
    decreases k
  {
    if k == 0 {
    } else if v == 0 {
      DivMod(0, Pow2(k), 0, 0);
    } else {
      AndMask(v / 2, k - 1);
      HalveMod(v, Pow2(k - 1));
      assert (Pow2(k) - 1) / 2 == Pow2(k - 1) - 1;
    }
  }

  lemma {:induction false} AndHighMask(v: nat, w: nat, k: nat)
    requires k <= w && v < Pow2(w)
    ensures Pow2(k) <= Pow2(w)
    ensures And(v, Pow2(w) - Pow2(k)) == v - v % Pow2(k)
    decreases w
  {
    if k == 0 {
      if w > 0 { Pow2Mono(0, w); }
      AndMask(v, w);
      assert v % Pow2(w) == v by { DivMod(v, Pow2(w), 0, v); }
    } else if v == 0 {
      Pow2Mono(k, w);
      DivMod(0, Pow2(k), 0, 0);
    } else {
      AndHighMask(v / 2, w - 1, k - 1);
      HalveMod(v, Pow2(k - 1));
      assert (Pow2(w) - Pow2(k)) / 2 == Pow2(w - 1) - Pow2(k - 1);
    }
  }

  lemma {:induction false} Pow2Mono(a: nat, b: nat)
    requires a <= b
    ensures Pow2(a) <= Pow2(b)
    decreases b
  {
    if a < b { Pow2Mono(a, b - 1); }
  }

  lemma {:induction false} Pow2Add(a: nat, b: nat)
    ensures Pow2(a + b) == Pow2(a) * Pow2(b)
    decreases a
  {
    if a > 0 { Pow2Add(a - 1, b); }
  }

  lemma Pow2Values()
    ensures Pow2(7) == 128 && Pow2(9) == 512 && Pow2(12) == 4096 && Pow2(21) == 0x20_0000
    ensures Pow2(30) == 0x4000_0000 && Pow2(36) == 0x10_0000_0000 && Pow2(39) == 0x80_0000_0000
    ensures Pow2(40) == 0x100_0000_0000 && Pow2(48) == 0x1_0000_0000_0000
    ensures Pow2(64) == TWO64
  {
    assert Pow2(7) == 128;
    assert Pow2(9) == 512;
    assert Pow2(12) == 4096 by { Pow2Add(9, 3); }
    Pow2Add(12, 9);
    Pow2Add(21, 9);
    Pow2Add(30, 9);
    assert Pow2(36) == 0x10_0000_0000 by { assert Pow2(39) == 8 * Pow2(36); }
    assert Pow2(40) == 2 * Pow2(39);
    Pow2Add(39, 9);
    assert Pow2(64) == TWO64 by { Pow2Add(48, 12); assert Pow2(64) == 16 * Pow2(60); }
  }

  lemma Pow2Of64()
    ensures Pow2(64) == TWO64
  {
    Pow2Values();
  }

  lemma TrailingZerosOfPow2(k: nat)
    ensures TrailingZeros(Pow2(k)) == k
  {}

  /** `RING_RANGE_VALUE` is the remainder. */
  lemma RingRangeIsMod(v: U64, ringSize: U64)
    requires PowerOfTwo(ringSize)
    ensures RingRange(v, ringSize) == v % ringSize
  {
    var k: nat :| ringSize == Pow2(k);
    AndMask(v, k);
  }

  /** `ALIGN_DOWN_VALUE` drops the remainder. */
  lemma AlignDownIsFloor(v: U64, align: U64)
    requires PowerOfTwo(align)
    ensures AlignDown(v, align) == v - v % align
  {
    var k: nat :| align == Pow2(k);
    Pow2Of64();
    if k > 64 { Pow2Mono(64, k); }
    AndHighMask(v, 64, k);
    assert Not64(align - 1) == Pow2(64) - Pow2(k);
  }

  lemma FloorIsMultiple(s: nat, d: nat)
    requires d > 0
    ensures (s - s % d) % d == 0 && s - s % d == s / d * d
  {
    DivMod(s - s % d, d, s / d, 0);
  }

  /** `ALIGN_UP_VALUE` is the least multiple at or above the value, as long as adding the
      alignment does not wrap. */
  lemma AlignUpIsCeiling(v: U64, align: U64)
    requires PowerOfTwo(align)
    requires v + (align - 1) < TWO64
    ensures v <= AlignUp(v, align) < v + align
    ensures AlignUp(v, align) % align == 0
    ensures AlignUp(v, align) == v <==> v % align == 0
  {
    AlignUpDown(v, align);
    AlignDownIsFloor(v + (align - 1), align);
    CeilingOf(v, align);
  }

  /** The same, as a quotient times the alignment. */
  lemma AlignUpIsQuotient(v: U64, align: U64)
    requires PowerOfTwo(align) && v + (align - 1) < TWO64
    ensures AlignUp(v, align) == (v + (align - 1)) / align * align
  {
    AlignUpDown(v, align);
    AlignDownIsFloor(v + (align - 1), align);
    FloorIsMultiple(v + (align - 1), align);
  }

  lemma AlignUpDown(v: U64, align: U64)
    requires align > 0 && v + (align - 1) < TWO64
    ensures AlignUp(v, align) == AlignDown(v + (align - 1), align)
  {
    DivMod(v + (align - 1), TWO64, 0, v + (align - 1));
  }

  lemma CeilingOf(v: nat, d: nat)
    requires d > 0
    ensures var s := v + (d - 1);
            var up := s - s % d;
            && v <= up < v + d && up % d == 0 && up == s / d * d
            && (up == v <==> v % d == 0)
  {
    var s := v + (d - 1);
    FloorIsMultiple(s, d);
    if v % d == 0 { DivMod(s, d, v / d, d - 1); }
  }

  /** `CEILING_DIV_VALUE` rounds the quotient up, as long as the addition does not wrap. */
  lemma CeilDivIsCeiling(v: U64, divisor: U64)
    requires PowerOfTwo(divisor)
    requires v + divisor - 1 < TWO64
    ensures CeilDiv(v, divisor) == (v + divisor - 1) / divisor
    ensures v <= CeilDiv(v, divisor) * divisor < v + divisor
  {
    var k: nat :| divisor == Pow2(k);
    TrailingZerosOfPow2(k);
    var s := v + divisor - 1;
    assert s == (s / divisor) * divisor + s % divisor;
  }

  // ---------------------------------------------------------------- packing fields with `|`

  /** Or-ing a multiple of 2^k with a value below 2^k adds them. */
  lemma {:induction false} OrDisjoint(high: nat, k: nat, low: nat)
    requires low < Pow2(k)
    ensures Or(high * Pow2(k), low) == high * Pow2(k) + low
    decreases k
  {
    if k == 0 || high == 0 || low == 0 {
    } else {
      var p := Pow2(k - 1);
      assert high * Pow2(k) == 2 * (high * p);
      assert high * p > 0 by { MulMono(1, high, p); }
      OrDisjoint(high, k - 1, low / 2);
    }
  }

  /** Or-ing a page-aligned address with a value below the page size adds them. */
  lemma OrPageOffset(address: nat, low: nat)
    requires address % 4096 == 0 && low < 4096
    ensures Or(address, low) == address + low
    ensures Or(low, address) == address + low
  {
    Pow2Values();
    OrDisjoint(address / 4096, 12, low);
    OrComm(address, low);
  }

  lemma OrOneTwo()
    ensures Or(1, 2) == 3
  {
    assert Or(0, 1) == 1;
  }

  lemma {:induction false} OrBound(a: nat, b: nat, k: nat)
    requires a < Pow2(k) && b < Pow2(k)
    ensures Or(a, b) < Pow2(k)
    decreases k
  {
    if a > 0 && b > 0 { OrBound(a / 2, b / 2, k - 1); }
  }

  lemma OrParts(a: nat, b: nat)
    ensures Or(a, b) / 2 == Or(a / 2, b / 2)
    ensures Or(a, b) % 2 == if a % 2 == 1 || b % 2 == 1 then 1 else 0
  {}

  lemma {:induction false} OrAssoc(a: nat, b: nat, c: nat)
    ensures Or(Or(a, b), c) == Or(a, Or(b, c))
    decreases a
  {
    if a > 0 {
      OrAssoc(a / 2, b / 2, c / 2);
      OrParts(a, b);
      OrParts(b, c);
      OrParts(Or(a, b), c);
      OrParts(a, Or(b, c));
    }
  }

  lemma {:induction false} OrComm(a: nat, b: nat)
    ensures Or(a, b) == Or(b, a)
    decreases a
  {
    if a > 0 && b > 0 { OrComm(a / 2, b / 2); }
  }

  /** Bit k of an or is the or of the bits k. */
  lemma {:induction false} OrBit(a: nat, b: nat, k: nat)
    ensures (Or(a, b) / Pow2(k)) % 2 == 1 <==> (a / Pow2(k)) % 2 == 1 || (b / Pow2(k)) % 2 == 1
    decreases k
  {
    if k == 0 {
    } else {
      OrBit(a / 2, b / 2, k - 1);
      HalveMod(a, Pow2(k - 1));
      HalveMod(b, Pow2(k - 1));
      HalveMod(Or(a, b), Pow2(k - 1));
      assert Or(a, b) / 2 == Or(a / 2, b / 2);
    }
  }

  /** Masking with one bit keeps exactly that bit. */
  lemma {:induction false} AndBit(v: nat, k: nat)
    ensures And(v, Pow2(k)) == if (v / Pow2(k)) % 2 == 1 then Pow2(k) else 0
    decreases k
  {
    if k == 0 {
      assert And(v / 2, 0) == 0;
    } else if v == 0 {
      DivMod(0, Pow2(k), 0, 0);
    } else {
      AndBit(v / 2, k - 1);
      HalveMod(v, Pow2(k - 1));
    }
  }

  /** A mask of w bits does not see the bits above. */
  lemma {:induction false} AndLow(v: nat, mask: nat, w: nat)
    requires mask < Pow2(w)
    ensures And(v, mask) == And(v % Pow2(w), mask)
    decreases w
  {
    if w == 0 || mask == 0 {
    } else if v == 0 {
      DivMod(0, Pow2(w), 0, 0);
    } else {
      AndLow(v / 2, mask / 2, w - 1);
      HalveMod(v, Pow2(w - 1));
    }
  }
}
