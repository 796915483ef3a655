/** Order-preserving maps from signed integers and floats to unsigned integers.

Floats are their 64-bit patterns: sign, 11 bits of exponent, 52 bits of mantissa.
 */
module OrderedBits {
  import opened Bits

  const HIGHEST_BIT: nat := 0x8000_0000_0000_0000

  type I64 = i: int | -0x8000_0000_0000_0000 <= i < 0x8000_0000_0000_0000

  // `val as u64`, and back.
  function AsU64(val: I64): (r: U64)
  {
    if val < 0 then val + U64_BOUND else val
  }

  function AsI64(val: U64): (r: I64)
  {
    if val < HIGHEST_BIT then val else val - U64_BOUND
  }

  lemma {:induction false} XorTopBit(x: nat, k: nat)
    requires x < Pow2(k + 1)
    ensures Xor(x, Pow2(k)) == if x < Pow2(k) then x + Pow2(k) else x - Pow2(k)
  {
    if k == 0 {
      assert Pow2(0) == 1 && Pow2(1) == 2;
      assert Xor(0, 0) == 0;
    } else {
      XorTopBit(x / 2, k - 1);
      assert Pow2(k) / 2 == Pow2(k - 1);
    }
  }

  // Flipping the highest bit of a word.
  function FlipHighest(x: U64): (r: U64)
    ensures r == if x < HIGHEST_BIT then x + HIGHEST_BIT else x - HIGHEST_BIT
  {
    assert Xor(x, HIGHEST_BIT) == if x < HIGHEST_BIT then x + HIGHEST_BIT else x - HIGHEST_BIT by {
      HighestBitIs();
      XorTopBit(x, 63);
    }
    Xor(x, HIGHEST_BIT)
  }

  lemma {:induction false} HighestBitIs()
    ensures Pow2(63) == HIGHEST_BIT && Pow2(64) == U64_BOUND
  {
    Pow2Literals();
    assert Pow2(64) == 2 * Pow2(63);
  }

  // --- signed integers ---------------------------------------------------------------------------

  function I64ToU64(val: I64): (r: U64)
  {
    FlipHighest(AsU64(val))
  }

  function U64ToI64(val: U64): (r: I64)
  {
    AsI64(FlipHighest(val))
  }

  // The map is the shift by 2^63: an order isomorphism with the stated inverse.
  lemma {:induction false} I64OrderIsomorphism(a: I64, b: I64, u: U64)
    ensures a < b <==> I64ToU64(a) < I64ToU64(b)
    ensures U64ToI64(I64ToU64(a)) == a
    ensures I64ToU64(U64ToI64(u)) == u
  {
    hide Xor;
  }

  // --- floats ---------------------------------------------------------------------------------------

  predicate SignPositive(bits: U64) {
    bits < HIGHEST_BIT
  }

  function F64ToU64(bits: U64): (r: U64)
  {
    HighestBitIs();
    if SignPositive(bits) then FlipHighest(bits) else Not(bits, 64)
  }

  function U64ToF64(val: U64): (bits: U64)
  {
    HighestBitIs();
    if And(val, HIGHEST_BIT) != 0 then FlipHighest(val) else Not(val, 64)
  }

  lemma {:induction false} AndTopBit(x: nat, k: nat)
    requires x < Pow2(k + 1)
    ensures And(x, Pow2(k)) == if x < Pow2(k) then 0 else Pow2(k)
  {
    if k == 0 {
      assert Pow2(0) == 1 && Pow2(1) == 2;
      assert And(0, 0) == 0;
    } else {
      AndTopBit(x / 2, k - 1);
      assert Pow2(k) / 2 == Pow2(k - 1);
    }
  }

  lemma {:induction false} TestHighest(x: U64)
    ensures And(x, HIGHEST_BIT) != 0 <==> x >= HIGHEST_BIT
  {
    hide And;
    HighestBitIs();
    AndTopBit(x, 63);
  }

  lemma {:induction false} F64ToU64Is(bits: U64)
    ensures F64ToU64(bits) == if bits < HIGHEST_BIT then bits + HIGHEST_BIT else U64_BOUND - 1 - bits
  {
    HighestBitIs();
  }

  // The two maps are inverse bijections on bit patterns.
  lemma {:induction false} F64Bijection(bits: U64, u: U64)
    ensures U64ToF64(F64ToU64(bits)) == bits
    ensures F64ToU64(U64ToF64(u)) == u
  {
    hide Xor, And, Pow2;
    HighestBitIs();
    TestHighest(F64ToU64(bits));
    TestHighest(u);
    F64ToU64Is(bits);
  }

  // --- what a bit pattern denotes -------------------------------------------------------------------

  const MANTISSA_BOUND: nat := 0x10_0000_0000_0000
  const INFINITY: nat := 0x7FF0_0000_0000_0000
  const QUIET_BIT: nat := 0x8_0000_0000_0000

  function Magnitude(bits: U64): (m: nat)
    ensures m < HIGHEST_BIT
  {
    bits % HIGHEST_BIT
  }

  predicate Negative(bits: U64) {
    bits >= HIGHEST_BIT
  }

  predicate IsNan(bits: U64) {
    Magnitude(bits) > INFINITY
  }

  predicate IsFinite(bits: U64) {
    Magnitude(bits) < INFINITY
  }

  // The absolute value of a finite float in units of 2^-1074.
  function Units(m: nat): (n: nat)
  {
    var e, f := m / MANTISSA_BOUND, m % MANTISSA_BOUND;
    if e == 0 then f else Shl(MANTISSA_BOUND + f, e - 1)
  }

  // Up to the second binade consecutive patterns are consecutive multiples of the unit, and from
  // the first binade on the next exponent doubles the number: this determines every value.
  lemma {:induction false} UnitsExact(m: nat)
    ensures m < 2 * MANTISSA_BOUND ==> Units(m) == m
    ensures m >= MANTISSA_BOUND ==> Units(m + MANTISSA_BOUND) == 2 * Units(m)
  {
    var e, f := m / MANTISSA_BOUND, m % MANTISSA_BOUND;
    if m >= MANTISSA_BOUND {
      assert (m + MANTISSA_BOUND) / MANTISSA_BOUND == e + 1 && (m + MANTISSA_BOUND) % MANTISSA_BOUND == f;
    }
  }

  function SignedUnits(bits: U64): (n: int)
  {
    if Negative(bits) then -(Units(Magnitude(bits)) as int) else Units(Magnitude(bits))
  }

  ghost function RealValue(bits: U64): (v: real)
  {
    SignedUnits(bits) as real / Pow2(1074) as real
  }

  lemma {:induction false} ShlMonotone(x: nat, y: nat, s: nat)
    requires x < y
    ensures Shl(x, s) < Shl(y, s)
  {
    if s > 0 {
      ShlMonotone(x, y, s - 1);
    }
  }

  lemma {:induction false} ShlGrows(x: nat, s: nat, t: nat)
    requires s <= t
    ensures Shl(x, s) <= Shl(x, t)
  {
    if s < t {
      ShlGrows(x, s, t - 1);
    }
  }

  // Larger magnitudes denote larger numbers: a carry out of the mantissa is the next exponent.
  lemma {:induction false} UnitsMonotone(a: nat, b: nat)
    requires a < b
    ensures Units(a) < Units(b)
  {
    var e, f := a / MANTISSA_BOUND, a % MANTISSA_BOUND;
    var e', f' := b / MANTISSA_BOUND, b % MANTISSA_BOUND;
    if e == e' {
      if e > 0 {
        ShlMonotone(MANTISSA_BOUND + f, MANTISSA_BOUND + f', e - 1);
      }
    } else if e == 0 {
      ShlGrows(MANTISSA_BOUND + f', 0, e' - 1);
    } else {
      ShlMonotone(MANTISSA_BOUND + f, 2 * MANTISSA_BOUND, e - 1);
      ShlDouble(MANTISSA_BOUND, e - 1);
      ShlGrows(MANTISSA_BOUND, e, e' - 1);
      ShlAdd(MANTISSA_BOUND, f', e' - 1);
    }
  }

  lemma {:induction false} ShlDouble(x: nat, s: nat)
    ensures Shl(2 * x, s) == Shl(x, s + 1)
  {
    if s > 0 {
      ShlDouble(x, s - 1);
    }
  }

  lemma {:induction false} UnitsOrder(a: nat, b: nat)
    ensures a < b <==> Units(a) < Units(b)
    ensures Units(a) == 0 <==> a == 0
  {
    if a < b {
      UnitsMonotone(a, b);
    } else if b < a {
      UnitsMonotone(b, a);
    }
    if a > 0 {
      UnitsMonotone(0, a);
    }
  }

  // --- totalOrder, section 5.10 of IEEE 754-2008 ------------------------------------------------------

  // x < y as extended reals, for patterns that are not NaN.
  ghost predicate NumericLess(x: U64, y: U64)
    requires !IsNan(x) && !IsNan(y)
  {
    if IsFinite(x) && IsFinite(y) then RealValue(x) < RealValue(y)
    else if IsFinite(x) then !Negative(y)
    else if IsFinite(y) then Negative(x)
    else Negative(x) && !Negative(y)
  }

  // Signaling below quiet, then by payload.
  predicate NanMagnitudeAtMost(x: U64, y: U64) {
    var p, q := Magnitude(x) % MANTISSA_BOUND, Magnitude(y) % MANTISSA_BOUND;
    var quietX, quietY := p >= QUIET_BIT, q >= QUIET_BIT;
    if quietX != quietY then quietY else p % QUIET_BIT <= q % QUIET_BIT
  }

  ghost predicate TotalOrder(x: U64, y: U64) {
    if IsNan(x) && IsNan(y) then
      if Negative(x) != Negative(y) then Negative(x)
      else if Negative(x) then NanMagnitudeAtMost(y, x)
      else NanMagnitudeAtMost(x, y)
    else if IsNan(x) then Negative(x)
    else if IsNan(y) then !Negative(y)
    else if NumericLess(x, y) then true
    else if NumericLess(y, x) then false
    else Negative(x) || !Negative(y)  // equal numbers: only +0 above -0 is excluded
  }

  lemma {:induction false} NanOrder(x: U64, y: U64)
    requires IsNan(x) && IsNan(y)
    ensures NanMagnitudeAtMost(x, y) <==> Magnitude(x) <= Magnitude(y)
  {
    hide Magnitude;
    assert Magnitude(x) % MANTISSA_BOUND == Magnitude(x) - INFINITY;
    assert Magnitude(y) % MANTISSA_BOUND == Magnitude(y) - INFINITY;
  }

  lemma {:induction false} NumericOrder(x: U64, y: U64)
    requires !IsNan(x) && !IsNan(y)
    ensures NumericLess(x, y) <==>
              if Negative(x) then (if Negative(y) then Magnitude(y) < Magnitude(x) else Magnitude(x) + Magnitude(y) > 0)
              else !Negative(y) && Magnitude(x) < Magnitude(y)
  {
    hide Units, Pow2;
    UnitsOrder(Magnitude(x), Magnitude(y));
    UnitsOrder(Magnitude(y), Magnitude(x));
  }

  // On finite floats the map follows the real order, except that it tells -0 from +0.
  lemma {:induction false} F64OrderOnFinite(x: U64, y: U64)
    requires IsFinite(x) && IsFinite(y)
    ensures F64ToU64(x) < F64ToU64(y) <==> RealValue(x) < RealValue(y) || (x == HIGHEST_BIT && y == 0)
  {
    hide RealValue, F64ToU64;
    F64ToU64Is(x);
    F64ToU64Is(y);
    NumericOrder(x, y);
  }

  // The integer order of the images is totalOrder, on all 2^64 patterns.
  lemma {:induction false} F64IsTotalOrder(x: U64, y: U64)
    ensures TotalOrder(x, y) <==> F64ToU64(x) <= F64ToU64(y)
  {
    hide NumericLess, NanMagnitudeAtMost, F64ToU64;
    F64ToU64Is(x);
    F64ToU64Is(y);
    if IsNan(x) && IsNan(y) {
      NanOrder(x, y);
      NanOrder(y, x);
    } else if !IsNan(x) && !IsNan(y) {
      NumericOrder(x, y);
      NumericOrder(y, x);
    }
  }
}
