/** Arithmetic on machine words.

Words are natural numbers.  Shifts, masks and the bitwise operators are defined digit by
digit in base two, so that every proof is by induction on the digits; `ShiftsAreDivision`
relates them to division by a power of two.  A byte string denotes its little-endian
natural number `LeNat`, and a packed value is a digit window `Extract` of that number.
 */
module Bits {

  const U8_BOUND: nat := 0x100
  const U32_BOUND: nat := 0x1_0000_0000
  const U64_BOUND: nat := 0x1_0000_0000_0000_0000

  type U8 = x: nat | x < 0x100
  type U32 = x: nat | x < 0x1_0000_0000
  type U64 = x: nat | x < 0x1_0000_0000_0000_0000

  // Unchecked u64 arithmetic.
  function Wrap(x: nat): (r: U64)
  {
    x % U64_BOUND
  }

  function Pow2(n: nat): (r: nat)
    ensures r > 0
  {
    if n == 0 then 1 else 2 * Pow2(n - 1)
  }

  // x << s on unbounded naturals.
  function Shl(x: nat, s: nat): (r: nat)
  {
    if s == 0 then x else 2 * Shl(x, s - 1)
  }

  // x >> s.
  function Shr(x: nat, s: nat): (r: nat)
  {
    if s == 0 then x else Shr(x / 2, s - 1)
  }

  // The w low binary digits of x.
  function Low(x: nat, w: nat): (r: nat)
    ensures r < Pow2(w)
  {
    if w == 0 then 0 else x % 2 + 2 * Low(x / 2, w - 1)
  }

  // The window of w binary digits of x that starts at digit s.
  function Extract(x: nat, s: nat, w: nat): (r: nat)
    ensures r < Pow2(w)
  {
    Low(Shr(x, s), w)
  }

  lemma {:induction false} Pow2Literals()
    ensures Pow2(7) == 0x80
    ensures Pow2(8) == U8_BOUND
    ensures Pow2(32) == U32_BOUND
    ensures Pow2(56) == 0x100_0000_0000_0000
    ensures Pow2(64) == U64_BOUND
  {
    Pow2Byte(0);
    Pow2Byte(8);
    Pow2Byte(16);
    Pow2Byte(24);
    Pow2Byte(32);
    Pow2Byte(40);
    Pow2Byte(48);
    Pow2Byte(56);
  }

  lemma {:induction false} Pow2Monotone(a: nat, b: nat)
    requires a <= b
    ensures Pow2(a) <= Pow2(b)
    ensures a < b ==> Pow2(a) < Pow2(b)
  {
    if a < b {
      Pow2Monotone(a, b - 1);
    }
  }

  // --- shifts and windows ------------------------------------------------------------

  // Any decomposition low + (high << s) with s low digits determines both parts.
  lemma {:induction false} SplitAt(low: nat, high: nat, s: nat)
    requires low < Pow2(s)
    ensures Shr(low + Shl(high, s), s) == high
    ensures Low(low + Shl(high, s), s) == low
  {
    if s > 0 {
      SplitAt(low / 2, high, s - 1);
      assert (low + Shl(high, s)) / 2 == low / 2 + Shl(high, s - 1);
    }
  }

  lemma {:induction false} JoinAt(x: nat, s: nat)
    ensures Low(x, s) + Shl(Shr(x, s), s) == x
  {
    if s > 0 {
      JoinAt(x / 2, s - 1);
    }
  }

  lemma {:induction false} JoinBound(low: nat, high: nat, s: nat, t: nat)
    requires low < Pow2(s) && high < Pow2(t)
    ensures low + Shl(high, s) < Pow2(s + t)
  {
    if s > 0 {
      JoinBound(low / 2, high, s - 1, t);
    }
  }

  lemma {:induction false} ShlZero(s: nat)
    ensures Shl(0, s) == 0
  {
    if s > 0 {
      ShlZero(s - 1);
    }
  }

  lemma {:induction false} Pow2AsShl(n: nat)
    ensures Shl(1, n) == Pow2(n)
  {
    if n > 0 {
      Pow2AsShl(n - 1);
    }
  }

  lemma {:induction false} ShlAdd(x: nat, y: nat, s: nat)
    ensures Shl(x + y, s) == Shl(x, s) + Shl(y, s)
  {
    if s > 0 {
      ShlAdd(x, y, s - 1);
    }
  }

  lemma {:induction false} ShlShl(x: nat, a: nat, b: nat)
    ensures Shl(Shl(x, a), b) == Shl(x, a + b)
  {
    if b > 0 {
      ShlShl(x, a, b - 1);
    }
  }

  // A word below 2^s has no digit from s upwards.
  lemma {:induction false} SmallWord(x: nat, s: nat)
    requires x < Pow2(s)
    ensures Low(x, s) == x && Shr(x, s) == 0
  {
    ShlZero(s);
    SplitAt(x, 0, s);
  }

  lemma {:induction false} ShrShr(x: nat, a: nat, b: nat)
    ensures Shr(Shr(x, a), b) == Shr(x, a + b)
    decreases a
  {
    if a > 0 {
      ShrShr(x / 2, a - 1, b);
    }
  }

  lemma {:induction false} ShrOfLow(x: nat, m: nat, s: nat)
    requires s <= m
    ensures Shr(Low(x, m), s) == Low(Shr(x, s), m - s)
    decreases s
  {
    if s > 0 {
      ShrOfLow(x / 2, m - 1, s - 1);
      assert Low(x, m) / 2 == Low(x / 2, m - 1);
    }
  }

  lemma {:induction false} LowOfLow(x: nat, m: nat, w: nat)
    requires w <= m
    ensures Low(Low(x, m), w) == Low(x, w)
    decreases w
  {
    if w > 0 {
      LowOfLow(x / 2, m - 1, w - 1);
      assert Low(x, m) / 2 == Low(x / 2, m - 1);
    }
  }

  // A window read out of a larger window.
  lemma {:induction false} ExtractExtract(x: nat, a: nat, m: nat, s: nat, w: nat)
    requires s + w <= m
    ensures Extract(Extract(x, a, m), s, w) == Extract(x, a + s, w)
  {
    ShrOfLow(Shr(x, a), m, s);
    ShrShr(x, a, s);
    LowOfLow(Shr(x, a + s), m - s, w);
  }

  // Digits below s + w do not depend on what is stacked above digit n >= s + w.
  lemma {:induction false} ExtractLow(low: nat, high: nat, n: nat, s: nat, w: nat)
    requires low < Pow2(n) && s + w <= n
    ensures Extract(low + Shl(high, n), s, w) == Extract(low, s, w)
  {
    var x := low + Shl(high, n);
    SplitAt(low, high, n);
    SmallWord(low, n);
    ExtractExtract(x, 0, n, s, w);
    ExtractExtract(low, 0, n, s, w);
  }

  // Digits from n upwards do not depend on what lies below digit n.
  lemma {:induction false} ExtractHigh(low: nat, high: nat, n: nat, s: nat, w: nat)
    requires low < Pow2(n)
    ensures Extract(low + Shl(high, n), n + s, w) == Extract(high, s, w)
  {
    SplitAt(low, high, n);
    ShrShr(low + Shl(high, n), n, s);
  }

  lemma {:induction false} ShlIsMultiplication(x: nat, s: nat)
    ensures Shl(x, s) == x * Pow2(s)
  {
    if s > 0 {
      ShlIsMultiplication(x, s - 1);
      assert x * (2 * Pow2(s - 1)) == 2 * (x * Pow2(s - 1));
    }
  }

  lemma {:induction false} MulMonotone(a: nat, b: nat, d: nat)
    requires a <= b
    ensures a * d <= b * d
  {
  }

  lemma {:induction false} DivModUnique(x: nat, d: nat, q: nat, r: nat)
    requires x == q * d + r && r < d
    ensures x / d == q && x % d == r
  {
    var k := x / d;
    assert x == k * d + x % d;
    if k < q {
      MulMonotone(k + 1, q, d);
    } else if q < k {
      MulMonotone(q + 1, k, d);
    }
  }

  // The digit windows are the usual quotients and remainders.
  lemma {:induction false} ShiftsAreDivision(x: nat, s: nat)
    ensures Shl(x, s) == x * Pow2(s)
    ensures Shr(x, s) == x / Pow2(s)
    ensures Low(x, s) == x % Pow2(s)
  {
    ShlIsMultiplication(x, s);
    JoinAt(x, s);
    ShlIsMultiplication(Shr(x, s), s);
    DivModUnique(x, Pow2(s), Shr(x, s), Low(x, s));
  }

  // --- little-endian byte strings ----------------------------------------------------

  function LeNat(bytes: seq<U8>): (r: nat)
  {
    if |bytes| == 0 then 0 else bytes[0] + 0x100 * LeNat(bytes[1..])
  }

  lemma {:induction false} ShlByte(x: nat, s: nat)
    ensures Shl(x, s + 8) == 0x100 * Shl(x, s)
  {
    assert Shl(x, s + 8) == 2 * Shl(x, s + 7);
    assert Shl(x, s + 6) == 2 * Shl(x, s + 5);
    assert Shl(x, s + 4) == 2 * Shl(x, s + 3);
    assert Shl(x, s + 2) == 2 * Shl(x, s + 1);
  }

  lemma {:induction false} Pow2Byte(s: nat)
    ensures Pow2(s + 8) == 0x100 * Pow2(s)
  {
    assert Pow2(s + 8) == 2 * Pow2(s + 7);
    assert Pow2(s + 6) == 2 * Pow2(s + 5);
    assert Pow2(s + 4) == 2 * Pow2(s + 3);
    assert Pow2(s + 2) == 2 * Pow2(s + 1);
  }

  lemma {:induction false} LeNatConcat(a: seq<U8>, b: seq<U8>)
    ensures LeNat(a + b) == LeNat(a) + Shl(LeNat(b), 8 * |a|)
  {
    if |a| == 0 {
      assert a + b == b;
    } else {
      LeNatConcat(a[1..], b);
      assert (a + b)[1..] == a[1..] + b;
      ShlByte(LeNat(b), 8 * |a[1..]|);
    }
  }

  lemma {:induction false} LeNatBound(a: seq<U8>)
    ensures LeNat(a) < Pow2(8 * |a|)
  {
    if |a| > 0 {
      LeNatBound(a[1..]);
      Pow2Byte(8 * |a[1..]|);
    }
  }

  // The k low bytes of x, least significant first.
  function ToLe(x: nat, k: nat): (bytes: seq<U8>)
    ensures |bytes| == k
  {
    if k == 0 then [] else [x % 0x100] + ToLe(x / 0x100, k - 1)
  }

  lemma {:induction false} LowTwo(x: nat, w: nat)
    ensures Low(x, w + 2) == x % 4 + 4 * Low(x / 4, w)
  {
    assert Low(x, w + 2) == x % 2 + 2 * Low(x / 2, w + 1);
    assert x / 2 / 2 == x / 4;
  }

  lemma {:induction false} LowFour(x: nat, w: nat)
    ensures Low(x, w + 4) == x % 16 + 16 * Low(x / 16, w)
  {
    LowTwo(x, w + 2);
    LowTwo(x / 4, w);
    assert x / 4 / 4 == x / 16;
  }

  lemma {:induction false} LowByte(x: nat, w: nat)
    ensures Low(x, w + 8) == x % 0x100 + 0x100 * Low(x / 0x100, w)
  {
    LowFour(x, w + 4);
    LowFour(x / 16, w);
    assert x / 16 / 16 == x / 0x100;
  }

  lemma {:induction false} LeNatToLe(x: nat, k: nat)
    ensures LeNat(ToLe(x, k)) == Low(x, 8 * k)
  {
    if k > 0 {
      LeNatToLe(x / 0x100, k - 1);
      assert ToLe(x, k)[1..] == ToLe(x / 0x100, k - 1);
      LowByte(x, 8 * (k - 1));
    }
  }

  lemma {:induction false} LeNatOfWord(x: nat, k: nat)
    requires x < Pow2(8 * k)
    ensures LeNat(ToLe(x, k)) == x
  {
    LeNatToLe(x, k);
    SmallWord(x, 8 * k);
  }

  lemma {:induction false} ToLeLeNat(bytes: seq<U8>)
    ensures ToLe(LeNat(bytes), |bytes|) == bytes
  {
    if |bytes| > 0 {
      ToLeLeNat(bytes[1..]);
      assert LeNat(bytes) % 0x100 == bytes[0] && LeNat(bytes) / 0x100 == LeNat(bytes[1..]);
      assert bytes == [bytes[0]] + bytes[1..];
    }
  }

  // The first j bytes of the k-byte encoding are the j-byte encoding.
  lemma {:induction false} ToLePrefix(x: nat, j: nat, k: nat)
    requires j <= k
    ensures ToLe(x, k)[..j] == ToLe(x, j)
  {
    if j > 0 {
      ToLePrefix(x / 0x100, j - 1, k - 1);
      assert ToLe(x, k)[1..] == ToLe(x / 0x100, k - 1);
      assert ToLe(x, k)[..j] == [x % 0x100] + ToLe(x, k)[1..][..j - 1];
    }
  }

  lemma {:induction false} LeNatSplit(a: seq<U8>, b: seq<U8>)
    ensures Low(LeNat(a + b), 8 * |a|) == LeNat(a)
    ensures Shr(LeNat(a + b), 8 * |a|) == LeNat(b)
  {
    LeNatConcat(a, b);
    LeNatBound(a);
    SplitAt(LeNat(a), LeNat(b), 8 * |a|);
  }

  // A contiguous run of bytes is a digit window of the whole byte string.
  lemma {:induction false} LeNatSlice(bytes: seq<U8>, i: nat, n: nat)
    requires i + n <= |bytes|
    ensures LeNat(bytes[i..i + n]) == Extract(LeNat(bytes), 8 * i, 8 * n)
  {
    assert bytes == bytes[..i] + bytes[i..];
    LeNatSplit(bytes[..i], bytes[i..]);
    assert bytes[i..] == bytes[i..i + n] + bytes[i + n..];
    LeNatSplit(bytes[i..i + n], bytes[i + n..]);
  }

  function Zeros(n: nat): (bytes: seq<U8>)
    ensures |bytes| == n
    ensures forall i :: 0 <= i < n ==> bytes[i] == 0
  {
    seq(n, _ => 0)
  }

  lemma {:induction false} LeNatZeros(bytes: seq<U8>)
    requires forall i :: 0 <= i < |bytes| ==> bytes[i] == 0
    ensures LeNat(bytes) == 0
  {
    if |bytes| > 0 {
      LeNatZeros(bytes[1..]);
    }
  }

  // --- bitwise operators -------------------------------------------------------------

  predicate Bit(x: nat, i: nat)
  {
    if i == 0 then x % 2 == 1 else Bit(x / 2, i - 1)
  }

  function Or(a: nat, b: nat): (r: nat)
    decreases a + b
  {
    if a == 0 && b == 0 then 0
    else (if a % 2 == 1 || b % 2 == 1 then 1 else 0) + 2 * Or(a / 2, b / 2)
  }

  function And(a: nat, b: nat): (r: nat)
    ensures r <= a && r <= b
    decreases a + b
  {
    if a == 0 && b == 0 then 0
    else (if a % 2 == 1 && b % 2 == 1 then 1 else 0) + 2 * And(a / 2, b / 2)
  }

  function Xor(a: nat, b: nat): (r: nat)
    decreases a + b
  {
    if a == 0 && b == 0 then 0
    else (if a % 2 != b % 2 then 1 else 0) + 2 * Xor(a / 2, b / 2)
  }

  // Complement of a word of w bits.
  function Not(x: nat, w: nat): (r: nat)
    requires x < Pow2(w)
    ensures r < Pow2(w)
  {
    Pow2(w) - 1 - x
  }

  // x << s on a u64: the digits pushed out at the top are lost.
  function Shl64(x: U64, s: nat): (r: U64)
  {
    Pow2Literals();
    Low(Shl(x, s), 64)
  }

  lemma {:induction false} BitZero(i: nat)
    ensures !Bit(0, i)
  {
    if i > 0 {
      BitZero(i - 1);
    }
  }

  lemma {:induction false} BitOr(a: nat, b: nat, i: nat)
    ensures Bit(Or(a, b), i) == (Bit(a, i) || Bit(b, i))
    decreases i
  {
    if a == 0 && b == 0 {
      BitZero(i);
    } else {
      var r := Or(a / 2, b / 2);
      assert Or(a, b) / 2 == r;
      if i > 0 {
        BitOr(a / 2, b / 2, i - 1);
      }
    }
  }

  lemma {:induction false} BitAnd(a: nat, b: nat, i: nat)
    ensures Bit(And(a, b), i) == (Bit(a, i) && Bit(b, i))
    decreases i
  {
    if a == 0 && b == 0 {
      BitZero(i);
    } else {
      var r := And(a / 2, b / 2);
      assert And(a, b) / 2 == r;
      if i > 0 {
        BitAnd(a / 2, b / 2, i - 1);
      }
    }
  }

  lemma {:induction false} BitNot(x: nat, w: nat, i: nat)
    requires x < Pow2(w) && i < w
    ensures Bit(Not(x, w), i) == !Bit(x, i)
    decreases i
  {
    if i > 0 {
      assert Not(x, w) / 2 == Not(x / 2, w - 1);
      BitNot(x / 2, w - 1, i - 1);
    }
  }

  lemma {:induction false} BitAboveWidth(x: nat, w: nat, i: nat)
    requires x < Pow2(w) && w <= i
    ensures !Bit(x, i)
    decreases w
  {
    if w == 0 {
      BitZero(i);
    } else {
      BitAboveWidth(x / 2, w - 1, i - 1);
    }
  }

  // A word is determined by its bits.
  lemma {:induction false} BitsDetermine(x: nat, y: nat, w: nat)
    requires x < Pow2(w) && y < Pow2(w)
    requires forall i: nat :: i < w ==> Bit(x, i) == Bit(y, i)
    ensures x == y
  {
    if w > 0 {
      assert Bit(x, 0) == Bit(y, 0);
      forall i: nat | i < w - 1 ensures Bit(x / 2, i) == Bit(y / 2, i) {
        assert Bit(x, i + 1) == Bit(y, i + 1);
      }
      BitsDetermine(x / 2, y / 2, w - 1);
    }
  }

  lemma {:induction false} BitOfShl(x: nat, s: nat, i: nat)
    ensures Bit(Shl(x, s), i) == (s <= i && Bit(x, i - s))
    decreases s
  {
    if s > 0 && i > 0 {
      BitOfShl(x, s - 1, i - 1);
    }
  }

  lemma {:induction false} BitOfShr(x: nat, s: nat, i: nat)
    ensures Bit(Shr(x, s), i) == Bit(x, s + i)
    decreases s
  {
    if s > 0 {
      BitOfShr(x / 2, s - 1, i);
    }
  }

  // Or of disjoint digit ranges is addition.
  lemma {:induction false} OrDisjoint(low: nat, high: nat, k: nat)
    requires low < Pow2(k)
    ensures Or(low, Shl(high, k)) == low + Shl(high, k)
    decreases k
  {
    if k == 0 {
      OrZero(high);
    } else if low > 0 || Shl(high, k) > 0 {
      OrDisjoint(low / 2, high, k - 1);
    }
  }

  lemma {:induction false} OrZero(x: nat)
    ensures Or(0, x) == x && Or(x, 0) == x
  {
    if x > 0 {
      OrZero(x / 2);
    }
  }

  // And with a block of w low ones keeps the w low digits.
  lemma {:induction false} AndMask(x: nat, w: nat)
    ensures And(x, Pow2(w) - 1) == Low(x, w)
    decreases w
  {
    if w == 0 {
      AndZero(x);
    } else {
      AndMask(x / 2, w - 1);
      assert (Pow2(w) - 1) / 2 == Pow2(w - 1) - 1;
    }
  }

  lemma {:induction false} AndZero(x: nat)
    ensures And(x, 0) == 0 && And(0, x) == 0
  {
    if x > 0 {
      AndZero(x / 2);
    }
  }

  lemma {:induction false} AndSelf(x: nat)
    ensures And(x, x) == x
  {
    if x > 0 {
      AndSelf(x / 2);
    }
  }

  lemma {:induction false} OrBound(a: nat, b: nat, w: nat)
    requires a < Pow2(w) && b < Pow2(w)
    ensures Or(a, b) < Pow2(w)
    decreases w
  {
    if w > 0 && (a > 0 || b > 0) {
      OrBound(a / 2, b / 2, w - 1);
    }
  }

  function PopCount(x: nat): (r: nat)
  {
    if x == 0 then 0 else x % 2 + PopCount(x / 2)
  }

  function TrailingZeros(x: nat): (r: nat)
    requires x > 0
  {
    if x % 2 == 1 then 0 else 1 + TrailingZeros(x / 2)
  }

  // The lowest set bit, and what clearing it with x & (x - 1) leaves.
  lemma {:induction false} LowestBit(x: nat, i: nat)
    requires x > 0
    ensures Bit(x, TrailingZeros(x))
    ensures i < TrailingZeros(x) ==> !Bit(x, i)
    ensures Bit(And(x, x - 1), i) == (Bit(x, i) && i != TrailingZeros(x))
    decreases x
  {
    if x % 2 == 1 {
      AndSelf(x / 2);
      assert And(x, x - 1) == 2 * (x / 2);
    } else {
      LowestBit(x / 2, if i > 0 then i - 1 else 0);
      assert (x - 1) / 2 == x / 2 - 1;
      assert And(x, x - 1) == 2 * And(x / 2, x / 2 - 1);
    }
  }

  // The number of binary digits of n: 64 - leading_zeros on a u64.
  function BitLength(n: nat): (r: nat)
  {
    if n == 0 then 0 else 1 + BitLength(n / 2)
  }

  lemma {:induction false} BitLengthExact(n: nat)
    ensures n < Pow2(BitLength(n))
    ensures n > 0 ==> Pow2(BitLength(n) - 1) <= n
  {
    if n > 0 {
      BitLengthExact(n / 2);
    }
  }

  lemma {:induction false} BitLengthBound(n: nat, w: nat)
    requires n < Pow2(w)
    ensures BitLength(n) <= w
  {
    if n > 0 {
      BitLengthBound(n / 2, w - 1);
    }
  }
}
