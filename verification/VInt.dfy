/** Variable-length integers: seven digits per byte, least significant first; the last byte
carries the stop bit.
 */
module VInts {
  import opened Bits

  const STOP_BIT: nat := 128

  // The canonical encoding of a number of any size.
  function VIntBytes(v: nat): (bytes: seq<U8>)
    ensures |bytes| > 0
  {
    if v < 128 then [v + STOP_BIT] else [v % 128] + VIntBytes(v / 128)
  }

  // --- writers -------------------------------------------------------------------------------

  // The loop over a ten-byte buffer; bytes after the encoding are left alone.
  method SerializeInto(val: U64, buffer: array<U8>) returns (n: nat)
    requires buffer.Length == 10
    modifies buffer
    ensures n <= 10 && buffer[..n] == VIntBytes(val)
    ensures buffer[n..] == old(buffer[n..])
  {
    hide VIntBytes, Or, Pow2;
    var remaining := val;
    var i := 0;
    FitsTenBytes(val);
    while i < 10
      invariant 0 <= i <= 10
      invariant i + |VIntBytes(remaining)| <= 10
      invariant buffer[..i] + VIntBytes(remaining) == VIntBytes(val)
      invariant buffer[i..] == old(buffer[i..])
    {
      VIntStep(remaining);
      var nextByte := remaining % 128;
      var rest := remaining / 128;
      ghost var done := buffer[..i];
      if rest == 0 {
        OrStop(nextByte);
        buffer[i] := Or(nextByte, STOP_BIT);
        assert buffer[..i + 1] == done + [nextByte + STOP_BIT];
        return i + 1;
      } else {
        buffer[i] := nextByte;
        assert buffer[..i + 1] == done + [nextByte];
        assert done + ([nextByte] + VIntBytes(rest)) == (done + [nextByte]) + VIntBytes(rest);
      }
      remaining := rest;
      i := i + 1;
    }
  }

  lemma {:induction false} VIntStep(v: nat)
    ensures VIntBytes(v) == if v / 128 == 0 then [v % 128 + STOP_BIT] else [v % 128] + VIntBytes(v / 128)
  {
  }

  lemma {:induction false} FitsTenBytes(v: U64)
    ensures |VIntBytes(v)| <= 10
  {
    hide VIntBytes, Pow2;
    Pow2Literals();
    Pow2Monotone(64, 70);
    VIntLength(v, 10);
  }

  lemma {:induction false} OrStop(b: nat)
    requires b < 128
    ensures Or(b, STOP_BIT) == b + STOP_BIT
  {
    Pow2Literals();
    OrDisjoint(b, 1, 7);
    Pow2AsShl(7);
  }

  // The 128-bit writer appends to a vector.
  method SerializeVIntU128(val: nat, output: seq<U8>) returns (output': seq<U8>)
    requires val < Pow2(128)
    ensures output' == output + VIntBytes(val)
  {
    hide VIntBytes, Or;
    output' := output;
    var v := val;
    while true
      invariant output' + VIntBytes(v) == output + VIntBytes(val)
      decreases v
    {
      VIntStep(v);
      var nextByte := v % 128;
      if v / 128 == 0 {
        OrStop(nextByte);
        output' := output' + [Or(nextByte, STOP_BIT)];
        return;
      }
      assert output' + VIntBytes(v) == (output' + [nextByte]) + VIntBytes(v / 128);
      output' := output' + [nextByte];
      v := v / 128;
    }
  }

  // --- length ----------------------------------------------------------------------------------

  lemma {:induction false} Pow2Seven(s: nat)
    ensures Pow2(s + 7) == 128 * Pow2(s)
  {
    assert Pow2(s + 7) == 2 * Pow2(s + 6);
    assert Pow2(s + 5) == 2 * Pow2(s + 4);
    assert Pow2(s + 3) == 2 * Pow2(s + 2);
  }

  // No shorter string of seven-digit groups holds the value.
  lemma {:induction false} VIntMinimal(v: nat)
    ensures var n := |VIntBytes(v)|; v < Pow2(7 * n) && (n > 1 ==> Pow2(7 * (n - 1)) <= v)
  {
    hide Pow2;
    Pow2Literals();
    if v >= 128 {
      var m := |VIntBytes(v / 128)|;
      VIntMinimal(v / 128);
      assert |VIntBytes(v)| == m + 1;
      Pow2Seven(7 * m);
      if m > 1 {
        Pow2Seven(7 * (m - 1));
      }
    }
  }

  lemma {:induction false} VIntLength(v: nat, n: nat)
    requires n > 0 && v < Pow2(7 * n)
    ensures |VIntBytes(v)| <= n
  {
    Pow2Literals();
    if v >= 128 {
      Pow2Seven(7 * (n - 1));
      VIntLength(v / 128, n - 1);
    }
  }

  // --- reader ------------------------------------------------------------------------------------

  datatype VIntResult = Decoded(value: nat, rest: seq<U8>) | EndOfBuffer

  // An unchecked shift of a word of w bits takes the amount modulo w.
  function ShiftAmount(shift: nat, w: nat): (s: nat)
    requires w > 0
    ensures s < w && s <= shift
  {
    if shift < w then shift else ModuloBelow(shift, w); shift % w
  }

  lemma {:induction false} ModuloBelow(shift: nat, w: nat)
    requires 0 < w <= shift
    ensures 0 <= shift % w < w
  {
  }

  function DecodeFrom(bytes: seq<U8>, result: nat, shift: nat, w: nat): (r: VIntResult)
    requires w > 0
    decreases |bytes|
  {
    if |bytes| == 0 then EndOfBuffer
    else
      var b := bytes[0];
      var result' := Or(result, Low(Shl(b % 128, ShiftAmount(shift, w)), w));
      if b >= STOP_BIT then Decoded(result', bytes[1..])
      else DecodeFrom(bytes[1..], result', shift + 7, w)
  }

  function Decode(bytes: seq<U8>, w: nat): (r: VIntResult)
    requires w > 0
  {
    DecodeFrom(bytes, 0, 0, w)
  }

  method Deserialize(reader: seq<U8>, w: nat) returns (r: VIntResult)
    requires w > 0
    ensures r == Decode(reader, w)
  {
    var result, shift, i := 0, 0, 0;
    while i < |reader|
      invariant 0 <= i <= |reader|
      invariant Decode(reader, w) == DecodeFrom(reader[i..], result, shift, w)
    {
      var b := reader[i];
      result := Or(result, Low(Shl(b % 128, ShiftAmount(shift, w)), w));
      assert reader[i..][1..] == reader[i + 1..];
      if b >= STOP_BIT {
        return Decoded(result, reader[i + 1..]);
      }
      shift := shift + 7;
      i := i + 1;
    }
    return EndOfBuffer;
  }

  // One more group on top of `shift` digits.
  lemma {:induction false} AddGroup(result: nat, group: nat, high: nat, shift: nat, w: nat)
    requires result < Pow2(shift) && shift <= w && group < 128
    requires group + 128 * high < Pow2(w - shift)
    ensures Or(result, Low(Shl(group, shift), w)) == result + Shl(group, shift)
    ensures result + Shl(group, shift) < Pow2(shift + 7)
    ensures result + Shl(group, shift) + Shl(high, shift + 7) == result + Shl(group + 128 * high, shift)
  {
    hide *;
    Pow2Literals();
    ZeroBelow(shift);
    JoinBound(0, group, shift, w - shift);
    SmallWord(Shl(group, shift), w);
    OrDisjoint(result, group, shift);
    JoinBound(result, group, shift, 7);
    ShlAdd(group, 128 * high, shift);
    ShlSeven(high);
    ShlShl(high, 7, shift);
  }

  lemma {:induction false} ZeroBelow(shift: nat)
    ensures 0 < Pow2(shift)
  {
  }

  lemma {:induction false} ShlSeven(x: nat)
    ensures Shl(x, 7) == 128 * x
  {
    assert Shl(x, 7) == 2 * Shl(x, 6);
    assert Shl(x, 5) == 2 * Shl(x, 4);
    assert Shl(x, 3) == 2 * Shl(x, 2);
    assert Shl(x, 1) == 2 * Shl(x, 0);
  }

  lemma {:induction false} DecodeEncoded(v: nat, rest: seq<U8>, result: nat, shift: nat, w: nat)
    requires result < Pow2(shift) && shift < w && v < Pow2(w - shift)
    ensures DecodeFrom(VIntBytes(v) + rest, result, shift, w) == Decoded(result + Shl(v, shift), rest)
  {
    hide Or, Low, Shl, Pow2;
    var bytes := VIntBytes(v) + rest;
    AddGroup(result, v % 128, v / 128, shift, w);
    if v < 128 {
      assert bytes[0] == v + STOP_BIT && bytes[1..] == rest;
    } else {
      assert bytes[0] == v % 128 && bytes[1..] == VIntBytes(v / 128) + rest;
      GroupsLeft(v, w - shift);
      DecodeEncoded(v / 128, rest, result + Shl(v % 128, shift), shift + 7, w);
    }
  }

  lemma {:induction false} GroupsLeft(v: nat, m: nat)
    requires 128 <= v < Pow2(m)
    ensures m > 7 && v / 128 < Pow2(m - 7)
  {
    Pow2Literals();
    if m <= 7 {
      Pow2Monotone(m, 7);
    } else {
      Pow2Seven(m - 7);
    }
  }

  // Decoding what was encoded gives the value and leaves the trailing bytes alone.
  lemma {:induction false} VIntRoundTrip(v: nat, rest: seq<U8>, w: nat)
    requires w > 0 && v < Pow2(w)
    ensures Decode(VIntBytes(v) + rest, w) == Decoded(v, rest)
  {
    hide Or, Low, DecodeFrom, VIntBytes;
    ShlIdentity(v);
    DecodeEncoded(v, rest, 0, 0, w);
  }

  lemma {:induction false} ShlIdentity(v: nat)
    ensures Shl(v, 0) == v && Pow2(0) == 1
  {
  }

  // Encodings are self-delimiting: equal streams have equal heads and equal tails.
  lemma {:induction false} VIntPrefixFree(a: nat, r: seq<U8>, b: nat, s: seq<U8>)
    requires VIntBytes(a) + r == VIntBytes(b) + s
    ensures a == b && r == s
  {
    hide VIntBytes, Decode, Pow2;
    var w := 1 + BitLength(a) + BitLength(b);
    BitLengthExact(a);
    BitLengthExact(b);
    Pow2Monotone(BitLength(a), w);
    Pow2Monotone(BitLength(b), w);
    VIntRoundTrip(a, r, w);
    VIntRoundTrip(b, s, w);
  }

  lemma {:induction false} DecodedBound(bytes: seq<U8>, result: nat, shift: nat, w: nat)
    requires w > 0 && result < Pow2(shift)
    ensures var r := DecodeFrom(bytes, result, shift, w);
            r.Decoded? ==> |r.rest| < |bytes| && r.value < Pow2(shift + 7 * (|bytes| - |r.rest|))
    decreases |bytes|
  {
    hide Or, Low, Shl, Pow2, ShiftAmount;
    if |bytes| > 0 {
      var b, amount := bytes[0], ShiftAmount(shift, w);
      var group := Low(Shl(b % 128, amount), w);
      Pow2Literals();
      Pow2Monotone(shift, shift + 7);
      JoinBound(0, b % 128, amount, 7) by { ZeroBelow(amount); }
      Pow2Monotone(amount + 7, shift + 7);
      LowAtMost(Shl(b % 128, amount), w);
      OrBound(result, group, shift + 7);
      if b < STOP_BIT {
        DecodedBound(bytes[1..], Or(result, group), shift + 7, w);
      }
    }
  }

  lemma {:induction false} LowAtMost(x: nat, w: nat)
    ensures Low(x, w) <= x
  {
    if w > 0 {
      LowAtMost(x / 2, w - 1);
    }
  }

  // Among all strings that decode to v, the encoder's is the shortest.
  lemma {:induction false} VIntShortest(bytes: seq<U8>, v: nat, w: nat)
    requires w > 0 && Decode(bytes, w) == Decoded(v, [])
    ensures |VIntBytes(v)| <= |bytes|
  {
    hide DecodeFrom, VIntBytes, Pow2;
    ShlIdentity(0);
    DecodedBound(bytes, 0, 0, w);
    VIntLength(v, |bytes|);
  }

  // --- every stream, encoded or not ---------------------------------------------------------------

  // The first n bytes are one payload: only the last of them carries the stop bit.
  ghost predicate IsPayload(bytes: seq<U8>, n: nat) {
    0 < n <= |bytes| && bytes[n - 1] >= STOP_BIT && forall i :: 0 <= i < n - 1 ==> bytes[i] < STOP_BIT
  }

  lemma {:induction false} PayloadTail(bytes: seq<U8>, n: nat)
    requires IsPayload(bytes, n) && bytes[0] < STOP_BIT
    ensures n > 1 && IsPayload(bytes[1..], n - 1)
  {
  }

  lemma {:induction false} DecodesPayload(bytes: seq<U8>, result: nat, shift: nat, w: nat)
    requires w > 0
    ensures var r := DecodeFrom(bytes, result, shift, w);
            && (r.Decoded? <==> exists i :: 0 <= i < |bytes| && bytes[i] >= STOP_BIT)
            && (r.Decoded? ==> |r.rest| < |bytes| && r.rest == bytes[|bytes| - |r.rest|..])
            && (r.Decoded? ==> IsPayload(bytes, |bytes| - |r.rest|))
    decreases |bytes|
  {
    hide Or, Low, Shl, ShiftAmount;
    if |bytes| > 0 && bytes[0] < STOP_BIT {
      DecodesPayload(bytes[1..], Or(result, Low(Shl(bytes[0] % 128, ShiftAmount(shift, w)), w)), shift + 7, w);
      assert forall i :: 0 <= i < |bytes| - 1 ==> bytes[1..][i] == bytes[i + 1];
      assert (exists i :: 0 <= i < |bytes| && bytes[i] >= STOP_BIT) ==>
        exists i :: 0 <= i < |bytes[1..]| && bytes[1..][i] >= STOP_BIT by {
        if i :| 0 <= i < |bytes| && bytes[i] >= STOP_BIT {
          assert bytes[1..][i - 1] >= STOP_BIT;
        }
      }
    }
  }

  // A payload decodes the same whatever follows it.
  lemma {:induction false} DecodesLocally(bytes: seq<U8>, other: seq<U8>, n: nat, result: nat, shift: nat, w: nat)
    requires w > 0 && IsPayload(bytes, n) && n <= |other| && other[..n] == bytes[..n]
    ensures var r := DecodeFrom(bytes, result, shift, w);
            r.Decoded? && DecodeFrom(other, result, shift, w) == Decoded(r.value, other[n..])
    decreases |bytes|
  {
    hide Or, Low, Shl, ShiftAmount;
    assert other[0] == other[..n][0] == bytes[0];
    if bytes[0] < STOP_BIT {
      PayloadTail(bytes, n);
      assert other[1..][..n - 1] == other[..n][1..] == bytes[..n][1..] == bytes[1..][..n - 1];
      DecodesLocally(bytes[1..], other[1..], n - 1,
                     Or(result, Low(Shl(bytes[0] % 128, ShiftAmount(shift, w)), w)), shift + 7, w);
    } else {
      assert n == 1;
    }
  }

  lemma {:induction false} DecodedFits(bytes: seq<U8>, result: nat, shift: nat, w: nat)
    requires w > 0 && result < Pow2(w)
    ensures DecodeFrom(bytes, result, shift, w).Decoded? ==> DecodeFrom(bytes, result, shift, w).value < Pow2(w)
    decreases |bytes|
  {
    hide Or, Shl, Pow2, ShiftAmount;
    if |bytes| > 0 {
      var group := Low(Shl(bytes[0] % 128, ShiftAmount(shift, w)), w);
      OrBound(result, group, w);
      DecodedFits(bytes[1..], Or(result, group), shift + 7, w);
    }
  }

  // The number whose seven-digit groups the bytes hold.
  function GroupSum(bytes: seq<U8>): (n: nat)
  {
    if |bytes| == 0 then 0 else bytes[0] % 128 + 128 * GroupSum(bytes[1..])
  }

  // An encoding is one payload, and its groups hold the value.
  lemma {:induction false} EncodingIsPayload(v: nat)
    ensures IsPayload(VIntBytes(v), |VIntBytes(v)|) && GroupSum(VIntBytes(v)) == v
  {
    var bytes := VIntBytes(v);
    if v >= 128 {
      EncodingIsPayload(v / 128);
      assert bytes[1..] == VIntBytes(v / 128);
    } else {
      assert bytes[1..] == [];
    }
  }

  // One more group, cut off at the width.
  lemma {:induction false} OneGroup(result: nat, group: nat, shift: nat, w: nat)
    requires result < Pow2(shift) && shift <= w
    ensures Or(result, Low(Shl(group, shift), w)) == Low(result + Shl(group, shift), w)
  {
    hide *;
    var x, y := result + Shl(group, shift), Shl(group, shift);
    ZeroBelow(shift);
    SplitAt(result, group, shift);
    SplitAt(0, group, shift);
    LowOfLow(x, w, shift);
    LowOfLow(y, w, shift);
    ShrOfLow(x, w, shift);
    ShrOfLow(y, w, shift);
    JoinAt(Low(x, w), shift);
    JoinAt(Low(y, w), shift);
    OrDisjoint(result, Low(group, w - shift), shift);
  }

  lemma {:induction false} DecodedValue(bytes: seq<U8>, n: nat, result: nat, shift: nat, w: nat)
    requires IsPayload(bytes, n) && result < Pow2(shift) && shift + 7 * (n - 1) < w
    ensures var r := DecodeFrom(bytes, result, shift, w);
            r.Decoded? && r.value == Low(result + Shl(GroupSum(bytes[..n]), shift), w)
    decreases n
  {
    hide Or, Low, Shl, Pow2;
    var g, tail := bytes[0] % 128, bytes[1..];
    assert bytes[..n][1..] == tail[..n - 1];
    OneGroup(result, g, shift, w);
    if bytes[0] < STOP_BIT {
      PayloadTail(bytes, n);
      Pow2Literals();
      JoinBound(result, g, shift, 7);
      Pow2Monotone(shift + 7, w);
      SmallWord(result + Shl(g, shift), w);
      DecodedValue(tail, n - 1, result + Shl(g, shift), shift + 7, w);
      var high := GroupSum(tail[..n - 1]);
      ShlAdd(g, 128 * high, shift);
      ShlSeven(high);
      ShlShl(high, 7, shift);
    } else {
      assert n == 1 && tail[..0] == [];
    }
  }

  // Any stream: it decodes exactly when some byte carries the stop bit, up to the first such
  // byte, to the number its groups hold as long as they start inside the word.
  lemma {:induction false} DecodeExact(bytes: seq<U8>, w: nat)
    requires w > 0
    ensures var r := Decode(bytes, w);
            && (r.Decoded? <==> exists i :: 0 <= i < |bytes| && bytes[i] >= STOP_BIT)
            && (r.Decoded? ==>
                  |r.rest| < |bytes| &&
                  var n := |bytes| - |r.rest|;
                  && IsPayload(bytes, n) && r.rest == bytes[n..] && r.value < Pow2(w)
                  && (7 * (n - 1) < w ==> r.value == Low(GroupSum(bytes[..n]), w)))
  {
    hide DecodeFrom, Low, Shl, Pow2, IsPayload;
    DecodesPayload(bytes, 0, 0, w);
    ZeroBelow(w);
    DecodedFits(bytes, 0, 0, w);
    var r := Decode(bytes, w);
    if r.Decoded? && 7 * (|bytes| - |r.rest| - 1) < w {
      ShlIdentity(GroupSum(bytes[..|bytes| - |r.rest|]));
      DecodedValue(bytes, |bytes| - |r.rest|, 0, 0, w);
    }
  }
}
