/** The branching u32 encoder, which computes the whole encoding in one 64-bit word, and the
u32 readers that first look for the stop bit.
 */
module VIntsU32 {
  import opened Bits
  import opened VInts

  // --- the branching encoder -----------------------------------------------------------------

  // The word and how many of its little-endian bytes are used.
  function EncodeWord(val: U32): (r: (nat, nat))
  {
    var mask1 := 127;
    var mask2 := Shl(127, 7);
    var mask3 := Shl(127, 14);
    var mask4 := Shl(127, 21);
    var mask5 := Shl(127, 28);
    if val < 0x80 then
      (Or(val, STOP_BIT), 1)
    else if val < 0x4000 then
      (Or(Or(And(val, mask1), Shl(And(val, mask2), 1)), Shl(STOP_BIT, 8)), 2)
    else if val < 0x20_0000 then
      (Or(Or(Or(And(val, mask1), Shl(And(val, mask2), 1)), Shl(And(val, mask3), 2)), Shl(STOP_BIT, 16)), 3)
    else if val < 0x1000_0000 then
      (Or(Or(Or(Or(And(val, mask1), Shl(And(val, mask2), 1)), Shl(And(val, mask3), 2)),
             Shl(And(val, mask4), 3)), Shl(STOP_BIT, 24)), 4)
    else
      (Or(Or(Or(Or(Or(And(val, mask1), Shl(And(val, mask2), 1)), Shl(And(val, mask3), 2)),
                Shl(And(val, mask4), 3)), Shl(And(val, mask5), 4)), Shl(STOP_BIT, 32)), 5)
  }

  method SerializeVIntU32(val: U32, buf: array<U8>) returns (data: seq<U8>)
    requires buf.Length == 8
    modifies buf
    ensures data == VIntBytes(val)
    ensures buf[..] == ToLe(EncodeWord(val).0, 8) && data <= buf[..]
  {
    hide EncodeWord, VIntBytes, ToLe;
    var word := EncodeWord(val);
    var bytes := ToLe(word.0, 8);
    forall i | 0 <= i < 8 {
      buf[i] := bytes[i];
    }
    assert buf[..] == bytes;
    BranchingIsCanonical(val);
    data := buf[0..word.1];
    assert data == buf[..][..word.1];
  }

  // --- groups of seven digits ------------------------------------------------------------------

  ghost function Group(v: nat, k: nat): (g: nat)
    ensures g < 128
  {
    Shr(v, 7 * k) % 128
  }

  ghost function GroupBytes(v: nat, k: nat): (bytes: seq<U8>)
    ensures |bytes| == k
  {
    if k == 0 then [] else GroupBytes(v, k - 1) + [Group(v, k - 1)]
  }

  lemma {:induction false} SevenDigits(x: nat)
    ensures Shr(x, 7) == x / 128 && Low(x, 7) == x % 128
  {
    Pow2Literals();
    ShiftsAreDivision(x, 7);
  }

  lemma {:induction false} GroupBytesFront(v: nat, k: nat)
    ensures GroupBytes(v, k + 1) == [v % 128] + GroupBytes(v / 128, k)
  {
    hide Shr;
    if k == 0 {
      ShrNothing(v);
    } else {
      GroupBytesFront(v, k - 1);
      ShrShr(v, 7, 7 * (k - 1));
      SevenDigits(v);
    }
  }

  lemma {:induction false} ShrNothing(v: nat)
    ensures Shr(v, 0) == v
  {
  }

  // The canonical encoding lists the groups, with the stop bit on the last.
  lemma {:induction false} CanonicalGroups(v: nat, n: nat)
    requires n > 0 && |VIntBytes(v)| == n
    ensures VIntBytes(v) == GroupBytes(v, n - 1) + [Group(v, n - 1) + STOP_BIT]
  {
    hide Shr;
    VIntStep(v);
    if n == 1 {
      ShrNothing(v);
    } else {
      CanonicalGroups(v / 128, n - 1);
      GroupBytesFront(v, n - 2);
      ShrShr(v, 7, 7 * (n - 2));
      SevenDigits(v);
      assert 7 + 7 * (n - 2) == 7 * (n - 1);
    }
  }

  // --- the word is the little-endian number of those bytes ----------------------------------------

  lemma {:induction false} AndShiftedMask(v: nat, m: nat, s: nat)
    ensures And(v, Shl(m, s)) == Shl(And(Shr(v, s), m), s)
  {
    if s > 0 {
      AndShiftedMask(v / 2, m, s - 1);
    }
  }

  lemma {:induction false} MaskedGroup(v: nat, k: nat)
    ensures Shl(And(v, Shl(127, 7 * k)), k) == Shl(Group(v, k), 8 * k)
  {
    hide And, Shl, Shr, Low;
    Pow2Literals();
    AndShiftedMask(v, 127, 7 * k);
    AndMask(Shr(v, 7 * k), 7);
    SevenDigits(Shr(v, 7 * k));
    ShlShl(Group(v, k), 7 * k, k);
  }

  // The groups or-ed together so far.
  ghost function Stacked(v: nat, k: nat): (word: nat)
    requires k > 0
  {
    if k == 1 then And(v, 127) else Or(Stacked(v, k - 1), Shl(And(v, Shl(127, 7 * (k - 1))), k - 1))
  }

  lemma {:induction false} AppendByte(bytes: seq<U8>, d: U8)
    ensures Or(LeNat(bytes), Shl(d, 8 * |bytes|)) == LeNat(bytes + [d])
  {
    hide Or, LeNat, Shl;
    LeNatBound(bytes);
    OrDisjoint(LeNat(bytes), d, 8 * |bytes|);
    LeNatConcat(bytes, [d]);
    LeNatByte(d);
  }

  lemma {:induction false} LeNatByte(d: U8)
    ensures LeNat([d]) == d
  {
    assert [d][1..] == [];
  }

  lemma {:induction false} StackedIs(v: nat, k: nat)
    requires k > 0
    ensures Stacked(v, k) == LeNat(GroupBytes(v, k))
  {
    hide Or, And, Shl, LeNat, Group;
    MaskedGroup(v, k - 1);
    if k == 1 {
      MaskOfNothing(v);
      assert GroupBytes(v, 1) == [Group(v, 0)];
      LeNatByte(Group(v, 0));
    } else {
      StackedIs(v, k - 1);
      AppendByte(GroupBytes(v, k - 1), Group(v, k - 1));
    }
  }

  lemma {:induction false} MaskOfNothing(v: nat)
    ensures And(v, 127) == Group(v, 0)
  {
    hide And, Low;
    Pow2Literals();
    AndMask(v, 7);
    SevenDigits(v);
    ShrNothing(v);
  }

  lemma {:induction false} StopByte(bytes: seq<U8>, d: nat)
    requires d < 128
    ensures Or(LeNat(bytes + [d]), Shl(STOP_BIT, 8 * |bytes|)) == LeNat(bytes + [d + STOP_BIT])
  {
    hide Or, LeNat, Shl, Pow2;
    var n := 8 * |bytes|;
    Pow2Literals();
    LeNatConcat(bytes, [d]);
    LeNatConcat(bytes, [d + STOP_BIT]);
    LeNatByte(d);
    LeNatByte(d + STOP_BIT);
    LeNatBound(bytes);
    JoinBound(LeNat(bytes), d, n, 7);
    OrDisjoint(LeNat(bytes) + Shl(d, n), 1, n + 7);
    ShlShl(1, 7, n);
    ShlSeven(1);
    ShlAdd(d, STOP_BIT, n);
  }

  lemma {:induction false} WordOfGroups(v: nat, n: nat)
    requires n > 0 && n <= 8 && |VIntBytes(v)| == n
    ensures ToLe(Or(Stacked(v, n), Shl(STOP_BIT, 8 * (n - 1))), 8)[..n] == VIntBytes(v)
  {
    hide Or, Shl, Stacked, LeNat, ToLe, VIntBytes, Group;
    var word := Or(Stacked(v, n), Shl(STOP_BIT, 8 * (n - 1)));
    StackedIs(v, n);
    StopByte(GroupBytes(v, n - 1), Group(v, n - 1));
    CanonicalGroups(v, n);
    assert word == LeNat(VIntBytes(v));
    ToLeLeNat(VIntBytes(v));
    ToLePrefix(word, n, 8);
  }

  lemma {:induction false} LengthIs(v: nat, n: nat)
    requires n > 0 && v < Pow2(7 * n) && (n > 1 ==> Pow2(7 * (n - 1)) <= v)
    ensures |VIntBytes(v)| == n
  {
    hide VIntBytes, Pow2;
    VIntLength(v, n);
    VIntMinimal(v);
    var m := |VIntBytes(v)|;
    if m < n {
      Pow2Monotone(7 * m, 7 * (n - 1));
    }
  }

  lemma {:induction false} SevenBounds()
    ensures Pow2(7) == 0x80 && Pow2(14) == 0x4000 && Pow2(21) == 0x20_0000 && Pow2(28) == 0x1000_0000
    ensures Pow2(35) >= U32_BOUND
  {
    Pow2Literals();
    Pow2Seven(7);
    Pow2Seven(14);
    Pow2Seven(21);
    Pow2Seven(28);
  }

  function WordLen(val: U32): (n: nat)
    ensures 1 <= n <= 5
  {
    if val < 0x80 then 1 else if val < 0x4000 then 2 else if val < 0x20_0000 then 3
    else if val < 0x1000_0000 then 4 else 5
  }

  lemma {:induction false} EncodeWordIs(val: U32)
    ensures EncodeWord(val) == (Or(Stacked(val, WordLen(val)), Shl(STOP_BIT, 8 * (WordLen(val) - 1))), WordLen(val))
  {
    hide Or, And, Shl;
    assert Stacked(val, 1) == And(val, 127);
    assert Stacked(val, 2) == Or(Stacked(val, 1), Shl(And(val, Shl(127, 7)), 1));
    assert Stacked(val, 3) == Or(Stacked(val, 2), Shl(And(val, Shl(127, 14)), 2));
    assert Stacked(val, 4) == Or(Stacked(val, 3), Shl(And(val, Shl(127, 21)), 3));
    assert Stacked(val, 5) == Or(Stacked(val, 4), Shl(And(val, Shl(127, 28)), 4));
    if val < 0x80 {
      OneByteWord(val);
    }
  }

  lemma {:induction false} OneByteWord(val: nat)
    requires val < 0x80
    ensures And(val, 127) == val && Shl(STOP_BIT, 0) == STOP_BIT
  {
    hide And;
    Pow2Literals();
    AndMask(val, 7);
    SmallWord(val, 7);
  }

  // The branching encoder produces the canonical bytes for every u32.
  lemma {:induction false} BranchingIsCanonical(val: U32)
    ensures EncodeWord(val).1 <= 8
    ensures ToLe(EncodeWord(val).0, 8)[..EncodeWord(val).1] == VIntBytes(val)
  {
    hide EncodeWord, Stacked, VIntBytes, Or, Shl, ToLe, Pow2;
    SevenBounds();
    EncodeWordIs(val);
    LengthIs(val, WordLen(val));
    WordOfGroups(val, WordLen(val));
  }

  // --- readers ----------------------------------------------------------------------------------------

  // The payload ends within five bytes; anything else makes the reader panic.
  ghost predicate StopsWithinFive(data: seq<U8>) {
    exists i :: 0 <= i < |data| && i < 5 && data[i] >= STOP_BIT
  }

  method VintLen(data: seq<U8>) returns (n: nat)
    requires StopsWithinFive(data)
    ensures 1 <= n <= 5 && n <= |data| && data[n - 1] >= STOP_BIT
    ensures forall i :: 0 <= i < n - 1 ==> data[i] < STOP_BIT
  {
    var i := 0;
    while i < |data| && i < 5
      invariant 0 <= i <= |data| && i <= 5
      invariant forall j :: 0 <= j < i ==> data[j] < STOP_BIT
    {
      if data[i] >= STOP_BIT {
        return i + 1;
      }
      i := i + 1;
    }
    assert false;
  }

  method ReadU32VintNoAdvance(data: seq<U8>) returns (result: nat, vlen: nat)
    requires StopsWithinFive(data)
    ensures 1 <= vlen <= |data| && Decode(data, 32) == Decoded(result, data[vlen..])
  {
    hide Or, Low, Shl;
    vlen := VintLen(data);
    result := 0;
    var shift, i := 0, 0;
    while i < vlen
      invariant 0 <= i <= vlen && shift == 7 * i
      invariant i < vlen ==> Decode(data, 32) == DecodeFrom(data[i..], result, shift, 32)
      invariant i == vlen ==> Decode(data, 32) == Decoded(result, data[vlen..])
    {
      var b := data[i];
      assert data[i..][0] == b && data[i..][1..] == data[i + 1..];
      SevenMask(b);
      result := Or(result, Low(Shl(And(b, 127), shift), 32));
      shift := shift + 7;
      i := i + 1;
    }
  }

  lemma {:induction false} SevenMask(b: nat)
    ensures And(b, 127) == b % 128
  {
    Pow2Literals();
    AndMask(b, 7);
    SevenDigits(b);
  }

  method ReadU32Vint(data: seq<U8>) returns (result: nat, rest: seq<U8>)
    requires StopsWithinFive(data)
    ensures Decode(data, 32) == Decoded(result, rest)
  {
    var vlen;
    result, vlen := ReadU32VintNoAdvance(data);
    rest := data[vlen..];
  }

  lemma {:induction false} EncodedStops(v: nat, n: nat, rest: seq<U8>)
    requires |VIntBytes(v)| <= n
    ensures exists i :: 0 <= i < |VIntBytes(v) + rest| && i < n && (VIntBytes(v) + rest)[i] >= STOP_BIT
  {
    var bytes := VIntBytes(v) + rest;
    if v < 128 {
      assert bytes[0] >= STOP_BIT;
    } else {
      EncodedStops(v / 128, n - 1, rest);
      var tail := VIntBytes(v / 128) + rest;
      var i :| 0 <= i < |tail| && i < n - 1 && tail[i] >= STOP_BIT;
      assert bytes[i + 1] == tail[i];
    }
  }

  // What the branching encoder writes, the u32 reader gives back, with the rest untouched.
  lemma {:induction false} U32RoundTrip(v: U32, rest: seq<U8>)
    ensures StopsWithinFive(VIntBytes(v) + rest)
    ensures Decode(VIntBytes(v) + rest, 32) == Decoded(v, rest)
  {
    hide VIntBytes, Decode, Pow2;
    SevenBounds();
    Pow2Literals();
    VIntLength(v, 5);
    EncodedStops(v, 5, rest);
    VIntRoundTrip(v, rest, 32);
  }
}
