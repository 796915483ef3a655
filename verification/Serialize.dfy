/** Binary serialization of values built from integers, booleans, pairs and vectors.

Fixed-width integers are little-endian; floats travel as their bit patterns.  A vector is its
length as a variable-length integer followed by its items.  A byte string is encoded like a
vector of bytes.
 */
module BinarySerialization {
  import opened Bits
  import opened VInts

  // UInt(k) is an unsigned integer (or float bit pattern) of k bytes.
  datatype Ty = Unit | UInt(bytes: nat) | I64 | Bool | VInt | Pair(left: Ty, right: Ty) | Vec(item: Ty)

  datatype Val =
    | UnitV
    | Num(n: nat)
    | Signed(i: int)
    | BoolV(b: bool)
    | PairV(first: Val, second: Val)
    | VecV(items: seq<Val>)

  predicate HasType(v: Val, ty: Ty)
    decreases ty
  {
    match ty
    case Unit => v == UnitV
    case UInt(k) => v.Num? && v.n < Pow2(8 * k)
    case I64 => v.Signed? && -0x8000_0000_0000_0000 <= v.i < 0x8000_0000_0000_0000
    case Bool => v.BoolV?
    case VInt => v.Num? && v.n < U64_BOUND
    case Pair(l, r) => v.PairV? && HasType(v.first, l) && HasType(v.second, r)
    case Vec(t) => v.VecV? && |v.items| < U64_BOUND && forall i :: 0 <= i < |v.items| ==> HasType(v.items[i], t)
  }

  // Two's complement on 64 bits.
  function ToU64(i: int): (n: nat)
    requires -0x8000_0000_0000_0000 <= i < 0x8000_0000_0000_0000
    ensures n < U64_BOUND
  {
    if i < 0 then i + U64_BOUND else i
  }

  function FromU64(n: nat): (i: int)
    requires n < U64_BOUND
  {
    if n >= 0x8000_0000_0000_0000 then n - U64_BOUND else n
  }

  // --- the byte format --------------------------------------------------------------------------

  function Encode(v: Val, ty: Ty): (bytes: seq<U8>)
    requires HasType(v, ty)
    decreases ty, 0
  {
    match ty
    case Unit => []
    case UInt(k) => ToLe(v.n, k)
    case I64 => ToLe(ToU64(v.i), 8)
    case Bool => [if v.b then 1 else 0]
    case VInt => VIntBytes(v.n)
    case Pair(l, r) => Encode(v.first, l) + Encode(v.second, r)
    case Vec(t) => VIntBytes(|v.items|) + EncodeAll(v.items, t)
  }

  function EncodeAll(items: seq<Val>, ty: Ty): (bytes: seq<U8>)
    requires forall i :: 0 <= i < |items| ==> HasType(items[i], ty)
    decreases ty, 1, |items|
  {
    if |items| == 0 then [] else Encode(items[0], ty) + EncodeAll(items[1..], ty)
  }

  datatype Error = UnexpectedEof | InvalidData

  datatype Result<+T> = Ok(value: T, rest: seq<U8>) | Err(error: Error)

  function Decode(ty: Ty, bytes: seq<U8>): (r: Result<Val>)
    decreases ty, 0
  {
    match ty
    case Unit => Ok(UnitV, bytes)
    case UInt(k) => if |bytes| < k then Err(UnexpectedEof) else Ok(Num(LeNat(bytes[..k])), bytes[k..])
    case I64 =>
      if |bytes| < 8 then Err(UnexpectedEof)
      else
        LeNatBound(bytes[..8]);
        Pow2Literals();
        Ok(Signed(FromU64(LeNat(bytes[..8]))), bytes[8..])
    case Bool =>
      if |bytes| < 1 then Err(UnexpectedEof)
      else if bytes[0] == 0 then Ok(BoolV(false), bytes[1..])
      else if bytes[0] == 1 then Ok(BoolV(true), bytes[1..])
      else Err(InvalidData)
    case VInt =>
      var n := VInts.Decode(bytes, 64);
      if n.Decoded? then Ok(Num(n.value), n.rest) else Err(InvalidData)
    case Pair(lt, rt) =>
      var l := Decode(lt, bytes);
      if l.Err? then Err(l.error)
      else
        var r := Decode(rt, l.rest);
        if r.Err? then Err(r.error) else Ok(PairV(l.value, r.value), r.rest)
    case Vec(t) =>
      var n := VInts.Decode(bytes, 64);
      if !n.Decoded? then Err(InvalidData)
      else
        var items := DecodeAll(t, n.value, n.rest);
        if items.Err? then Err(items.error) else Ok(VecV(items.value), items.rest)
  }

  function DecodeAll(ty: Ty, n: nat, bytes: seq<U8>): (r: Result<seq<Val>>)
    decreases ty, 1, n
  {
    if n == 0 then Ok([], bytes)
    else
      var item := Decode(ty, bytes);
      if item.Err? then Err(item.error)
      else
        var more := DecodeAll(ty, n - 1, item.rest);
        if more.Err? then Err(more.error) else Ok([item.value] + more.value, more.rest)
  }

  // --- round trip -------------------------------------------------------------------------------

  lemma {:induction false} Reassociate(a: seq<U8>, b: seq<U8>, c: seq<U8>)
    ensures (a + b) + c == a + (b + c)
  {
  }

  lemma {:induction false} FixedRoundTrip(n: nat, k: nat, rest: seq<U8>)
    requires n < Pow2(8 * k)
    ensures var bytes := ToLe(n, k) + rest; LeNat(bytes[..k]) == n && bytes[k..] == rest
  {
    hide LeNat, ToLe, Low;
    assert (ToLe(n, k) + rest)[..k] == ToLe(n, k);
    LeNatToLe(n, k);
    SmallWord(n, 8 * k);
  }

  lemma {:induction false} ScalarRoundTrip(v: Val, ty: Ty, rest: seq<U8>)
    requires HasType(v, ty) && !ty.Pair? && !ty.Vec?
    ensures Decode(ty, Encode(v, ty) + rest) == Ok(v, rest)
  {
    hide LeNat, ToLe, VIntBytes, VInts.Decode, Pow2;
    Pow2Literals();
    match ty
    case Unit => assert [] + rest == rest;
    case UInt(k) => FixedRoundTrip(v.n, k, rest);
    case I64 => FixedRoundTrip(ToU64(v.i), 8, rest);
    case Bool => assert ([if v.b then 1 else 0] + rest)[1..] == rest;
    case VInt => VIntRoundTrip(v.n, rest, 64);
  }

  // Decoding a vector whose length and items decode.
  lemma {:induction false} DecodeVec(t: Ty, n: nat, bytes: seq<U8>, items: seq<Val>, rest: seq<U8>)
    requires n < U64_BOUND && DecodeAll(t, n, bytes) == Ok(items, rest)
    ensures Decode(Vec(t), VIntBytes(n) + bytes) == Ok(VecV(items), rest)
  {
    hide VIntBytes, VInts.Decode, DecodeAll, Pow2;
    Pow2Literals();
    VIntRoundTrip(n, bytes, 64);
  }

  // Every well-typed value deserializes back, and the bytes after it are untouched.
  lemma {:induction false} RoundTrip(v: Val, ty: Ty, rest: seq<U8>)
    requires HasType(v, ty)
    ensures Decode(ty, Encode(v, ty) + rest) == Ok(v, rest)
    decreases ty, 0
  {
    hide VIntBytes, DecodeAll, EncodeAll;
    match ty
    case Pair(l, r) =>
      Reassociate(Encode(v.first, l), Encode(v.second, r), rest);
      RoundTrip(v.first, l, Encode(v.second, r) + rest);
      RoundTrip(v.second, r, rest);
    case Vec(t) =>
      Reassociate(VIntBytes(|v.items|), EncodeAll(v.items, t), rest);
      RoundTripAll(v.items, t, rest);
      DecodeVec(t, |v.items|, EncodeAll(v.items, t) + rest, v.items, rest);
    case _ =>
      ScalarRoundTrip(v, ty, rest);
  }

  lemma {:induction false} RoundTripAll(items: seq<Val>, ty: Ty, rest: seq<U8>)
    requires forall i :: 0 <= i < |items| ==> HasType(items[i], ty)
    ensures DecodeAll(ty, |items|, EncodeAll(items, ty) + rest) == Ok(items, rest)
    decreases ty, 1, |items|
  {
    hide Encode, Decode, HasType;
    if |items| > 0 {
      Reassociate(Encode(items[0], ty), EncodeAll(items[1..], ty), rest);
      RoundTrip(items[0], ty, EncodeAll(items[1..], ty) + rest);
      RoundTripAll(items[1..], ty, rest);
      assert items == [items[0]] + items[1..];
    }
  }

  // The format is self-delimiting: a stream has one reading.
  lemma {:induction false} Unambiguous(v: Val, w: Val, ty: Ty, r: seq<U8>, s: seq<U8>)
    requires HasType(v, ty) && HasType(w, ty) && Encode(v, ty) + r == Encode(w, ty) + s
    ensures v == w && r == s
  {
    hide Encode, Decode;
    RoundTrip(v, ty, r);
    RoundTrip(w, ty, s);
  }

  // --- what the bytes are ---------------------------------------------------------------------------

  // Integers are little-endian, on two's complement when signed, or in seven-digit groups; true
  // is 1, and a vector starts with its length.
  lemma {:induction false} ScalarBytes(v: Val, ty: Ty)
    requires HasType(v, ty)
    ensures ty.UInt? ==> |Encode(v, ty)| == ty.bytes && LeNat(Encode(v, ty)) == v.n
    ensures ty.I64? ==>
              |Encode(v, ty)| == 8 && LeNat(Encode(v, ty)) == if v.i < 0 then v.i + U64_BOUND else v.i
    ensures ty.Bool? ==> Encode(v, ty) == (if v == BoolV(true) then [1] else [0])
    ensures ty.VInt? ==> IsPayload(Encode(v, ty), |Encode(v, ty)|) && GroupSum(Encode(v, ty)) == v.n
    ensures ty.Vec? ==>
              exists n :: && 0 <= n <= |Encode(v, ty)| && IsPayload(Encode(v, ty)[..n], n)
                          && GroupSum(Encode(v, ty)[..n]) == |v.items|
                          && Encode(v, ty)[n..] == EncodeAll(v.items, ty.item)
  {
    hide LeNat, ToLe, VIntBytes, Pow2, IsPayload, EncodeAll;
    Pow2Literals();
    match ty
    case UInt(k) => LeNatOfWord(v.n, k);
    case I64 => LeNatOfWord(ToU64(v.i), 8);
    case VInt => EncodingIsPayload(v.n);
    case Vec(t) =>
      var length := VIntBytes(|v.items|);
      EncodingIsPayload(|v.items|);
      assert Encode(v, ty)[..|length|] == length && Encode(v, ty)[|length|..] == EncodeAll(v.items, t);
    case _ =>
  }

  ghost predicate AllHaveType(items: seq<Val>, ty: Ty) {
    forall i :: 0 <= i < |items| ==> HasType(items[i], ty)
  }

  lemma {:induction false} FirstItem(item: Val, items: seq<Val>, ty: Ty)
    requires HasType(item, ty) && AllHaveType(items, ty)
    ensures AllHaveType([item] + items, ty)
    ensures EncodeAll([item] + items, ty) == Encode(item, ty) + EncodeAll(items, ty)
  {
    hide Encode, HasType;
    assert ([item] + items)[1..] == items;
  }

  lemma {:induction false} NoItems(ty: Ty)
    ensures EncodeAll([], ty) == []
  {
  }

  lemma {:induction false} TailHasType(items: seq<Val>, ty: Ty)
    requires AllHaveType(items, ty) && |items| > 0
    ensures HasType(items[0], ty) && AllHaveType(items[1..], ty)
  {
    hide HasType;
  }

  // Items follow each other in order.
  lemma {:induction false} ItemsInOrder(a: seq<Val>, b: seq<Val>, ty: Ty)
    requires AllHaveType(a, ty) && AllHaveType(b, ty)
    ensures AllHaveType(a + b, ty) && EncodeAll(a + b, ty) == EncodeAll(a, ty) + EncodeAll(b, ty)
  {
    hide Encode, EncodeAll, HasType;
    if |a| == 0 {
      NoItems(ty);
      assert a == [] && a + b == b;
      assert [] + EncodeAll(b, ty) == EncodeAll(b, ty);
    } else {
      var x, xs := a[0], a[1..];
      TailHasType(a, ty);
      ItemsInOrder(xs, b, ty);
      assert a == [x] + xs && a + b == [x] + (xs + b);
      FirstItem(x, xs, ty);
      FirstItem(x, xs + b, ty);
      Reassociate(Encode(x, ty), EncodeAll(xs, ty), EncodeAll(b, ty));
    }
  }

  // --- every stream, encoded or not ------------------------------------------------------------------

  // What is left is a suffix of the stream.
  ghost predicate Leaves(rest: seq<U8>, bytes: seq<U8>) {
    |rest| <= |bytes| && rest == bytes[|bytes| - |rest|..]
  }

  lemma {:induction false} LeavesOn(a: seq<U8>, b: seq<U8>, bytes: seq<U8>)
    requires Leaves(a, bytes) && Leaves(b, a)
    ensures Leaves(b, bytes)
  {
    assert bytes[|bytes| - |a|..][|a| - |b|..] == bytes[|bytes| - |b|..];
  }

  lemma {:induction false} VIntSound(bytes: seq<U8>)
    ensures var n := VInts.Decode(bytes, 64);
            n.Decoded? ==> Leaves(n.rest, bytes) && n.value < U64_BOUND && |VIntBytes(n.value)| <= |bytes| - |n.rest|
  {
    hide VIntBytes, VInts.DecodeFrom, Pow2;
    Pow2Literals();
    DecodeExact(bytes, 64);
    ZeroBelow(0);
    DecodedBound(bytes, 0, 0, 64);
    var n := VInts.Decode(bytes, 64);
    if n.Decoded? {
      VIntLength(n.value, |bytes| - |n.rest|);
    }
  }

  // Whatever decodes is a value of the type, read off the front of the stream, and its
  // encoding is no longer than what was read.
  lemma {:induction false} DecodeSound(ty: Ty, bytes: seq<U8>)
    requires Decode(ty, bytes).Ok?
    ensures var r := Decode(ty, bytes);
            Leaves(r.rest, bytes) && HasType(r.value, ty) && |Encode(r.value, ty)| <= |bytes| - |r.rest|
    decreases ty, 0
  {
    hide LeNat, ToLe, VIntBytes, VInts.Decode, Pow2, DecodeAll, EncodeAll;
    Pow2Literals();
    match ty
    case Unit =>
    case UInt(k) => LeNatBound(bytes[..k]);
    case I64 => LeNatBound(bytes[..8]);
    case Bool =>
    case VInt => VIntSound(bytes);
    case Pair(lt, rt) =>
      var l := Decode(lt, bytes);
      DecodeSound(lt, bytes);
      DecodeSound(rt, l.rest);
      LeavesOn(l.rest, Decode(rt, l.rest).rest, bytes);
    case Vec(t) =>
      var n := VInts.Decode(bytes, 64);
      VIntSound(bytes);
      DecodeAllSound(t, n.value, n.rest);
      LeavesOn(n.rest, DecodeAll(t, n.value, n.rest).rest, bytes);
  }

  lemma {:induction false} DecodeAllSound(ty: Ty, n: nat, bytes: seq<U8>)
    requires DecodeAll(ty, n, bytes).Ok?
    ensures var r := DecodeAll(ty, n, bytes);
            && Leaves(r.rest, bytes) && |r.value| == n
            && (forall i :: 0 <= i < n ==> HasType(r.value[i], ty))
            && |EncodeAll(r.value, ty)| <= |bytes| - |r.rest|
    decreases ty, 1, n
  {
    hide Decode, Encode, HasType;
    if n > 0 {
      var item := Decode(ty, bytes);
      DecodeSound(ty, bytes);
      DecodeAllSound(ty, n - 1, item.rest);
      var more := DecodeAll(ty, n - 1, item.rest);
      LeavesOn(item.rest, more.rest, bytes);
      assert ([item.value] + more.value)[1..] == more.value;
    }
  }

  // Where the first part of what was read ends.
  lemma {:induction false} SplitUsed(used: seq<U8>, rest: seq<U8>, mid: seq<U8>) returns (a: seq<U8>, b: seq<U8>)
    requires Leaves(mid, used + rest) && |rest| <= |mid|
    ensures used == a + b && mid == b + rest
  {
    var n := |used| + |rest| - |mid|;
    a, b := used[..n], used[n..];
    assert (used + rest)[n..] == used[n..] + rest;
  }

  lemma {:induction false} PairIs(lt: Ty, rt: Ty, bytes: seq<U8>, l: Val, mid: seq<U8>, r: Val, rest: seq<U8>)
    requires Decode(lt, bytes) == Ok(l, mid) && Decode(rt, mid) == Ok(r, rest)
    ensures Decode(Pair(lt, rt), bytes) == Ok(PairV(l, r), rest)
  {
  }

  lemma {:induction false} PairSplit(lt: Ty, rt: Ty, bytes: seq<U8>, v: Val, rest: seq<U8>)
    returns (l: Val, mid: seq<U8>, r: Val)
    requires Decode(Pair(lt, rt), bytes) == Ok(v, rest)
    ensures Decode(lt, bytes) == Ok(l, mid) && Decode(rt, mid) == Ok(r, rest) && v == PairV(l, r)
  {
    var first := Decode(lt, bytes);
    l, mid, r := first.value, first.rest, Decode(rt, first.rest).value;
  }

  lemma {:induction false} VecSplit(t: Ty, bytes: seq<U8>, v: Val, rest: seq<U8>)
    returns (n: nat, mid: seq<U8>, items: seq<Val>)
    requires Decode(Vec(t), bytes) == Ok(v, rest)
    ensures VInts.Decode(bytes, 64) == Decoded(n, mid) && DecodeAll(t, n, mid) == Ok(items, rest) && v == VecV(items)
  {
    hide VInts.Decode, DecodeAll;
    var length := VInts.Decode(bytes, 64);
    n, mid, items := length.value, length.rest, DecodeAll(t, length.value, length.rest).value;
  }

  lemma {:induction false} VecIs(t: Ty, bytes: seq<U8>, n: nat, mid: seq<U8>, items: seq<Val>, rest: seq<U8>)
    requires VInts.Decode(bytes, 64) == Decoded(n, mid) && DecodeAll(t, n, mid) == Ok(items, rest)
    ensures Decode(Vec(t), bytes) == Ok(VecV(items), rest)
  {
    hide VInts.Decode, DecodeAll;
  }

  lemma {:induction false} VIntLocal(used: seq<U8>, rest: seq<U8>, tail: seq<U8>, n: nat)
    requires VInts.Decode(used + rest, 64) == Decoded(n, rest)
    ensures VInts.Decode(used + tail, 64) == Decoded(n, tail)
  {
    hide VInts.DecodeFrom, Pow2, Low, GroupSum;
    DecodeExact(used + rest, 64);
    assert (used + rest)[..|used|] == used == (used + tail)[..|used|];
    assert (used + tail)[|used|..] == tail;
    DecodesLocally(used + rest, used + tail, |used|, 0, 0, 64);
  }

  lemma {:induction false} ScalarLocal(ty: Ty, used: seq<U8>, rest: seq<U8>, tail: seq<U8>, v: Val)
    requires !ty.Pair? && !ty.Vec? && Decode(ty, used + rest) == Ok(v, rest)
    ensures Decode(ty, used + tail) == Ok(v, tail)
  {
    hide LeNat, VInts.Decode, Pow2;
    if ty.VInt? {
      VIntLocal(used, rest, tail, v.n);
    } else {
      assert (used + rest)[..|used|] == used == (used + tail)[..|used|];
      assert (used + tail)[|used|..] == tail;
    }
  }

  // The bytes that were read decide the value, whatever follows them.
  lemma {:induction false} DecodeLocal(ty: Ty, used: seq<U8>, rest: seq<U8>, tail: seq<U8>, v: Val)
    requires Decode(ty, used + rest) == Ok(v, rest)
    ensures Decode(ty, used + tail) == Ok(v, tail)
    decreases ty, 0
  {
    hide *;
    match ty
    case Pair(lt, rt) =>
      var l, mid, r := PairSplit(lt, rt, used + rest, v, rest);
      DecodeSound(lt, used + rest);
      DecodeSound(rt, mid);
      LeavesLess(rest, mid);
      var a, b := SplitUsed(used, rest, mid);
      Reassociate(a, b, rest);
      Reassociate(a, b, tail);
      DecodeLocal(lt, a, b + rest, b + tail, l);
      DecodeLocal(rt, b, rest, tail, r);
      PairIs(lt, rt, used + tail, l, b + tail, r, tail);
    case Vec(t) =>
      var n, mid, items := VecSplit(t, used + rest, v, rest);
      VIntSound(used + rest);
      DecodeAllSound(t, n, mid);
      LeavesLess(rest, mid);
      var a, b := SplitUsed(used, rest, mid);
      Reassociate(a, b, rest);
      Reassociate(a, b, tail);
      VIntLocal(a, b + rest, b + tail, n);
      DecodeAllLocal(t, n, b, rest, tail, items);
      VecIs(t, used + tail, n, b + tail, items, tail);
    case _ =>
      ScalarLocal(ty, used, rest, tail, v);
  }

  lemma {:induction false} LeavesLess(rest: seq<U8>, bytes: seq<U8>)
    requires Leaves(rest, bytes)
    ensures |rest| <= |bytes|
  {
  }

  lemma {:induction false} AllIs(ty: Ty, n: nat, bytes: seq<U8>, v: Val, mid: seq<U8>, vs: seq<Val>, rest: seq<U8>)
    requires n > 0 && Decode(ty, bytes) == Ok(v, mid) && DecodeAll(ty, n - 1, mid) == Ok(vs, rest)
    ensures DecodeAll(ty, n, bytes) == Ok([v] + vs, rest)
  {
    hide Decode;
  }

  lemma {:induction false} AllSplit(ty: Ty, n: nat, bytes: seq<U8>, vs: seq<Val>, rest: seq<U8>)
    returns (v: Val, mid: seq<U8>, more: seq<Val>)
    requires n > 0 && DecodeAll(ty, n, bytes) == Ok(vs, rest)
    ensures Decode(ty, bytes) == Ok(v, mid) && DecodeAll(ty, n - 1, mid) == Ok(more, rest) && vs == [v] + more
  {
    hide Decode;
    var item := Decode(ty, bytes);
    v, mid, more := item.value, item.rest, DecodeAll(ty, n - 1, item.rest).value;
  }

  lemma {:induction false} NoneLocal(ty: Ty, used: seq<U8>, rest: seq<U8>, tail: seq<U8>, vs: seq<Val>)
    requires DecodeAll(ty, 0, used + rest) == Ok(vs, rest)
    ensures DecodeAll(ty, 0, used + tail) == Ok(vs, tail)
  {
    hide Decode;
    assert DecodeAll(ty, 0, used + rest) == Ok([], used + rest);
    assert |used + rest| == |rest|;
    assert used == [] && [] + tail == tail;
  }

  lemma {:induction false} DecodeAllLocal(ty: Ty, n: nat, used: seq<U8>, rest: seq<U8>, tail: seq<U8>, vs: seq<Val>)
    requires DecodeAll(ty, n, used + rest) == Ok(vs, rest)
    ensures DecodeAll(ty, n, used + tail) == Ok(vs, tail)
    decreases ty, 1, n
  {
    hide *;
    if n == 0 {
      NoneLocal(ty, used, rest, tail, vs);
    } else {
      var v, mid, more := AllSplit(ty, n, used + rest, vs, rest);
      DecodeSound(ty, used + rest);
      DecodeAllSound(ty, n - 1, mid);
      LeavesLess(rest, mid);
      var a, b := SplitUsed(used, rest, mid);
      Reassociate(a, b, rest);
      Reassociate(a, b, tail);
      DecodeLocal(ty, a, b + rest, b + tail, v);
      DecodeAllLocal(ty, n - 1, b, rest, tail, more);
      AllIs(ty, n, used + tail, v, b + tail, more, tail);
    }
  }

  // --- types of one size ------------------------------------------------------------------------------

  predicate Fixed(ty: Ty) {
    match ty
    case VInt => false
    case Vec(_) => false
    case Pair(l, r) => Fixed(l) && Fixed(r)
    case _ => true
  }

  function SizeInBytes(ty: Ty): (n: nat)
    requires Fixed(ty)
  {
    match ty
    case Unit => 0
    case UInt(k) => k
    case I64 => 8
    case Bool => 1
    case Pair(l, r) => SizeInBytes(l) + SizeInBytes(r)
  }

  // Byte p holds a boolean.
  predicate BoolAt(ty: Ty, p: int)
    requires Fixed(ty)
  {
    match ty
    case Bool => p == 0
    case Pair(l, r) => BoolAt(l, p) || BoolAt(r, p - SizeInBytes(l))
    case _ => false
  }

  // Byte p of the stream is a corrupt boolean.
  ghost predicate CorruptAt(ty: Ty, bytes: seq<U8>, p: int)
    requires Fixed(ty)
  {
    0 <= p < |bytes| && BoolAt(ty, p) && bytes[p] > 1
  }

  // A boolean that was read is neither 0 nor 1.
  ghost predicate Corrupt(ty: Ty, bytes: seq<U8>)
    requires Fixed(ty)
  {
    exists p :: CorruptAt(ty, bytes, p)
  }

  lemma {:induction false} BoolInside(ty: Ty, p: int)
    requires Fixed(ty) && BoolAt(ty, p)
    ensures 0 <= p < SizeInBytes(ty)
  {
    if ty.Pair? {
      if BoolAt(ty.left, p) {
        BoolInside(ty.left, p);
      } else {
        BoolInside(ty.right, p - SizeInBytes(ty.left));
      }
    }
  }

  lemma {:induction false} CorruptPairAt(lt: Ty, rt: Ty, bytes: seq<U8>, p: int)
    requires Fixed(Pair(lt, rt))
    ensures var n := SizeInBytes(lt);
            CorruptAt(Pair(lt, rt), bytes, p) <==>
              CorruptAt(lt, bytes, p) || (n <= |bytes| && CorruptAt(rt, bytes[n..], p - n))
  {
    if BoolAt(rt, p - SizeInBytes(lt)) {
      BoolInside(rt, p - SizeInBytes(lt));
    }
  }

  lemma {:induction false} CorruptPair(lt: Ty, rt: Ty, bytes: seq<U8>)
    requires Fixed(Pair(lt, rt))
    ensures var n := SizeInBytes(lt);
            Corrupt(Pair(lt, rt), bytes) <==>
              Corrupt(lt, bytes) || (n <= |bytes| && Corrupt(rt, bytes[n..]))
  {
    hide CorruptAt;
    var n := SizeInBytes(lt);
    if p :| CorruptAt(Pair(lt, rt), bytes, p) {
      CorruptPairAt(lt, rt, bytes, p);
    }
    if p :| CorruptAt(lt, bytes, p) {
      CorruptPairAt(lt, rt, bytes, p);
    }
    if n <= |bytes| {
      if p :| CorruptAt(rt, bytes[n..], p) {
        CorruptPairAt(lt, rt, bytes, p + n);
        assert p + n - n == p;
      }
    }
  }

  lemma {:induction false} ScalarDecodeExact(ty: Ty, bytes: seq<U8>)
    requires Fixed(ty) && !ty.Pair?
    ensures var r := Decode(ty, bytes);
            if Corrupt(ty, bytes) then r == Err(InvalidData)
            else if |bytes| < SizeInBytes(ty) then r == Err(UnexpectedEof)
            else r.Ok? && HasType(r.value, ty) && bytes == Encode(r.value, ty) + r.rest
    ensures Decode(ty, bytes).Ok? ==>
              SizeInBytes(ty) <= |bytes| && Decode(ty, bytes).rest == bytes[SizeInBytes(ty)..]
  {
    hide LeNat, ToLe, Pow2;
    Pow2Literals();
    match ty
    case Unit =>
    case UInt(k) =>
      if k <= |bytes| {
        LeNatBound(bytes[..k]);
        ToLeLeNat(bytes[..k]);
        assert bytes == bytes[..k] + bytes[k..];
      }
    case I64 =>
      if 8 <= |bytes| {
        LeNatBound(bytes[..8]);
        ToLeLeNat(bytes[..8]);
        assert bytes == bytes[..8] + bytes[8..];
      }
    case Bool =>
      if |bytes| > 0 {
        assert CorruptAt(ty, bytes, 0) <==> bytes[0] > 1;
        assert bytes == [bytes[0]] + bytes[1..];
      }
  }

  // Every stream: a corrupt boolean is invalid data, otherwise a short stream is an unexpected
  // end, otherwise the value is the one whose encoding begins the stream.
  lemma {:induction false} FixedDecodeExact(ty: Ty, bytes: seq<U8>)
    requires Fixed(ty)
    ensures var r := Decode(ty, bytes);
            if Corrupt(ty, bytes) then r == Err(InvalidData)
            else if |bytes| < SizeInBytes(ty) then r == Err(UnexpectedEof)
            else r.Ok? && HasType(r.value, ty) && bytes == Encode(r.value, ty) + r.rest
    ensures Decode(ty, bytes).Ok? ==>
              SizeInBytes(ty) <= |bytes| && Decode(ty, bytes).rest == bytes[SizeInBytes(ty)..]
  {
    if !ty.Pair? {
      ScalarDecodeExact(ty, bytes);
    } else {
      hide Corrupt;
      var lt, rt := ty.left, ty.right;
      CorruptPair(lt, rt, bytes);
      FixedDecodeExact(lt, bytes);
      var l := Decode(lt, bytes);
      if l.Ok? {
        FixedDecodeExact(rt, l.rest);
        var r := Decode(rt, l.rest);
        if r.Ok? {
          Reassociate(Encode(l.value, lt), Encode(r.value, rt), r.rest);
        }
      }
    }
  }

  // --- encodings cut short ---------------------------------------------------------------------------

  // The error when an encoding is cut after k bytes: invalid data inside a variable-length
  // integer, an unexpected end elsewhere.
  function CutError(v: Val, ty: Ty, k: nat): (e: Error)
    requires HasType(v, ty) && k < |Encode(v, ty)|
    decreases ty, 0
  {
    match ty
    case VInt => InvalidData
    case Pair(l, r) =>
      var n := |Encode(v.first, l)|;
      if k < n then CutError(v.first, l, k) else CutError(v.second, r, k - n)
    case Vec(t) =>
      var n := |VIntBytes(|v.items|)|;
      if k < n then InvalidData else CutErrorAll(v.items, t, k - n)
    case _ => UnexpectedEof
  }

  function CutErrorAll(items: seq<Val>, ty: Ty, k: nat): (e: Error)
    requires forall i :: 0 <= i < |items| ==> HasType(items[i], ty)
    requires k < |EncodeAll(items, ty)|
    decreases ty, 1, |items|
  {
    var n := |Encode(items[0], ty)|;
    if k < n then CutError(items[0], ty, k) else CutErrorAll(items[1..], ty, k - n)
  }

  lemma {:induction false} CutConcat(a: seq<U8>, b: seq<U8>, k: nat)
    requires k <= |a + b|
    ensures (a + b)[..k] == if k < |a| then a[..k] else a + b[..k - |a|]
  {
  }

  lemma {:induction false} VIntCut(n: nat, k: nat)
    requires k < |VIntBytes(n)|
    ensures VInts.Decode(VIntBytes(n)[..k], 64) == EndOfBuffer
  {
    hide VIntBytes, VInts.Decode, Low, GroupSum, Pow2;
    EncodingIsPayload(n);
    DecodeExact(VIntBytes(n)[..k], 64);
  }

  // No proper beginning of an encoding decodes.
  lemma {:induction false} CutFails(v: Val, ty: Ty, k: nat)
    requires HasType(v, ty) && k < |Encode(v, ty)|
    ensures Decode(ty, Encode(v, ty)[..k]) == Err(CutError(v, ty, k))
    decreases ty, 0
  {
    hide VIntBytes, VInts.Decode, DecodeAll, EncodeAll, LeNat, ToLe, CutErrorAll;
    match ty
    case UInt(_) =>
    case I64 =>
    case Bool =>
    case VInt => VIntCut(v.n, k);
    case Pair(l, r) =>
      var a, b := Encode(v.first, l), Encode(v.second, r);
      CutConcat(a, b, k);
      if k < |a| {
        CutFails(v.first, l, k);
      } else {
        RoundTrip(v.first, l, b[..k - |a|]);
        CutFails(v.second, r, k - |a|);
      }
    case Vec(t) =>
      var a, b := VIntBytes(|v.items|), EncodeAll(v.items, t);
      CutConcat(a, b, k);
      if k < |a| {
        VIntCut(|v.items|, k);
      } else {
        Pow2Literals();
        VIntRoundTrip(|v.items|, b[..k - |a|], 64);
        CutFailsAll(v.items, t, k - |a|);
      }
  }

  lemma {:induction false} CutFailsAll(items: seq<Val>, ty: Ty, k: nat)
    requires forall i :: 0 <= i < |items| ==> HasType(items[i], ty)
    requires k < |EncodeAll(items, ty)|
    ensures DecodeAll(ty, |items|, EncodeAll(items, ty)[..k]) == Err(CutErrorAll(items, ty, k))
    decreases ty, 1, |items|
  {
    hide Encode, Decode, HasType, CutError;
    var a, b := Encode(items[0], ty), EncodeAll(items[1..], ty);
    CutConcat(a, b, k);
    if k < |a| {
      CutFails(items[0], ty, k);
    } else {
      RoundTrip(items[0], ty, b[..k - |a|]);
      CutFailsAll(items[1..], ty, k - |a|);
    }
  }

  // --- writers and readers ---------------------------------------------------------------------------

  class Writer {
    var bytes: seq<U8>
    var count: nat  // what a counting writer keeps instead of the bytes

    constructor ()
      ensures bytes == [] && count == 0
    {
      bytes := [];
      count := 0;
    }

    method WriteAll(buf: seq<U8>)
      modifies this
      ensures bytes == old(bytes) + buf && count == old(count) + |buf|
    {
      bytes := bytes + buf;
      count := count + |buf|;
    }
  }

  // Through the ten-byte buffer.
  method WriteVInt(n: U64, w: Writer)
    modifies w
    ensures w.bytes == old(w.bytes) + VIntBytes(n) && w.count == old(w.count) + |VIntBytes(n)|
  {
    hide VIntBytes;
    var buffer := new U8[10](_ => 0);
    var numBytes := VInts.SerializeInto(n, buffer);
    w.WriteAll(buffer[..numBytes]);
  }

  // Serializing appends the encoding, and a counting writer advances by its length.
  method Serialize(v: Val, ty: Ty, w: Writer)
    requires HasType(v, ty)
    modifies w
    ensures w.bytes == old(w.bytes) + Encode(v, ty)
    ensures w.count == old(w.count) + |Encode(v, ty)|
    decreases ty, 0
  {
    hide ToLe, VIntBytes;
    match ty {
      case Unit =>
      case UInt(k) =>
        w.WriteAll(ToLe(v.n, k));
      case I64 =>
        w.WriteAll(ToLe(ToU64(v.i), 8));
      case Bool =>
        w.WriteAll([if v.b then 1 else 0]);
      case VInt =>
        WriteVInt(v.n, w);
      case Pair(l, r) =>
        Serialize(v.first, l, w);
        Serialize(v.second, r, w);
      case Vec(t) =>
        WriteVInt(|v.items|, w);
        SerializeItems(v.items, t, w);
    }
  }

  method SerializeItems(items: seq<Val>, ty: Ty, w: Writer)
    requires forall i :: 0 <= i < |items| ==> HasType(items[i], ty)
    modifies w
    ensures w.bytes == old(w.bytes) + EncodeAll(items, ty)
    ensures w.count == old(w.count) + |EncodeAll(items, ty)|
    decreases ty, 1
  {
    hide Encode, HasType;
    var i := 0;
    while i < |items|
      invariant 0 <= i <= |items|
      invariant w.bytes + EncodeAll(items[i..], ty) == old(w.bytes) + EncodeAll(items, ty)
      invariant w.count + |EncodeAll(items[i..], ty)| == old(w.count) + |EncodeAll(items, ty)|
    {
      assert items[i..][1..] == items[i + 1..];
      Serialize(items[i], ty, w);
      i := i + 1;
    }
  }

  // The number of bytes, computed by serializing into a counting writer.
  method NumBytes(v: Val, ty: Ty) returns (n: nat)
    requires HasType(v, ty)
    ensures n == |Encode(v, ty)|
  {
    var counter := new Writer();
    Serialize(v, ty, counter);
    n := counter.count;
  }

  class Reader {
    var remaining: seq<U8>

    constructor (bytes: seq<U8>)
      ensures remaining == bytes
    {
      remaining := bytes;
    }
  }

  datatype Outcome<T> = Value(v: T) | Failed(error: Error)

  ghost predicate Agrees<T>(r: Result<T>, o: Outcome<T>, left: seq<U8>) {
    match o
    case Value(v) => r == Ok(v, left)
    case Failed(e) => r == Err(e)
  }

  method ReadVInt(r: Reader) returns (o: Outcome<nat>)
    modifies r
    ensures match o
            case Value(n) => VInts.Decode(old(r.remaining), 64) == Decoded(n, r.remaining)
            case Failed(e) => VInts.Decode(old(r.remaining), 64).EndOfBuffer? && e == InvalidData
  {
    var d := VInts.Deserialize(r.remaining, 64);
    if d.Decoded? {
      r.remaining := d.rest;
      o := Value(d.value);
    } else {
      o := Failed(InvalidData);
    }
  }

  // Deserializing consumes exactly the bytes of one value, or fails as the format says.
  method Deserialize(ty: Ty, r: Reader) returns (o: Outcome<Val>)
    modifies r
    ensures Agrees(Decode(ty, old(r.remaining)), o, r.remaining)
    decreases ty, 0
  {
    hide VInts.Decode, LeNat;
    match ty {
      case Unit =>
        return Value(UnitV);
      case UInt(k) =>
        if |r.remaining| < k {
          return Failed(UnexpectedEof);
        }
        o := Value(Num(LeNat(r.remaining[..k])));
        r.remaining := r.remaining[k..];
      case I64 =>
        if |r.remaining| < 8 {
          return Failed(UnexpectedEof);
        }
        LeNatBound(r.remaining[..8]);
        Pow2Literals();
        o := Value(Signed(FromU64(LeNat(r.remaining[..8]))));
        r.remaining := r.remaining[8..];
      case Bool =>
        if |r.remaining| < 1 {
          return Failed(UnexpectedEof);
        }
        var b := r.remaining[0];
        r.remaining := r.remaining[1..];
        if b > 1 {
          return Failed(InvalidData);
        }
        o := Value(BoolV(b == 1));
      case VInt =>
        var n := ReadVInt(r);
        match n {
          case Value(v) => o := Value(Num(v));
          case Failed(e) => o := Failed(e);
        }
      case Pair(lt, rt) =>
        var first := Deserialize(lt, r);
        if first.Failed? {
          return Failed(first.error);
        }
        var second := Deserialize(rt, r);
        match second {
          case Value(v) => o := Value(PairV(first.v, v));
          case Failed(e) => o := Failed(e);
        }
      case Vec(t) =>
        var n := ReadVInt(r);
        if n.Failed? {
          return Failed(n.error);
        }
        var items := DeserializeItems(t, n.v, r);
        match items {
          case Value(vs) => o := Value(VecV(vs));
          case Failed(e) => o := Failed(e);
        }
    }
  }

  method DeserializeItems(ty: Ty, n: nat, r: Reader) returns (o: Outcome<seq<Val>>)
    modifies r
    ensures Agrees(DecodeAll(ty, n, old(r.remaining)), o, r.remaining)
    decreases ty, 1
  {
    hide Decode;
    var items := [];
    var i := 0;
    ghost var whole := DecodeAll(ty, n, r.remaining);
    assert whole.Ok? ==> [] + whole.value == whole.value;
    while i < n
      invariant 0 <= i <= n
      invariant whole == Prepend(items, DecodeAll(ty, n - i, r.remaining))
    {
      var item := Deserialize(ty, r);
      match item {
        case Failed(e) =>
          return Failed(e);
        case Value(v) =>
          ghost var more := DecodeAll(ty, n - i - 1, r.remaining);
          assert more.Ok? ==> items + ([v] + more.value) == (items + [v]) + more.value;
          items := items + [v];
      }
      i := i + 1;
    }
    assert items + [] == items;
    o := Value(items);
  }

  ghost function Prepend(items: seq<Val>, r: Result<seq<Val>>): (r': Result<seq<Val>>)
  {
    if r.Err? then r else Ok(items + r.value, r.rest)
  }

  // --- strings -----------------------------------------------------------------------------------------

  // A string is written like a vector of bytes, but reading stops silently at the end of the
  // data: the reader takes at most the announced number of bytes, and only checks that what
  // it took is text.
  function DecodeString(bytes: seq<U8>, isUtf8: seq<U8> -> bool): (r: Result<seq<U8>>)
  {
    var n := VInts.Decode(bytes, 64);
    if !n.Decoded? then Err(InvalidData)
    else
      var taken := if n.value <= |n.rest| then n.value else |n.rest|;
      if isUtf8(n.rest[..taken]) then Ok(n.rest[..taken], n.rest[taken..]) else Err(InvalidData)
  }

  // When only `available` is left of an encoded string, the reader returns what is there if
  // that is text; it returns the string exactly when nothing is missing.
  lemma {:induction false} StringTruncation(s: seq<U8>, available: seq<U8>, isUtf8: seq<U8> -> bool)
    requires |s| < U64_BOUND && (available <= s || s <= available)
    ensures var r := DecodeString(VIntBytes(|s|) + available, isUtf8);
            && ((exists rest :: r == Ok(s, rest)) <==> |s| <= |available| && isUtf8(s))
            && (|s| <= |available| ==> r == if isUtf8(s) then Ok(s, available[|s|..]) else Err(InvalidData))
            && (|available| < |s| ==> r == if isUtf8(available) then Ok(available, []) else Err(InvalidData))
  {
    hide VIntBytes, VInts.Decode, Pow2;
    Pow2Literals();
    VIntRoundTrip(|s|, available, 64);
    if |s| <= |available| {
      assert available[..|s|] == s;
    } else {
      assert available[..|available|] == available && available[|available|..] == [];
    }
  }
}
