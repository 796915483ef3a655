/** The range reader: consecutive values decoded with eight, four, two or one value per
eight-byte load, or one by one near the end of the data.
 */
module RangeReading {
  import opened Bits
  import opened BitUnpacking

  // The requested values lie inside the data (the range reader refuses anything else).
  predicate RangeReadable(w: nat, start: nat, len: nat, dataLen: nat) {
    len == 0 || w == 0 || ((start + len) * w + 7) / 8 <= dataLen
  }

  // The last eight-byte load would run past the data.
  predicate NearTail(w: nat, start: nat, len: nat, dataLen: nat)
    requires len > 0
  {
    (start + len - 1) * w / 8 + 8 > dataLen
  }

  // The index decoded into output i: the path taken near the tail casts it to a u32.
  function ReadIndex(w: nat, start: nat, len: nat, dataLen: nat, i: nat): (idx: nat)
    requires len > 0
  {
    if NearTail(w, start, len, dataLen) then (start + i) % U32_BOUND else start + i
  }

  ghost predicate Filled(output: array<nat>, from: nat, to: nat, data: seq<U8>, w: nat, start: nat)
    reads output
  {
    to <= output.Length && forall j :: from <= j < to ==> output[j] == ValueAt(data, w, start + j)
  }

  lemma {:induction false} NothingFilled(output: array<nat>, data: seq<U8>, w: nat, start: nat)
    ensures Filled(output, 0, 0, data, w, start)
  {
  }

  lemma {:induction false} LoadHoldsByEight(w: nat)
    requires w <= 8
    ensures LoadHolds(8, w)
  {
  }

  lemma {:induction false} OneValueLoads(u: BitUnpacker)
    requires u.Valid()
    ensures LoadHolds(1, u.numBits)
  {
  }

  // The digit at which value idx starts.
  predicate StartsAt(bitAddr: nat, idx: nat, w: nat) {
    bitAddr == idx * w
  }

  lemma {:induction false} FirstStart(idx: nat, w: nat)
    ensures StartsAt(idx * w, idx, w)
  {
  }

  lemma {:induction false} NextStart(bitAddr: nat, idx: nat, n: nat, w: nat)
    requires StartsAt(bitAddr, idx, w)
    ensures StartsAt(bitAddr + n * w, idx + n, w)
  {
    Address(idx, n, w);
  }

  lemma {:induction false} LoadInside(w: nat, start: nat, len: nat, dataLen: nat, bitAddr: nat, k: nat)
    requires k < len && !NearTail(w, start, len, dataLen) && StartsAt(bitAddr, start + k, w)
    ensures bitAddr / 8 + 8 <= dataLen
  {
    MulMonotone(start + k, start + len - 1, w);
  }

  lemma {:induction false} IndexReadable(u: BitUnpacker, start: nat, len: nat, data: seq<U8>, idx: nat)
    requires RangeReadable(u.numBits, start, len, |data|) && idx < start + len && len > 0
    ensures u.Readable(idx, data)
  {
    MulMonotone(idx, start + len, u.numBits);
  }

  // --- the range reader --------------------------------------------------------------

  method GetRange(u: BitUnpacker, startIdx: U32, data: seq<U8>, output: array<nat>)
    requires u.Valid()
    requires RangeReadable(u.numBits, startIdx, output.Length, |data|)
    modifies output
    ensures forall i :: 0 <= i < output.Length ==>
              output[i] == ValueAt(data, u.numBits, ReadIndex(u.numBits, startIdx, output.Length, |data|, i))
  {
    if output.Length == 0 {
      return;
    }
    if u.numBits == 0 {
      FillZero(u, startIdx, data, output);
    } else if (startIdx + output.Length - 1) * u.numBits / 8 + 8 > |data| {
      FillNearTail(u, startIdx, data, output);
    } else if output.Length == 64 && u.numBits <= 8 {
      FillByEight(u, startIdx, data, output);
    } else {
      FillByFour(u, startIdx, data, output);
    }
  }

  method FillZero(u: BitUnpacker, startIdx: U32, data: seq<U8>, output: array<nat>)
    requires u.numBits == 0
    modifies output
    ensures forall i :: 0 <= i < output.Length ==> forall idx: nat :: output[i] == ValueAt(data, 0, idx)
  {
    var k := 0;
    while k < output.Length
      invariant 0 <= k <= output.Length
      invariant forall j :: 0 <= j < k ==> output[j] == 0
    {
      output[k] := 0;
      k := k + 1;
    }
    forall i, idx: nat | 0 <= i < output.Length ensures output[i] == ValueAt(data, 0, idx) {
      ZeroWidth(data, idx);
    }
  }

  method FillNearTail(u: BitUnpacker, startIdx: U32, data: seq<U8>, output: array<nat>)
    requires u.Valid() && output.Length > 0
    requires RangeReadable(u.numBits, startIdx, output.Length, |data|)
    modifies output
    ensures forall i :: 0 <= i < output.Length ==>
              output[i] == ValueAt(data, u.numBits, (startIdx + i) % U32_BOUND)
  {
    var offset := 0;
    while offset < output.Length
      invariant 0 <= offset <= output.Length
      invariant forall i :: 0 <= i < offset ==>
                  output[i] == ValueAt(data, u.numBits, (startIdx + i) % U32_BOUND)
    {
      var idx := (startIdx + offset) % U32_BOUND;
      IndexReadable(u, startIdx, output.Length, data, idx);
      GetReads(u, idx, data);
      output[offset] := u.Get(idx, data);
      offset := offset + 1;
    }
  }

  // Eight values of at most eight bits per load.
  method FillByEight(u: BitUnpacker, startIdx: U32, data: seq<U8>, output: array<nat>)
    requires u.Valid() && output.Length == 64 && u.numBits <= 8
    requires !NearTail(u.numBits, startIdx, output.Length, |data|)
    modifies output
    ensures Filled(output, 0, output.Length, data, u.numBits, startIdx)
  {
    hide *;
    var bitAddr: nat := startIdx * u.numBits;
    FirstStart(startIdx, u.numBits);
    NothingFilled(output, data, u.numBits, startIdx);
    LoadHoldsByEight(u.numBits);
    for chunk := 0 to 8
      invariant StartsAt(bitAddr, startIdx + 8 * chunk, u.numBits)
      invariant Filled(output, 0, 8 * chunk, data, u.numBits, startIdx)
    {
      LoadInside(u.numBits, startIdx, 64, |data|, bitAddr, 8 * chunk);
      DecodeChunk(u, data, bitAddr, startIdx, output, 8 * chunk, 8);
      NextStart(bitAddr, startIdx + 8 * chunk, 8, u.numBits);
      bitAddr := bitAddr + 8 * u.numBits;
    }
  }

  // Chunks of four values, then the remainder one by one.
  method FillByFour(u: BitUnpacker, startIdx: U32, data: seq<U8>, output: array<nat>)
    requires u.Valid() && output.Length > 0
    requires !NearTail(u.numBits, startIdx, output.Length, |data|)
    modifies output
    ensures Filled(output, 0, output.Length, data, u.numBits, startIdx)
  {
    hide *;
    var bitAddr: nat, k: nat := FillChunks(u, startIdx, data, output);
    while k < output.Length
      invariant 0 <= k <= output.Length
      invariant StartsAt(bitAddr, startIdx + k, u.numBits)
      invariant Filled(output, 0, k, data, u.numBits, startIdx)
    {
      DecodeOne(u, data, bitAddr, startIdx, output, k, 0);
      NextStart(bitAddr, startIdx + k, 1, u.numBits);
      bitAddr := bitAddr + u.numBits;
      k := k + 1;
    }
  }

  // As many chunks of four as there are: where the remainder starts.
  method FillChunks(u: BitUnpacker, startIdx: U32, data: seq<U8>, output: array<nat>) returns (bitAddr: nat, k: nat)
    requires u.Valid() && output.Length > 0
    requires !NearTail(u.numBits, startIdx, output.Length, |data|)
    modifies output
    ensures k <= output.Length < k + 4 && StartsAt(bitAddr, startIdx + k, u.numBits)
    ensures Filled(output, 0, k, data, u.numBits, startIdx)
  {
    hide *;
    bitAddr := startIdx * u.numBits;
    FirstStart(startIdx, u.numBits);
    k := 0;
    NothingFilled(output, data, u.numBits, startIdx);
    while k + 4 <= output.Length
      invariant k <= output.Length
      invariant StartsAt(bitAddr, startIdx + k, u.numBits)
      invariant Filled(output, 0, k, data, u.numBits, startIdx)
    {
      DecodeFour(u, data, bitAddr, startIdx, output, k);
      NextStart(bitAddr, startIdx + k, 4, u.numBits);
      bitAddr := bitAddr + 4 * u.numBits;
      k := k + 4;
    }
  }

  // Four values on one, two or four loads.
  method DecodeFour(u: BitUnpacker, data: seq<U8>, bitAddr: nat, startIdx: nat,
                    output: array<nat>, k: nat)
    requires u.Valid() && k + 4 <= output.Length
    requires StartsAt(bitAddr, startIdx + k, u.numBits)
    requires !NearTail(u.numBits, startIdx, output.Length, |data|)
    requires Filled(output, 0, k, data, u.numBits, startIdx)
    modifies output
    ensures Filled(output, 0, k + 4, data, u.numBits, startIdx)
  {
    hide ValueAt, Pow2, NearTail, Filled, StartsAt;
    var w := u.numBits;
    if w <= 14 || w == 16 {
      LoadInside(w, startIdx, output.Length, |data|, bitAddr, k);
      DecodeChunk(u, data, bitAddr, startIdx, output, k, 4);
    } else if w <= 28 || w == 32 {
      LoadInside(w, startIdx, output.Length, |data|, bitAddr, k);
      DecodeChunk(u, data, bitAddr, startIdx, output, k, 2);
      NextStart(bitAddr, startIdx + k, 2, w);
      LoadInside(w, startIdx, output.Length, |data|, bitAddr + 2 * w, k + 2);
      DecodeChunk(u, data, bitAddr + 2 * w, startIdx, output, k + 2, 2);
    } else {
      DecodeOne(u, data, bitAddr, startIdx, output, k, 0);
      DecodeOne(u, data, bitAddr, startIdx, output, k, 1);
      DecodeOne(u, data, bitAddr, startIdx, output, k, 2);
      DecodeOne(u, data, bitAddr, startIdx, output, k, 3);
    }
  }

  // The load of value k + i, for values too wide to share a load.
  method DecodeOne(u: BitUnpacker, data: seq<U8>, bitAddr: nat, startIdx: nat,
                   output: array<nat>, k: nat, i: nat)
    requires u.Valid() && k + i < output.Length
    requires StartsAt(bitAddr, startIdx + k, u.numBits)
    requires !NearTail(u.numBits, startIdx, output.Length, |data|)
    requires Filled(output, 0, k + i, data, u.numBits, startIdx)
    modifies output
    ensures Filled(output, 0, k + i + 1, data, u.numBits, startIdx)
  {
    hide *;
    NextStart(bitAddr, startIdx + k, i, u.numBits);
    LoadInside(u.numBits, startIdx, output.Length, |data|, bitAddr + i * u.numBits, k + i);
    OneValueLoads(u);
    DecodeChunk(u, data, bitAddr + i * u.numBits, startIdx, output, k + i, 1);
  }

  // One load, and the n values it holds.
  method DecodeChunk(u: BitUnpacker, data: seq<U8>, bitAddr: nat, startIdx: nat,
                     output: array<nat>, k: nat, n: nat)
    requires u.Valid() && LoadHolds(n, u.numBits) && k + n <= output.Length
    requires StartsAt(bitAddr, startIdx + k, u.numBits) && bitAddr / 8 + 8 <= |data|
    requires Filled(output, 0, k, data, u.numBits, startIdx)
    modifies output
    ensures Filled(output, 0, k + n, data, u.numBits, startIdx)
  {
    hide ValueAt, Load, And, Shr, Pow2, LeNat, LoadHolds;
    var packed := Load(data, bitAddr);
    var i := 0;
    while i < n
      invariant 0 <= i <= n
      invariant Filled(output, 0, k + i, data, u.numBits, startIdx)
    {
      Decode(u, data, bitAddr, n, i, startIdx + k);
      output[k + i] := And(Shr(packed, i * u.numBits), u.mask);
      i := i + 1;
    }
  }

  // --- when the range reader and the one-value indices agree --------------------------

  predicate IndexFits(w: nat, start: nat, len: nat, dataLen: nat) {
    len == 0 || w == 0 || start + len <= U32_BOUND || !NearTail(w, start, len, dataLen)
  }

  ghost predicate RangeCorrect(w: nat, start: nat, len: nat, data: seq<U8>) {
    forall i: nat :: i < len ==>
      ValueAt(data, w, ReadIndex(w, start, len, |data|, i)) == ValueAt(data, w, start + i)
  }

  lemma {:induction false} LowOfPow2(p: nat, m: nat)
    requires p < m
    ensures Low(Pow2(p), m) == Pow2(p)
  {
    Pow2Monotone(p, m);
    SmallWord(Pow2(p), m);
  }

  // A single one digit at position a * w is seen by value a and by no other value.
  lemma {:induction false} SingleDigit(w: nat, a: nat, b: nat)
    requires w > 0 && a < b
    ensures Extract(Pow2(a * w), a * w, w) != 0
    ensures Extract(Pow2(a * w), b * w, w) == 0
  {
    Address(a, b - a, w);
    MulMonotone(1, b - a, w);
    ShlZero(w);
    Pow2AsShl(a * w);
    SplitAt(0, 1, a * w);
    assert Low(1, w) == 1 + 2 * Low(0, w - 1);
    Pow2Monotone(a * w, b * w);
    SmallWord(Pow2(a * w), b * w);
    SmallWord(0, w);
  }

  // Past 2^32 values the cast near the tail reads another index: some data shows it.
  lemma {:induction false} RangeWraps(w: nat, start: nat, len: nat, dataLen: nat) returns (data: seq<U8>)
    requires RangeReadable(w, start, len, dataLen) && start < U32_BOUND
    requires !IndexFits(w, start, len, dataLen)
    ensures |data| == dataLen && !RangeCorrect(w, start, len, data)
  {
    var b := start + len - 1;
    var a := b % U32_BOUND;
    SingleDigit(w, a, b);
    Address(a, b - a, w);
    MulMonotone(1, b - a, w);
    Address(b, 1, w);
    assert a * w < 8 * dataLen;
    data := ToLe(Pow2(a * w), dataLen);
    LeNatToLe(Pow2(a * w), dataLen);
    LowOfPow2(a * w, 8 * dataLen);
    assert ReadIndex(w, start, len, dataLen, len - 1) == a;
  }

  // For a given shape of request, the range reader decodes the indices it was asked for
  // on all data exactly when the cast to u32 is not taken on an index that needs more bits.
  lemma {:induction false} RangeCorrectIff(w: nat, start: nat, len: nat, dataLen: nat)
    requires RangeReadable(w, start, len, dataLen) && start < U32_BOUND
    ensures IndexFits(w, start, len, dataLen)
       <==> forall data: seq<U8> :: |data| == dataLen ==> RangeCorrect(w, start, len, data)
  {
    if IndexFits(w, start, len, dataLen) {
      forall data: seq<U8> | |data| == dataLen ensures RangeCorrect(w, start, len, data) {
        forall i: nat | i < len
          ensures ValueAt(data, w, ReadIndex(w, start, len, dataLen, i)) == ValueAt(data, w, start + i)
        {
          if w == 0 {
            ZeroWidth(data, start + i);
            ZeroWidth(data, ReadIndex(w, start, len, dataLen, i));
          }
        }
      }
    } else {
      var data := RangeWraps(w, start, len, dataLen);
    }
  }
}
