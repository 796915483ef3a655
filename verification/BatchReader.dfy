/** The batch reader of 32-bit values, the value-range search built on it, and the round
trip from the bit packer.
 */
module BatchReading {
  import opened Collections
  import opened Bits
  import opened BitPacking
  import opened BitUnpacking
  import opened RangeReading

  const BLOCK_LEN: nat := 32

  function EntranceRampLen(startIdx: nat): (n: nat)
    ensures 1 <= n <= 8 && (startIdx + n) % 8 == 0
  {
    8 - (startIdx % 8) % 8
  }

  // The ramp ends on the closest multiple of 8 at or above its start, except on aligned
  // starts, which it leaves by a whole step.
  lemma {:induction false} RampReachesClosest(startIdx: nat)
    ensures startIdx + EntranceRampLen(startIdx) == (startIdx + 7) / 8 * 8 <==> startIdx % 8 != 0
    ensures startIdx % 8 == 0 ==> EntranceRampLen(startIdx) == 8
  {
  }

  function WrapU32(x: nat): (r: U32)
  {
    x % U32_BOUND
  }

  // The test for a request too short for a block, in unchecked u32 arithmetic.
  predicate OnlyRamp(start: nat, len: nat) {
    WrapU32(WrapU32(start + EntranceRampLen(start)) + BLOCK_LEN) > start + len
  }

  // The end of the first block fits in a u32, or the request at least fills the ramp.
  predicate RampFits(start: nat, len: nat) {
    start + EntranceRampLen(start) + BLOCK_LEN < U32_BOUND || EntranceRampLen(start) <= len
  }

  // Otherwise the test wraps around, a ramp longer than the output is cut off it, and the
  // reader panics.
  lemma {:induction false} RampFitsExact(start: nat, len: nat)
    requires start + len < U32_BOUND
    ensures RampFits(start, len) <==> OnlyRamp(start, len) || EntranceRampLen(start) <= len
  {
    hide EntranceRampLen;
  }

  // Past the test the ramp lies inside the request.
  lemma {:induction false} HighwayStarts(start: nat, len: nat)
    requires start + len < U32_BOUND && RampFits(start, len)
    requires WrapU32(WrapU32(start + EntranceRampLen(start)) + BLOCK_LEN) <= start + len
    ensures WrapU32(start + EntranceRampLen(start)) == start + EntranceRampLen(start) <= start + len
  {
  }

  // The assertions of the reader, and its u32 arithmetic.
  predicate BatchReadable(w: nat, start: nat, len: nat, dataLen: nat) {
    && w <= 32
    && start + len < U32_BOUND
    && RampFits(start, len)
    && ((start + len) * w + 7) / 8 <= dataLen
  }

  // The contract of the SIMD block decoder: 32 consecutive values on 4 * w bytes.
  function DecompressBlock(data: seq<U8>, w: nat): (block: seq<nat>)
    requires 4 * w <= |data|
    ensures |block| == 32
    ensures forall i :: 0 <= i < 32 ==> block[i] == ValueAt(data, w, i)
  {
    seq(32, i requires 0 <= i => ValueAt(data, w, i))
  }

  // A reader that starts on a byte boundary sees the same values as one that starts at 0.
  lemma {:induction false} SliceValue(data: seq<U8>, offset: nat, w: nat, base: nat, i: nat)
    requires offset <= |data| && 8 * offset == base * w
    ensures ValueAt(data[offset..], w, i) == ValueAt(data, w, base + i)
  {
    hide *;
    var n := LeNat(data);
    LeNatSplitHigh(data, offset);
    ValueAtIs(data[offset..], w, i);
    ValueAtIs(data, w, base + i);
    ShrShr(n, 8 * offset, i * w);
    Address(base, i, w);
  }

  lemma {:induction false} ValueAtIs(data: seq<U8>, w: nat, i: nat)
    ensures ValueAt(data, w, i) == Low(Shr(LeNat(data), i * w), w)
  {
  }

  lemma {:induction false} AlignedOffset(h: nat, w: nat)
    requires h % 8 == 0
    ensures StartsAt(8 * (h * w / 8), h, w)
  {
    var m := h / 8;
    assert h * w == 8 * (m * w) by {
      assert h == 8 * m;
    }
  }

  // --- the batch reader --------------------------------------------------------------

  method Ramp(u: BitUnpacker, data: seq<U8>, startIdx: nat, output: array<nat>, from: nat, to: nat)
    requires u.Valid() && from <= to <= output.Length
    requires startIdx + output.Length < U32_BOUND
    requires ((startIdx + output.Length) * u.numBits + 7) / 8 <= |data|
    requires Filled(output, 0, from, data, u.numBits, startIdx)
    modifies output
    ensures Filled(output, 0, to, data, u.numBits, startIdx)
  {
    hide ValueAt, BitUnpacker.Get, Pow2;
    var k := from;
    while k < to
      invariant from <= k <= to
      invariant Filled(output, 0, k, data, u.numBits, startIdx)
    {
      IndexReadable(u, startIdx, output.Length, data, startIdx + k);
      GetReads(u, startIdx + k, data);
      output[k] := u.Get(startIdx + k, data);
      k := k + 1;
    }
  }

  method DecodeBlock(data: seq<U8>, offset: nat, w: nat, startIdx: nat, output: array<nat>, cursor: nat)
    requires cursor + 32 <= output.Length && offset + 4 * w <= |data|
    requires StartsAt(8 * offset, startIdx + cursor, w)
    requires Filled(output, 0, cursor, data, w, startIdx)
    modifies output
    ensures Filled(output, 0, cursor + 32, data, w, startIdx)
  {
    hide ValueAt, DecompressBlock;
    var block := DecompressBlock(data[offset..], w);
    var i := 0;
    while i < 32
      invariant 0 <= i <= 32
      invariant Filled(output, 0, cursor + i, data, w, startIdx)
    {
      SliceValue(data, offset, w, startIdx + cursor, i);
      output[cursor + i] := block[i];
      i := i + 1;
    }
  }

  lemma {:induction false} BlockInside(w: nat, idx: nat, end: nat, offset: nat, dataLen: nat)
    requires StartsAt(8 * offset, idx, w) && idx + 32 <= end && (end * w + 7) / 8 <= dataLen
    ensures offset + 4 * w <= dataLen
    ensures StartsAt(8 * (offset + 4 * w), idx + 32, w)
  {
    Address(idx, 32, w);
    MulMonotone(idx + 32, end, w);
  }

  method GetBatchU32s(u: BitUnpacker, startIdx: U32, data: seq<U8>, output: array<nat>)
    requires u.Valid()
    requires BatchReadable(u.numBits, startIdx, output.Length, |data|)
    modifies output
    ensures Filled(output, 0, output.Length, data, u.numBits, startIdx)
  {
    hide ValueAt, Filled, Pow2, StartsAt, EntranceRampLen, RampFits, WrapU32;
    var w := u.numBits;
    var endIdx := startIdx + output.Length;
    var entranceRampLen := EntranceRampLen(startIdx);
    var highwayStart := WrapU32(startIdx + entranceRampLen);
    NothingFilled(output, data, w, startIdx);
    if WrapU32(highwayStart + BLOCK_LEN) > endIdx {
      Ramp(u, data, startIdx, output, 0, output.Length);
      return;
    }
    HighwayStarts(startIdx, output.Length);
    var numBlocks := (endIdx - highwayStart) / BLOCK_LEN;
    Ramp(u, data, startIdx, output, 0, entranceRampLen);
    AlignedOffset(highwayStart, w);
    Highway(w, data, highwayStart * w / 8, startIdx, output, entranceRampLen, numBlocks);
    Ramp(u, data, startIdx, output, entranceRampLen + BLOCK_LEN * numBlocks, output.Length);
  }

  // Blocks of 32 values, each decoded from its own byte offset.
  method Highway(w: nat, data: seq<U8>, start: nat, startIdx: nat, output: array<nat>, from: nat, numBlocks: nat)
    requires from + BLOCK_LEN * numBlocks <= output.Length
    requires StartsAt(8 * start, startIdx + from, w)
    requires ((startIdx + output.Length) * w + 7) / 8 <= |data|
    requires Filled(output, 0, from, data, w, startIdx)
    modifies output
    ensures Filled(output, 0, from + BLOCK_LEN * numBlocks, data, w, startIdx)
  {
    hide ValueAt, Filled, Pow2, StartsAt;
    var offset: nat, outputCursor: nat := start, from;
    for block := 0 to numBlocks
      invariant outputCursor == from + BLOCK_LEN * block
      invariant StartsAt(8 * offset, startIdx + outputCursor, w)
      invariant Filled(output, 0, outputCursor, data, w, startIdx)
    {
      BlockInside(w, startIdx + outputCursor, startIdx + output.Length, offset, |data|);
      DecodeBlock(data, offset, w, startIdx, output, outputCursor);
      offset := offset + 4 * w;
      outputCursor := outputCursor + 32;
    }
  }

  // --- ids of the values in a range ----------------------------------------------------

  // The ids offset, offset + 1, ... of the values that lie in [lo, hi], in order.
  function MatchingIds(vals: seq<nat>, lo: nat, hi: nat, offset: nat): (ids: seq<nat>)
  {
    if |vals| == 0 then []
    else
      var n := |vals| - 1;
      MatchingIds(vals[..n], lo, hi, offset) + (if lo <= vals[n] <= hi then [offset + n] else [])
  }

  // They are listed once each, in ascending order.
  lemma {:induction false} MatchingIdsExact(vals: seq<nat>, lo: nat, hi: nat, offset: nat)
    ensures forall id :: id in MatchingIds(vals, lo, hi, offset)
                    <==> offset <= id < offset + |vals| && lo <= vals[id - offset] <= hi
    ensures Ascending(MatchingIds(vals, lo, hi, offset))
  {
    if |vals| > 0 {
      var n := |vals| - 1;
      var ids, shorter := MatchingIds(vals, lo, hi, offset), MatchingIds(vals[..n], lo, hi, offset);
      MatchingIdsExact(vals[..n], lo, hi, offset);
      forall id ensures id in ids <==> offset <= id < offset + |vals| && lo <= vals[id - offset] <= hi {
        assert id in ids <==> id in shorter || (id == offset + n && lo <= vals[n] <= hi);
        assert id in shorter <==> offset <= id < offset + n && lo <= vals[..n][id - offset] <= hi;
      }
      forall i, j | 0 <= i < j < |ids| ensures ids[i] < ids[j] {
        assert ids[i] in shorter;
      }
    }
  }

  function ValuesAt(data: seq<U8>, w: nat, start: nat, n: nat): (vals: seq<nat>)
    ensures |vals| == n
    ensures forall i :: 0 <= i < n ==> vals[i] == ValueAt(data, w, start + i)
  {
    seq<nat>(n, i requires 0 <= i < n => ValueAt(data, w, start + i))
  }

  method FilterVecInPlace(lo: nat, hi: nat, offset: nat, vals: seq<nat>) returns (output: seq<nat>)
    requires offset + |vals| <= U32_BOUND
    ensures output == MatchingIds(vals, lo, hi, offset)
  {
    output := vals;
    var outputCursor := 0;
    var i := 0;
    while i < |vals|
      invariant 0 <= outputCursor <= i <= |vals| == |output|
      invariant output[..outputCursor] == MatchingIds(vals[..i], lo, hi, offset)
      invariant forall j :: i <= j < |vals| ==> output[j] == vals[j]
    {
      var val := output[i];
      assert vals[..i + 1][..i] == vals[..i];
      output := output[outputCursor := offset + i];
      outputCursor := outputCursor + (if lo <= val <= hi then 1 else 0);
      i := i + 1;
    }
    assert vals[..i] == vals;
    output := output[..outputCursor];
  }

  // What a search returns: the ids of the range whose value lies in [lo, hi], once each and in
  // ascending order.
  ghost predicate Found(positions: seq<nat>, data: seq<U8>, w: nat, lo: nat, hi: nat, idStart: nat, idEnd: nat) {
    && Ascending(positions)
    && (forall id :: id in positions <==> idStart <= id < idEnd && lo <= ValueAt(data, w, id) <= hi)
  }

  lemma {:induction false} MatchesFound(data: seq<U8>, w: nat, lo: nat, hi: nat, idStart: nat, idEnd: nat)
    ensures var n := if idStart <= idEnd then idEnd - idStart else 0;
            Found(MatchingIds(ValuesAt(data, w, idStart, n), lo, hi, idStart), data, w, lo, hi, idStart, idEnd)
  {
    hide ValueAt, MatchingIds;
    var n := if idStart <= idEnd then idEnd - idStart else 0;
    MatchingIdsExact(ValuesAt(data, w, idStart, n), lo, hi, idStart);
  }

  // An id range whose start lies beyond its end is empty.
  function NumIds(idStart: nat, idEnd: nat): (n: nat) {
    if idStart <= idEnd then idEnd - idStart else 0
  }

  predicate IdsReadable(u: BitUnpacker, lo: nat, idStart: nat, idEnd: nat, data: seq<U8>) {
    if u.numBits > 32 then idStart < idEnd ==> u.Readable(idEnd - 1, data)
    else lo >= U32_BOUND || BatchReadable(u.numBits, idStart, NumIds(idStart, idEnd), |data|)
  }

  method GetIdsForValueRangeSlow(u: BitUnpacker, lo: U64, hi: U64, idStart: U32, idEnd: U32, data: seq<U8>)
    returns (positions: seq<nat>)
    requires u.Valid() && (idStart < idEnd ==> u.Readable(idEnd - 1, data))
    ensures Found(positions, data, u.numBits, lo, hi, idStart, idEnd)
  {
    hide ValueAt, BitUnpacker.Get, Pow2;
    positions := [];
    var i := idStart;
    while i < idEnd
      invariant idStart <= i && (i <= idEnd || i == idStart)
      invariant Found(positions, data, u.numBits, lo, hi, idStart, i)
    {
      MulMonotone(i, idEnd - 1, u.numBits);
      GetReads(u, i, data);
      var val := u.Get(i, data);
      FoundNext(positions, data, u.numBits, lo, hi, idStart, i);
      if lo <= val <= hi {
        positions := positions + [i];
      }
      i := i + 1;
    }
  }

  lemma {:induction false} FoundNext(positions: seq<nat>, data: seq<U8>, w: nat, lo: nat, hi: nat,
                                     idStart: nat, id: nat)
    requires idStart <= id && Found(positions, data, w, lo, hi, idStart, id)
    ensures var more := if lo <= ValueAt(data, w, id) <= hi then positions + [id] else positions;
            Found(more, data, w, lo, hi, idStart, id + 1)
  {
    hide ValueAt;
    forall i | 0 <= i < |positions| ensures positions[i] < id {
      assert positions[i] in positions;
    }
  }

  method GetIdsForValueRangeFast(u: BitUnpacker, lo: U32, hi: U32, idStart: U32, idEnd: U32, data: seq<U8>)
    returns (positions: seq<nat>)
    requires u.Valid()
    requires BatchReadable(u.numBits, idStart, NumIds(idStart, idEnd), |data|)
    ensures Found(positions, data, u.numBits, lo, hi, idStart, idEnd)
  {
    hide ValueAt, MatchingIds, Pow2;
    var n := NumIds(idStart, idEnd);
    var buffer := new nat[n](_ => 0);
    GetBatchU32s(u, idStart, data, buffer);
    assert buffer[..] == ValuesAt(data, u.numBits, idStart, n);
    positions := FilterVecInPlace(lo, hi, idStart, buffer[..]);
    MatchesFound(data, u.numBits, lo, hi, idStart, idEnd);
  }

  // Clamping the upper bound to the largest u32, or refusing a lower bound above it, changes
  // nothing when values have at most 32 bits.
  lemma {:induction false} ClampHarmless(positions: seq<nat>, data: seq<U8>, w: nat, lo: nat, hi: nat,
                                         idStart: nat, idEnd: nat)
    requires w <= 32
    ensures lo >= U32_BOUND ==> Found([], data, w, lo, hi, idStart, idEnd)
    ensures hi >= U32_BOUND && Found(positions, data, w, lo, U32_BOUND - 1, idStart, idEnd) ==>
              Found(positions, data, w, lo, hi, idStart, idEnd)
  {
    hide ValueAt, Pow2;
    Pow2Monotone(w, 32);
    Pow2Literals();
    forall id: nat ensures ValueAt(data, w, id) < U32_BOUND {
    }
  }

  method GetIdsForValueRange(u: BitUnpacker, lo: U64, hi: U64, idStart: U32, idEnd: U32, data: seq<U8>)
    returns (positions: seq<nat>)
    requires u.Valid() && IdsReadable(u, lo, idStart, idEnd, data)
    ensures Found(positions, data, u.numBits, lo, hi, idStart, idEnd)
  {
    hide ValueAt, Found, Pow2;
    if u.numBits > 32 {
      positions := GetIdsForValueRangeSlow(u, lo, hi, idStart, idEnd, data);
    } else if lo > U32_BOUND - 1 {
      positions := [];
      ClampHarmless(positions, data, u.numBits, lo, hi, idStart, idEnd);
    } else {
      positions := GetIdsForValueRangeFast(u, lo, if hi < U32_BOUND - 1 then hi else U32_BOUND - 1,
                                           idStart, idEnd, data);
      ClampHarmless(positions, data, u.numBits, lo, hi, idStart, idEnd);
    }
  }

  // --- round trip ------------------------------------------------------------------------

  // All values on the same width.
  function Uniform(vals: seq<U64>, w: nat): (items: seq<Item>)
    ensures |items| == |vals|
    ensures forall i :: 0 <= i < |vals| ==> items[i] == Item(vals[i], w)
  {
    seq(|vals|, i requires 0 <= i < |vals| => Item(vals[i], w))
  }

  lemma {:induction false} UniformBits(items: seq<Item>, w: nat)
    requires forall i :: 0 <= i < |items| ==> items[i].numBits == w
    ensures TotalBits(items) == |items| * w
  {
    if |items| > 0 {
      UniformBits(items[1..], w);
      Address(|items| - 1, 1, w);
    }
  }

  // Whatever bytes hold the concatenation, with anything after it, read back value i.
  lemma {:induction false} PackedValue(vals: seq<U64>, w: nat, data: seq<U8>, i: nat)
    requires AllInRange(Uniform(vals, w)) && i < |vals|
    requires Low(LeNat(data), |vals| * w) == BitConcat(Uniform(vals, w))
    ensures ValueAt(data, w, i) == vals[i]
  {
    hide Shr, Low, LeNat, Pow2, TotalBits, BitConcat;
    var items := Uniform(vals, w);
    UniformBits(items[..i], w);
    BitConcatWindow(items, i);
    assert i * w + w <= |vals| * w by {
      Address(i, 1, w);
      MulMonotone(i + 1, |vals|, w);
    }
    ExtractExtract(LeNat(data), 0, |vals| * w, i * w, w);
    ExtractFromZero(LeNat(data), |vals| * w);
  }

  lemma {:induction false} ExtractFromZero(x: nat, m: nat)
    ensures Extract(x, 0, m) == Low(x, m)
  {
  }

  lemma {:induction false} BitConcatBound(items: seq<Item>)
    requires AllInRange(items)
    ensures BitConcat(items) < Pow2(TotalBits(items))
  {
    if |items| > 0 {
      BitConcatBound(items[1..]);
      JoinBound(items[0].val, BitConcat(items[1..]), items[0].numBits, TotalBits(items[1..]));
    }
  }

  // Packing values at one legal width and reading index i gives value i, on the fast path
  // and on the zero-padded tail alike.
  method PackAndGet(vals: seq<U64>, w: nat, i: U32) returns (data: seq<U8>, r: nat)
    requires LegalWidth(w) && i < |vals|
    requires forall k :: 0 <= k < |vals| ==> vals[k] < Pow2(w)
    ensures |data| == (|vals| * w + 7) / 8
    ensures r == vals[i]
  {
    hide Pow2, LeNat, BitConcat, TotalBits, ValueAt, BitUnpacker.Get, Low;
    var items := Uniform(vals, w);
    UniformBits(items, w);
    data := Pack(items);
    var u := BitUnpacker.New(w);
    BitConcatBound(items);
    SmallWord(LeNat(data), |vals| * w);
    PackedValue(vals, w, data, i);
    MulMonotone(i, |vals|, w);
    GetReads(u, i, data);
    r := u.Get(i, data);
  }
}
