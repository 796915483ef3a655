/** A growable random-access sequence: values are buffered, and every 128 of them become a
bit-packed block of offsets from the block minimum.
 */
module BlockedBitpacking {
  import opened Collections
  import opened Bits
  import opened BitPacking
  import opened BitUnpacking
  import opened BatchReading

  const BLOCK_SIZE: nat := 128

  // Offsets are stored on 56 bits; no block can start beyond this address.
  const OFFSET_BOUND: nat := 0x100_0000_0000_0000

  // --- block parameters ----------------------------------------------------------------

  // The smallest width the reader accepts that holds n.
  function ComputeNumBits(n: U64): (w: nat)
    ensures LegalWidth(w) && n < Pow2(w)
    ensures forall w' :: LegalWidth(w') && n < Pow2(w') ==> w <= w'
  {
    var amplitude := BitLength(n);
    assert amplitude <= 64 && n < Pow2(64) && n < Pow2(amplitude) by {
      Pow2Literals();
      BitLengthBound(n, 64);
      BitLengthExact(n);
    }
    assert forall w' :: n < Pow2(w') ==> amplitude <= w' by {
      forall w' | n < Pow2(w') ensures amplitude <= w' { BitLengthBound(n, w'); }
    }
    if amplitude <= 64 - 8 then amplitude else 64
  }

  // A value that is not even equal to itself is None: nothing compares with it.
  method MinMax(vals: seq<Option<nat>>) returns (r: Option<(nat, nat)>)
    ensures r.None? <==> forall i :: 0 <= i < |vals| ==> vals[i].None?
    ensures r.Some? ==> Some(r.value.0) in vals && Some(r.value.1) in vals
    ensures r.Some? ==> forall i :: 0 <= i < |vals| && vals[i].Some? ==> r.value.0 <= vals[i].value <= r.value.1
  {
    var i := 0;
    while i < |vals| && vals[i].None?
      invariant 0 <= i <= |vals|
      invariant forall j :: 0 <= j < i ==> vals[j].None?
    {
      i := i + 1;
    }
    if i == |vals| {
      return None;
    }
    var minSoFar, maxSoFar := vals[i].value, vals[i].value;
    i := i + 1;
    while i < |vals|
      invariant 1 <= i <= |vals|
      invariant Some(minSoFar) in vals && Some(maxSoFar) in vals
      invariant forall j :: 0 <= j < i && vals[j].Some? ==> minSoFar <= vals[j].value <= maxSoFar
    {
      if vals[i].Some? && vals[i].value < minSoFar {
        minSoFar := vals[i].value;
      }
      if vals[i].Some? && vals[i].value > maxSoFar {
        maxSoFar := vals[i].value;
      }
      i := i + 1;
    }
    return Some((minSoFar, maxSoFar));
  }

  // Integers compare with everything.
  function Comparable(vals: seq<U64>): (r: seq<Option<nat>>)
    ensures |r| == |vals|
    ensures forall i :: 0 <= i < |vals| ==> r[i] == Some(vals[i])
  {
    seq(|vals|, i requires 0 <= i < |vals| => Some(vals[i]))
  }

  // Offset and width of a block in one word: 8 bits of width above 56 bits of offset.
  datatype EntryMetaData = EntryMetaData(encoded: U64, baseValue: U64) {

    static function New(offset: U64, numBits: U8, baseValue: U64): (m: EntryMetaData)
    {
      Pow2Literals();
      OrBound(offset, Shl64(numBits, 56), 64);
      EntryMetaData(Or(offset, Shl64(numBits, 56)), baseValue)
    }

    function Offset(): (offset: nat) {
      Shr(Shl64(encoded, 8), 8)
    }

    function NumBits(): (w: nat) {
      Low(Shr(encoded, 56), 8)
    }
  }

  // The stored offset never needs more than 56 bits, so it is the offset that was given
  // exactly when that one fits.
  lemma {:induction false} MetaDataRoundTrip(offset: U64, numBits: U8, baseValue: U64)
    ensures var m := EntryMetaData.New(offset, numBits, baseValue);
            && m.baseValue == baseValue
            && m.Offset() < OFFSET_BOUND
            && (m.Offset() == offset <==> offset < OFFSET_BOUND)
            && (offset < OFFSET_BOUND ==> m.NumBits() == numBits)
  {
    hide Or, Low, Shr, Shl, Pow2;
    var m := EntryMetaData.New(offset, numBits, baseValue);
    Pow2Literals();
    StoredOffset(m.encoded);
    if offset < OFFSET_BOUND {
      Fit(offset, numBits, 56, 8);
      SplitAt(offset, numBits, 56);
      SmallWord(numBits, 8);
    }
  }

  lemma {:induction false} StoredOffset(encoded: U64)
    ensures Shr(Shl64(encoded, 8), 8) == Low(encoded, 56) < OFFSET_BOUND
  {
    hide Low, Shr, Shl, Pow2;
    Pow2Literals();
    LowOfShl(encoded, 8, 64);
    ShlZero(8);
    SmallWord(0, 8);
    SplitAt(0, Low(encoded, 56), 8);
  }

  // --- one packed block inside the compressed bytes ---------------------------------------

  // The block described by `m` decodes to `vals`, with eight readable bytes after it.
  ghost predicate BlockHolds(data: seq<U8>, m: EntryMetaData, vals: seq<U64>)
  {
    && 0 < |vals| <= BLOCK_SIZE
    && LegalWidth(m.NumBits())
    && m.Offset() + (|vals| * m.NumBits() + 7) / 8 + 8 <= |data|
    && forall j :: 0 <= j < |vals| ==>
         ValueAt(data[m.Offset()..], m.NumBits(), j) + m.baseValue == vals[j]
  }

  // The base is the smallest value, and no smaller accepted width holds the offsets from it.
  ghost predicate BlockTight(m: EntryMetaData, vals: seq<U64>)
  {
    && m.baseValue in vals
    && (forall j :: 0 <= j < |vals| ==> m.baseValue <= vals[j])
    && (forall w :: LegalWidth(w) && (forall j :: 0 <= j < |vals| ==> vals[j] - m.baseValue < Pow2(w))
          ==> m.NumBits() <= w)
  }

  lemma {:induction false} ValueAtPrefix(p: seq<U8>, s: seq<U8>, w: nat, j: nat)
    requires j * w + w <= 8 * |p|
    ensures ValueAt(p + s, w, j) == ValueAt(p, w, j)
  {
    hide LeNat, Extract, Pow2, Shl;
    LeNatConcat(p, s);
    LeNatBound(p);
    ExtractLow(LeNat(p), LeNat(s), 8 * |p|, j * w, w);
  }

  lemma {:induction false} ValueInside(n: nat, w: nat, j: nat)
    requires j < n
    ensures j * w + w <= n * w <= 8 * ((n * w + 7) / 8)
  {
    Address(j, 1, w);
    MulMonotone(j + 1, n, w);
  }

  // Rewriting the padding and appending more blocks does not disturb a block.
  lemma {:induction false} BlockStable(data: seq<U8>, data': seq<U8>, m: EntryMetaData, vals: seq<U64>)
    requires BlockHolds(data, m, vals)
    requires 8 <= |data| <= |data'| && data[..|data| - 8] == data'[..|data| - 8]
    ensures BlockHolds(data', m, vals)
  {
    hide ValueAt, LegalWidth, EntryMetaData.NumBits, EntryMetaData.Offset;
    var off, w, n := m.Offset(), m.NumBits(), |data| - 8;
    var p := data[off..n];
    assert data[off..] == p + data[n..];
    assert data'[off..] == p + data'[n..] by {
      assert data'[off..n] == data'[..n][off..] == data[..n][off..] == p;
    }
    forall j | 0 <= j < |vals| ensures ValueAt(data'[off..], w, j) + m.baseValue == vals[j] {
      ValueInside(|vals|, w, j);
      ValueAtPrefix(p, data[n..], w, j);
      ValueAtPrefix(p, data'[n..], w, j);
    }
  }

  function Deltas(vals: seq<U64>, base: U64): (deltas: seq<U64>)
    requires forall i :: 0 <= i < |vals| ==> base <= vals[i]
    ensures |deltas| == |vals|
    ensures forall i :: 0 <= i < |vals| ==> deltas[i] + base == vals[i]
  {
    seq<U64>(|vals|, i requires 0 <= i < |vals| => vals[i] - base)
  }

  // A freshly packed payload, wherever it is placed, is such a block.
  lemma {:induction false} FreshBlock(front: seq<U8>, payload: seq<U8>, vals: seq<U64>, deltas: seq<U64>,
                                      base: U64, w: nat)
    requires 0 < |vals| <= BLOCK_SIZE && |deltas| == |vals|
    requires forall i :: 0 <= i < |vals| ==> deltas[i] + base == vals[i]
    requires LegalWidth(w) && |front| < OFFSET_BOUND
    requires AllInRange(Uniform(deltas, w))
    requires |payload| == (|vals| * w + 7) / 8
    requires LeNat(payload) == BitConcat(Uniform(deltas, w))
    ensures BlockHolds(front + payload + Zeros(8), EntryMetaData.New(|front|, w, base), vals)
  {
    hide Pow2, LeNat, BitConcat, TotalBits, ValueAt, Low, EntryMetaData.NumBits, EntryMetaData.Offset,
         EntryMetaData.New, Uniform;
    MetaDataRoundTrip(|front|, w, base);
    var data := front + payload + Zeros(8);
    assert data[|front|..] == payload + Zeros(8);
    UniformBits(Uniform(deltas, w), w);
    BitConcatBound(Uniform(deltas, w));
    SmallWord(LeNat(payload), |vals| * w);
    forall j | 0 <= j < |vals| ensures ValueAt(data[|front|..], w, j) + base == vals[j] {
      ValueInside(|vals|, w, j);
      PackedValue(deltas, w, payload, j);
      ValueAtPrefix(payload, Zeros(8), w, j);
    }
  }

  lemma {:induction false} FreshTight(offset: U64, vals: seq<U64>, w: nat, min: U64, max: U64)
    requires offset < OFFSET_BOUND && min in vals && max in vals
    requires forall i :: 0 <= i < |vals| ==> min <= vals[i] <= max
    requires w <= 64 && forall w' :: LegalWidth(w') && max - min < Pow2(w') ==> w <= w'
    ensures BlockTight(EntryMetaData.New(offset, w, min), vals)
  {
    hide Pow2, EntryMetaData.New, EntryMetaData.NumBits, EntryMetaData.Offset;
    MetaDataRoundTrip(offset, w, min);
  }

  lemma {:induction false} PayloadSize(n: nat, w: nat)
    requires w <= 64
    ensures (n * w + 7) / 8 <= 8 * n
  {
    MulMonotone(w, 64, n);
  }

  // --- the sequence --------------------------------------------------------------------

  ghost predicate AllFull(blocks: seq<seq<U64>>) {
    forall k :: 0 <= k < |blocks| ==> |blocks[k]| == BLOCK_SIZE
  }

  // A partial block is the last one, and nothing was added after it.
  ghost predicate Sealed(blocks: seq<seq<U64>>, buffer: seq<U64>) {
    AllFull(blocks) || (buffer == [] && |blocks| > 0 && AllFull(blocks[..|blocks| - 1]))
  }

  // Behind full blocks, position j of block k is element 128 * k + j.
  lemma {:induction false} FlattenAt(blocks: seq<seq<U64>>, k: nat, j: nat)
    requires k < |blocks| && AllFull(blocks[..k]) && j < |blocks[k]|
    ensures BLOCK_SIZE * k + j < |Flatten(blocks)|
    ensures Flatten(blocks)[BLOCK_SIZE * k + j] == blocks[k][j]
  {
    var n := |blocks| - 1;
    if k < n {
      assert blocks[..n][..k] == blocks[..k];
      FlattenAt(blocks[..n], k, j);
    } else {
      FlattenLength(blocks[..n]);
    }
  }

  lemma {:induction false} FlattenLength(blocks: seq<seq<U64>>)
    requires forall k :: 0 <= k < |blocks| ==> |blocks[k]| <= BLOCK_SIZE
    ensures |Flatten(blocks)| <= BLOCK_SIZE * |blocks|
    ensures |Flatten(blocks)| == BLOCK_SIZE * |blocks| <==> AllFull(blocks)
  {
    if |blocks| > 0 {
      var n := |blocks| - 1;
      FlattenLength(blocks[..n]);
      assert AllFull(blocks) <==> AllFull(blocks[..n]) && |blocks[n]| == BLOCK_SIZE;
    }
  }

  lemma {:induction false} FlattenLast(blocks: seq<seq<U64>>)
    requires |blocks| > 0
    ensures Flatten(blocks) == Flatten(blocks[..|blocks| - 1]) + blocks[|blocks| - 1]
  {
  }

  // The fields of the sequence, as a value.
  datatype Store = Store(compressedBlocks: seq<U8>, buffer: seq<U64>, offsetAndBits: seq<EntryMetaData>) {

    // The read panics when it leaves the data or the buffer.
    predicate Addressable(idx: nat)
    {
      var pos := idx % BLOCK_SIZE;
      if idx / BLOCK_SIZE < |offsetAndBits| then
        var m := offsetAndBits[idx / BLOCK_SIZE];
        && LegalWidth(m.NumBits()) && m.Offset() <= |compressedBlocks|
        && BitUnpacker.New(m.NumBits()).Readable(pos, compressedBlocks[m.Offset()..])
      else
        pos < |buffer|
    }

    // The offset from the base, added to it without a bound.
    function Sum(idx: nat): (r: nat)
      requires Addressable(idx) && idx / BLOCK_SIZE < |offsetAndBits|
    {
      var m := offsetAndBits[idx / BLOCK_SIZE];
      BitUnpacker.New(m.NumBits()).Get(idx % BLOCK_SIZE, compressedBlocks[m.Offset()..]) + m.baseValue
    }

    function Get(idx: nat): (r: U64)
      requires Addressable(idx)
    {
      if idx / BLOCK_SIZE < |offsetAndBits| then Wrap(Sum(idx)) else buffer[idx % BLOCK_SIZE]
    }
  }

  ghost predicate BlocksHold(data: seq<U8>, meta: seq<EntryMetaData>, blocks: seq<seq<U64>>)
  {
    && |blocks| == |meta|
    && forall k :: 0 <= k < |blocks| ==> BlockHolds(data, meta[k], blocks[k]) && BlockTight(meta[k], blocks[k])
  }

  // The store holds the given blocks, and a buffer that is not full.
  ghost predicate Represents(s: Store, blocks: seq<seq<U64>>)
  {
    && |s.compressedBlocks| >= 8
    && |s.buffer| < BLOCK_SIZE
    && BlocksHold(s.compressedBlocks, s.offsetAndBits, blocks)
  }

  class BlockedBitpacker {
    var compressedBlocks: seq<U8>
    var buffer: seq<U64>
    var offsetAndBits: seq<EntryMetaData>
    ghost var blocks: seq<seq<U64>>  // the values of each packed block

    function State(): (s: Store)
      reads this
    {
      Store(compressedBlocks, buffer, offsetAndBits)
    }

    ghost predicate Valid()
      reads this
    {
      Represents(State(), blocks)
    }

    // Everything added so far, in order.
    ghost function Contents(): (vals: seq<U64>)
      reads this
    {
      Flatten(blocks) + buffer
    }

    constructor ()
      ensures Valid() && Contents() == [] && blocks == []
      ensures |compressedBlocks| == 8 && buffer == []
    {
      compressedBlocks := Zeros(8);
      buffer := [];
      offsetAndBits := [];
      blocks := [];
    }

    // Adding keeps every earlier value; blocks stay full.
    method Add(val: U64)
      requires Valid() && |compressedBlocks| <= OFFSET_BOUND
      modifies this
      ensures Valid()
      ensures Contents() == old(Contents()) + [val]
      ensures AllFull(old(blocks)) ==> AllFull(blocks)
      ensures if |old(buffer)| + 1 < BLOCK_SIZE then buffer == old(buffer) + [val] && blocks == old(blocks)
              else buffer == [] && blocks == old(blocks) + [old(buffer) + [val]]
      ensures |compressedBlocks| + 8 * |buffer| <= old(|compressedBlocks| + 8 * |buffer|) + 8
    {
      hide BlockHolds, BlockTight, Flatten;
      buffer := buffer + [val];
      assert Contents() == old(Contents()) + [val];
      if |buffer| == BLOCK_SIZE {
        Pack();
      }
    }

    // The public flush: a partial block is only harmless when nothing is added after it.
    method Flush()
      requires Valid() && |compressedBlocks| <= OFFSET_BOUND
      modifies this
      ensures Valid() && buffer == []
      ensures Contents() == old(Contents())
      ensures AllFull(blocks) <==> AllFull(old(blocks)) && old(buffer) == []
      ensures AllFull(old(blocks)) ==> Sealed(blocks, buffer)
      ensures blocks == if old(buffer) == [] then old(blocks) else old(blocks) + [old(buffer)]
      ensures |compressedBlocks| <= old(|compressedBlocks| + 8 * |buffer|)
    {
      Pack();
      if old(buffer) != [] {
        assert blocks[|blocks| - 1] == old(buffer);
      }
    }

    // The body shared by Add and Flush: pack whatever is in the buffer as one block.
    method Pack()
      requires 8 <= |compressedBlocks| <= OFFSET_BOUND && |buffer| <= BLOCK_SIZE
      requires BlocksHold(compressedBlocks, offsetAndBits, blocks)
      modifies this
      ensures Valid() && buffer == []
      ensures blocks == if old(buffer) == [] then old(blocks) else old(blocks) + [old(buffer)]
      ensures Contents() == old(Contents())
      ensures |compressedBlocks| <= old(|compressedBlocks| + 8 * |buffer|)
    {
      hide Pow2, LeNat, BitConcat, TotalBits, BlockHolds, BlockTight, Flatten, EntryMetaData.New;
      var comparable := Comparable(buffer);
      assert buffer != [] ==> comparable[0].Some?;
      var bounds := MinMax(comparable);
      if bounds.Some? {
        var minValue, maxValue := BoundsInside(buffer, comparable, bounds.value.0, bounds.value.1);
        var numBitsBlock := ComputeNumBits(maxValue - minValue);
        var front := compressedBlocks[..|compressedBlocks| - 8];
        var deltas := Deltas(buffer, minValue);
        var payload := BitPacking.Pack(Uniform(deltas, numBitsBlock));
        UniformBits(Uniform(deltas, numBitsBlock), numBitsBlock);
        FreshBlock(front, payload, buffer, deltas, minValue, numBitsBlock);
        FreshTight(|front|, buffer, numBitsBlock, minValue, maxValue);
        PayloadSize(|buffer|, numBitsBlock);
        Append(front, payload, EntryMetaData.New(|front|, numBitsBlock, minValue));
      }
    }

    method Append(front: seq<U8>, payload: seq<U8>, m: EntryMetaData)
      requires |compressedBlocks| >= 8 && BlocksHold(compressedBlocks, offsetAndBits, blocks)
      requires front == compressedBlocks[..|compressedBlocks| - 8]
      requires BlockHolds(front + payload + Zeros(8), m, buffer) && BlockTight(m, buffer)
      modifies this
      ensures Valid() && buffer == []
      ensures blocks == old(blocks) + [old(buffer)]
      ensures Contents() == old(Contents())
      ensures |compressedBlocks| == old(|compressedBlocks|) + |payload|
    {
      hide BlockHolds, BlockTight;
      var data := front + payload + Zeros(8);
      forall k | 0 <= k < |blocks| ensures BlockHolds(data, offsetAndBits[k], blocks[k]) {
        BlockStable(compressedBlocks, data, offsetAndBits[k], blocks[k]);
      }
      blocks := blocks + [buffer];
      assert blocks[..|blocks| - 1] == old(blocks);
      compressedBlocks := data;
      offsetAndBits := offsetAndBits + [m];
      buffer := [];
    }

    // 128 reads per block followed by the buffered values: everything that was added exactly
    // when no partial block was flushed.
    method Iter() returns (vals: seq<nat>)
      requires Valid() && forall idx: nat :: idx < |offsetAndBits| * BLOCK_SIZE ==> State().Addressable(idx)
      ensures |vals| == |offsetAndBits| * BLOCK_SIZE + |buffer|
      ensures forall idx :: 0 <= idx < |offsetAndBits| * BLOCK_SIZE ==> vals[idx] == State().Get(idx)
      ensures vals[|offsetAndBits| * BLOCK_SIZE..] == buffer
      ensures vals == Contents() <==> AllFull(blocks)
    {
      hide Pow2, ValueAt, EntryMetaData.NumBits, EntryMetaData.Offset, BlockHolds, BitUnpacker.Get, Flatten,
           Store.Get, Store.Addressable, BlockTight;
      vals := [];
      var bitpackedElems := |offsetAndBits| * BLOCK_SIZE;
      var idx := 0;
      while idx < bitpackedElems
        invariant 0 <= idx <= bitpackedElems && |vals| == idx
        invariant forall i :: 0 <= i < idx ==> vals[i] == State().Get(i)
      {
        vals := vals + [State().Get(idx)];
        idx := idx + 1;
      }
      IterLengthExact(State(), blocks);
      if AllFull(blocks) {
        forall i | 0 <= i < bitpackedElems ensures vals[i] == Contents()[i] {
          GetIsContents(State(), blocks, i);
        }
      }
      vals := vals + buffer;
    }
  }

  // The bounds found among comparable values are values of the buffer.
  method BoundsInside(vals: seq<U64>, comparable: seq<Option<nat>>, min: nat, max: nat) returns (lo: U64, hi: U64)
    requires |comparable| == |vals| && forall i :: 0 <= i < |vals| ==> comparable[i] == Some(vals[i])
    requires Some(min) in comparable && Some(max) in comparable
    requires forall i :: 0 <= i < |comparable| && comparable[i].Some? ==> min <= comparable[i].value <= max
    ensures lo == min && hi == max
    ensures lo in vals && hi in vals && forall i :: 0 <= i < |vals| ==> lo <= vals[i] <= hi
  {
    lo, hi := min, max;
  }

  // --- reading ---------------------------------------------------------------------------

  lemma {:induction false} BlockRead(data: seq<U8>, m: EntryMetaData, vals: seq<U64>, pos: U32)
    requires BlockHolds(data, m, vals) && pos < |vals|
    ensures LegalWidth(m.NumBits()) && m.Offset() <= |data|
    ensures pos * m.NumBits() / 8 + 8 <= |data[m.Offset()..]|
    ensures var u := BitUnpacker.New(m.NumBits());
            && u.Readable(pos, data[m.Offset()..])
            && u.Get(pos, data[m.Offset()..]) + m.baseValue == vals[pos]
  {
    hide Pow2, ValueAt, EntryMetaData.NumBits, EntryMetaData.Offset, BitUnpacker.Get, BitUnpacker.New;
    var w := m.NumBits();
    assert pos * w / 8 + 8 <= |data[m.Offset()..]| by {
      ValueInside(|vals|, w, pos);
    }
    GetReads(BitUnpacker.New(w), pos, data[m.Offset()..]);
  }

  // A read inside a packed block takes the eight-byte path, cannot overflow when the base
  // is added, and returns the value of the block.
  lemma {:induction false} PackedRead(s: Store, blocks: seq<seq<U64>>, idx: nat)
    requires Represents(s, blocks) && idx / BLOCK_SIZE < |blocks|
    requires idx % BLOCK_SIZE < |blocks[idx / BLOCK_SIZE]|
    ensures s.Addressable(idx) && s.Sum(idx) < U64_BOUND
    ensures s.Get(idx) == blocks[idx / BLOCK_SIZE][idx % BLOCK_SIZE]
    ensures var m := s.offsetAndBits[idx / BLOCK_SIZE];
            (idx % BLOCK_SIZE) * m.NumBits() / 8 + 8 <= |s.compressedBlocks[m.Offset()..]|
  {
    hide BlockHolds, EntryMetaData.NumBits, EntryMetaData.Offset, BitUnpacker.Get, BitUnpacker.Readable,
         BitUnpacker.New, LegalWidth;
    var k := idx / BLOCK_SIZE;
    BlockRead(s.compressedBlocks, s.offsetAndBits[k], blocks[k], idx % BLOCK_SIZE);
  }

  // Behind a sealed sequence of blocks, get(i) is the i-th value.
  lemma {:induction false} GetIsContents(s: Store, blocks: seq<seq<U64>>, idx: nat)
    requires Represents(s, blocks) && Sealed(blocks, s.buffer) && idx < |Flatten(blocks) + s.buffer|
    ensures s.Addressable(idx) && s.Get(idx) == (Flatten(blocks) + s.buffer)[idx]
  {
    hide Pow2, ValueAt, EntryMetaData.NumBits, EntryMetaData.Offset, BlockHolds, BlockTight, BitUnpacker.Get, Flatten;
    var k, n := idx / BLOCK_SIZE, |blocks|;
    BlockSizes(s, blocks);
    FlattenLength(blocks);
    if k < n {
      if k == n - 1 {
        FlattenLast(blocks);
        FlattenLength(blocks[..k]);
      }
      PackedRead(s, blocks, idx);
      FlattenAt(blocks, k, idx % BLOCK_SIZE);
    }
  }

  lemma {:induction false} BlockSizes(s: Store, blocks: seq<seq<U64>>)
    requires Represents(s, blocks)
    ensures forall k :: 0 <= k < |blocks| ==> 0 < |blocks[k]| <= BLOCK_SIZE
  {
    hide BlockTight;
    forall k | 0 <= k < |blocks| ensures 0 < |blocks[k]| <= BLOCK_SIZE {
    }
  }

  // `iter` visits 128 indices per block: as many as there are values exactly when no
  // partial block was flushed.
  lemma {:induction false} IterLengthExact(s: Store, blocks: seq<seq<U64>>)
    requires Represents(s, blocks)
    ensures |s.offsetAndBits| * BLOCK_SIZE + |s.buffer| == |Flatten(blocks) + s.buffer| <==> AllFull(blocks)
  {
    hide BlockHolds, BlockTight, Flatten;
    BlockSizes(s, blocks);
    FlattenLength(blocks);
  }

  // --- reading past a partial block ------------------------------------------------------

  ghost predicate Constant(vals: seq<U64>, v: U64) {
    forall j :: 0 <= j < |vals| ==> vals[j] == v
  }

  // Every position of a block of equal values, up to 128, reads as that value.
  lemma {:induction false} ConstantBlockRead(s: Store, blocks: seq<seq<U64>>, idx: nat, v: U64)
    requires Represents(s, blocks) && idx / BLOCK_SIZE < |blocks| && Constant(blocks[idx / BLOCK_SIZE], v)
    ensures s.Addressable(idx) && s.Get(idx) == v
  {
    hide EntryMetaData.Offset;
    var k := idx / BLOCK_SIZE;
    var m := s.offsetAndBits[k];
    assert BlockTight(m, blocks[k]) && m.Offset() <= |s.compressedBlocks|;
  }

  // What was packed or buffered next.
  ghost function Following(blocks: seq<seq<U64>>, buffer: seq<U64>, k: nat): (vals: seq<U64>)
    requires k < |blocks|
  {
    if k + 1 < |blocks| then blocks[k + 1] else buffer
  }

  // The value added right after a partial block has the index of the first position that
  // the block does not fill.
  lemma {:induction false} FirstAfter(blocks: seq<seq<U64>>, buffer: seq<U64>, k: nat)
    requires k < |blocks| && AllFull(blocks[..k])
    requires forall j :: 0 <= j < |blocks| ==> 0 < |blocks[j]| <= BLOCK_SIZE
    requires Following(blocks, buffer, k) != []
    ensures var i := BLOCK_SIZE * k + |blocks[k]|;
            && i < |Flatten(blocks) + buffer|
            && (Flatten(blocks) + buffer)[i] == Following(blocks, buffer, k)[0]
  {
    hide Flatten;
    FlattenLength(blocks[..k]);
    FlattenLast(blocks[..k + 1]);
    assert blocks[..k + 1][..k] == blocks[..k];
    if k + 1 < |blocks| {
      FlattenLast(blocks[..k + 2]);
      assert blocks[..k + 2][..k + 1] == blocks[..k + 1];
      FlattenPrefix(blocks, k + 2);
    } else {
      assert blocks[..k + 1] == blocks;
    }
  }

  lemma {:induction false} FlattenPrefix(blocks: seq<seq<U64>>, n: nat)
    requires n <= |blocks|
    ensures Flatten(blocks[..n]) <= Flatten(blocks)
  {
    if n == |blocks| {
      assert blocks[..n] == blocks;
    } else {
      var m := |blocks| - 1;
      FlattenPrefix(blocks[..m], n);
      assert blocks[..m][..n] == blocks[..n];
    }
  }

  // At index i the value `added` was added, and `got` is read.
  ghost predicate ReadsInstead(s: Store, vals: seq<U64>, i: nat, got: U64, added: U64) {
    s.Addressable(i) && s.Get(i) == got && i < |vals| && vals[i] == added
  }

  // After a partial block of equal values, the next value is read as that of the block.
  lemma {:induction false} PartialBlockMisreads(s: Store, blocks: seq<seq<U64>>, k: nat, v: U64)
    requires Represents(s, blocks) && k < |blocks| && AllFull(blocks[..k])
    requires |blocks[k]| < BLOCK_SIZE && Constant(blocks[k], v)
    requires Following(blocks, s.buffer, k) != []
    ensures ReadsInstead(s, Flatten(blocks) + s.buffer, BLOCK_SIZE * k + |blocks[k]|,
                         v, Following(blocks, s.buffer, k)[0])
  {
    hide Represents, Flatten, Constant;
    BlockSizes(s, blocks);
    FirstAfter(blocks, s.buffer, k);
    ConstantBlockRead(s, blocks, BLOCK_SIZE * k + |blocks[k]|, v);
  }
}
