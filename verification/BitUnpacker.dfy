/** The one-value reader, and the eight-byte loads all readers are made of.

The reference reading is `ValueAt`: value i of width w is the window of w digits that
starts at digit i * w of the little-endian number of the data.  All readers are proved
equal to it; every unchecked eight-byte load goes through `Load`, whose precondition is
that the eight bytes lie inside the data.
 */
module BitUnpacking {
  import opened Bits

  function ValueAt(data: seq<U8>, w: nat, i: nat): (v: nat)
    ensures v < Pow2(w)
  {
    Extract(LeNat(data), i * w, w)
  }

  // Widths of 57 to 63 bits are refused: such a value may straddle nine bytes.
  predicate LegalWidth(w: nat) {
    w <= 56 || w == 64
  }

  // --- arithmetic of the addresses ---------------------------------------------------

  lemma {:induction false} Address(i: nat, k: nat, w: nat)
    ensures (i + k) * w == i * w + k * w
    ensures 0 <= i * w <= (i + k) * w
  {
  }

  // How many values of width w one eight-byte load can hold, wherever the first one starts.
  predicate LoadHolds(n: nat, w: nat) {
    || (n == 1 && LegalWidth(w))
    || (n == 2 && (w <= 28 || w == 32))
    || (n == 4 && (w <= 14 || w == 16))
    || (n == 8 && w <= 8)
  }

  lemma {:induction false} ByteAligned(idx: nat, k: nat)
    ensures (idx * (8 * k)) % 8 == 0
  {
    assert idx * (8 * k) == 8 * (idx * k);
  }

  lemma {:induction false} LoadHoldsBound(n: nat, w: nat, idx: nat)
    requires LoadHolds(n, w)
    ensures (idx * w) % 8 + n * w <= 64
  {
    ByteAligned(idx, w / 8);
    var t, c := idx * w, n * w;
    if n == 1 {
      assert c == w;
    } else if n == 2 {
      assert c == 2 * w;
    } else if n == 4 {
      assert c == 4 * w;
    } else {
      assert c == 8 * w;
    }
  }

  // --- eight-byte loads --------------------------------------------------------------

  // The word of eight bytes at bit_addr >> 3, shifted down to the first requested digit.
  function Load(data: seq<U8>, bitAddr: nat): (packed: nat)
    requires bitAddr / 8 + 8 <= |data|
  {
    Shr(LeNat(data[bitAddr / 8..bitAddr / 8 + 8]), bitAddr % 8)
  }

  // Any digits that end within the loaded word are digits of the data.
  lemma {:induction false} LoadWindow(data: seq<U8>, bitAddr: nat, s: nat, w: nat)
    requires bitAddr / 8 + 8 <= |data|
    requires bitAddr % 8 + s + w <= 64
    ensures Extract(Load(data, bitAddr), s, w) == Extract(LeNat(data), bitAddr + s, w)
  {
    hide *;
    var a, b := bitAddr / 8, bitAddr % 8;
    var word := LeNat(data[a..a + 8]);
    LoadIs(data, bitAddr);
    LeNatSlice(data, a, 8);
    ExtractIs(Shr(word, b), s, w);
    ShrShr(word, b, s);
    ExtractIs(word, b + s, w);
    ExtractExtract(LeNat(data), 8 * a, 64, b + s, w);
  }

  lemma {:induction false} LoadIs(data: seq<U8>, bitAddr: nat)
    requires bitAddr / 8 + 8 <= |data|
    ensures Load(data, bitAddr) == Shr(LeNat(data[bitAddr / 8..bitAddr / 8 + 8]), bitAddr % 8)
  {
  }

  lemma {:induction false} ExtractIs(x: nat, s: nat, w: nat)
    ensures Extract(x, s, w) == Low(Shr(x, s), w)
  {
  }

  // Bytes missing at the end read as zero digits.
  lemma {:induction false} TailWindow(data: seq<U8>, addr: nat, padding: seq<U8>, s: nat, w: nat)
    requires addr <= |data|
    requires forall i :: 0 <= i < |padding| ==> padding[i] == 0
    ensures Extract(LeNat(data[addr..] + padding), s, w) == Extract(LeNat(data), 8 * addr + s, w)
  {
    hide *;
    var n := |data| - addr;
    LeNatConcat(data[addr..], padding);
    LeNatZeros(padding);
    ShlZero(8 * n);
    assert data[addr..addr + n] == data[addr..];
    LeNatSlice(data, addr, n);
    LeNatSplitHigh(data, addr);
    ShrShr(LeNat(data), 8 * addr, s);
    ExtractIs(LeNat(data[addr..]), s, w);
    ExtractIs(LeNat(data), 8 * addr + s, w);
  }

  lemma {:induction false} LeNatSplitHigh(data: seq<U8>, addr: nat)
    requires addr <= |data|
    ensures Shr(LeNat(data), 8 * addr) == LeNat(data[addr..])
  {
    hide *;
    assert data == data[..addr] + data[addr..];
    LeNatSplit(data[..addr], data[addr..]);
  }

  // --- one value ---------------------------------------------------------------------

  datatype BitUnpacker = BitUnpacker(numBits: nat, mask: U64) {

    predicate Valid() {
      LegalWidth(numBits) && mask == Pow2(numBits) - 1
    }

    static function New(numBits: nat): (u: BitUnpacker)
      requires LegalWidth(numBits)
      ensures u.Valid() && u.numBits == numBits
    {
      Pow2Literals();
      Pow2Monotone(numBits, 64);
      Pow2AsShl(numBits);
      SmallWord(Pow2(numBits), if numBits == 64 then 65 else 64);
      BitUnpacker(numBits, if numBits == 64 then Not(0, 64) else Shl64(1, numBits) - 1)
    }

    static function GetSlowPath(mask: U64, addr: nat, bitShift: nat, data: seq<U8>): (r: nat)
      requires addr <= |data| < addr + 8
    {
      var available := |data| - addr;
      var bytes := data[addr..] + Zeros(8 - available);
      And(Shr(LeNat(bytes), bitShift), mask)
    }

    // An address past the end of the data makes the slow path panic.
    predicate Readable(idx: nat, data: seq<U8>) {
      numBits == 0 || idx * numBits / 8 <= |data|
    }

    function Get(idx: U32, data: seq<U8>): (r: nat)
      requires Valid()
      requires Readable(idx, data)
    {
      var addrInBits := idx * numBits;
      var addr := addrInBits / 8;
      if addr + 8 > |data| then
        if numBits == 0 then 0 else GetSlowPath(mask, addr, addrInBits % 8, data)
      else
        And(Load(data, addrInBits), mask)
    }
  }

  // The one-value reader, on the fast path and on the zero-padded tail.
  lemma {:induction false} GetReads(u: BitUnpacker, idx: U32, data: seq<U8>)
    requires u.Valid() && u.Readable(idx, data)
    ensures u.Get(idx, data) == ValueAt(data, u.numBits, idx)
  {
    hide And, Shr, Low, Extract, LeNat, Load, Pow2, BitUnpacker.GetSlowPath;
    var addr := idx * u.numBits / 8;
    if addr + 8 > |data| {
      if u.numBits == 0 {
        ZeroWidth(data, idx);
      } else {
        SlowPathReads(u, idx * u.numBits, data);
      }
    } else {
      DecodeFirst(u, data, idx * u.numBits, idx);
    }
  }

  lemma {:induction false} ZeroWidth(data: seq<U8>, i: nat)
    ensures ValueAt(data, 0, i) == 0
  {
  }

  lemma {:induction false} MaskIs(u: BitUnpacker, x: nat)
    requires u.Valid()
    ensures And(x, u.mask) == Low(x, u.numBits)
  {
    AndMask(x, u.numBits);
  }

  lemma {:induction false} MaskedLoad(u: BitUnpacker, data: seq<U8>, bitAddr: nat, s: nat)
    requires u.Valid() && bitAddr / 8 + 8 <= |data|
    requires bitAddr % 8 + s + u.numBits <= 64
    ensures And(Shr(Load(data, bitAddr), s), u.mask) == Extract(LeNat(data), bitAddr + s, u.numBits)
  {
    hide *;
    LoadWindow(data, bitAddr, s, u.numBits);
    ExtractIs(Load(data, bitAddr), s, u.numBits);
    MaskIs(u, Shr(Load(data, bitAddr), s));
  }

  lemma {:induction false} ValueIsWindow(data: seq<U8>, w: nat, i: nat)
    ensures ValueAt(data, w, i) == Extract(LeNat(data), i * w, w)
  {
  }

  // Value i of a load that holds n values starting with value idx.
  lemma {:induction false} Decode(u: BitUnpacker, data: seq<U8>, bitAddr: nat, n: nat, i: nat, idx: nat)
    requires u.Valid() && LoadHolds(n, u.numBits) && i < n
    requires bitAddr == idx * u.numBits && bitAddr / 8 + 8 <= |data|
    ensures And(Shr(Load(data, bitAddr), i * u.numBits), u.mask) == ValueAt(data, u.numBits, idx + i)
  {
    hide *;
    var w := u.numBits;
    ValueIsWindow(data, w, idx + i);
    assert bitAddr % 8 + i * w + w <= 64 by {
      LoadHoldsBound(n, w, idx);
      MulMonotone(i + 1, n, w);
      Address(i, 1, w);
    }
    MaskedLoad(u, data, bitAddr, i * w);
    assert bitAddr + i * w == (idx + i) * w by { Address(idx, i, w); }
  }

  lemma {:induction false} DecodeFirst(u: BitUnpacker, data: seq<U8>, bitAddr: nat, idx: nat)
    requires u.Valid() && bitAddr == idx * u.numBits && bitAddr / 8 + 8 <= |data|
    ensures And(Load(data, bitAddr), u.mask) == ValueAt(data, u.numBits, idx)
  {
    Decode(u, data, bitAddr, 1, 0, idx);
  }

  lemma {:induction false} SlowPathIs(mask: U64, addr: nat, bitShift: nat, data: seq<U8>)
    requires addr <= |data| < addr + 8
    ensures BitUnpacker.GetSlowPath(mask, addr, bitShift, data)
         == And(Shr(LeNat(data[addr..] + Zeros(8 - (|data| - addr))), bitShift), mask)
  {
  }

  lemma {:induction false} SlowPathReads(u: BitUnpacker, bitAddr: nat, data: seq<U8>)
    requires u.Valid() && bitAddr / 8 <= |data| < bitAddr / 8 + 8
    ensures BitUnpacker.GetSlowPath(u.mask, bitAddr / 8, bitAddr % 8, data)
         == Extract(LeNat(data), bitAddr, u.numBits)
  {
    hide *;
    var addr := bitAddr / 8;
    var padding := Zeros(8 - (|data| - addr));
    var bytes := data[addr..] + padding;
    TailWindow(data, addr, padding, bitAddr % 8, u.numBits);
    assert 8 * addr + bitAddr % 8 == bitAddr;
    ExtractIs(LeNat(bytes), bitAddr % 8, u.numBits);
    MaskIs(u, Shr(LeNat(bytes), bitAddr % 8));
    SlowPathIs(u.mask, addr, bitAddr % 8, data);
  }
}
