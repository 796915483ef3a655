/** The bit packing writer: values of mixed widths are stacked, least significant digit
first, into a 64-bit carry buffer that is emitted eight bytes at a time.
 */
module BitPacking {
  import opened Bits

  // A value together with the number of bits it is written on.
  datatype Item = Item(val: U64, numBits: nat) {
    predicate InRange() {
      numBits <= 64 && val < Pow2(numBits)
    }
  }

  ghost predicate AllInRange(items: seq<Item>) {
    forall i :: 0 <= i < |items| ==> items[i].InRange()
  }

  ghost function TotalBits(items: seq<Item>): (n: nat)
  {
    if |items| == 0 then 0 else items[0].numBits + TotalBits(items[1..])
  }

  // The little-endian bit concatenation: the first item holds the lowest digits.
  ghost function BitConcat(items: seq<Item>): (n: nat)
  {
    if |items| == 0 then 0 else items[0].val + Shl(BitConcat(items[1..]), items[0].numBits)
  }

  lemma {:induction false} TotalBitsAppend(items: seq<Item>, last: Item)
    ensures TotalBits(items + [last]) == TotalBits(items) + last.numBits
  {
    if |items| == 0 {
      assert items + [last] == [last];
    } else {
      TotalBitsAppend(items[1..], last);
      assert (items + [last])[1..] == items[1..] + [last];
    }
  }

  lemma {:induction false} BitConcatAppend(items: seq<Item>, last: Item)
    ensures BitConcat(items + [last]) == BitConcat(items) + Shl(last.val, TotalBits(items))
  {
    if |items| == 0 {
      assert items + [last] == [last];
      ShlZero(last.numBits);
      assert BitConcat([last]) == last.val + Shl(BitConcat([last][1..]), last.numBits);
    } else {
      var rest, w := items[1..], items[0].numBits;
      BitConcatAppend(rest, last);
      assert (items + [last])[1..] == rest + [last];
      ShlAdd(BitConcat(rest), Shl(last.val, TotalBits(rest)), w);
      ShlShl(last.val, TotalBits(rest), w);
    }
  }

  // Every item can be read back from its own window of digits.
  lemma {:induction false} BitConcatWindow(items: seq<Item>, i: nat)
    requires AllInRange(items) && i < |items|
    ensures Extract(BitConcat(items), TotalBits(items[..i]), items[i].numBits) == items[i].val
  {
    var first, rest := items[0], items[1..];
    var high := BitConcat(rest);
    SplitAt(first.val, high, first.numBits);
    if i > 0 {
      BitConcatWindow(rest, i - 1);
      assert items[..i][1..] == rest[..i - 1];
      ExtractHigh(first.val, high, first.numBits, TotalBits(rest[..i - 1]), rest[i - 1].numBits);
    }
  }

  lemma {:induction false} LowOfShl(x: nat, s: nat, m: nat)
    requires s <= m
    ensures Low(Shl(x, s), m) == Shl(Low(x, m - s), s)
    decreases s
  {
    if s > 0 {
      LowOfShl(x, s - 1, m - 1);
    }
  }

  // Stacking val on top of s digits: the 64-bit word keeps the low digits, the rest carries.
  lemma {:induction false} CarryOut(buf: U64, val: U64, s: nat)
    requires s <= 64 && buf < Pow2(s)
    ensures Or(buf, Shl64(val, s)) < U64_BOUND
    ensures Or(buf, Shl64(val, s)) + Shl(Shr(val, 64 - s), 64) == buf + Shl(val, s)
  {
    var kept, carry := Low(val, 64 - s), Shr(val, 64 - s);
    assert Shl64(val, s) == Shl(kept, s) by { LowOfShl(val, s, 64); }
    OrDisjoint(buf, kept, s);
    JoinBound(buf, kept, s, 64 - s);
    Pow2Literals();
    assert Shl(val, s) == Shl(kept, s) + Shl(carry, 64) by {
      JoinAt(val, 64 - s);
      ShlAdd(kept, Shl(carry, 64 - s), s);
      ShlShl(carry, 64 - s, s);
    }
  }

  lemma {:induction false} ShrBound(x: nat, w: nat, s: nat)
    requires s <= w && x < Pow2(w)
    ensures Shr(x, s) < Pow2(w - s)
    decreases s
  {
    if s > 0 {
      ShrBound(x / 2, w - 1, s - 1);
    }
  }

  lemma {:induction false} LeNatWord(x: U64)
    ensures LeNat(ToLe(x, 8)) == x
  {
    Pow2Literals();
    LeNatOfWord(x, 8);
  }

  lemma {:induction false} EmptyCarry(buf: nat)
    ensures LeNat([]) == 0 && Shl(buf, 0) == buf && Pow2(0) == 1
  {
  }

  // The value overflows the buffer: a full word leaves, the digits above it carry.
  lemma {:induction false} Spill(buf: U64, val: U64, s: nat, n: nat)
    requires s < 64 && n <= 64 && s + n > 64 && buf < Pow2(s) && val < Pow2(n)
    ensures Or(buf, Shl64(val, s)) < U64_BOUND
    ensures Shr(val, 64 - s) < Pow2(s + n - 64) && Shr(val, 64 - s) < U64_BOUND
    ensures LeNat(ToLe(Or(buf, Shl64(val, s)), 8)) + Shl(Shr(val, 64 - s), 64) == buf + Shl(val, s)
  {
    CarryOut(buf, val, s);
    LeNatWord(Or(buf, Shl64(val, s)));
    ShrBound(val, n, 64 - s);
    Pow2Monotone(s + n - 64, 64);
    Pow2Literals();
  }

  // The value fits on top of the buffer.
  lemma {:induction false} Fit(buf: U64, val: U64, s: nat, n: nat)
    requires s + n <= 64 && buf < Pow2(s) && val < Pow2(n)
    ensures Or(buf, Shl64(val, s)) == buf + Shl(val, s) < Pow2(s + n) <= U64_BOUND
  {
    CarryOut(buf, val, s);
    Pow2Monotone(n, 64 - s);
    SmallWord(val, 64 - s);
    ShlZero(64);
    JoinBound(buf, val, s, n);
    Pow2Monotone(s + n, 64);
    Pow2Literals();
  }

  class BitPacker {
    var miniBuffer: U64
    var miniBufferWritten: nat

    ghost predicate Valid()
      reads this
    {
      miniBufferWritten < 64 && miniBuffer < Pow2(miniBufferWritten)
    }

    // The bytes emitted so far and the carry buffer hold exactly the given items.
    ghost predicate Represents(out: seq<U8>, items: seq<Item>)
      reads this
    {
      && Valid()
      && 8 * |out| + miniBufferWritten == TotalBits(items)
      && LeNat(out) + Shl(miniBuffer, 8 * |out|) == BitConcat(items)
    }

    constructor ()
      ensures Valid()
      ensures miniBuffer == 0 && miniBufferWritten == 0
    {
      miniBuffer := 0;
      miniBufferWritten := 0;
    }

    // `emitted` is what the call appends to the output.  The old carry with the value
    // stacked on top is split between the emitted bytes and the new carry.
    method Write(val: U64, numBits: nat) returns (emitted: seq<U8>)
      requires Valid()
      requires Item(val, numBits).InRange()
      modifies this
      ensures Valid()
      ensures |emitted| == 0 || |emitted| == 8
      ensures 8 * |emitted| + miniBufferWritten == old(miniBufferWritten) + numBits
      ensures LeNat(emitted) + Shl(miniBuffer, 8 * |emitted|)
           == old(miniBuffer) + Shl(val, old(miniBufferWritten))
    {
      hide Pow2, Shl, Shr, Low, LeNat, ToLe, Or;
      ghost var buf, s := miniBuffer, miniBufferWritten;
      if miniBufferWritten + numBits > 64 {
        Spill(buf, val, s, numBits);
        assert s % 64 == s && (64 - s) % 64 == 64 - s;
        // wrapping_shl and wrapping_shr take the shift modulo 64
        miniBuffer := Or(miniBuffer, Shl64(val, miniBufferWritten % 64));
        emitted := ToLe(miniBuffer, 8);
        miniBuffer := Shr(val, (64 - miniBufferWritten) % 64);
        miniBufferWritten := miniBufferWritten + numBits - 64;
        assert LeNat(emitted) + Shl(miniBuffer, 64) == buf + Shl(val, s);
      } else {
        Fit(buf, val, s, numBits);
        miniBuffer := Or(miniBuffer, Shl64(val, miniBufferWritten));
        miniBufferWritten := miniBufferWritten + numBits;
        emitted := [];
        if miniBufferWritten == 64 {
          emitted := ToLe(miniBuffer, 8);
          LeNatWord(miniBuffer);
          ShlZero(64);
          miniBufferWritten := 0;
          miniBuffer := 0;
        }
        EmptyCarry(miniBuffer);
      }
    }

    // Emits the carry on as few bytes as hold it.
    method Flush() returns (emitted: seq<U8>)
      requires Valid()
      modifies this
      ensures miniBuffer == 0 && miniBufferWritten == 0
      ensures |emitted| == (old(miniBufferWritten) + 7) / 8
      ensures LeNat(emitted) == old(miniBuffer)
    {
      emitted := [];
      if miniBufferWritten > 0 {
        var numBytes := (miniBufferWritten + 7) / 8;
        var bytes := ToLe(miniBuffer, 8);
        emitted := bytes[..numBytes];
        ToLePrefix(miniBuffer, numBytes, 8);
        LeNatToLe(miniBuffer, numBytes);
        Pow2Monotone(miniBufferWritten, 8 * numBytes);
        SmallWord(miniBuffer, 8 * numBytes);
        miniBufferWritten := 0;
        miniBuffer := 0;
      }
    }
  }

  // Moving k digits out of the carry leaves the stacked number unchanged.
  lemma {:induction false} Restack(low: nat, n: nat, buf: nat, val: nat, w: nat, out: nat, k: nat, buf': nat)
    requires out + Shl(buf', k) == buf + Shl(val, w)
    ensures low + Shl(out, n) + Shl(buf', n + k) == low + Shl(buf, n) + Shl(val, n + w)
  {
    ShlAdd(out, Shl(buf', k), n);
    ShlShl(buf', k, n);
    ShlAdd(buf, Shl(val, w), n);
    ShlShl(val, w, n);
  }

  // One write preserves the representation of the whole run.
  lemma {:induction false} RunStep(out: seq<U8>, items: seq<Item>, buf: nat, written: nat,
                                   item: Item, emitted: seq<U8>, buf': nat, written': nat)
    requires 8 * |out| + written == TotalBits(items)
    requires LeNat(out) + Shl(buf, 8 * |out|) == BitConcat(items)
    requires 8 * |emitted| + written' == written + item.numBits
    requires LeNat(emitted) + Shl(buf', 8 * |emitted|) == buf + Shl(item.val, written)
    ensures 8 * |out + emitted| + written' == TotalBits(items + [item])
    ensures LeNat(out + emitted) + Shl(buf', 8 * |out + emitted|) == BitConcat(items + [item])
  {
    hide *;
    var n := |out| + |emitted|;
    assert |out + emitted| == n && 8 * n == 8 * |out| + 8 * |emitted|;
    TotalBitsAppend(items, item);
    BitConcatAppend(items, item);
    LeNatConcat(out, emitted);
    Restack(LeNat(out), 8 * |out|, buf, item.val, written, LeNat(emitted), 8 * |emitted|, buf');
  }

  // Any run of writes on a packer that already holds `before` in `out`.
  method WriteAll(packer: BitPacker, out: seq<U8>, ghost before: seq<Item>, items: seq<Item>)
    returns (out': seq<U8>)
    requires packer.Represents(out, before)
    requires AllInRange(items)
    modifies packer
    ensures out <= out'
    ensures packer.Represents(out', before + items)
  {
    out' := out;
    var i := 0;
    assert before + items[..0] == before;
    while i < |items|
      invariant i <= |items|
      invariant out <= out'
      invariant packer.Represents(out', before + items[..i])
    {
      ghost var buf, written := packer.miniBuffer, packer.miniBufferWritten;
      var emitted := packer.Write(items[i].val, items[i].numBits);
      RunStep(out', before + items[..i], buf, written,
              items[i], emitted, packer.miniBuffer, packer.miniBufferWritten);
      out' := out' + emitted;
      assert before + items[..i] + [items[i]] == before + items[..i + 1];
      i := i + 1;
    }
    assert items[..i] == items;
  }

  // A complete run: the output is the concatenation of all items on ceil(bits / 8) bytes.
  method Pack(items: seq<Item>) returns (out: seq<U8>)
    requires AllInRange(items)
    ensures |out| == (TotalBits(items) + 7) / 8
    ensures LeNat(out) == BitConcat(items)
  {
    var packer := new BitPacker();
    ShlZero(0);
    out := WriteAll(packer, [], [], items);
    assert [] + items == items;
    ghost var body := out;
    var last := packer.Flush();
    LeNatConcat(body, last);
    out := out + last;
  }
}
