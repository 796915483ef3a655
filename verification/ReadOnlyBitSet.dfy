/** The serialized bitset: four bytes of capacity, then eight little-endian bytes per word.
The reader answers membership from single bytes, and lengths and iteration from words.
 */
module ReadOnlyBitSets {
  import opened Collections
  import opened Bits
  import opened TinySets
  import opened BitSets

  // --- byte image ------------------------------------------------------------------------

  function WordBytes(words: seq<TinySet>): (bytes: seq<U8>)
    ensures |bytes| == 8 * |words|
  {
    if |words| == 0 then [] else WordBytes(words[..|words| - 1]) + ToLe(words[|words| - 1], 8)
  }

  function Image(maxValue: U32, words: seq<TinySet>): (bytes: seq<U8>)
  {
    ToLe(maxValue, 4) + WordBytes(words)
  }

  method Serialize(b: BitSet) returns (out: seq<U8>)
    ensures out == Image(b.maxValue, b.tinysets[..])
  {
    out := ToLe(b.maxValue, 4);
    var k := 0;
    while k < b.tinysets.Length
      invariant 0 <= k <= b.tinysets.Length
      invariant out == Image(b.maxValue, b.tinysets[..k])
    {
      assert b.tinysets[..k + 1][..k] == b.tinysets[..k];
      out := out + ToLe(b.tinysets[k], 8);
      k := k + 1;
    }
    assert b.tinysets[..k] == b.tinysets[..];
  }

  function WordAt(data: seq<U8>, k: nat): (t: TinySet)
    requires 8 * k + 8 <= |data|
  {
    LeNatBound(data[8 * k..8 * k + 8]);
    Pow2Literals();
    LeNat(data[8 * k..8 * k + 8])
  }

  datatype ReadOnlyBitSet = ReadOnlyBitSet(data: seq<U8>, maxValue: U32) {

    static function Open(bytes: seq<U8>): (r: ReadOnlyBitSet)
      requires |bytes| >= 4 && (|bytes| - 4) % 8 == 0
    {
      LeNatBound(bytes[..4]);
      Pow2Literals();
      ReadOnlyBitSet(bytes[4..], LeNat(bytes[..4]))
    }

    // The words decoded on the fly; bytes that do not fill a word are ignored.
    function TinySets(): (words: seq<TinySet>)
      ensures |words| == |data| / 8
      ensures forall k :: 0 <= k < |words| ==> words[k] == WordAt(data, k)
    {
      seq<TinySet>(|data| / 8, k requires 0 <= k < |data| / 8 => WordAt(data, k))
    }

    predicate Contains(el: U32)
      requires el / 8 < |data|
    {
      And(data[el / 8], Shl(1, el % 8)) != 0
    }

    function Len(): (n: nat) {
      SumLen(TinySets())
    }

    ghost function Set(): (s: set<nat>) {
      Elements(TinySets())
    }
  }

  // --- the byte-level view agrees with the word-level view ---------------------------------

  lemma {:induction false} BitOfLeNat(bytes: seq<U8>, p: nat)
    requires p < 8 * |bytes|
    ensures Bit(LeNat(bytes), p) == Bit(bytes[p / 8], p % 8)
  {
    hide Bit, Pow2;
    Pow2Literals();
    var low, high := bytes[0], LeNat(bytes[1..]);
    ShlByte(high, 0);
    assert LeNat(bytes) == low + Shl(high, 8);
    if p < 8 {
      LowBits(low, high, p);
    } else {
      BitOfLeNat(bytes[1..], p - 8);
      SplitAt(low, high, 8);
      BitOfShr(LeNat(bytes), 8, p - 8);
    }
  }

  lemma {:induction false} BitOfLow(x: nat, w: nat, i: nat)
    requires i < w
    ensures Bit(Low(x, w), i) == Bit(x, i)
    decreases i
  {
    if i > 0 {
      BitOfLow(x / 2, w - 1, i - 1);
      assert Low(x, w) / 2 == Low(x / 2, w - 1);
    }
  }

  lemma {:induction false} LowBits(low: U8, high: nat, p: nat)
    requires p < 8
    ensures Bit(low + Shl(high, 8), p) == Bit(low, p)
  {
    hide Bit, Pow2, Low, Shl;
    Pow2Literals();
    SplitAt(low, high, 8);
    BitOfLow(low + Shl(high, 8), 8, p);
  }

  lemma {:induction false} ByteTest(b: U8, j: nat)
    requires j < 8
    ensures And(b, Shl(1, j)) != 0 <==> Bit(b, j)
  {
    hide And, Bit, Shl, Pow2;
    Pow2AsShl(j);
    Pow2Monotone(j, 8);
    Pow2Literals();
    forall i: nat ensures Bit(And(b, Shl(1, j)), i) == (Bit(b, i) && i == j) {
      BitAnd(b, Shl(1, j), i);
      BitOfShl(1, j, i);
      if j <= i {
        OneHasBitZero(i - j);
      }
    }
    if And(b, Shl(1, j)) == 0 {
      BitZero(j);
    } else if !Bit(b, j) {
      forall i: nat | i < 8 ensures Bit(And(b, Shl(1, j)), i) == Bit(0, i) { BitZero(i); }
      BitsDetermine(And(b, Shl(1, j)), 0, 8);
    }
  }

  // Testing one bit of one byte is membership in the set of the words.
  lemma {:induction false} ContainsElement(r: ReadOnlyBitSet, el: U32)
    requires el / 8 < |r.data| && |r.data| % 8 == 0
    ensures r.Contains(el) <==> el in r.Set()
  {
    hide Bit, And, LeNat, Elements;
    var k, p := el / 64, el % 64;
    var chunk := r.data[8 * k..8 * k + 8];
    assert chunk[p / 8] == r.data[el / 8] && p % 8 == el % 8;
    ByteTest(r.data[el / 8], el % 8);
    BitOfLeNat(chunk, p);
    InElements(r.TinySets(), el);
    assert r.TinySets()[k] == WordAt(r.data, k) == LeNat(chunk);
  }

  // --- opening what was serialized -----------------------------------------------------------

  lemma {:induction false} WordBytesAt(words: seq<TinySet>, k: nat)
    requires k < |words|
    ensures WordBytes(words)[8 * k..8 * k + 8] == ToLe(words[k], 8)
  {
    var n := |words| - 1;
    if k < n {
      WordBytesAt(words[..n], k);
      assert WordBytes(words)[8 * k..8 * k + 8] == WordBytes(words[..n])[8 * k..8 * k + 8];
    }
  }

  // The reader sees the words and the capacity that were written.
  lemma {:induction false} OpenImage(maxValue: U32, words: seq<TinySet>)
    ensures var bytes := Image(maxValue, words);
            && |bytes| >= 4 && (|bytes| - 4) % 8 == 0
            && ReadOnlyBitSet.Open(bytes).maxValue == maxValue == LeNat(bytes[..4])
            && ReadOnlyBitSet.Open(bytes).TinySets() == words
            && |ReadOnlyBitSet.Open(bytes).data| == 8 * |words|
  {
    hide LeNat, ToLe, Pow2, WordBytes;
    Pow2Literals();
    var bytes := Image(maxValue, words);
    assert bytes[..4] == ToLe(maxValue, 4) && bytes[4..] == WordBytes(words);
    LeNatOfWord(maxValue, 4);
    var r := ReadOnlyBitSet.Open(bytes);
    forall k | 0 <= k < |words| ensures r.TinySets()[k] == words[k] {
      WordBytesAt(words, k);
      LeNatOfWord(words[k], 8);
    }
    assert r.TinySets() == words;
  }

  // Serializing a bitset and opening the bytes gives a reader that agrees with its set on
  // membership, length and capacity.
  method SerializeAndOpen(b: BitSet) returns (r: ReadOnlyBitSet)
    requires b.Valid()
    ensures r.Set() == b.Set() && r.maxValue == b.maxValue
    ensures r.Len() == b.len
    ensures forall el: U32 :: el < b.maxValue ==> el / 8 < |r.data| && (r.Contains(el) <==> el in b.Set())
    ensures NoPadding(r.TinySets(), r.maxValue)
  {
    hide Elements, Image, ReadOnlyBitSet.Contains, ReadOnlyBitSet.TinySets, ReadOnlyBitSet.Open, SumLen;
    var bytes := Serialize(b);
    OpenImage(b.maxValue, b.tinysets[..]);
    r := ReadOnlyBitSet.Open(bytes);
    SumLenIsCardinality(b.tinysets[..]);
    forall el: U32 | el < b.maxValue
      ensures el / 8 < |r.data| && (r.Contains(el) <==> el in b.Set())
    {
      ContainsElement(r, el);
    }
  }

  // --- iteration -------------------------------------------------------------------------------

  // Every word is drained in turn, and each word's elements are taken while below the capacity.
  method Iter(r: ReadOnlyBitSet) returns (els: seq<nat>)
    ensures Ascending(els)
    ensures forall i: nat :: i in els <==> i in r.Set() && i < r.maxValue
  {
    hide Elements, Members, ReadOnlyBitSet.TinySets;
    var words := r.TinySets();
    els := [];
    var k := 0;
    while k < |words|
      invariant 0 <= k <= |words|
      invariant Ascending(els)
      invariant forall i: nat :: i in els <==> i in Elements(words) && i < r.maxValue && i < 64 * k
    {
      var word := Drain(words[k]);
      var taken := TakeWhileBelow(word, 64 * k, r.maxValue);
      forall i: nat
        ensures i in els + taken <==> i in Elements(words) && i < r.maxValue && i < 64 * (k + 1)
      {
        InElements(words, i);
        InWord(words[k], word, k, i);
      }
      assert forall a, b :: 0 <= a < |els| && 0 <= b < |taken| ==> els[a] < taken[b] by {
        forall a, b | 0 <= a < |els| && 0 <= b < |taken| ensures els[a] < taken[b] {
          assert els[a] in els && taken[b] in taken;
        }
      }
      els := els + taken;
      k := k + 1;
    }
    forall i: nat | i in Elements(words) ensures i < 64 * |words| {
      InElements(words, i);
    }
  }

  lemma {:induction false} InWord(t: TinySet, word: seq<nat>, k: nat, i: nat)
    requires forall j :: j in word <==> j in Members(t)
    ensures i / 64 == k && i % 64 in Members(t) <==> 64 * k <= i && i - 64 * k in word
  {
    hide Members;
    if 64 * k <= i && i - 64 * k in word {
      MemberBound(t, i - 64 * k);
    }
  }

  method TakeWhileBelow(word: seq<nat>, base: nat, max: nat) returns (taken: seq<nat>)
    requires Ascending(word)
    ensures Ascending(taken)
    ensures forall i: nat :: i in taken <==> base <= i < max && i - base in word
  {
    taken := [];
    while |taken| < |word| && word[|taken|] + base < max
      invariant |taken| <= |word|
      invariant forall j :: 0 <= j < |taken| ==> taken[j] == word[j] + base < max
      decreases |word| - |taken|
    {
      taken := taken + [word[|taken|] + base];
    }
    forall i: nat | base <= i < max && i - base in word ensures i in taken {
      var j :| 0 <= j < |word| && word[j] == i - base;
      assert j < |taken|;
      assert taken[j] == i;
    }
  }

  // --- intersection of two serialized bitsets ----------------------------------------------------

  method IntersectBitsets(left: ReadOnlyBitSet, other: ReadOnlyBitSet) returns (r: ReadOnlyBitSet)
    requires left.maxValue == other.maxValue && |left.data| == |other.data|
    ensures r.maxValue == left.maxValue
    ensures r.Set() == left.Set() * other.Set()
  {
    hide Elements, ReadOnlyBitSet.TinySets;
    var a, b := left.TinySets(), other.TinySets();
    ghost var words: seq<TinySet> := [];
    var output: seq<U8> := [];
    var k := 0;
    while k < |a|
      invariant 0 <= k <= |a| && |words| == k
      invariant forall j :: 0 <= j < k ==> words[j] == Intersect(a[j], b[j])
      invariant output == WordBytes(words)
    {
      var t := Intersect(a[k], b[k]);
      words := words + [t];
      output := output + ToLe(t, 8);
      k := k + 1;
    }
    r := ReadOnlyBitSet(output, left.maxValue);
    OpenWords(output, words, left.maxValue);
    IntersectWords(a, b, |a|, words);
    forall i | i in Elements(a) ensures i < 64 * |a| { InElements(a, i); }
    assert r.Set() == left.Set() * other.Set();
  }

  lemma {:induction false} OpenWords(data: seq<U8>, words: seq<TinySet>, maxValue: U32)
    requires data == WordBytes(words)
    ensures ReadOnlyBitSet(data, maxValue).TinySets() == words
  {
    hide WordBytes, ReadOnlyBitSet.TinySets;
    OpenImage(maxValue, words);
    var bytes := Image(maxValue, words);
    assert bytes[4..] == data;
    assert ReadOnlyBitSet.Open(bytes).data == data;
  }
}
