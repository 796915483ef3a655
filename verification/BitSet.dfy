/** The fixed-capacity bitset and its in-place operations.

It refines a mathematical set: the `Elements` of a sequence of 64-bit words.
 */
module BitSets {
  import opened Collections
  import opened Bits
  import opened TinySets

  // --- the set held by a sequence of words ---------------------------------------------

  ghost predicate Has(words: seq<TinySet>, i: nat) {
    i / 64 < |words| && i % 64 in Members(words[i / 64])
  }

  ghost function Elements(words: seq<TinySet>): (s: set<nat>)
  {
    ElementsBelow(words, 64 * |words|)
  }

  ghost function ElementsBelow(words: seq<TinySet>, n: nat): (s: set<nat>)
  {
    set i: nat | i < n && Has(words, i)
  }

  function NumBuckets(maxValue: nat): (n: nat)
    ensures 64 * n >= maxValue && (n > 0 ==> 64 * (n - 1) < maxValue)
  {
    (maxValue + 63) / 64
  }

  lemma {:induction false} InElements(words: seq<TinySet>, i: nat)
    ensures i in Elements(words) <==> Has(words, i)
  {
  }

  // Replacing one word changes membership only inside its window of 64 numbers.
  lemma {:induction false} UpdateWord(words: seq<TinySet>, k: nat, t: TinySet, i: nat)
    requires k < |words|
    ensures i in Elements(words[k := t]) <==> if i / 64 == k then i % 64 in Members(t) else i in Elements(words)
  {
    hide Members;
  }

  lemma {:induction false} InsertWord(words: seq<TinySet>, el: nat)
    requires el / 64 < |words|
    ensures Elements(words[el / 64 := Insert(words[el / 64], el % 64)]) == Elements(words) + {el}
    ensures Insert(words[el / 64], el % 64) != words[el / 64] <==> el !in Elements(words)
  {
    hide Members, Insert, Elements;
    var k, t := el / 64, words[el / 64];
    MembersInsert(t, el % 64);
    ChangedWhenNew(t, el % 64);
    InElements(words, el);
    forall i: nat
      ensures i in Elements(words[k := Insert(t, el % 64)]) <==> i in Elements(words) + {el}
    {
      UpdateWord(words, k, Insert(t, el % 64), i);
      InElements(words, i);
      assert i == el <==> i / 64 == k && i % 64 == el % 64;
    }
  }

  lemma {:induction false} RemoveWord(words: seq<TinySet>, el: nat)
    requires el / 64 < |words|
    ensures Elements(words[el / 64 := Remove(words[el / 64], el % 64)]) == Elements(words) - {el}
    ensures Remove(words[el / 64], el % 64) != words[el / 64] <==> el in Elements(words)
  {
    hide Members, Remove, Elements;
    var k, t := el / 64, words[el / 64];
    MembersRemove(t, el % 64);
    ChangedWhenNew(t, el % 64);
    InElements(words, el);
    forall i: nat
      ensures i in Elements(words[k := Remove(t, el % 64)]) <==> i in Elements(words) - {el}
    {
      UpdateWord(words, k, Remove(t, el % 64), i);
      InElements(words, i);
      assert i == el <==> i / 64 == k && i % 64 == el % 64;
    }
  }

  // Word-wise intersection over the words both sides have.
  ghost predicate IntersectedUpTo(old': seq<TinySet>, other: seq<TinySet>, n: nat, new': seq<TinySet>) {
    && |new'| == |old'| && n <= |old'| && n <= |other|
    && (forall k :: 0 <= k < n ==> new'[k] == Intersect(old'[k], other[k]))
    && (forall k :: n <= k < |old'| ==> new'[k] == old'[k])
  }

  lemma {:induction false} IntersectWords(old': seq<TinySet>, other: seq<TinySet>, n: nat, new': seq<TinySet>)
    requires IntersectedUpTo(old', other, n, new')
    ensures forall i: nat :: i in Elements(new') <==>
              i in Elements(old') && (i < 64 * n ==> i in Elements(other))
  {
    hide Members, Intersect, Elements;
    forall i: nat
      ensures i in Elements(new') <==> i in Elements(old') && (i < 64 * n ==> i in Elements(other))
    {
      InElements(new', i);
      InElements(old', i);
      InElements(other, i);
      if i / 64 < n {
        MembersIntersect(old'[i / 64], other[i / 64]);
      }
    }
  }

  // --- cardinality -----------------------------------------------------------------------

  function SumLen(words: seq<TinySet>): (n: nat)
  {
    if |words| == 0 then 0 else SumLen(words[..|words| - 1]) + Len(words[|words| - 1])
  }

  lemma {:induction false} PartialWord(words: seq<TinySet>, k: nat, j: nat)
    requires k < |words| && j <= 64
    ensures |ElementsBelow(words, 64 * k + j)| == |ElementsBelow(words, 64 * k)| + CountBits(words[k], j)
  {
    if j > 0 {
      PartialWord(words, k, j - 1);
      var i := 64 * k + j - 1;
      assert i / 64 == k && i % 64 == j - 1;
      assert Has(words, i) <==> Bit(words[k], j - 1);
      assert ElementsBelow(words, i + 1)
          == if Has(words, i) then ElementsBelow(words, i) + {i} else ElementsBelow(words, i);
    }
  }

  lemma {:induction false} SumLenUpTo(words: seq<TinySet>, k: nat)
    requires k <= |words|
    ensures |ElementsBelow(words, 64 * k)| == SumLen(words[..k])
  {
    if k == 0 {
      assert ElementsBelow(words, 0) == {};
    } else {
      SumLenUpTo(words, k - 1);
      assert words[..k][..k - 1] == words[..k - 1];
      PartialWord(words, k - 1, 64);
      Pow2Literals();
      PopCountIsCount(words[k - 1], 64);
    }
  }

  // Summing the word lengths counts the set.
  lemma {:induction false} SumLenIsCardinality(words: seq<TinySet>)
    ensures SumLen(words) == |Elements(words)|
  {
    SumLenUpTo(words, |words|);
    assert words[..|words|] == words;
  }

  ghost predicate NoPadding(words: seq<TinySet>, maxValue: nat) {
    forall i :: i in Elements(words) ==> i < maxValue
  }

  ghost function Below(n: nat): (s: set<nat>)
    ensures forall i: nat :: i in s <==> i < n
    ensures |s| == n
  {
    if n == 0 then {} else Below(n - 1) + {n - 1}
  }

  // --- the mutable bitset ----------------------------------------------------------------

  class BitSet {
    const tinysets: array<TinySet>
    var len: nat
    var maxValue: U32

    ghost function Set(): (s: set<nat>)
      reads this, tinysets
    {
      Elements(tinysets[..])
    }

    // The words cover the capacity, and no bit beyond it is set.
    ghost predicate Shaped()
      reads this, tinysets
    {
      tinysets.Length == NumBuckets(maxValue) && NoPadding(tinysets[..], maxValue)
    }

    ghost predicate Valid()
      reads this, tinysets
    {
      Shaped() && len == |Set()|
    }

    constructor WithMaxValue(maxValue: U32)
      ensures Valid() && Set() == {} && this.maxValue == maxValue && fresh(tinysets)
    {
      tinysets := new TinySet[NumBuckets(maxValue)](_ => 0);
      len := 0;
      this.maxValue := maxValue;
      new;
      MembersEmpty(0);
      assert Set() == {};
    }

    // All values below the capacity; the last word is trimmed to the capacity.
    constructor WithMaxValueAndFull(maxValue: U32)
      ensures Valid() && Set() == Below(maxValue) && this.maxValue == maxValue && fresh(tinysets)
    {
      var n := NumBuckets(maxValue);
      var words := new TinySet[n](_ => Complement(0));
      var lower := maxValue % 64;
      if lower != 0 {
        words[n - 1] := RangeLower(lower);
      }
      tinysets := words;
      len := maxValue;
      this.maxValue := maxValue;
      new;
      FullWords(tinysets[..], maxValue);
    }

    // Elements are not checked against the capacity: one beyond it lands in the padding.
    method Insert(el: U32) returns (changed: bool)
      requires Valid() && el / 64 < tinysets.Length
      modifies this`len, tinysets
      ensures Set() == old(Set()) + {el} && len == |Set()|
      ensures Valid() <==> el < maxValue
      ensures changed <==> el !in old(Set())
    {
      hide Elements, TinySets.Insert;
      InsertWord(tinysets[..], el);
      var higher, lower := el / 64, el % 64;
      ghost var words := tinysets[..];
      var before := tinysets[higher];
      tinysets[higher] := TinySets.Insert(before, lower);
      assert tinysets[..] == words[higher := TinySets.Insert(before, lower)];
      changed := before != tinysets[higher];
      len := len + (if changed then 1 else 0);
      if !changed {
        assert old(Set()) + {el as int} == old(Set());
      }
    }

    method Remove(el: U32)
      requires Valid() && el / 64 < tinysets.Length
      modifies this`len, tinysets
      ensures Valid()
      ensures Set() == old(Set()) - {el}
    {
      hide Elements, TinySets.Remove;
      RemoveWord(tinysets[..], el);
      var higher, lower := el / 64, el % 64;
      ghost var words := tinysets[..];
      var before := tinysets[higher];
      tinysets[higher] := TinySets.Remove(before, lower);
      assert tinysets[..] == words[higher := TinySets.Remove(before, lower)];
      if before == tinysets[higher] {
        assert old(Set()) - {el as int} == old(Set());
      } else {
        assert old(Set()) == (old(Set()) - {el as int}) + {el as int};
      }
      len := len - (if before != tinysets[higher] then 1 else 0);
    }

    predicate Contains(el: U32)
      reads this, tinysets
      requires el / 64 < tinysets.Length
    {
      TinySets.Contains(tinysets[el / 64], el % 64)
    }

    // Intersection with an iterator of words, which may be shorter than the bitset: words
    // it does not reach stay as they are and are left out of the length.
    method IntersectUpdateWithIter(other: seq<TinySet>)
      requires Shaped()
      modifies this`len, tinysets
      ensures Shaped()
      ensures forall i: nat :: i in Set() <==>
                i in old(Set()) && (i < 64 * |other| ==> i in Elements(other))
      ensures len == |ElementsBelow(tinysets[..], 64 * |other|)|
      ensures Valid() <==> forall i :: i in old(Set()) ==> i < 64 * |other|
    {
      hide Elements, Intersect, Len;
      ghost var words := tinysets[..];
      len := 0;
      var n := if |other| <= tinysets.Length then |other| else tinysets.Length;
      var k := 0;
      while k < n
        invariant 0 <= k <= n
        invariant IntersectedUpTo(words, other, k, tinysets[..])
        invariant len == SumLen(tinysets[..k])
      {
        tinysets[k] := Intersect(tinysets[k], other[k]);
        len := len + Len(tinysets[k]);
        assert tinysets[..k + 1][..k] == tinysets[..k];
        k := k + 1;
      }
      IntersectWords(words, other, n, tinysets[..]);
      assert tinysets[..][..n] == tinysets[..n];
      SumLenUpTo(tinysets[..], n);
      Counted(tinysets[..], n, |other|);
    }

    method FirstNonEmptyBucket(bucket: nat) returns (r: Option<nat>)
      requires bucket <= tinysets.Length
      ensures r.None? <==> forall i :: i in Set() ==> i < 64 * bucket
      ensures r.Some? ==> bucket <= r.value < tinysets.Length && Members(tinysets[r.value]) != {}
      ensures r.Some? ==> forall i :: i in Set() ==> i < 64 * bucket || 64 * r.value <= i
    {
      hide Members, Elements;
      var k := bucket;
      while k < tinysets.Length
        invariant bucket <= k <= tinysets.Length
        invariant forall i :: i in Set() ==> i < 64 * bucket || 64 * k <= i
      {
        MembersEmpty(tinysets[k]);
        if tinysets[k] != 0 {
          ghost var j :| j in Members(tinysets[k]);
          MemberBound(tinysets[k], j);
          ghost var i := 64 * k + j;
          assert i / 64 == k && i % 64 == j;
          InElements(tinysets[..], i);
          assert i in Set() && 64 * bucket <= i;
          return Some(k);
        }
        forall i | i in Set() && 64 * k <= i ensures 64 * (k + 1) <= i {
          InElements(tinysets[..], i);
        }
        k := k + 1;
      }
      forall i | i in Set() ensures i < 64 * tinysets.Length {
        InElements(tinysets[..], i);
      }
      return None;
    }

    // Clearing the words does not reset the cached length.
    method Clear()
      requires Valid()
      modifies tinysets
      ensures Shaped() && Set() == {} && len == old(len)
      ensures Valid() <==> old(Set()) == {}
    {
      hide Elements;
      var k := 0;
      while k < tinysets.Length
        invariant 0 <= k <= tinysets.Length
        invariant forall j :: 0 <= j < k ==> tinysets[j] == 0
      {
        tinysets[k] := 0;
        k := k + 1;
      }
      MembersEmpty(0);
      forall i ensures i !in Set() {
        if i >= 0 {
          InElements(tinysets[..], i);
        }
      }
      assert Set() == {};
    }
  }

  lemma {:induction false} MemberBound(t: TinySet, j: nat)
    requires j in Members(t)
    ensures j < 64
  {
  }

  lemma {:induction false} ContainsElement(b: BitSet, el: U32)
    requires el / 64 < b.tinysets.Length
    ensures b.Contains(el) <==> el in b.Set()
  {
    hide Elements;
    InElements(b.tinysets[..], el);
    ContainsIsMember(b.tinysets[el / 64], el % 64);
  }

  lemma {:induction false} FullWords(words: seq<TinySet>, maxValue: nat)
    requires |words| == NumBuckets(maxValue)
    requires forall k :: 0 <= k < |words| ==>
               words[k] == if k == |words| - 1 && maxValue % 64 != 0 then RangeLower(maxValue % 64) else Complement(0)
    ensures Elements(words) == Below(maxValue)
  {
    hide Elements, RangeLower, Complement, Members;
    MembersComplement(0);
    MembersEmpty(0);
    RangeLowerIs(maxValue % 64);
    forall i: nat ensures i in Elements(words) <==> i < maxValue {
      InElements(words, i);
    }
  }

  lemma {:induction false} Counted(words: seq<TinySet>, n: nat, m: nat)
    requires n == if m <= |words| then m else |words|
    ensures ElementsBelow(words, 64 * m) == ElementsBelow(words, 64 * n)
    ensures |ElementsBelow(words, 64 * n)| == |Elements(words)| <==> forall i :: i in Elements(words) ==> i < 64 * m
  {
    var part, all := ElementsBelow(words, 64 * n), Elements(words);
    assert part <= all;
    if |part| == |all| {
      SubsetOfSameSize(part, all);
    }
    if forall i :: i in all ==> i < 64 * m {
      assert part == all;
    }
  }

}
