/** Filling 1024-wide bitmask windows from a document cursor, and enumerating a cursor
window by window.
 */
module BlockWindows {
  import opened Collections
  import opened TinySets
  import opened BitSets
  import opened ReadOnlyBitSets
  import opened DocSets

  ghost predicate InWindow(docs: seq<nat>, minDoc: nat, i: nat) {
    i < BLOCK_WINDOW && minDoc + i in docs
  }

  // The documents of [minDoc, minDoc + 1024), relative to minDoc.
  ghost function Window(docs: seq<nat>, minDoc: nat): (s: set<nat>)
  {
    set i: nat | i < BLOCK_WINDOW && InWindow(docs, minDoc, i)
  }

  // The window reaches past TERMINATED and no document is left at or above its start: the
  // sentinel itself is then taken for a document.
  ghost predicate Phantom(docs: seq<nat>, minDoc: nat) {
    minDoc + BLOCK_WINDOW > TERMINATED && forall d :: d in docs ==> d < minDoc
  }

  ghost function PhantomBit(docs: seq<nat>, minDoc: nat): (s: set<nat>)
    requires minDoc <= TERMINATED
  {
    if Phantom(docs, minDoc) then {TERMINATED - minDoc} else {}
  }

  // Documents below the window on the left, or beyond it on the right, do not matter.
  lemma {:induction false} WindowMiddle(left: seq<nat>, mid: seq<nat>, right: seq<nat>, minDoc: nat)
    requires forall d :: d in left ==> d < minDoc
    requires forall d :: d in right ==> minDoc + BLOCK_WINDOW <= d
    ensures Window(left + mid + right, minDoc) == Window(mid, minDoc)
  {
    forall i: nat ensures InWindow(left + mid + right, minDoc, i) <==> InWindow(mid, minDoc, i) {
    }
  }

  method InsertMut(mask: array<TinySet>, delta: nat)
    requires mask.Length == BLOCK_NUM_TINYBITSETS && delta < BLOCK_WINDOW
    modifies mask
    ensures Elements(mask[..]) == old(Elements(mask[..])) + {delta}
  {
    hide Elements, TinySets.Insert;
    ghost var words := mask[..];
    InsertWord(words, delta);
    mask[delta / 64] := Insert(mask[delta / 64], delta % 64);
    assert mask[..] == words[delta / 64 := Insert(words[delta / 64], delta % 64)];
  }

  // One turn of the loop: the document under the cursor, or the sentinel, joins the mask.
  method FillOne(ds: DocSet, ghost from: nat, minDoc: nat, mask: array<TinySet>, ghost base: set<nat>)
    returns (moved: nat)
    requires ds.Valid() && from <= ds.pos && minDoc <= ds.Doc() < minDoc + BLOCK_WINDOW
    requires mask.Length == BLOCK_NUM_TINYBITSETS
    requires Elements(mask[..]) == base + Window(ds.docs[from..ds.pos], minDoc)
    modifies ds`pos, mask
    ensures ds.Valid() && moved == ds.Doc()
    ensures ds.pos == if old(ds.pos) < |ds.docs| then old(ds.pos) + 1 else old(ds.pos)
    ensures Elements(mask[..]) == base + Window(ds.docs[from..ds.pos], minDoc)
                                + if old(ds.pos) < |ds.docs| then {} else {TERMINATED - minDoc}
  {
    hide Elements, IsDocSeq;
    ghost var docs, p := ds.docs, ds.pos;
    InsertMut(mask, ds.Doc() - minDoc);
    moved := ds.Advance();
    if p < |docs| {
      assert docs[from..p + 1] == docs[from..p] + [docs[p]];
    }
  }

  // Adds to the mask exactly the remaining documents of the window, and moves to the first
  // document beyond it.  Only the sentinel of an exhausted cursor can slip in, when the
  // window runs past TERMINATED.
  method FillBitsetBlock(ds: DocSet, minDoc: nat, mask: array<TinySet>) returns (next: nat)
    requires ds.Valid() && ds.Doc() <= minDoc <= TERMINATED
    requires mask.Length == BLOCK_NUM_TINYBITSETS
    modifies ds`pos, mask
    ensures ds.Valid() && next == ds.Doc() && old(ds.pos) <= ds.pos
    ensures forall i :: old(ds.pos) <= i < ds.pos ==> ds.docs[i] < minDoc + BLOCK_WINDOW
    ensures next >= minDoc + BLOCK_WINDOW || next == TERMINATED
    ensures Elements(mask[..])
         == old(Elements(mask[..])) + Window(ds.docs[old(ds.pos)..], minDoc)
          + PhantomBit(ds.docs[old(ds.pos)..], minDoc)
  {
    hide Elements, Phantom, FirstFrom, IsDocSeq;
    ghost var docs, start := ds.docs, ds.pos;
    var first := ds.Seek(minDoc);
    ghost var from, base := ds.pos, Elements(mask[..]);
    var horizon := minDoc + BLOCK_WINDOW;
    PhantomAfterSeek(docs, start, from, minDoc);
    while true
      invariant ds.Valid() && from <= ds.pos
      invariant from < ds.pos ==> ds.pos < |docs|
      invariant forall i :: from <= i < ds.pos ==> docs[i] < horizon
      invariant Elements(mask[..]) == base + Window(docs[from..ds.pos], minDoc)
      decreases |docs| - ds.pos
    {
      var doc := ds.Doc();
      AtEnd(ds);
      if doc >= horizon {
        next := doc;
        break;
      }
      DocsOrdered(docs, from, ds.pos);
      next := FillOne(ds, from, minDoc, mask, base);
      AtEnd(ds);
      if next == TERMINATED {
        break;
      }
    }
    AtEnd(ds);
    WindowOfSuffix(docs, start, from, ds.pos, minDoc);
  }

  lemma {:induction false} DocsOrdered(docs: seq<nat>, i: nat, j: nat)
    requires IsDocSeq(docs) && i <= j
    ensures j < |docs| ==> docs[i] <= docs[j]
  {
  }

  lemma {:induction false} PhantomAfterSeek(docs: seq<nat>, start: nat, from: nat, minDoc: nat)
    requires IsDocSeq(docs) && start <= from <= |docs|
    requires forall i :: start <= i < from ==> docs[i] < minDoc
    requires from < |docs| ==> minDoc <= docs[from]
    ensures Phantom(docs[start..], minDoc) <==> from == |docs| && minDoc + BLOCK_WINDOW > TERMINATED
  {
    if from < |docs| {
      assert docs[start..][from - start] == docs[from];
      assert docs[from] in docs[start..];
    }
  }

  lemma {:induction false} WindowOfSuffix(docs: seq<nat>, start: nat, from: nat, to: nat, minDoc: nat)
    requires IsDocSeq(docs) && start <= from <= to <= |docs|
    requires forall i :: start <= i < from ==> docs[i] < minDoc
    requires to < |docs| ==> minDoc + BLOCK_WINDOW <= docs[to]
    ensures Window(docs[start..], minDoc) == Window(docs[from..to], minDoc)
  {
    hide Window;
    var left, mid, right := docs[start..from], docs[from..to], docs[to..];
    assert docs[start..] == left + mid + right;
    forall d | d in right ensures minDoc + BLOCK_WINDOW <= d {
      var k :| 0 <= k < |right| && right[k] == d;
      assert docs[to] <= docs[to + k];
    }
    WindowMiddle(left, mid, right, minDoc);
  }

  // --- enumeration by windows ------------------------------------------------------------

  method Shift(word: seq<nat>, base: nat) returns (docs: seq<nat>)
    requires Ascending(word)
    ensures Ascending(docs)
    ensures forall d: nat :: d in docs <==> base <= d && d - base in word
  {
    docs := [];
    while |docs| < |word|
      invariant |docs| <= |word|
      invariant forall j :: 0 <= j < |docs| ==> docs[j] == word[j] + base
    {
      docs := docs + [word[|docs|] + base];
    }
    forall d: nat | base <= d && d - base in word ensures d in docs {
      var j :| 0 <= j < |word| && word[j] == d - base;
      assert docs[j] == d;
    }
  }

  // Popping every word of a block lists its documents in ascending order.
  method DrainBlock(mask: array<TinySet>, minDoc: nat) returns (docs: seq<nat>)
    ensures Ascending(docs)
    ensures forall d: nat :: d in docs <==> minDoc <= d && d - minDoc in Elements(mask[..])
  {
    hide Elements, Members;
    docs := [];
    var k := 0;
    while k < mask.Length
      invariant 0 <= k <= mask.Length
      invariant Ascending(docs)
      invariant forall d: nat :: d in docs <==>
                  minDoc <= d < minDoc + 64 * k && d - minDoc in Elements(mask[..])
    {
      var word := Drain(mask[k]);
      var more := Shift(word, minDoc + 64 * k);
      forall d: nat
        ensures d in docs + more <==>
                  minDoc <= d < minDoc + 64 * (k + 1) && d - minDoc in Elements(mask[..])
      {
        if minDoc <= d {
          InElements(mask[..], d - minDoc);
          InWord(mask[k], word, k, d - minDoc);
        }
      }
      assert forall a, b :: 0 <= a < |docs| && 0 <= b < |more| ==> docs[a] < more[b] by {
        forall a, b | 0 <= a < |docs| && 0 <= b < |more| ensures docs[a] < more[b] {
          assert docs[a] in docs && more[b] in more;
        }
      }
      docs := docs + more;
      k := k + 1;
    }
    forall i: nat | i in Elements(mask[..]) ensures i < 64 * mask.Length {
      InElements(mask[..], i);
    }
  }

  lemma {:induction false} InWindowSet(docs: seq<nat>, minDoc: nat, i: nat)
    ensures i in Window(docs, minDoc) <==> InWindow(docs, minDoc, i)
  {
  }

  // Chaining windows from each returned document visits what repeated `advance` visits.
  method CollectByWindows(ds: DocSet) returns (out: seq<nat>)
    requires ds.Valid()
    modifies ds`pos
    ensures out == ds.docs[old(ds.pos)..]
  {
    hide Elements, Window, Phantom, IsDocSeq;
    out := [];
    var next := ds.Doc();
    AtEnd(ds);
    while next < TERMINATED
      invariant ds.Valid() && old(ds.pos) <= ds.pos && next == ds.Doc()
      invariant next >= TERMINATED ==> ds.pos == |ds.docs|
      invariant out == ds.docs[old(ds.pos)..ds.pos]
      decreases |ds.docs| - ds.pos
    {
      ghost var p := ds.pos;
      var minDoc := next;
      var mask := new TinySet[BLOCK_NUM_TINYBITSETS](_ => 0);
      NoElements(mask[..]);
      next := FillBitsetBlock(ds, minDoc, mask);
      PhantomAfterSeek(ds.docs, p, p, minDoc);
      var els := DrainBlock(mask, minDoc);
      assert els == ds.docs[p..ds.pos] by {
        AtEnd(ds);
        Stretch(ds.docs, p, ds.pos, minDoc, els);
      }
      assert out + els == ds.docs[old(ds.pos)..p] + ds.docs[p..ds.pos] == ds.docs[old(ds.pos)..ds.pos];
      out := out + els;
      AtEnd(ds);
    }
  }

  lemma {:induction false} NoElements(words: seq<TinySet>)
    requires forall k :: 0 <= k < |words| ==> words[k] == 0
    ensures Elements(words) == {}
  {
    MembersEmpty(0);
  }

  lemma {:induction false} Stretch(docs: seq<nat>, from: nat, to: nat, minDoc: nat, els: seq<nat>)
    requires IsDocSeq(docs) && from < |docs| && from <= to <= |docs| && minDoc == docs[from]
    requires forall i :: from <= i < to ==> docs[i] < minDoc + BLOCK_WINDOW
    requires to < |docs| ==> minDoc + BLOCK_WINDOW <= docs[to]
    requires Ascending(els)
    requires forall d: nat :: d in els <==> minDoc <= d && d - minDoc in Window(docs[from..], minDoc)
    ensures els == docs[from..to]
  {
    forall d ensures d in els <==> d in docs[from..to] {
      if d >= 0 {
      }
    }
    AscendingUnique(els, docs[from..to]);
  }
}
