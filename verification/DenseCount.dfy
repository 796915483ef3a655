/** Counting an intersection by 1024-wide bitmask windows. */
module DenseCounting {
  import opened Bits
  import opened TinySets
  import opened BitSets
  import opened DocSets
  import opened BlockWindows
  import opened Intersections

  // --- one window ------------------------------------------------------------------------------

  // What a freshly filled block of one set holds.
  ghost function WindowMask(docs: seq<nat>, base: nat): (s: set<nat>)
    requires base <= TERMINATED
  {
    Window(docs, base) + PhantomBit(docs, base)
  }

  // Offsets in the blocks of the first k sets.
  ghost predicate InMasks(docsets: seq<DocSet>, k: nat, base: nat, i: nat)
    requires k <= |docsets| && base <= TERMINATED
  {
    forall j :: 0 <= j < k ==> i in WindowMask(docsets[j].docs, base)
  }

  lemma {:induction false} SkippedDoNotMatter(ds: DocSet, base: nat)
    requires ds.Valid() && base <= TERMINATED && ds.Reaches(base)
    ensures WindowMask(ds.docs[ds.pos..], base) == WindowMask(ds.docs, base)
  {
    hide Window;
    var left, right := ds.docs[..ds.pos], ds.docs[ds.pos..];
    assert ds.docs == left + right;
    assert left + right + [] == left + right && forall d :: d in left ==> d < base;
    WindowMiddle(left, right, [], base);
    assert forall d :: d in ds.docs <==> d in left || d in right;
  }

  // Fills a block from one set, and carries the running maximum of the next documents.
  method FillFrom(ds: DocSet, base: nat, nextBase: nat) returns (mask: array<TinySet>, nextBase': nat)
    requires ds.Valid() && ds.Doc() <= base < TERMINATED && ds.Reaches(base)
    requires base <= nextBase <= TERMINATED
    modifies ds`pos
    ensures fresh(mask) && mask.Length == BLOCK_NUM_TINYBITSETS
    ensures Elements(mask[..]) == WindowMask(ds.docs, base)
    ensures ds.Valid() && ds.Doc() <= nextBase' <= TERMINATED && ds.Reaches(nextBase')
    ensures base < nextBase' && nextBase' == if nextBase < ds.Doc() then ds.Doc() else nextBase
    ensures base + BLOCK_WINDOW <= nextBase' || nextBase' == TERMINATED
    ensures forall d :: d in ds.docs && base + BLOCK_WINDOW <= d ==> ds.Doc() <= d
  {
    hide Elements, Window, Phantom, IsDocSeq;
    mask := new TinySet[BLOCK_NUM_TINYBITSETS](_ => 0);
    NoElements(mask[..]);
    SkippedDoNotMatter(ds, base);
    var next := FillBitsetBlock(ds, base, mask);
    nextBase' := if nextBase < next then next else nextBase;
    AtEnd(ds);
    AfterFill(ds, base, nextBase');
  }

  lemma {:induction false} AfterFill(ds: DocSet, base: nat, next: nat)
    requires ds.Valid() && ds.Doc() <= next
    requires forall i :: 0 <= i < ds.pos ==> ds.docs[i] < base + BLOCK_WINDOW
    requires base + BLOCK_WINDOW <= next || next == TERMINATED
    ensures ds.Reaches(next)
    ensures forall d :: d in ds.docs && base + BLOCK_WINDOW <= d ==> ds.Doc() <= d
  {
    forall i | 0 <= i < ds.pos ensures ds.docs[i] < next {
      assert ds.docs[i] in ds.docs;
    }
    forall d | d in ds.docs && base + BLOCK_WINDOW <= d ensures ds.Doc() <= d {
      var k :| 0 <= k < |ds.docs| && ds.docs[k] == d;
      assert ds.pos <= k;
    }
  }

  // ANDs `update` into `mask`; tells whether nothing is left.
  method AndBlocks(mask: array<TinySet>, update: array<TinySet>) returns (allEmpty: bool)
    requires mask.Length == update.Length && mask != update
    modifies mask
    ensures Elements(mask[..]) == old(Elements(mask[..])) * Elements(update[..])
    ensures allEmpty <==> Elements(mask[..]) == {}
  {
    hide Elements, Intersect, Members;
    ghost var words := mask[..];
    allEmpty := true;
    var k := 0;
    while k < mask.Length
      invariant 0 <= k <= mask.Length
      invariant IntersectedUpTo(words, update[..], k, mask[..])
      invariant allEmpty <==> forall j :: 0 <= j < k ==> mask[j] == 0
    {
      mask[k] := Intersect(mask[k], update[k]);
      allEmpty := allEmpty && mask[k] == 0;
      k := k + 1;
    }
    IntersectWords(words, update[..], k, mask[..]);
    EmptyWords(mask[..]);
    forall i: nat | i in Elements(words) ensures i < 64 * |words| { InElements(words, i); }
    assert Elements(mask[..]) == Elements(words) * Elements(update[..]);
  }

  lemma {:induction false} EmptyWords(words: seq<TinySet>)
    ensures Elements(words) == {} <==> forall j :: 0 <= j < |words| ==> words[j] == 0
  {
    hide Elements, Members;
    if forall j :: 0 <= j < |words| ==> words[j] == 0 {
      NoElements(words);
    } else {
      var j :| 0 <= j < |words| && words[j] != 0;
      MembersEmpty(words[j]);
      var m :| m in Members(words[j]);
      MemberBound(words[j], m);
      assert (64 * j + m) / 64 == j && (64 * j + m) % 64 == m;
      InElements(words, 64 * j + m);
    }
  }

  method SumBlock(mask: array<TinySet>) returns (n: nat)
    ensures n == |Elements(mask[..])|
  {
    hide Elements, Len;
    n := 0;
    var k := 0;
    while k < mask.Length
      invariant 0 <= k <= mask.Length
      invariant n == SumLen(mask[..k])
    {
      assert mask[..k + 1][..k] == mask[..k];
      n := n + Len(mask[k]);
      k := k + 1;
    }
    assert mask[..k] == mask[..];
    SumLenIsCardinality(mask[..]);
  }

  // The offsets left after every block was ANDed are the common documents of the window: a
  // set that stands on `base` cannot contribute the sentinel.
  lemma {:induction false} MasksAreCommon(docsets: seq<DocSet>, base: nat, witness': nat, d: nat)
    requires |docsets| > 0 && AllValid(docsets) && base < TERMINATED && witness' < |docsets|
    requires base in docsets[witness'].docs && base <= d
    ensures InMasks(docsets, |docsets|, base, d - base) <==> d < base + BLOCK_WINDOW && InAll(docsets, d)
  {
    hide Window;
    var i := d - base;
    forall j | 0 <= j < |docsets| ensures i in Window(docsets[j].docs, base) <==> InWindow(docsets[j].docs, base, i) {
      InWindowSet(docsets[j].docs, base, i);
    }
    if InMasks(docsets, |docsets|, base, i) {
      assert i in WindowMask(docsets[witness'].docs, base);
      assert base + i < TERMINATED;
      forall j | 0 <= j < |docsets| ensures d in docsets[j].docs {
        assert i in WindowMask(docsets[j].docs, base);
      }
    }
  }

  lemma {:induction false} ShiftedSize(s: set<nat>, t: set<nat>, base: nat)
    requires forall d: nat :: d in t <==> base <= d && d - base in s
    ensures |s| == |t|
  {
    if s == {} {
      assert t == {};
    } else {
      var i :| i in s;
      assert base + i in t;
      ShiftedSize(s - {i}, t - {base + i}, base);
    }
  }

  // --- the dense count ----------------------------------------------------------------------------

  // Between windows: nothing at or above `base` was passed, and some set stands on it.
  ghost predicate Standing(docsets: seq<DocSet>, base: nat)
    reads docsets
  {
    && AllValid(docsets) && AllReach(docsets, base) && base <= TERMINATED
    && (forall k :: 0 <= k < |docsets| ==> docsets[k].Doc() <= base)
    && (base < TERMINATED ==> exists k :: 0 <= k < |docsets| && docsets[k].Doc() == base)
  }

  lemma {:induction false} StandingWitness(docsets: seq<DocSet>, base: nat) returns (k: nat)
    requires Standing(docsets, base) && base < TERMINATED
    ensures k < |docsets| && base in docsets[k].docs
  {
    k :| 0 <= k < |docsets| && docsets[k].Doc() == base;
  }

  // The state after the first k sets were filled from the window at `base`.
  ghost predicate FilledUpTo(docsets: seq<DocSet>, k: nat, base: nat, nextBase: nat)
    reads docsets
    requires k <= |docsets|
  {
    && AllValid(docsets) && AllReach(docsets, nextBase) && base <= nextBase <= TERMINATED
    && (forall j :: 0 <= j < |docsets| ==> docsets[j].Doc() <= nextBase)
    && (forall j :: k <= j < |docsets| ==> docsets[j].Doc() <= base && docsets[j].Reaches(base))
    && (k == 0 ==> nextBase == base)
    && (k > 0 ==> exists j :: 0 <= j < k && Tops(docsets[j], base, nextBase))
  }

  ghost predicate Tops(ds: DocSet, base: nat, nextBase: nat)
    reads ds
  {
    && ds.settled && ds.Doc() == nextBase && base < nextBase
    && (base + BLOCK_WINDOW <= nextBase || nextBase == TERMINATED)
    && forall d :: d in ds.docs && base + BLOCK_WINDOW <= d ==> nextBase <= d
  }

  method FillNext(docsets: seq<DocSet>, k: nat, base: nat, nextBase: nat)
    returns (mask: array<TinySet>, nextBase': nat)
    requires Distinct(docsets) && k < |docsets| && base < TERMINATED
    requires FilledUpTo(docsets, k, base, nextBase)
    modifies docsets
    ensures fresh(mask) && mask.Length == BLOCK_NUM_TINYBITSETS
    ensures Elements(mask[..]) == WindowMask(docsets[k].docs, base)
    ensures FilledUpTo(docsets, k + 1, base, nextBase')
  {
    hide WindowMask, IsDocSeq, Elements;
    ghost var top := k;
    if k > 0 {
      top :| 0 <= top < k && Tops(docsets[top], base, nextBase);
    }
    mask, nextBase' := FillFrom(docsets[k], base, nextBase);
    forall j | 0 <= j < |docsets| ensures docsets[j].Reaches(nextBase') {
    }
    if nextBase' == docsets[k].Doc() {
      assert Tops(docsets[k], base, nextBase');
    } else {
      assert docsets[top] != docsets[k];
      assert Tops(docsets[top], base, nextBase');
    }
  }

  lemma {:induction false} StandingOpens(docsets: seq<DocSet>, base: nat)
    requires Standing(docsets, base)
    ensures FilledUpTo(docsets, 0, base, base)
  {
  }

  // ANDs the blocks of all sets after the second.
  method AndOthers(docsets: seq<DocSet>, base: nat, start: nat, mask: array<TinySet>) returns (nextBase: nat)
    requires |docsets| >= 2 && Distinct(docsets) && base < TERMINATED
    requires FilledUpTo(docsets, 2, base, start) && mask.Length == BLOCK_NUM_TINYBITSETS
    requires forall i: nat :: i in Elements(mask[..]) <==> InMasks(docsets, 2, base, i)
    modifies docsets, mask
    ensures FilledUpTo(docsets, |docsets|, base, nextBase)
    ensures forall i: nat :: i in Elements(mask[..]) <==> InMasks(docsets, |docsets|, base, i)
  {
    hide WindowMask, IsDocSeq, Elements, FilledUpTo;
    nextBase := start;
    var k := 2;
    while k < |docsets|
      invariant 2 <= k <= |docsets|
      invariant FilledUpTo(docsets, k, base, nextBase)
      invariant forall i: nat :: i in Elements(mask[..]) <==> InMasks(docsets, k, base, i)
    {
      var otherMask;
      otherMask, nextBase := FillNext(docsets, k, base, nextBase);
      var empty := AndBlocks(mask, otherMask);
      k := k + 1;
    }
  }

  lemma {:induction false} FilledFacts(docsets: seq<DocSet>, k: nat, base: nat, nextBase: nat)
    requires k <= |docsets| && FilledUpTo(docsets, k, base, nextBase)
    ensures AllValid(docsets) && base <= nextBase <= TERMINATED
  {
  }

  method CountWindow(docsets: seq<DocSet>, base: nat) returns (nextBase: nat, n: nat)
    requires |docsets| >= 2 && Distinct(docsets) && Standing(docsets, base) && base < TERMINATED
    modifies docsets
    ensures Standing(docsets, nextBase) && base < nextBase
    ensures n == |Common(docsets, base, nextBase)|
  {
    hide IsDocSeq, Elements, Common, InAll, FilledUpTo, Standing;
    ghost var w := StandingWitness(docsets, base);
    StandingOpens(docsets, base);
    var mask, tailMask, empty;
    mask, nextBase := FillNext(docsets, 0, base, base);
    tailMask, nextBase := FillNext(docsets, 1, base, nextBase);
    empty := AndBlocks(mask, tailMask);
    forall i: nat ensures i in Elements(mask[..]) <==> InMasks(docsets, 2, base, i) {
    }
    FilledFacts(docsets, 2, base, nextBase);
    if empty {
      NothingInWindow(docsets, 2, base, w, mask[..]);
      CloseWindow(docsets, 2, base, nextBase, {});
      n := 0;
      return;
    }
    nextBase := AndOthers(docsets, base, nextBase, mask);
    FilledFacts(docsets, |docsets|, base, nextBase);
    forall d | base <= d ensures d - base in Elements(mask[..]) <==> d < base + BLOCK_WINDOW && InAll(docsets, d) {
      MasksAreCommon(docsets, base, w, d);
    }
    CloseWindow(docsets, |docsets|, base, nextBase, Elements(mask[..]));
    n := SumBlock(mask);
  }

  // An empty AND of some blocks already rules out a common document in the window.
  lemma {:induction false} NothingInWindow(docsets: seq<DocSet>, k: nat, base: nat, w: nat, words: seq<TinySet>)
    requires AllValid(docsets) && 0 < k <= |docsets| && base < TERMINATED && w < |docsets|
    requires base in docsets[w].docs
    requires Elements(words) == {}
    requires forall i: nat :: i in Elements(words) <==> InMasks(docsets, k, base, i)
    ensures forall d :: base <= d < base + BLOCK_WINDOW ==> !InAll(docsets, d)
  {
    hide WindowMask, Elements, InAll;
    forall d | base <= d < base + BLOCK_WINDOW ensures !InAll(docsets, d) {
      MasksAreCommon(docsets, base, w, d);
      assert d - base !in Elements(words);
    }
  }

  // The window and the gap after it account for every common document below the next base.
  lemma {:induction false} CloseWindow(docsets: seq<DocSet>, k: nat, base: nat, nextBase: nat, offsets: set<nat>)
    requires 0 < k <= |docsets| && base < TERMINATED
    requires FilledUpTo(docsets, k, base, nextBase)
    requires forall d :: base <= d ==> (d - base in offsets <==> d < base + BLOCK_WINDOW && InAll(docsets, d))
    ensures base < nextBase && Standing(docsets, nextBase)
    ensures |offsets| == |Common(docsets, base, nextBase)|
  {
    hide IsDocSeq, Common;
    var top :| 0 <= top < k && Tops(docsets[top], base, nextBase);
    var common := Common(docsets, base, nextBase);
    forall d: nat ensures d in common <==> base <= d && d - base in offsets {
      InCommon(docsets, base, nextBase, d);
      if base <= d && InAll(docsets, d) {
        CommonBelow(docsets, d);
      }
    }
    ShiftedSize(offsets, common, base);
  }

  lemma {:induction false} CommonBelow(docsets: seq<DocSet>, d: nat)
    requires |docsets| > 0 && AllValid(docsets) && InAll(docsets, d)
    ensures d < TERMINATED
  {
    assert d in docsets[0].docs;
  }

  // The window-by-window count equals the number of common documents.
  method CountIncludingDeletedDense(it: Intersection) returns (count: nat)
    requires it.Valid()
    modifies it.docsets
    ensures count == |Common(it.docsets, old(it.Doc()), TERMINATED)|
  {
    hide Common, InAll, IsDocSeq;
    count := 0;
    var nextBase := it.docsets[0].Doc();
    ghost var first := nextBase;
    AtEnd(it.docsets[0]);
    CommonNone(it.docsets, first, first);
    if nextBase < TERMINATED {
      StandingAtStart(it);
    }
    while nextBase < TERMINATED
      invariant first <= nextBase <= TERMINATED && |it.docsets| >= 2 && Distinct(it.docsets)
      invariant nextBase < TERMINATED ==> Standing(it.docsets, nextBase)
      invariant count == |Common(it.docsets, first, nextBase)|
      decreases TERMINATED - nextBase
    {
      var base := nextBase;
      var n;
      nextBase, n := CountWindow(it.docsets, base);
      CommonSplit(it.docsets, first, base, nextBase);
      count := count + n;
    }
  }

  lemma {:induction false} StandingAtStart(it: Intersection)
    requires it.Valid() && it.Doc() < TERMINATED
    ensures Standing(it.docsets, it.Doc())
  {
    var base := it.Doc();
    forall k | 0 <= k < |it.docsets| ensures it.docsets[k].Reaches(base) {
      CursorAt(it.docsets[k]);
    }
    assert it.docsets[0].Doc() == base;
  }

  // The density heuristic only chooses between two ways to the same number.
  method CountIncludingDeleted(it: Intersection, sizeHint: nat, segmentNumDocs: nat) returns (count: nat)
    requires it.Valid()
    modifies it.docsets
    ensures count == |Common(it.docsets, old(it.Doc()), TERMINATED)|
  {
    var scaled := if sizeHint * 32 < U32_BOUND then sizeHint * 32 else U32_BOUND - 1;
    if scaled < segmentNumDocs {
      count := CountIncludingDeletedSparse(it);
    } else {
      count := CountIncludingDeletedDense(it);
    }
  }
}
