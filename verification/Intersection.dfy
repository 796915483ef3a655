/** Leapfrog intersection of document cursors, and counting it one document at a time.

The cursors are any that keep the `seek_danger` protocol, and so is the intersection itself:
after a miss, all but the leading one may be left unsettled.

`left` is docsets[0], `right` is docsets[1], the others follow.
 */
module Intersections {
  import opened DocSets

  ghost predicate Distinct(docsets: seq<DocSet>) {
    forall i, j :: 0 <= i < j < |docsets| ==> docsets[i] != docsets[j]
  }

  ghost predicate AllValid(docsets: seq<DocSet>)
    reads docsets
  {
    forall k :: 0 <= k < |docsets| ==> docsets[k].Valid()
  }

  ghost predicate AllSound(docsets: seq<DocSet>)
    reads docsets
  {
    forall k :: 0 <= k < |docsets| ==> docsets[k].Sound()
  }

  // The document is in every set.
  ghost predicate InAll(docsets: seq<DocSet>, d: nat) {
    forall k :: 0 <= k < |docsets| ==> d in docsets[k].docs
  }

  // `r` is the first common document at or above `from`, or TERMINATED.
  ghost predicate IsFirstCommon(docsets: seq<DocSet>, from: nat, r: nat) {
    && (r == TERMINATED || (from <= r < TERMINATED && InAll(docsets, r)))
    && forall d :: from <= d < r ==> !InAll(docsets, d)
  }

  ghost predicate Aligned(docsets: seq<DocSet>, doc: nat)
    reads docsets
  {
    forall k :: 0 <= k < |docsets| ==> docsets[k].settled && docsets[k].Doc() == doc
  }

  // None of the sets has passed a document at or above `target`.
  ghost predicate AllReach(docsets: seq<DocSet>, target: nat)
    reads docsets
    requires AllSound(docsets)
  {
    forall k :: 0 <= k < |docsets| ==> docsets[k].Reaches(target)
  }

  lemma {:induction false} NoCommonBetween(docsets: seq<DocSet>, k: nat, candidate: nat, bound: nat, d: nat)
    requires k < |docsets| && docsets[k].Sound() && candidate < TERMINATED
    requires candidate !in docsets[k].docs
    requires bound <= FirstFrom(docsets[k].docs, candidate + 1)
    requires candidate <= d < bound
    ensures !InAll(docsets, d)
  {
    hide FirstFrom;
    assert d in docsets[k].docs ==> d == candidate;
  }

  // --- building ------------------------------------------------------------------------------

  // No cursor stands beyond `d`.
  ghost predicate AllAtOrBelow(docsets: seq<DocSet>, d: nat)
    reads docsets
    requires AllValid(docsets)
  {
    forall k :: 0 <= k < |docsets| ==> docsets[k].Doc() <= d
  }

  // Moves every cursor to the first common document that none of them had passed, starting
  // over whenever one overshoots.
  method GoToFirstDoc(docsets: seq<DocSet>) returns (candidate: nat)
    requires |docsets| > 0 && Distinct(docsets) && AllValid(docsets)
    modifies docsets
    ensures AllValid(docsets) && Aligned(docsets, candidate)
    ensures candidate == TERMINATED || (candidate < TERMINATED && InAll(docsets, candidate))
    ensures old(AllAtOrBelow(docsets, candidate))
    ensures forall d: nat :: d < candidate && InAll(docsets, d) ==> !old(AllAtOrBelow(docsets, d))
  {
    hide FirstFrom, IsDocSeq, InAll, DocSet.Reaches;
    candidate := MaxDoc(docsets);
    ghost var top := candidate;
    assert forall d: nat :: old(AllAtOrBelow(docsets, d)) <==> top <= d by {
      assert forall d: nat :: old(AllAtOrBelow(docsets, d)) <==> AllAtOrBelow(docsets, d);
    }
    var k := 0;
    while k < |docsets|
      invariant 0 <= k <= |docsets| && top <= candidate <= TERMINATED
      invariant AllValid(docsets) && AllReach(docsets, candidate)
      invariant AllAtOrBelow(docsets, candidate)
      invariant forall j :: 0 <= j < k ==> docsets[j].Doc() == candidate
      invariant forall d :: top <= d < candidate ==> !InAll(docsets, d)
      decreases TERMINATED - candidate, |docsets| - k
    {
      var seekDoc := SeekOne(docsets, k, candidate);
      if seekDoc > candidate {
        candidate := seekDoc;
        k := 0;
      } else {
        k := k + 1;
      }
    }
    if candidate < TERMINATED {
      AlignedIsCommon(docsets, candidate);
    }
  }

  // Moves one cursor up to the candidate; whatever it skips is not common.
  method SeekOne(docsets: seq<DocSet>, k: nat, candidate: nat) returns (doc: nat)
    requires Distinct(docsets) && AllValid(docsets) && k < |docsets| && candidate <= TERMINATED
    requires AllReach(docsets, candidate) && AllAtOrBelow(docsets, candidate)
    modifies docsets[k]
    ensures AllValid(docsets) && docsets[k].Doc() == doc && candidate <= doc <= TERMINATED
    ensures AllReach(docsets, doc) && AllAtOrBelow(docsets, doc)
    ensures forall d :: candidate <= d < doc ==> !InAll(docsets, d)
  {
    hide FirstFrom, IsDocSeq, InAll;
    doc := docsets[k].Seek(candidate);
    AtEnd(docsets[k]);
    NoCommonUpTo(docsets, k, candidate);
  }

  lemma {:induction false} NoCommonUpTo(docsets: seq<DocSet>, k: nat, candidate: nat)
    requires k < |docsets| && docsets[k].Sound() && candidate <= TERMINATED
    ensures forall d :: candidate <= d < FirstFrom(docsets[k].docs, candidate) ==> !InAll(docsets, d)
  {
    hide FirstFrom;
    forall d | candidate <= d < FirstFrom(docsets[k].docs, candidate) ensures !InAll(docsets, d) {
      assert d !in docsets[k].docs;
    }
  }

  method MaxDoc(docsets: seq<DocSet>) returns (m: nat)
    requires |docsets| > 0 && AllValid(docsets)
    ensures m <= TERMINATED && AllReach(docsets, m)
    ensures forall d: nat :: AllAtOrBelow(docsets, d) <==> m <= d
  {
    hide IsDocSeq;
    m := docsets[0].Doc();
    ghost var top := 0;
    AtEnd(docsets[0]);
    var k := 1;
    while k < |docsets|
      invariant 1 <= k <= |docsets| && 0 <= top < k && m == docsets[top].Doc() <= TERMINATED
      invariant forall j :: 0 <= j < k ==> docsets[j].Doc() <= m
    {
      AtEnd(docsets[k]);
      if docsets[k].Doc() > m {
        m := docsets[k].Doc();
        top := k;
      }
      k := k + 1;
    }
    forall j | 0 <= j < |docsets| ensures docsets[j].Reaches(m) {
      CursorAt(docsets[j]);
    }
  }

  lemma {:induction false} CursorAt(ds: DocSet)
    requires ds.Valid()
    ensures ds.Reaches(ds.Doc())
  {
    forall i | 0 <= i < ds.pos ensures ds.docs[i] < ds.Doc() {
      assert ds.docs[i] in ds.docs;
    }
  }

  // --- ordering the sets by cost -------------------------------------------------------------

  ghost predicate CheapestFirst(docsets: seq<DocSet>) {
    forall i, j :: 0 <= i < j < |docsets| ==> docsets[i].cost <= docsets[j].cost
  }

  ghost predicate SameSets(a: seq<DocSet>, b: seq<DocSet>) {
    |a| == |b| && (forall k :: 0 <= k < |a| ==> a[k] in b) && (forall k :: 0 <= k < |b| ==> b[k] in a)
  }

  method SortByCost(docsets: seq<DocSet>) returns (r: seq<DocSet>)
    requires Distinct(docsets)
    ensures SameSets(r, docsets) && CheapestFirst(r) && Distinct(r)
  {
    r := [];
    while |r| < |docsets|
      invariant |r| <= |docsets| && CheapestFirst(r) && Distinct(r)
      invariant forall ds :: ds in r <==> ds in docsets[..|r|]
    {
      var ds := docsets[|r|];
      assert ds !in docsets[..|r|];
      assert docsets[..|r| + 1] == docsets[..|r|] + [ds];
      r := InsertByCost(r, ds);
    }
    assert docsets[..|docsets|] == docsets;
  }

  // Behind the sets that cost no more, so that equal costs keep their order.
  method InsertByCost(docsets: seq<DocSet>, ds: DocSet) returns (r: seq<DocSet>)
    requires CheapestFirst(docsets) && Distinct(docsets) && ds !in docsets
    ensures CheapestFirst(r) && Distinct(r) && |r| == |docsets| + 1
    ensures forall x :: x in r <==> x in docsets || x == ds
  {
    var k := |docsets|;
    while k > 0 && docsets[k - 1].cost > ds.cost
      invariant 0 <= k <= |docsets|
      invariant forall j :: k <= j < |docsets| ==> docsets[j].cost > ds.cost
    {
      k := k - 1;
    }
    r := docsets[..k] + [ds] + docsets[k..];
    Inserted(docsets, ds, k, r);
  }

  lemma {:induction false} Inserted(docsets: seq<DocSet>, ds: DocSet, k: nat, r: seq<DocSet>)
    requires k <= |docsets| && r == docsets[..k] + [ds] + docsets[k..]
    requires CheapestFirst(docsets) && Distinct(docsets) && ds !in docsets
    requires k > 0 ==> docsets[k - 1].cost <= ds.cost
    requires forall j :: k <= j < |docsets| ==> docsets[j].cost > ds.cost
    ensures CheapestFirst(r) && Distinct(r) && |r| == |docsets| + 1
    ensures forall x :: x in r <==> x in docsets || x == ds
  {
    assert forall i :: 0 <= i < |r| ==> r[i] == if i < k then docsets[i] else if i == k then ds else docsets[i - 1];
    forall i, j | 0 <= i < j < |r| ensures r[i].cost <= r[j].cost && r[i] != r[j] {
      if i < k {
        assert docsets[i].cost <= docsets[k - 1].cost;
      }
    }
    assert docsets == docsets[..k] + docsets[k..];
  }

  // What only depends on which sets there are.
  lemma {:induction false} SameMembers(a: seq<DocSet>, b: seq<DocSet>)
    requires SameSets(a, b) && AllValid(b)
    ensures AllValid(a)
    ensures forall d: nat :: InAll(a, d) <==> InAll(b, d)
    ensures forall d: nat :: AllAtOrBelow(a, d) <==> AllAtOrBelow(b, d)
  {
    hide DocSet.Valid;
    forall k | 0 <= k < |a| ensures exists j :: 0 <= j < |b| && b[j] == a[k] {
      assert a[k] in b;
    }
    forall k | 0 <= k < |b| ensures exists j :: 0 <= j < |a| && a[j] == b[k] {
      assert b[k] in a;
    }
    forall k | 0 <= k < |a| ensures a[k].Valid() {
      var j :| 0 <= j < |b| && b[j] == a[k];
    }
  }

  // --- the intersection cursor -------------------------------------------------------------

  class Intersection {
    const docsets: seq<DocSet>

    ghost predicate Shaped()
      reads this, docsets
    {
      |docsets| >= 2 && Distinct(docsets) && AllSound(docsets)
    }

    function Doc(): (d: nat)
      reads this, docsets
      requires |docsets| >= 2 && docsets[0].settled
    {
      docsets[0].Doc()
    }

    // Exhausted, or every set stands on the current document and nothing later was passed.
    ghost predicate Valid()
      reads this, docsets
    {
      && Shaped() && docsets[0].settled
      && (Doc() < TERMINATED ==> Aligned(docsets, Doc()))
    }

    // The cheapest set leads.
    constructor (unordered: seq<DocSet>)
      requires |unordered| >= 2 && Distinct(unordered) && AllValid(unordered)
      modifies unordered
      ensures Valid() && SameSets(docsets, unordered) && CheapestFirst(docsets)
      ensures Doc() < TERMINATED ==> InAll(unordered, Doc())
      ensures var d := docsets[0].Doc(); old(AllAtOrBelow(unordered, d))
      ensures forall d: nat :: d < Doc() && InAll(unordered, d) ==> !old(AllAtOrBelow(unordered, d))
    {
      hide InAll, IsDocSeq;
      var sorted := SortByCost(unordered);
      SameMembers(sorted, unordered);
      var first := GoToFirstDoc(sorted);
      docsets := sorted;
    }

    // Positions every set on the first common document at or above the candidate.
    method SeekFromCandidate(start: nat) returns (r: nat)
      requires Shaped() && docsets[0].settled && docsets[0].Doc() <= start
      requires AllReach(docsets, start)
      modifies docsets
      ensures Valid() && r == Doc()
      ensures IsFirstCommon(docsets, start, r)
    {
      hide FirstFrom, IsDocSeq;
      var candidate := start;
      while candidate < TERMINATED
        invariant Shaped() && docsets[0].settled && docsets[0].Doc() <= candidate && start <= candidate
        invariant AllReach(docsets, candidate)
        invariant forall d :: start <= d < candidate ==> !InAll(docsets, d)
        decreases TERMINATED - candidate
      {
        candidate := SeekLeft(candidate, start);
        var aligned, bound := AlignOthers(candidate);
        if aligned {
          return candidate;
        }
        candidate := bound;
      }
      assert docsets[0].Doc() <= TERMINATED by { AtEnd(docsets[0]); }
      var last := docsets[0].Seek(TERMINATED);
      r := TERMINATED;
      AtEnd(docsets[0]);
    }

    method SeekLeft(candidate: nat, ghost start: nat) returns (doc: nat)
      requires Shaped() && docsets[0].settled && docsets[0].Doc() <= candidate < TERMINATED && start <= candidate
      requires AllReach(docsets, candidate)
      requires forall d :: start <= d < candidate ==> !InAll(docsets, d)
      modifies docsets
      ensures Shaped() && docsets[0].settled && docsets[0].Doc() == doc && candidate <= doc <= TERMINATED
      ensures AllReach(docsets, doc)
      ensures forall d :: start <= d < doc ==> !InAll(docsets, d)
    {
      hide FirstFrom, IsDocSeq;
      doc := docsets[0].Seek(candidate);
      AtEnd(docsets[0]);
      NoCommonUpTo(docsets, 0, candidate);
    }

    // Checks the candidate against every set but the first, stopping at the first miss; the
    // sentinel misses at once.
    method AlignOthers(candidate: nat) returns (aligned: bool, bound: nat)
      requires Shaped() && docsets[0].settled && docsets[0].Doc() == candidate <= TERMINATED
      requires AllReach(docsets, candidate)
      modifies docsets
      ensures Shaped() && docsets[0].settled && docsets[0].Doc() == candidate
      ensures aligned ==> candidate < TERMINATED && Aligned(docsets, candidate) && InAll(docsets, candidate)
      ensures !aligned ==> (candidate < bound <= TERMINATED || candidate == bound == TERMINATED)
      ensures !aligned ==> AllReach(docsets, bound)
      ensures !aligned ==> forall d :: candidate <= d < bound ==> !InAll(docsets, d)
    {
      hide FirstFrom, IsDocSeq;
      FirstAtCursor(docsets[0], candidate);
      bound := candidate;
      var k := 1;
      while k < |docsets|
        invariant 1 <= k <= |docsets|
        invariant Shaped() && AllReach(docsets, candidate)
        invariant k == 1 || candidate < TERMINATED
        invariant forall j :: 0 <= j < k ==> docsets[j].settled && docsets[j].Doc() == candidate
        invariant candidate < TERMINATED ==> forall j :: 0 <= j < k ==> candidate in docsets[j].docs
      {
        var r := docsets[k].SeekDangerLazily(candidate);
        NoSentinel(docsets[k]);
        if r.SeekLowerBound? {
          aligned, bound := false, r.bound;
          forall d | candidate <= d < bound ensures !InAll(docsets, d) {
            NoCommonBetween(docsets, k, candidate, bound, d);
          }
          return;
        }
        k := k + 1;
      }
      aligned := true;
    }

    // The intersection answers the seek_danger protocol by asking each set in turn.
    method SeekDanger(target: nat) returns (r: SeekDangerResult)
      requires Shaped() && target <= TERMINATED && AllReach(docsets, target)
      modifies docsets
      ensures Shaped() && AllReach(docsets, target)
      ensures r.Found? <==> InAll(docsets, target)
      ensures r.Found? ==> Aligned(docsets, target)
      ensures r.SeekLowerBound? ==>
                && (target < r.bound <= TERMINATED || target == r.bound == TERMINATED)
                && forall d :: target <= d < r.bound ==> !InAll(docsets, d)
    {
      hide FirstFrom, IsDocSeq;
      var k := 0;
      while k < |docsets|
        invariant 0 <= k <= |docsets|
        invariant Shaped() && AllReach(docsets, target)
        invariant forall j :: 0 <= j < k ==>
                    docsets[j].settled && docsets[j].Doc() == target && target in docsets[j].docs
      {
        r := docsets[k].SeekDangerLazily(target);
        NoSentinel(docsets[k]);
        if r.SeekLowerBound? {
          forall d | target <= d < r.bound ensures !InAll(docsets, d) {
            NoCommonBetween(docsets, k, target, r.bound, d);
          }
          return;
        }
        k := k + 1;
      }
      r := Found;
    }

    method Advance() returns (r: nat)
      requires Valid()
      modifies docsets
      ensures Valid() && r == Doc()
      ensures old(Doc()) < TERMINATED ==> IsFirstCommon(docsets, old(Doc()) + 1, r)
      ensures old(Doc()) >= TERMINATED ==> r == TERMINATED
    {
      var candidate := docsets[0].Doc() + 1;
      AtEnd(docsets[0]);
      forall k | 0 <= k < |docsets| ensures docsets[k].Reaches(candidate) {
        CursorReaches(docsets[k], candidate);
      }
      r := SeekFromCandidate(candidate);
    }

    method Seek(target: nat) returns (r: nat)
      requires Valid() && Doc() <= target <= TERMINATED
      modifies docsets
      ensures Valid() && r == Doc()
      ensures IsFirstCommon(docsets, target, r)
    {
      var doc := docsets[0].Doc();
      if target <= doc {
        if doc < TERMINATED {
          AlignedIsCommon(docsets, doc);
        }
        return doc;
      }
      AtEnd(docsets[0]);
      forall k | 0 <= k < |docsets| ensures docsets[k].Reaches(target) {
        CursorReaches(docsets[k], target);
      }
      r := SeekFromCandidate(target);
    }
  }

  // --- counting ------------------------------------------------------------------------

  // The common documents of [lo, hi).
  ghost function Common(docsets: seq<DocSet>, lo: nat, hi: nat): (s: set<nat>)
    requires |docsets| > 0
  {
    set d | d in docsets[0].docs && lo <= d < hi && InAll(docsets, d)
  }

  lemma {:induction false} InCommon(docsets: seq<DocSet>, lo: nat, hi: nat, d: nat)
    requires |docsets| > 0
    ensures d in Common(docsets, lo, hi) <==> lo <= d < hi && InAll(docsets, d)
  {
  }

  lemma {:induction false} CommonSplit(docsets: seq<DocSet>, lo: nat, mid: nat, hi: nat)
    requires |docsets| > 0 && lo <= mid <= hi
    ensures |Common(docsets, lo, hi)| == |Common(docsets, lo, mid)| + |Common(docsets, mid, hi)|
  {
    hide InAll;
    assert Common(docsets, lo, hi) == Common(docsets, lo, mid) + Common(docsets, mid, hi);
    assert Common(docsets, lo, mid) !! Common(docsets, mid, hi);
  }

  // One document at a time.
  method CountIncludingDeletedSparse(it: Intersection) returns (count: nat)
    requires it.Valid()
    modifies it.docsets
    ensures it.Valid() && it.Doc() == TERMINATED
    ensures count == |Common(it.docsets, old(it.Doc()), TERMINATED)|
  {
    hide Common, InAll, Aligned, IsDocSeq;
    count := 0;
    var doc := it.Doc();
    ghost var first := doc;
    CommonNone(it.docsets, first, first);
    AtEnd(it.docsets[0]);
    while doc != TERMINATED
      invariant it.Valid() && doc == it.Doc() && first <= doc <= TERMINATED
      invariant count == |Common(it.docsets, first, doc)|
      decreases TERMINATED - doc
    {
      ghost var was := doc;
      AlignedIsCommon(it.docsets, doc);
      count := count + 1;
      doc := it.Advance();
      CommonSplit(it.docsets, first, was, doc);
      CommonSingle(it.docsets, was, doc);
    }
  }

  lemma {:induction false} CommonNone(docsets: seq<DocSet>, lo: nat, hi: nat)
    requires |docsets| > 0 && forall d :: lo <= d < hi ==> !InAll(docsets, d)
    ensures Common(docsets, lo, hi) == {}
  {
    hide InAll;
  }

  lemma {:induction false} CommonSingle(docsets: seq<DocSet>, d: nat, next: nat)
    requires |docsets| > 0 && InAll(docsets, d) && d < next
    requires forall x :: d + 1 <= x < next ==> !InAll(docsets, x)
    ensures |Common(docsets, d, next)| == 1
  {
    hide InAll;
    assert d in docsets[0].docs by { InCommon(docsets, d, next, d); }
    assert Common(docsets, d, next) == {d};
  }

  lemma {:induction false} CursorReaches(ds: DocSet, t: nat)
    requires ds.Sound() && (TERMINATED <= t || (ds.settled && ds.Doc() < t))
    ensures ds.Reaches(t)
  {
    forall i | 0 <= i < ds.pos ensures ds.docs[i] < t {
      assert ds.docs[i] in ds.docs;
    }
  }

  lemma {:induction false} AlignedIsCommon(docsets: seq<DocSet>, doc: nat)
    requires Aligned(docsets, doc) && doc < TERMINATED
    ensures InAll(docsets, doc)
  {
  }
}
