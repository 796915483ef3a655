/** The document cursor: default methods of a sorted set of document ids that is visited by
moving forward.  The set itself is an arbitrary strictly increasing sequence of ids below
the sentinel TERMINATED.

Implementations may answer `seek_danger` with less than the default method does, and be left
in a state in which only `seek_danger` may be called; `SeekDangerLazily` is any of them.
 */
module DocSets {
  import opened Collections

  const TERMINATED: nat := 0x7FFF_FFFF
  const COLLECT_BLOCK_BUFFER_LEN: nat := 64
  const BLOCK_NUM_TINYBITSETS: nat := 16
  const BLOCK_WINDOW: nat := 1024

  datatype SeekDangerResult = Found | SeekLowerBound(bound: nat)

  ghost predicate IsDocSeq(docs: seq<nat>) {
    Ascending(docs) && forall d :: d in docs ==> d < TERMINATED
  }

  // The first document at or above `from`, or TERMINATED.
  ghost function FirstFrom(docs: seq<nat>, from: nat): (d: nat)
    requires IsDocSeq(docs) && from <= TERMINATED
    ensures from <= d <= TERMINATED
    ensures d < TERMINATED ==> d in docs
    ensures forall x :: x in docs && from <= x ==> d <= x
  {
    if |docs| == 0 then TERMINATED
    else if docs[0] >= from then
      assert docs[0] in docs;
      docs[0]
    else
      assert IsDocSeq(docs[1..]) by { TailIsDocSeq(docs); }
      assert forall x :: x in docs && from <= x ==> x in docs[1..];
      FirstFrom(docs[1..], from)
  }

  lemma {:induction false} TailIsDocSeq(docs: seq<nat>)
    requires IsDocSeq(docs) && |docs| > 0
    ensures IsDocSeq(docs[1..])
  {
    assert forall d :: d in docs[1..] ==> d in docs;
  }

  // The value is determined by what it promises.
  lemma {:induction false} FirstFromUnique(docs: seq<nat>, from: nat, d: nat)
    requires IsDocSeq(docs) && from <= d <= TERMINATED
    requires d < TERMINATED ==> d in docs
    requires forall x :: x in docs && from <= x ==> d <= x
    ensures d == FirstFrom(docs, from)
  {
    hide FirstFrom;
  }

  class DocSet {
    const docs: seq<nat>
    const hint: nat -> nat  // the lower bounds a lazy implementation answers
    const cost: nat
    var pos: nat
    var settled: bool  // not left in the middle of a lazy search

    ghost predicate Sound()
      reads this
    {
      IsDocSeq(docs) && pos <= |docs|
    }

    ghost predicate Valid()
      reads this
    {
      Sound() && settled
    }

    // No document at or above `target` has been passed.
    ghost predicate Reaches(target: nat)
      reads this
      requires Sound()
    {
      forall i :: 0 <= i < pos ==> docs[i] < target
    }

    function Doc(): (d: nat)
      reads this
      requires settled
    {
      if pos < |docs| then docs[pos] else TERMINATED
    }

    constructor (docs: seq<nat>, hint: nat -> nat, cost: nat)
      requires IsDocSeq(docs)
      ensures Valid() && this.docs == docs && this.hint == hint && this.cost == cost && pos == 0
    {
      this.docs := docs;
      this.hint := hint;
      this.cost := cost;
      pos := 0;
      settled := true;
    }

    // What moving forward to the first document at or above `target` means.
    twostate predicate MovedTo(target: nat)
      reads this
      requires settled
    {
      && old(pos) <= pos <= |docs|
      && (forall i :: old(pos) <= i < pos ==> docs[i] < target)
      && Doc() >= target
    }

    method Advance() returns (doc: nat)
      requires Valid()
      modifies this`pos
      ensures Valid() && doc == Doc()
      ensures pos == if old(pos) < |docs| then old(pos) + 1 else old(pos)
    {
      if pos < |docs| {
        pos := pos + 1;
      }
      doc := Doc();
    }

    method Seek(target: nat) returns (doc: nat)
      requires Valid() && Doc() <= target <= TERMINATED
      modifies this`pos
      ensures Valid() && doc == Doc() && MovedTo(target)
      ensures old(Reaches(target)) ==> Reaches(target) && doc == FirstFrom(docs, target)
    {
      hide FirstFrom;
      doc := Doc();
      while doc < target
        invariant Valid() && doc == Doc() && old(pos) <= pos
        invariant forall i :: old(pos) <= i < pos ==> docs[i] < target
        decreases |docs| - pos
      {
        doc := Advance();
      }
      if old(Reaches(target)) {
        FirstAtCursor(this, target);
      }
    }

    // Found exactly when the target is in the set; otherwise the first document after the
    // target.  Valid even when the cursor is already past the target, provided
    // no document at or above the target was passed.
    method SeekDanger(target: nat) returns (r: SeekDangerResult)
      requires Valid() && target <= TERMINATED && Reaches(target)
      modifies this`pos
      ensures Valid() && Reaches(target) && old(pos) <= pos
      ensures r.Found? <==> target in docs
      ensures r.Found? ==> Doc() == target
      ensures r.SeekLowerBound? && target < TERMINATED ==> target < r.bound == FirstFrom(docs, target + 1)
      ensures r.SeekLowerBound? && target == TERMINATED ==> r.bound == TERMINATED
    {
      hide FirstFrom;
      if target >= TERMINATED {
        return SeekLowerBound(target);
      }
      var doc := Doc();
      FirstAtCursor(this, target);
      if doc < target {
        doc := Seek(target);
      }
      if doc == target {
        r := Found;
      } else {
        r := SeekLowerBound(doc);
      }
    }

    // Any implementation of seek_danger: the target is found as before, but a miss may be
    // answered with any bound that passes no document, and leaves the cursor unsettled.
    method SeekDangerLazily(target: nat) returns (r: SeekDangerResult)
      requires Sound() && target <= TERMINATED && Reaches(target)
      modifies this`pos, this`settled
      ensures Sound() && Reaches(target) && old(pos) <= pos
      ensures r.Found? <==> target in docs
      ensures r.Found? ==> settled && Doc() == target
      ensures r.SeekLowerBound? && target < TERMINATED ==> target < r.bound <= FirstFrom(docs, target + 1)
      ensures r.SeekLowerBound? && target == TERMINATED ==> r.bound == TERMINATED
    {
      hide FirstFrom;
      if target >= TERMINATED {
        NoSentinel(this);
        return SeekLowerBound(target);
      }
      settled := true;
      r := SeekDanger(target);
      if r.SeekLowerBound? {
        if target < hint(target) < r.bound {
          r := SeekLowerBound(hint(target));
        }
        settled := false;
      }
    }

    // The next documents, up to a full buffer.
    method FillBuffer(buffer: array<nat>) returns (n: nat)
      requires Valid() && buffer.Length == COLLECT_BLOCK_BUFFER_LEN
      modifies this`pos, buffer
      ensures Valid() && pos == old(pos) + n
      ensures n == if |docs| - old(pos) < buffer.Length then |docs| - old(pos) else buffer.Length
      ensures buffer[..n] == docs[old(pos)..old(pos) + n]
    {
      if Doc() == TERMINATED {
        AtEnd(this);
        return 0;
      }
      var i := 0;
      while i < buffer.Length
        invariant 0 <= i <= buffer.Length
        invariant Valid() && pos == old(pos) + i
        invariant i < buffer.Length ==> pos < |docs|
        invariant buffer[..i] == docs[old(pos)..old(pos) + i]
      {
        ghost var filled := buffer[..i];
        buffer[i] := Doc();
        assert buffer[..i + 1] == filled + [docs[pos]] == docs[old(pos)..old(pos) + i + 1];
        var doc := Advance();
        if doc == TERMINATED {
          AtEnd(this);
          return i + 1;
        }
        i := i + 1;
      }
      return buffer.Length;
    }

    // Number of remaining documents that satisfy the predicate.
    method Count(alive: nat -> bool) returns (count: nat)
      requires Valid()
      modifies this`pos
      ensures Valid() && Doc() == TERMINATED
      ensures count == |Alive(docs[old(pos)..], alive)|
    {
      hide IsDocSeq, Alive;
      count := 0;
      var doc := Doc();
      NoneAlive(alive);
      assert docs[old(pos)..pos] == [];
      while doc != TERMINATED
        invariant Valid() && doc == Doc() && old(pos) <= pos
        invariant count == |Alive(docs[old(pos)..pos], alive)|
        decreases |docs| - pos
      {
        OneMoreAlive(docs, old(pos), pos, alive);
        if alive(doc) {
          count := count + 1;
        }
        doc := Advance();
      }
      AtEnd(this);
      assert docs[old(pos)..pos] == docs[old(pos)..];
    }

    method CountIncludingDeleted() returns (count: nat)
      requires Valid()
      modifies this`pos
      ensures Valid() && Doc() == TERMINATED
      ensures count == |docs| - old(pos)
    {
      count := 0;
      var doc := Doc();
      while doc != TERMINATED
        invariant Valid() && doc == Doc() && pos == old(pos) + count
        decreases |docs| - pos
      {
        count := count + 1;
        doc := Advance();
      }
      AtEnd(this);
    }
  }

  lemma {:induction false} NoSentinel(ds: DocSet)
    requires ds.Sound()
    ensures TERMINATED !in ds.docs
  {
  }

  lemma {:induction false} AtEnd(ds: DocSet)
    requires ds.Valid()
    ensures ds.Doc() == TERMINATED <==> ds.pos == |ds.docs|
    ensures ds.Doc() <= TERMINATED
  {
    if ds.pos < |ds.docs| {
      assert ds.docs[ds.pos] in ds.docs;
    }
  }

  ghost function Alive(docs: seq<nat>, alive: nat -> bool): (s: set<nat>)
  {
    set d | d in docs && alive(d)
  }

  lemma {:induction false} NoneAlive(alive: nat -> bool)
    ensures Alive([], alive) == {}
  {
  }

  lemma {:induction false} OneMoreAlive(docs: seq<nat>, from: nat, p: nat, alive: nat -> bool)
    requires IsDocSeq(docs) && from <= p < |docs|
    ensures |Alive(docs[from..p + 1], alive)| == |Alive(docs[from..p], alive)| + if alive(docs[p]) then 1 else 0
  {
    var before, after := Alive(docs[from..p], alive), Alive(docs[from..p + 1], alive);
    assert docs[from..p + 1] == docs[from..p] + [docs[p]];
    assert docs[p] !in docs[from..p];
    assert after == if alive(docs[p]) then before + {docs[p]} else before;
  }

  // When nothing at or above the target was passed and the cursor is at or above it, the
  // cursor is on the first such document; in general the target lies at or after the cursor.
  lemma {:induction false} FirstAtCursor(ds: DocSet, target: nat)
    requires ds.Valid() && target <= TERMINATED && ds.Reaches(target)
    ensures target <= ds.Doc() ==> ds.Doc() == FirstFrom(ds.docs, target)
    ensures target < ds.Doc() ==> target !in ds.docs && ds.Doc() == FirstFrom(ds.docs, target + 1)
    ensures target == ds.Doc() < TERMINATED ==> target in ds.docs
  {
    hide FirstFrom;
    var d := ds.Doc();
    if target <= d {
      assert ds.pos < |ds.docs| ==> d in ds.docs;
      forall x | x in ds.docs && target <= x ensures d <= x {
        var k :| 0 <= k < |ds.docs| && ds.docs[k] == x;
        assert ds.pos <= k;
      }
      FirstFromUnique(ds.docs, target, d);
      if target < d {
        FirstFromUnique(ds.docs, target + 1, d);
      }
    }
  }

  // --- runs of seek_danger -----------------------------------------------------------------

  ghost predicate SeekAnswer(docs: seq<nat>, target: nat, r: SeekDangerResult)
    requires IsDocSeq(docs) && target < TERMINATED
  {
    && (r.Found? <==> target in docs)
    && (r.SeekLowerBound? ==> r.bound == FirstFrom(docs, target + 1))
  }

  // Every strictly increasing run of targets, from any cursor that has not passed the first.
  method SeekDangerRun(ds: DocSet, targets: seq<nat>) returns (rs: seq<SeekDangerResult>)
    requires ds.Valid() && Ascending(targets)
    requires forall i :: 0 <= i < |targets| ==> targets[i] < TERMINATED
    requires |targets| > 0 ==> ds.Reaches(targets[0])
    modifies ds`pos
    ensures |rs| == |targets|
    ensures forall i :: 0 <= i < |targets| ==> SeekAnswer(ds.docs, targets[i], rs[i])
  {
    hide FirstFrom;
    rs := [];
    while |rs| < |targets|
      invariant ds.Valid() && |rs| <= |targets|
      invariant |rs| < |targets| ==> ds.Reaches(targets[|rs|])
      invariant forall i :: 0 <= i < |rs| ==> SeekAnswer(ds.docs, targets[i], rs[i])
    {
      var r := ds.SeekDanger(targets[|rs|]);
      rs := rs + [r];
    }
  }

  // --- enumeration by buffers -----------------------------------------------------------------

  method CollectByBuffer(ds: DocSet) returns (out: seq<nat>)
    requires ds.Valid()
    modifies ds`pos
    ensures out == ds.docs[old(ds.pos)..]
  {
    out := [];
    var buffer := new nat[COLLECT_BLOCK_BUFFER_LEN](_ => 0);
    var n := COLLECT_BLOCK_BUFFER_LEN;
    while n > 0
      invariant fresh(buffer) && buffer.Length == COLLECT_BLOCK_BUFFER_LEN
      invariant ds.Valid() && old(ds.pos) <= ds.pos
      invariant n == 0 ==> ds.pos == |ds.docs|
      invariant out == ds.docs[old(ds.pos)..ds.pos]
      decreases |ds.docs| - ds.pos, n
    {
      n := ds.FillBuffer(buffer);
      out := out + buffer[..n];
    }
  }
}
