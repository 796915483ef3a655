/** Runs of `add` and `flush` on the blocked sequence, and for which of them every index
reads the value that was added there.
 */
module BlockedRuns {
  import opened Collections
  import opened Bits
  import opened BitUnpacking
  import opened BlockedBitpacking

  datatype Op = Push(val: U64) | Seal

  datatype Layout = Layout(blocks: seq<seq<U64>>, buffer: seq<U64>)

  // The blocks and the buffer after a run.
  ghost function After(ops: seq<Op>): (l: Layout)
  {
    if |ops| == 0 then Layout([], [])
    else
      var before, last := After(ops[..|ops| - 1]), ops[|ops| - 1];
      if last.Push? then
        var buffer := before.buffer + [last.val];
        if |buffer| == BLOCK_SIZE then Layout(before.blocks + [buffer], []) else Layout(before.blocks, buffer)
      else if before.buffer == [] then before
      else Layout(before.blocks + [before.buffer], [])
  }

  ghost function Added(ops: seq<Op>): (vals: seq<U64>)
  {
    if |ops| == 0 then []
    else Added(ops[..|ops| - 1]) + (if ops[|ops| - 1].Push? then [ops[|ops| - 1].val] else [])
  }

  // The same adds and flushes, perhaps of other values.
  ghost predicate SameShape(a: seq<Op>, b: seq<Op>) {
    |a| == |b| && forall i :: 0 <= i < |a| ==> a[i].Push? == b[i].Push?
  }

  // The operation flushes a buffer that is neither empty nor full.
  ghost predicate FlushesPartial(ops: seq<Op>, i: nat)
    requires i < |ops|
  {
    ops[i].Seal? && After(ops[..i]).buffer != []
  }

  // Nothing is added after the flush of a partial block.
  ghost predicate QuietAfterFlush(ops: seq<Op>) {
    forall i, j :: 0 <= i < j < |ops| && FlushesPartial(ops, i) ==> ops[j].Seal?
  }

  // Every index reads the value that was added there.
  ghost predicate ReadsRight(s: Store, vals: seq<U64>) {
    forall i: nat :: i < |vals| ==> s.Addressable(i) && s.Get(i) == vals[i]
  }

  // What any run of add and flush leaves in memory.
  method Run(ops: seq<Op>) returns (b: BlockedBitpacker)
    requires 8 * |ops| + 8 <= OFFSET_BOUND
    ensures fresh(b) && b.Valid()
    ensures b.blocks == After(ops).blocks && b.buffer == After(ops).buffer
    ensures b.Contents() == Added(ops)
  {
    hide Represents, Flatten, BlockedBitpacker.Contents;
    b := new BlockedBitpacker();
    var i := 0;
    while i < |ops|
      invariant 0 <= i <= |ops|
      invariant fresh(b) && b.Valid() && b.Contents() == Added(ops[..i])
      invariant b.blocks == After(ops[..i]).blocks && b.buffer == After(ops[..i]).buffer
      invariant |b.compressedBlocks| + 8 * |b.buffer| <= 8 + 8 * i
    {
      assert ops[..i + 1][..i] == ops[..i];
      LayoutShape(ops[..i]);
      match ops[i] {
        case Push(v) => b.Add(v);
        case Seal => b.Flush();
      }
      i := i + 1;
    }
    assert ops[..i] == ops;
  }

  // Any run of adds fills every block and reads back by `iter`.
  method AddAll(vals: seq<U64>) returns (b: BlockedBitpacker)
    requires 8 * |vals| + 8 <= OFFSET_BOUND
    ensures fresh(b) && b.Valid() && b.Contents() == vals && AllFull(b.blocks)
  {
    hide Represents, BlockedBitpacker.Contents;
    b := new BlockedBitpacker();
    var i := 0;
    while i < |vals|
      invariant 0 <= i <= |vals|
      invariant fresh(b) && b.Valid() && b.Contents() == vals[..i] && AllFull(b.blocks)
      invariant |b.compressedBlocks| + 8 * |b.buffer| <= 8 + 8 * i
    {
      b.Add(vals[i]);
      i := i + 1;
    }
    assert vals[..i] == vals;
  }

  ghost predicate Bounded(l: Layout) {
    && |l.buffer| < BLOCK_SIZE
    && forall k :: 0 <= k < |l.blocks| ==> 0 < |l.blocks[k]| <= BLOCK_SIZE
  }

  lemma {:induction false} LayoutShape(ops: seq<Op>)
    ensures Bounded(After(ops))
    ensures Flatten(After(ops).blocks) + After(ops).buffer == Added(ops)
  {
    hide Flatten, After, Added;
    if |ops| == 0 {
      NothingDone();
    } else {
      var shorter, last := ops[..|ops| - 1], ops[|ops| - 1];
      LayoutShape(shorter);
      assert ops == shorter + [last];
      match last {
        case Push(v) =>
          AfterPush(shorter, v);
          ClosesBlock(After(shorter).blocks, After(shorter).buffer + [v]);
        case Seal =>
          AfterSeal(shorter);
          ClosesBlock(After(shorter).blocks, After(shorter).buffer);
      }
    }
  }

  lemma {:induction false} NothingDone()
    ensures After([]) == Layout([], []) && Added([]) == [] && Flatten<U64>([]) == []
  {
  }

  lemma {:induction false} ClosesBlock(blocks: seq<seq<U64>>, block: seq<U64>)
    ensures Flatten(blocks + [block]) == Flatten(blocks) + block
  {
    assert (blocks + [block])[..|blocks|] == blocks;
    FlattenLast(blocks + [block]);
  }

  lemma {:induction false} AfterPush(ops: seq<Op>, v: U64)
    ensures var before := After(ops);
            After(ops + [Push(v)]) ==
              if |before.buffer| + 1 == BLOCK_SIZE then Layout(before.blocks + [before.buffer + [v]], [])
              else Layout(before.blocks, before.buffer + [v])
    ensures Added(ops + [Push(v)]) == Added(ops) + [v]
  {
    assert (ops + [Push(v)])[..|ops|] == ops;
  }

  lemma {:induction false} AfterSeal(ops: seq<Op>)
    ensures var before := After(ops);
            After(ops + [Seal]) ==
              if before.buffer == [] then before else Layout(before.blocks + [before.buffer], [])
    ensures Added(ops + [Seal]) == Added(ops)
  {
    assert (ops + [Seal])[..|ops|] == ops;
  }

  // Until the first flush of a partial block every block is full.
  lemma {:induction false} FullUntilPartial(ops: seq<Op>, n: nat)
    requires n <= |ops| && forall i :: 0 <= i < n ==> !FlushesPartial(ops, i)
    ensures AllFull(After(ops[..n]).blocks)
  {
    if n > 0 {
      hide After;
      FullUntilPartial(ops, n - 1);
      assert ops[..n] == ops[..n - 1] + [ops[n - 1]];
      assert !FlushesPartial(ops, n - 1);
      LayoutShape(ops[..n - 1]);
      match ops[n - 1] {
        case Push(v) => AfterPush(ops[..n - 1], v);
        case Seal => AfterSeal(ops[..n - 1]);
      }
    }
  }

  // Flushes with nothing to flush change nothing.
  lemma {:induction false} IdleFlushes(ops: seq<Op>, n: nat)
    requires n <= |ops| && After(ops[..n]).buffer == [] && forall j :: n <= j < |ops| ==> ops[j].Seal?
    ensures After(ops) == After(ops[..n])
  {
    if n == |ops| {
      assert ops[..n] == ops;
    } else {
      var shorter := ops[..|ops| - 1];
      assert shorter[..n] == ops[..n];
      IdleFlushes(shorter, n);
    }
  }

  // A quiet run leaves a sealed layout.
  lemma {:induction false} QuietIsSealed(ops: seq<Op>)
    requires QuietAfterFlush(ops)
    ensures Sealed(After(ops).blocks, After(ops).buffer)
  {
    hide After;
    if p :| 0 <= p < |ops| && FlushesPartial(ops, p) {
      var f := FirstPartial(ops, p);
      FullUntilPartial(ops, f);
      assert ops[..f + 1] == ops[..f] + [Seal];
      AfterSeal(ops[..f]);
      IdleFlushes(ops, f + 1);
      var l := After(ops);
      assert l.blocks[..|l.blocks| - 1] == After(ops[..f]).blocks;
    } else {
      FullUntilPartial(ops, |ops|);
      assert ops[..|ops|] == ops;
    }
  }

  lemma {:induction false} FirstPartial(ops: seq<Op>, p: nat) returns (f: nat)
    requires p < |ops| && FlushesPartial(ops, p)
    ensures f <= p && FlushesPartial(ops, f) && forall i :: 0 <= i < f ==> !FlushesPartial(ops, i)
  {
    hide After;
    f := 0;
    while !FlushesPartial(ops, f)
      invariant f <= p && forall i :: 0 <= i < f ==> !FlushesPartial(ops, i)
      decreases p - f
    {
      f := f + 1;
    }
  }

  // --- for every shape, exactly the quiet runs read right -------------------------------------

  // The same run with the value 0 before operation n, and 1 from there on.
  ghost function Marked(ops: seq<Op>, n: nat): (r: seq<Op>)
    ensures SameShape(ops, r)
    ensures forall i :: 0 <= i < |ops| && ops[i].Push? ==> r[i] == Push(if i < n then 0 else 1)
  {
    seq(|ops|, i requires 0 <= i < |ops| => if ops[i].Push? then Push(if i < n then 0 else 1) else Seal)
  }

  ghost predicate SameSizes(a: Layout, b: Layout) {
    && |a.blocks| == |b.blocks| && |a.buffer| == |b.buffer|
    && forall k :: 0 <= k < |a.blocks| ==> |a.blocks[k]| == |b.blocks[k]|
  }

  lemma {:induction false} ShapeDecidesSizes(a: seq<Op>, b: seq<Op>)
    requires SameShape(a, b)
    ensures SameSizes(After(a), After(b))
  {
    if |a| > 0 {
      var n := |a| - 1;
      ShapeDecidesSizes(a[..n], b[..n]);
    }
  }

  lemma {:induction false} QuietIsShape(a: seq<Op>, b: seq<Op>)
    requires SameShape(a, b) && QuietAfterFlush(a)
    ensures QuietAfterFlush(b)
  {
    hide After;
    forall i, j | 0 <= i < j < |b| && FlushesPartial(b, i) ensures b[j].Seal? {
      ShapeDecidesSizes(a[..i], b[..i]);
      assert FlushesPartial(a, i);
    }
  }

  ghost predicate AllConstant(blocks: seq<seq<U64>>) {
    forall k :: 0 <= k < |blocks| ==> |blocks[k]| > 0 && Constant(blocks[k], blocks[k][0])
  }

  // Blocks of equal values need no digits: eight bytes of padding represent all of them.
  ghost function ConstantStore(l: Layout): (s: Store)
    requires AllConstant(l.blocks)
  {
    Store(Zeros(8), l.buffer,
          seq<EntryMetaData>(|l.blocks|, k requires 0 <= k < |l.blocks| => EntryMetaData.New(0, 0, l.blocks[k][0])))
  }

  lemma {:induction false} ConstantBlockHolds(vals: seq<U64>, v: U64)
    requires 0 < |vals| <= BLOCK_SIZE && Constant(vals, v)
    ensures BlockHolds(Zeros(8), EntryMetaData.New(0, 0, v), vals)
    ensures BlockTight(EntryMetaData.New(0, 0, v), vals)
  {
    hide EntryMetaData.NumBits, EntryMetaData.Offset, EntryMetaData.New, Pow2, ValueAt;
    MetaDataRoundTrip(0, 0, v);
    var m := EntryMetaData.New(0, 0, v);
    assert vals[0] == v;
    forall j | 0 <= j < |vals| ensures ValueAt(Zeros(8)[m.Offset()..], 0, j) == 0 {
      ZeroWidth(Zeros(8)[m.Offset()..], j);
    }
    assert |vals| * 0 == 0;
  }

  lemma {:induction false} ConstantStoreRepresents(l: Layout)
    requires AllConstant(l.blocks) && Bounded(l)
    ensures Represents(ConstantStore(l), l.blocks)
  {
    hide BlockHolds, BlockTight, EntryMetaData.New, Constant;
    forall k | 0 <= k < |l.blocks|
      ensures BlockHolds(Zeros(8), EntryMetaData.New(0, 0, l.blocks[k][0]), l.blocks[k])
      ensures BlockTight(EntryMetaData.New(0, 0, l.blocks[k][0]), l.blocks[k])
    {
      ConstantBlockHolds(l.blocks[k], l.blocks[k][0]);
    }
  }

  ghost predicate AllAre(l: Layout, from: nat, v: U64) {
    && Constant(l.buffer, v)
    && forall k :: from <= k < |l.blocks| ==> Constant(l.blocks[k], v)
  }

  lemma {:induction false} AllAreStep(ops: seq<Op>, op: Op, from: nat, v: U64)
    requires AllAre(After(ops), from, v) && (op.Push? ==> op.val == v)
    ensures AllAre(After(ops + [op]), from, v)
    ensures After(ops).blocks <= After(ops + [op]).blocks
  {
    hide After;
    match op {
      case Push(_) => AfterPush(ops, v);
      case Seal => AfterSeal(ops);
    }
  }

  // Before operation n everything is 0.
  lemma {:induction false} ZerosBefore(ops: seq<Op>, n: nat, m: nat)
    requires m <= n <= |ops|
    ensures AllAre(After(Marked(ops, n)[..m]), 0, 0)
  {
    hide Marked;
    if m > 0 {
      var r := Marked(ops, n);
      ZerosBefore(ops, n, m - 1);
      assert r[..m] == r[..m - 1] + [r[m - 1]];
      AllAreStep(r[..m - 1], r[m - 1], 0, 0);
    }
  }

  // From there on, behind the blocks that were closed by then, everything is 1.
  lemma {:induction false} OnesAfter(ops: seq<Op>, n: nat, m: nat)
    requires n <= m <= |ops| && After(Marked(ops, n)[..n]).buffer == []
    ensures var old', new' := After(Marked(ops, n)[..n]), After(Marked(ops, n)[..m]);
            && AllAre(new', |old'.blocks|, 1) && old'.blocks <= new'.blocks
            && ((exists j :: n <= j < m && ops[j].Push?) ==> |old'.blocks| < |new'.blocks| || new'.buffer != [])
  {
    hide Marked, After;
    var r := Marked(ops, n);
    if n == m {
    } else {
      OnesAfter(ops, n, m - 1);
      assert r[..m] == r[..m - 1] + [r[m - 1]];
      AllAreStep(r[..m - 1], r[m - 1], |After(r[..n]).blocks|, 1);
      match r[m - 1] {
        case Push(v) => AfterPush(r[..m - 1], v);
        case Seal => AfterSeal(r[..m - 1]);
      }
    }
  }

  // What a marked run looks like: full blocks of zeros, the partial block of zeros that
  // operation f closed, then only ones.
  ghost predicate MarkedLayout(l: Layout, k: nat) {
    && Bounded(l) && k < |l.blocks| && AllFull(l.blocks[..k]) && |l.blocks[k]| < BLOCK_SIZE
    && (forall j :: 0 <= j <= k ==> Constant(l.blocks[j], 0))
    && AllAre(l, k + 1, 1)
  }

  lemma {:induction false} MarkedRun(ops: seq<Op>, f: nat) returns (k: nat)
    requires f < |ops| && FlushesPartial(ops, f) && forall i :: 0 <= i < f ==> !FlushesPartial(ops, i)
    ensures MarkedLayout(After(Marked(ops, f)), k)
    ensures (exists j :: f < j < |ops| && ops[j].Push?) ==>
              Following(After(Marked(ops, f)).blocks, After(Marked(ops, f)).buffer, k) != []
  {
    hide After, Marked;
    var r := Marked(ops, f);
    var before, closed := After(r[..f]), After(r[..f + 1]);
    k := |before.blocks|;
    SamePartials(ops, r, f);
    FullUntilPartial(r, f);
    ZerosBefore(ops, f, f);
    assert r[..f + 1] == r[..f] + [Seal];
    AfterSeal(r[..f]);
    LayoutShape(r[..f]);
    SplitMark(ops, f);
    OnesAfter(ops, f + 1, |ops|);
    LayoutShape(r);
    assert r[..|ops|] == r;
    assert After(r).blocks[..k] == before.blocks;
    assert (exists j :: f < j < |ops| && ops[j].Push?) ==> (exists j :: f + 1 <= j < |ops| && ops[j].Push?);
  }

  // Operation f adds nothing, so marking from f or from f + 1 is the same.
  lemma {:induction false} SplitMark(ops: seq<Op>, f: nat)
    requires f < |ops| && ops[f].Seal?
    ensures Marked(ops, f) == Marked(ops, f + 1)
  {
  }

  lemma {:induction false} SamePartials(a: seq<Op>, b: seq<Op>, f: nat)
    requires SameShape(a, b) && f < |a|
    requires FlushesPartial(a, f) && forall i :: 0 <= i < f ==> !FlushesPartial(a, i)
    ensures FlushesPartial(b, f) && forall i :: 0 <= i < f ==> !FlushesPartial(b, i)
  {
    hide After;
    forall i | 0 <= i <= f ensures FlushesPartial(b, i) == FlushesPartial(a, i) {
      ShapeDecidesSizes(a[..i], b[..i]);
    }
  }

  // Whatever was added with these adds and flushes, and however it is represented, every
  // index reads right.
  ghost predicate AlwaysReadsRight(ops: seq<Op>) {
    forall run, s :: SameShape(ops, run) && Represents(s, After(run).blocks) && s.buffer == After(run).buffer ==>
      ReadsRight(s, Added(run))
  }

  lemma {:induction false} SealedReadsRight(s: Store, run: seq<Op>)
    requires Represents(s, After(run).blocks) && s.buffer == After(run).buffer
    requires Sealed(After(run).blocks, After(run).buffer)
    ensures ReadsRight(s, Added(run))
  {
    hide Represents, Sealed, After, Store.Get, Store.Addressable, Flatten;
    LayoutShape(run);
    forall i: nat | i < |Added(run)| ensures s.Addressable(i) && s.Get(i) == Added(run)[i] {
      GetIsContents(s, After(run).blocks, i);
    }
  }

  // An add after the flush of a partial block is misread for some values, on every store
  // that represents them.
  lemma {:induction false} LoudRunMisreads(ops: seq<Op>) returns (run: seq<Op>, i: nat)
    requires !QuietAfterFlush(ops)
    ensures SameShape(ops, run) && AllConstant(After(run).blocks) && Bounded(After(run))
    ensures forall s :: Represents(s, After(run).blocks) && s.buffer == After(run).buffer ==>
              ReadsInstead(s, Added(run), i, 0, 1)
  {
    hide Represents, After, Marked, Flatten, Added, ReadsInstead, FlushesPartial;
    var p, q :| 0 <= p < q < |ops| && FlushesPartial(ops, p) && ops[q].Push?;
    var f := FirstPartial(ops, p);
    run := Marked(ops, f);
    var k := MarkedRun(ops, f);
    var l := After(run);
    LayoutShape(run);
    i := BLOCK_SIZE * k + |l.blocks[k]|;
    forall s | Represents(s, l.blocks) && s.buffer == l.buffer ensures ReadsInstead(s, Added(run), i, 0, 1) {
      PartialBlockMisreads(s, l.blocks, k, 0);
    }
  }

  // For every sequence of adds and flushes: every index reads right whatever the values are,
  // exactly when nothing is added after the flush of a partial block.
  lemma {:induction false} ReadsExact(ops: seq<Op>)
    ensures QuietAfterFlush(ops) <==> AlwaysReadsRight(ops)
  {
    hide Represents, After, QuietAfterFlush, Added;
    if QuietAfterFlush(ops) {
      forall run, s | SameShape(ops, run) && Represents(s, After(run).blocks) && s.buffer == After(run).buffer
        ensures ReadsRight(s, Added(run))
      {
        QuietIsShape(ops, run);
        QuietIsSealed(run);
        SealedReadsRight(s, run);
      }
    } else {
      var run, i := LoudRunMisreads(ops);
      ConstantStoreRepresents(After(run));
    }
  }

  lemma {:induction false} SmallestRun()
    ensures After([Push(5), Seal, Push(7)]) == Layout([[5]], [7])
    ensures Added([Push(5), Seal, Push(7)]) == [5, 7]
  {
    hide After, Added, Flatten;
    NothingDone();
    AfterPush([], 5);
    AfterSeal([] + [Push(5)]);
    AfterPush([] + [Push(5)] + [Seal], 7);
    assert [] + [Push(5)] + [Seal] + [Push(7)] == [Push(5), Seal, Push(7)];
    var empty: seq<U64> := [];
    assert empty + [5] == [5] && empty + [7] == [7];
  }

  // The smallest instance: add 5, flush, add 7, and read index 1.
  method PartialFlushMisreads() returns (b: BlockedBitpacker, readBack: nat)
    ensures b.Contents() == [5, 7] && b.State().Addressable(1)
    ensures readBack == b.State().Get(1) == 5
  {
    hide Represents, After, Added, Flatten, Store.Get, Store.Addressable, BlockedBitpacker.Contents;
    SmallestRun();
    b := Run([Push(5), Seal, Push(7)]);
    ConstantBlockRead(b.State(), b.blocks, 1, 5);
    readBack := b.State().Get(1);
  }

}
