/** The rewrite pass over parsed queries: children first, then duplicates are dropped, then
an unlabelled child that is a clause of one is replaced by that one.
 */
module Rewriting {
  import opened QueryAst
  import opened QueryIndependence

  // --- the pass --------------------------------------------------------------------------------

  // The first occurrence of every child.
  function Dedup(cs: seq<Child>): (r: seq<Child>)
  {
    if |cs| == 0 then []
    else
      var n := |cs| - 1;
      Dedup(cs[..n]) + (if cs[n] in cs[..n] then [] else [cs[n]])
  }

  predicate Hoistable(c: Child) {
    c.occur.None? && c.ast.Clause? && |c.ast.clauses| == 1
  }

  function Hoist(c: Child): (r: Child)
  {
    if Hoistable(c) then c.ast.clauses[0] else c
  }

  function HoistAll(cs: seq<Child>): (r: seq<Child>)
    ensures |r| == |cs|
    ensures forall i :: 0 <= i < |cs| ==> r[i] == Hoist(cs[i])
  {
    seq(|cs|, i requires 0 <= i < |cs| => Hoist(cs[i]))
  }

  function Rewrite(t: Ast): (r: Ast)
    decreases t, 0
  {
    if t.Clause? then Clause(HoistAll(Dedup(RewriteAll(t.clauses)))) else t
  }

  function RewriteAll(cs: seq<Child>): (r: seq<Child>)
    ensures |r| == |cs|
    decreases cs, 1
  {
    if |cs| == 0 then [] else RewriteAll(cs[..|cs| - 1]) + [RewriteChild(cs[|cs| - 1])]
  }

  function RewriteChild(c: Child): (r: Child)
    decreases c, 1
  {
    Child(c.occur, Rewrite(c.ast))
  }

  lemma {:induction false} RewriteAllAt(cs: seq<Child>, i: nat)
    requires i < |cs|
    ensures RewriteAll(cs)[i] == RewriteChild(cs[i])
  {
    if i < |cs| - 1 {
      RewriteAllAt(cs[..|cs| - 1], i);
    }
  }

  // --- the loops ---------------------------------------------------------------------------------

  method RewriteAst(input: Ast) returns (r: Ast)
    ensures r == Rewrite(input)
    decreases input
  {
    r := input;
    if input.Clause? {
      var newClauses := [];
      var i := 0;
      while i < |input.clauses|
        invariant 0 <= i <= |input.clauses|
        invariant newClauses == RewriteAll(input.clauses[..i])
      {
        var child := input.clauses[i];
        assert input.clauses[..i + 1][..i] == input.clauses[..i];
        var rewritten := RewriteAst(child.ast);
        newClauses := newClauses + [Child(child.occur, rewritten)];
        i := i + 1;
      }
      assert input.clauses[..i] == input.clauses;
      var kept := Retain(newClauses);
      i := 0;
      while i < |kept|
        invariant 0 <= i <= |kept| == |Dedup(newClauses)|
        invariant forall j :: 0 <= j < i ==> kept[j] == Hoist(Dedup(newClauses)[j])
        invariant forall j :: i <= j < |kept| ==> kept[j] == Dedup(newClauses)[j]
      {
        if Hoistable(kept[i]) {
          kept := kept[i := kept[i].ast.clauses[0]];
        }
        i := i + 1;
      }
      assert kept == HoistAll(Dedup(newClauses));
      r := Clause(kept);
    }
  }

  method Retain(cs: seq<Child>) returns (r: seq<Child>)
    ensures r == Dedup(cs)
  {
    var seen: set<Child> := {};
    r := [];
    var i := 0;
    while i < |cs|
      invariant 0 <= i <= |cs|
      invariant forall c :: c in seen <==> c in cs[..i]
      invariant r == Dedup(cs[..i])
    {
      assert cs[..i + 1][..i] == cs[..i];
      if cs[i] !in seen {
        r := r + [cs[i]];
      }
      seen := seen + {cs[i]};
      i := i + 1;
    }
    assert cs[..i] == cs;
  }

  // --- nothing is lost, nothing grows -------------------------------------------------------------

  lemma {:induction false} DedupMembers(cs: seq<Child>)
    ensures forall c :: c in Dedup(cs) <==> c in cs
    ensures |cs| > 0 ==> |Dedup(cs)| > 0
  {
    if |cs| > 0 {
      var n := |cs| - 1;
      DedupMembers(cs[..n]);
      assert forall c :: c in cs <==> c in cs[..n] || c == cs[n];
      if n == 0 {
        assert cs[..0] == [];
      }
    }
  }

  // The set of leaves is unchanged.
  lemma {:induction false} RewriteKeepsLeaves(t: Ast, l: nat)
    ensures l in Leaves(Rewrite(t)) <==> l in Leaves(t)
    decreases t
  {
    if t.Clause? {
      var cs := t.clauses;
      var rewritten := RewriteAll(cs);
      var kept := Dedup(rewritten);
      var hoisted := HoistAll(kept);
      DedupMembers(rewritten);
      LeafOfClause(cs, l);
      LeafOfClause(hoisted, l);
      assert HasLeaf(cs, l) <==> HasLeaf(rewritten, l) by {
        forall i | 0 <= i < |cs| ensures l in Leaves(rewritten[i].ast) <==> l in Leaves(cs[i].ast) {
          RewriteAllAt(cs, i);
          RewriteKeepsLeaves(cs[i].ast, l);
        }
        SameLeaf(cs, rewritten, l);
      }
      assert HasLeaf(kept, l) <==> HasLeaf(hoisted, l) by {
        forall i | 0 <= i < |kept| ensures l in Leaves(hoisted[i].ast) <==> l in Leaves(kept[i].ast) {
          HoistLeaves(kept[i]);
        }
        SameLeaf(kept, hoisted, l);
      }
    }
  }

  lemma {:induction false} SameLeaf(a: seq<Child>, b: seq<Child>, l: nat)
    requires |a| == |b|
    requires forall i :: 0 <= i < |a| ==> (l in Leaves(b[i].ast) <==> l in Leaves(a[i].ast))
    ensures HasLeaf(a, l) <==> HasLeaf(b, l)
  {
    hide Leaves;
    if HasLeaf(a, l) {
      var i :| 0 <= i < |a| && l in Leaves(a[i].ast);
      assert b[i] in b;
    }
    if HasLeaf(b, l) {
      var i :| 0 <= i < |b| && l in Leaves(b[i].ast);
      assert a[i] in a;
    }
  }

  lemma {:induction false} HoistLeaves(c: Child)
    ensures Leaves(Hoist(c).ast) == Leaves(c.ast)
    ensures Size(Hoist(c).ast) <= Size(c.ast)
  {
    if Hoistable(c) {
      var inner := c.ast.clauses[0];
      assert c.ast.clauses == [inner];
      LeavesOfOne(inner);
      SizeOfOne(inner);
    }
  }

  lemma {:induction false} SizeOfOne(c: Child)
    ensures SizeOf([c]) == Size(c.ast)
  {
    assert [c][..0] == [];
  }

  lemma {:induction false} DedupShrinks(cs: seq<Child>)
    ensures SizeOf(Dedup(cs)) <= SizeOf(cs)
  {
    hide Size;
    if |cs| > 0 {
      var n := |cs| - 1;
      DedupShrinks(cs[..n]);
      if cs[n] !in cs[..n] {
        SizeOfAppend(Dedup(cs[..n]), cs[n]);
      } else {
        assert Dedup(cs) == Dedup(cs[..n]);
      }
    }
  }

  lemma {:induction false} SizeOfAppend(cs: seq<Child>, c: Child)
    ensures SizeOf(cs + [c]) == SizeOf(cs) + Size(c.ast)
  {
    assert (cs + [c])[..|cs|] == cs;
  }

  lemma {:induction false} PointwiseShrinks(a: seq<Child>, b: seq<Child>)
    requires |a| == |b|
    requires forall i :: 0 <= i < |a| ==> Size(b[i].ast) <= Size(a[i].ast)
    ensures SizeOf(b) <= SizeOf(a)
  {
    hide Size;
    if |a| > 0 {
      var n := |a| - 1;
      PointwiseShrinks(a[..n], b[..n]);
      SizeOfAppend(a[..n], a[n]);
      SizeOfAppend(b[..n], b[n]);
      assert a == a[..n] + [a[n]] && b == b[..n] + [b[n]];
    }
  }

  // No node is added.
  lemma {:induction false} RewriteNeverGrows(t: Ast)
    ensures Size(Rewrite(t)) <= Size(t)
    decreases t
  {
    if t.Clause? {
      var cs := t.clauses;
      var rewritten := RewriteAll(cs);
      var kept := Dedup(rewritten);
      forall i | 0 <= i < |cs| ensures Size(rewritten[i].ast) <= Size(cs[i].ast) {
        RewriteAllAt(cs, i);
        RewriteNeverGrows(cs[i].ast);
      }
      PointwiseShrinks(cs, rewritten);
      DedupShrinks(rewritten);
      forall i | 0 <= i < |kept| ensures Size(HoistAll(kept)[i].ast) <= Size(kept[i].ast) {
        HoistLeaves(kept[i]);
      }
      PointwiseShrinks(kept, HoistAll(kept));
    }
  }

  // --- the shape of the result ---------------------------------------------------------------------

  // No clause, at any depth outside boosts, has an unlabelled child that is a clause of one.
  ghost predicate Normal(t: Ast)
    decreases t
  {
    t.Clause? ==>
      forall i :: 0 <= i < |t.clauses| ==>
        && Normal(t.clauses[i].ast)
        && !(t.clauses[i].occur.None? && t.clauses[i].ast.Clause? && |t.clauses[i].ast.clauses| == 1)
  }

  lemma {:induction false} RewriteIsNormal(t: Ast)
    ensures Normal(Rewrite(t))
    decreases t
  {
    if t.Clause? {
      var rewritten := RewriteAll(t.clauses);
      var kept := Dedup(rewritten);
      DedupMembers(rewritten);
      forall i | 0 <= i < |kept|
        ensures var r := Hoist(kept[i]);
                Normal(r.ast) && !(r.occur.None? && r.ast.Clause? && |r.ast.clauses| == 1)
      {
        assert kept[i] in kept;
        var j :| 0 <= j < |rewritten| && rewritten[j] == kept[i];
        RewriteAllAt(t.clauses, j);
        RewriteIsNormal(t.clauses[j].ast);
      }
    }
  }

  // What becomes of one child: its tree is rewritten, and only an unlabelled clause of one is
  // replaced by that one.
  ghost predicate Replaces(r: Child, c: Child) {
    var t := Rewrite(c.ast);
    if c.occur.None? && t.Clause? && |t.clauses| == 1 then r == t.clauses[0] else r == Child(c.occur, t)
  }

  // Every child of the result comes from a child of the query, and no child of the query is
  // forgotten.
  lemma {:induction false} RewriteByChildren(cs: seq<Child>)
    ensures Rewrite(Clause(cs)).Clause?
    ensures forall c :: c in cs ==> exists r :: r in Rewrite(Clause(cs)).clauses && Replaces(r, c)
    ensures forall r :: r in Rewrite(Clause(cs)).clauses ==> exists c :: c in cs && Replaces(r, c)
  {
    hide Rewrite, Dedup, RewriteAll;
    var rewritten := RewriteAll(cs);
    var kept := Dedup(rewritten);
    var rs := HoistAll(kept);
    assert Rewrite(Clause(cs)) == Clause(rs) by { RewriteIs(cs); }
    DedupMembers(rewritten);
    forall c | c in cs ensures exists r :: r in rs && Replaces(r, c) {
      var i :| 0 <= i < |cs| && cs[i] == c;
      RewriteAllAt(cs, i);
      assert rewritten[i] in rewritten;
      var j :| 0 <= j < |kept| && kept[j] == rewritten[i];
      assert rs[j] in rs && Replaces(rs[j], c);
    }
    forall r | r in rs ensures exists c :: c in cs && Replaces(r, c) {
      var j :| 0 <= j < |rs| && rs[j] == r;
      assert kept[j] in kept;
      var i :| 0 <= i < |rewritten| && rewritten[i] == kept[j];
      RewriteAllAt(cs, i);
      assert Replaces(r, cs[i]);
    }
  }

  lemma {:induction false} RewriteIs(cs: seq<Child>)
    ensures Rewrite(Clause(cs)) == Clause(HoistAll(Dedup(RewriteAll(cs))))
  {
  }

  // The position of the first occurrence.
  function FirstIndex(cs: seq<Child>, c: Child): (i: nat)
    requires c in cs
    ensures i < |cs| && cs[i] == c && c !in cs[..i]
  {
    if c in cs[..|cs| - 1] then
      var i := FirstIndex(cs[..|cs| - 1], c);
      assert cs[..|cs| - 1][..i] == cs[..i];
      i
    else |cs| - 1
  }

  // Children are kept in the order of their first occurrences, once each.
  lemma {:induction false} DedupKeepsOrder(cs: seq<Child>)
    ensures forall c :: c in Dedup(cs) <==> c in cs
    ensures forall i, j :: 0 <= i < j < |Dedup(cs)| ==>
              Dedup(cs)[i] in cs && Dedup(cs)[j] in cs && FirstIndex(cs, Dedup(cs)[i]) < FirstIndex(cs, Dedup(cs)[j])
  {
    DedupMembers(cs);
    if |cs| > 0 {
      var n := |cs| - 1;
      var shorter, kept := Dedup(cs[..n]), Dedup(cs);
      DedupKeepsOrder(cs[..n]);
      forall i, j | 0 <= i < j < |kept|
        ensures kept[i] in cs && kept[j] in cs && FirstIndex(cs, kept[i]) < FirstIndex(cs, kept[j])
      {
        assert kept[i] == shorter[i] && shorter[i] in shorter && kept[j] in kept;
        if j < |shorter| {
          assert kept[j] == shorter[j] && shorter[j] in shorter;
        }
      }
    }
  }
}
