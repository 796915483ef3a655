/** From operand lists to rewritten queries: what becomes of negated operands.

`a NOT b` is a list of two unlabelled children, and the rewrite pass turns the negation into an
exclusion; next to an OR the label keeps it a choice.
 */
module QueryPipeline {
  import opened Collections
  import opened QueryAst
  import opened Aggregation
  import opened AggregationMeaning
  import opened Rewriting
  import opened RewritingMeaning

  function Negation(t: Ast): (r: Ast)
  {
    Clause([Child(Some(MustNot), t)])
  }

  lemma {:induction false} RewriteNegation(t: Ast)
    ensures Rewrite(Negation(t)) == Negation(Rewrite(t))
  {
    hide Rewrite, RewriteAll;
    var c := Child(Some(MustNot), t);
    RewriteIs([c]);
    RewriteAllAt([c], 0);
    assert RewriteAll([c]) == [RewriteChild(c)];
    assert Dedup([RewriteChild(c)]) == [RewriteChild(c)] by { DedupDistinct([RewriteChild(c)]); }
    assert HoistAll([RewriteChild(c)]) == [RewriteChild(c)];
  }

  // The run of a lone operand is one child of the clause.
  lemma {:induction false} LoneOperandIsChild(leafs: seq<Present>, i: nat) returns (c: Child)
    requires Signed(leafs) && |leafs| > 1 && Lonely(leafs, i)
    ensures Aggregated(leafs).Clause? && c in Aggregated(leafs).clauses && RunChild(leafs, i, i + 1, c)
  {
    hide Aggregated, Bounds, RunChild;
    AggregatedShape(leafs);
    BoundsAreRuns(leafs);
    assert !IsRun(leafs, 0, |leafs|) by {
      if IsRun(leafs, 0, |leafs|) {
        SameRun(leafs, i, i + 1, 0, |leafs|);
      }
    }
    var bounds := Bounds(leafs, |leafs|);
    var g :| 0 <= g < |bounds| && bounds[g] == (i, i + 1);
    c := Aggregated(leafs).clauses[g];
  }

  // Wherever NOT b stands alone, with neither sign nor OR, the rewritten query excludes b.
  lemma {:induction false} NotExcludes(leafs: seq<Present>, i: nat, b: Ast, doc: Document)
    requires Signed(leafs) && |leafs| > 1 && Lonely(leafs, i)
    requires leafs[i] == Present(None, None, Negation(b)) && NextOp(leafs, i) != Some(Or)
    ensures Matches(Rewrite(Aggregated(leafs)), doc) ==> !Matches(Rewrite(b), doc)
  {
    var c := LoneOperandIsChild(leafs, i);
    assert c == Child(None, Negation(b));
    hide *;
    NegationIsHoisted(Aggregated(leafs).clauses, b);
    var rs := Rewrite(Aggregated(leafs)).clauses;
    var k :| 0 <= k < |rs| && rs[k] == Child(Some(MustNot), Rewrite(b));
    MustNotExcludes(rs, k, doc);
  }

  // An unlabelled negation becomes an exclusion.
  lemma {:induction false} NegationIsHoisted(cs: seq<Child>, b: Ast)
    requires Child(None, Negation(b)) in cs
    ensures Rewrite(Clause(cs)).Clause? && Child(Some(MustNot), Rewrite(b)) in Rewrite(Clause(cs)).clauses
  {
    hide Rewrite;
    RewriteByChildren(cs);
    RewriteNegation(b);
    var r :| r in Rewrite(Clause(cs)).clauses && Replaces(r, Child(None, Negation(b)));
  }

  lemma {:induction false} MustNotExcludes(cs: seq<Child>, k: nat, doc: Document)
    requires k < |cs| && cs[k].occur == Some(MustNot)
    ensures Matches(Clause(cs), doc) ==> !Matches(cs[k].ast, doc)
  {
    hide Matches;
    if Matches(cs[k].ast, doc) {
      ViolatedClause(cs, k, doc);
    }
  }

  // Next to an OR it stays a choice: the child is labelled and is not hoisted.
  lemma {:induction false} OrNotStays(leafs: seq<Present>, i: nat, b: Ast)
    requires Signed(leafs) && |leafs| > 1 && Lonely(leafs, i)
    requires leafs[i].occur.None? && leafs[i].ast == Negation(b)
    requires leafs[i].op == Some(Or) || (leafs[i].op.None? && NextOp(leafs, i) == Some(Or))
    ensures Rewrite(Aggregated(leafs)).Clause?
    ensures Child(Some(Should), Negation(Rewrite(b))) in Rewrite(Aggregated(leafs)).clauses
  {
    hide Aggregated, Rewrite;
    var c := LoneOperandIsChild(leafs, i);
    assert c == Child(Some(Should), Negation(b));
    RewriteByChildren(Aggregated(leafs).clauses);
    RewriteNegation(b);
    var r :| r in Rewrite(Aggregated(leafs)).clauses && Replaces(r, c);
  }

  // `a NOT b` on two words: the rewritten tree, and the documents it matches.
  lemma {:induction false} WordNotWord(a: nat, b: nat, doc: Document)
    ensures var t := Rewrite(Aggregated([Present(None, None, Leaf(a)), Present(None, None, Negation(Leaf(b)))]));
            && t == Clause([Child(None, Leaf(a)), Child(Some(MustNot), Leaf(b))])
            && (Matches(t, doc) <==> doc(a) && !doc(b))
  {
    hide Aggregated, RewriteAll, Dedup, Matches, Bounds;
    var leafs := [Present(None, None, Leaf(a)), Present(None, None, Negation(Leaf(b)))];
    var cs := [Child(None, Leaf(a)), Child(None, Negation(Leaf(b)))];
    assert Aggregated(leafs) == Clause(cs) by {
      AggregatedShape(leafs);
      TwoRuns(leafs);
    }
    RewriteNegation(Leaf(b));
    RewrittenLabels(cs);
    assert RewriteChild(cs[0]) == cs[0] && RewriteChild(cs[1]) == cs[1];
    assert RewriteAll(cs) == cs;
    DedupDistinct(cs);
    RewriteIs(cs);
    var rs := [Child(None, Leaf(a)), Child(Some(MustNot), Leaf(b))];
    assert HoistAll(cs) == rs;
    MatchesClause(rs, doc);
    LeafMatches(doc);
    assert Labels(rs) == [Should, MustNot] && Truths(rs, doc) == [doc(a), doc(b)];
    TwoChildren(doc(a), doc(b));
  }

  lemma {:induction false} TwoRuns(leafs: seq<Present>)
    requires |leafs| == 2 && leafs[0].op.None? && leafs[1].op.None?
    ensures Bounds(leafs, 2) == [(0, 1), (1, 2)]
  {
    assert Bounds(leafs, 0) == [];
    assert Bounds(leafs, 1) == [(0, 1)];
  }

  lemma {:induction false} TwoChildren(x: bool, y: bool)
    ensures ClauseHolds([Should, MustNot], [x, y]) <==> x && !y
  {
    var labels := [Should, MustNot];
    assert labels[0] == Should && labels[1] == MustNot && [x, y][0] == x && [x, y][1] == y;
  }
}
