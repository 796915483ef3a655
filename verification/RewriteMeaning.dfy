/** When the rewrite pass preserves the matching documents.

Replacing an unlabelled child by the single Must or MustNot child of its clause turns a
choice into an obligation.  That is harmless exactly when every sibling is a MustNot, and
when the whole clause cannot be felt, being one Should child next to a Must.
 */
module RewritingMeaning {
  import opened Collections
  import opened QueryAst
  import opened QueryIndependence
  import opened Rewriting

  // An unlabelled clause of one child labelled Must or MustNot.
  predicate Risky(c: Child) {
    Hoistable(c) && (c.ast.clauses[0].occur == Some(Must) || c.ast.clauses[0].occur == Some(MustNot))
  }

  ghost predicate SafeLevel(cs: seq<Child>) {
    forall i, j :: 0 <= i < |cs| && 0 <= j < |cs| && i != j && Risky(cs[i]) ==> cs[j].occur == Some(MustNot)
  }

  // A Should child next to a Must child has no influence on its clause.
  ghost predicate Relevant(cs: seq<Child>, i: nat)
    requires i < |cs|
  {
    Label(cs[i].occur) != Should || forall k :: 0 <= k < |cs| ==> Label(cs[k].occur) != Must
  }

  // Every level that can be felt is safe by the time its children are hoisted.
  ghost predicate SafeTree(t: Ast)
    decreases t
  {
    t.Clause? ==>
      && SafeLevel(Dedup(RewriteAll(t.clauses)))
      && (forall i :: 0 <= i < |t.clauses| && Relevant(t.clauses, i) ==> SafeTree(t.clauses[i].ast))
  }

  // --- clauses as sets of children --------------------------------------------------------------

  // A clause depends on the set of its children only.
  lemma {:induction false} MatchesByMembers(cs: seq<Child>, doc: Document)
    ensures Matches(Clause(cs), doc) <==>
              && |cs| > 0
              && (forall c :: c in cs && Label(c.occur) == Must ==> Matches(c.ast, doc))
              && (forall c :: c in cs && Label(c.occur) == MustNot ==> !Matches(c.ast, doc))
              && (|| (exists c :: c in cs && Label(c.occur) == Must)
                  || (exists c :: c in cs && Label(c.occur) == Should && Matches(c.ast, doc))
                  || (forall c :: c in cs ==> Label(c.occur) == MustNot))
  {
    hide Matches, Label;
    MatchesClause(cs, doc);
    var labels, truth := Labels(cs), Truths(cs, doc);
    assert forall i :: 0 <= i < |cs| ==>
      cs[i] in cs && labels[i] == Label(cs[i].occur) && truth[i] == Matches(cs[i].ast, doc);
    assert forall c :: c in cs ==> exists i :: 0 <= i < |cs| && cs[i] == c;
  }

  lemma {:induction false} DedupPreserves(cs: seq<Child>, doc: Document)
    ensures Matches(Clause(Dedup(cs)), doc) == Matches(Clause(cs), doc)
  {
    hide Matches, Label, Dedup;
    DedupMembers(cs);
    assert |Dedup(cs)| > 0 ==> Dedup(cs)[0] in cs;
    MatchesByMembers(cs, doc);
    MatchesByMembers(Dedup(cs), doc);
  }

  // Only the relevant children need to agree.
  lemma {:induction false} RelevantPreserves(a: seq<Child>, b: seq<Child>, doc: Document)
    requires |a| == |b|
    requires forall i :: 0 <= i < |a| ==> a[i].occur == b[i].occur
    requires forall i :: 0 <= i < |a| && Relevant(a, i) ==> Matches(a[i].ast, doc) == Matches(b[i].ast, doc)
    ensures Matches(Clause(a), doc) == Matches(Clause(b), doc)
  {
    hide Matches, Label;
    MatchesClause(a, doc);
    MatchesClause(b, doc);
    var labels, t, u := Labels(a), Truths(a, doc), Truths(b, doc);
    assert labels == Labels(b);
    forall i | 0 <= i < |a| && t[i] != u[i]
      ensures labels[i] == Should && exists k :: 0 <= k < |a| && labels[k] == Must
    {
      assert !Relevant(a, i);
      var k :| 0 <= k < |a| && Label(a[k].occur) == Must;
      assert labels[k] == Must;
    }
  }

  // --- hoisting ---------------------------------------------------------------------------------

  lemma {:induction false} OccurCases(occur: Option<Occur>)
    ensures occur == None || occur == Some(Should) || occur == Some(Must) || occur == Some(MustNot)
  {
    match occur
    case None =>
    case Some(o) => match o case Should => case Must => case MustNot =>
  }

  // What a hoisted child says is what the clause around it said.
  lemma {:induction false} HoistSat(c: Child, doc: Document)
    ensures Hoistable(c) ==> ChildSat(Hoist(c), doc) == Matches(c.ast, doc)
    ensures !Risky(c) ==> Label(Hoist(c).occur) == Label(c.occur) && Matches(Hoist(c).ast, doc) == Matches(c.ast, doc)
  {
    hide Matches;
    if Hoistable(c) {
      var inner := c.ast.clauses[0];
      assert c.ast == Clause([inner]);
      SingletonClause(inner, doc);
      OccurCases(inner.occur);
    }
  }

  // One child pulls, all others are excluded.
  lemma {:induction false} OneAmongMustNots(cs: seq<Child>, i: nat, doc: Document)
    requires i < |cs| && forall j :: 0 <= j < |cs| && j != i ==> cs[j].occur == Some(MustNot)
    ensures Matches(Clause(cs), doc) <==>
              ChildSat(cs[i], doc) && forall j :: 0 <= j < |cs| && j != i ==> !Matches(cs[j].ast, doc)
  {
    hide Matches;
    MatchesClause(cs, doc);
    var labels, truth := Labels(cs), Truths(cs, doc);
    OccurCases(cs[i].occur);
    assert forall j :: 0 <= j < |cs| ==> labels[j] == Label(cs[j].occur) && truth[j] == Matches(cs[j].ast, doc);
  }

  lemma {:induction false} HoistPreserves(cs: seq<Child>, doc: Document)
    requires SafeLevel(cs)
    ensures Matches(Clause(HoistAll(cs)), doc) == Matches(Clause(cs), doc)
  {
    hide ChildSat;
    var hs := HoistAll(cs);
    if i :| 0 <= i < |cs| && Risky(cs[i]) {
      forall j | 0 <= j < |cs| && j != i ensures cs[j].occur == Some(MustNot) && hs[j] == cs[j] {
      }
      HoistSat(cs[i], doc);
      UnlabelledSat(cs[i], doc);
      OneAmongMustNots(cs, i, doc);
      OneAmongMustNots(hs, i, doc);
    } else {
      forall i | 0 <= i < |cs|
        ensures Label(hs[i].occur) == Label(cs[i].occur) && Matches(hs[i].ast, doc) == Matches(cs[i].ast, doc)
      {
        HoistSat(cs[i], doc);
      }
    }
  }

  lemma {:induction false} UnlabelledSat(c: Child, doc: Document)
    requires c.occur.None?
    ensures ChildSat(c, doc) == Matches(c.ast, doc)
  {
  }

  // --- the whole tree -----------------------------------------------------------------------------

  // On every safe tree the pass preserves the matching documents.
  lemma {:induction false} RewritePreserves(t: Ast, doc: Document)
    requires SafeTree(t)
    ensures Matches(Rewrite(t), doc) == Matches(t, doc)
    decreases t
  {
    if t.Clause? {
      hide Relevant, Dedup, HoistAll, SafeLevel;
      var cs := t.clauses;
      var rewritten := RewriteAll(cs);
      RewrittenLabels(cs);
      forall i | 0 <= i < |cs| && Relevant(cs, i) ensures Matches(cs[i].ast, doc) == Matches(rewritten[i].ast, doc) {
        RewriteAllAt(cs, i);
        RewritePreserves(cs[i].ast, doc);
      }
      RelevantPreserves(cs, rewritten, doc);
      DedupPreserves(rewritten, doc);
      HoistPreserves(Dedup(rewritten), doc);
    }
  }

  lemma {:induction false} RewrittenLabels(cs: seq<Child>)
    ensures forall i :: 0 <= i < |cs| ==> RewriteAll(cs)[i] == RewriteChild(cs[i])
    ensures forall i :: 0 <= i < |cs| ==> RewriteAll(cs)[i].occur == cs[i].occur
  {
    hide RewriteAll;
    forall i | 0 <= i < |cs|
      ensures RewriteAll(cs)[i] == RewriteChild(cs[i]) && RewriteAll(cs)[i].occur == cs[i].occur
    {
      RewriteAllAt(cs, i);
    }
  }

  // In particular when no unlabelled child reduces to a single Must or MustNot anywhere.
  ghost predicate NoRiskyChild(t: Ast)
    decreases t
  {
    t.Clause? ==>
      && (forall i :: 0 <= i < |t.clauses| ==> NoRiskyChild(t.clauses[i].ast))
      && (forall c :: c in RewriteAll(t.clauses) ==> !Risky(c))
  }

  lemma {:induction false} NoRiskyChildIsSafe(t: Ast)
    requires NoRiskyChild(t)
    ensures SafeTree(t)
    decreases t
  {
    hide Risky;
    if t.Clause? {
      forall i | 0 <= i < |t.clauses| ensures SafeTree(t.clauses[i].ast) {
        NoRiskyChildIsSafe(t.clauses[i].ast);
      }
      var kept := Dedup(RewriteAll(t.clauses));
      DedupMembers(RewriteAll(t.clauses));
      forall i | 0 <= i < |kept| ensures !Risky(kept[i]) {
        assert kept[i] in kept;
      }
    }
  }

  // --- exactness on independent leaves --------------------------------------------------------------

  // The pass keeps what a uniform document says.
  lemma {:induction false} RewriteKeepsUniform(t: Ast, doc: Document, v: bool)
    requires NoEmptyClause(t) && Uniform(t, doc, v)
    ensures NoEmptyClause(Rewrite(t)) && Uniform(Rewrite(t), doc, v)
    decreases t
  {
    if t.Clause? {
      var cs := t.clauses;
      var rewritten := RewriteAll(cs);
      var kept := Dedup(rewritten);
      DedupMembers(rewritten);
      forall c | c in rewritten ensures NoEmptyClause(c.ast) && UniformChild(c, doc, v) {
        var i :| 0 <= i < |cs| && rewritten[i] == c;
        RewriteAllAt(cs, i);
        RewriteKeepsUniform(cs[i].ast, doc, v != Negates(cs[i]));
      }
      forall i | 0 <= i < |kept|
        ensures NoEmptyClause(Hoist(kept[i]).ast) && UniformChild(Hoist(kept[i]), doc, v)
      {
        assert kept[i] in kept;
      }
    }
  }

  // A forced child says the same before and after.
  lemma {:induction false} ForcedBothSides(c: Child, doc: Document, v: bool)
    requires NoEmptyClause(c.ast) && UniformChild(c, doc, v)
    ensures ChildSat(c, doc) == v && ChildSat(RewriteChild(c), doc) == v
  {
    hide Rewrite, Uniform, Matches, NoEmptyClause;
    UniformChildForces(c, doc, v);
    RewriteKeepsUniform(c.ast, doc, v != Negates(c));
    UniformChildForces(RewriteChild(c), doc, v);
  }

  lemma {:induction false} DedupDistinct(cs: seq<Child>)
    requires forall i, j :: 0 <= i < j < |cs| ==> cs[i] != cs[j]
    ensures Dedup(cs) == cs
  {
    if |cs| > 0 {
      DedupDistinct(cs[..|cs| - 1]);
    }
  }

  lemma {:induction false} NothingToDedup(cs: seq<Child>)
    requires ReadOnce(Clause(cs))
    ensures Dedup(RewriteAll(cs)) == RewriteAll(cs)
  {
    hide Leaves, RewriteAll, Dedup, Rewrite;
    var rewritten := RewriteAll(cs);
    RewrittenLabels(cs);
    forall i, j | 0 <= i < j < |cs| ensures rewritten[i] != rewritten[j] {
      var l := SomeLeaf(cs[i].ast);
      RewriteKeepsLeaves(cs[i].ast, l);
      RewriteKeepsLeaves(cs[j].ast, l);
      assert Disjoint(cs[i], cs[j]);
    }
    DedupDistinct(rewritten);
  }

  // Everything holds except child i, which was a choice and has become an obligation.
  lemma {:induction false} HoistMismatch(cs: seq<Child>, i: nat, j: nat, doc: Document)
    requires ReadOnce(Clause(cs)) && i < |cs| && j < |cs| && i != j
    requires Risky(RewriteChild(cs[i])) && cs[j].occur != Some(MustNot)
    requires forall k :: 0 <= k < |cs| ==> UniformChild(cs[k], doc, k != i)
    ensures Matches(Clause(cs), doc) && !Matches(Rewrite(Clause(cs)), doc)
  {
    hide Matches, Uniform, Dedup, ReadOnce, ChildSat, RewriteAll;
    var rewritten := RewriteAll(cs);
    NothingToDedup(cs);
    RewrittenLabels(cs);
    forall k | 0 <= k < |cs| ensures ChildSat(cs[k], doc) == (k != i) && ChildSat(rewritten[k], doc) == (k != i) {
      NoEmptyChild(cs, k);
      ForcedBothSides(cs[k], doc, k != i);
    }
    AlmostAllSat(cs, i, j, doc);
    HoistSat(rewritten[i], doc);
    UnlabelledSat(rewritten[i], doc);
    ViolatedClause(HoistAll(rewritten), i, doc);
  }

  lemma {:induction false} NoEmptyChild(cs: seq<Child>, k: nat)
    requires ReadOnce(Clause(cs)) && k < |cs|
    ensures NoEmptyClause(cs[k].ast) && ReadOnce(cs[k].ast)
  {
    ReadOnceNoEmptyClause(cs[k].ast);
  }

  lemma {:induction false} AlmostAllSat(cs: seq<Child>, i: nat, j: nat, doc: Document)
    requires i < |cs| && j < |cs| && i != j && cs[i].occur.None? && cs[j].occur != Some(MustNot)
    requires forall k :: 0 <= k < |cs| ==> (ChildSat(cs[k], doc) <==> k != i)
    ensures Matches(Clause(cs), doc)
  {
    hide Matches;
    MatchesClause(cs, doc);
    var labels, truth := Labels(cs), Truths(cs, doc);
    assert forall k :: 0 <= k < |cs| ==> labels[k] == Label(cs[k].occur) && truth[k] == Matches(cs[k].ast, doc);
    OccurCases(cs[j].occur);
    assert ChildSat(cs[j], doc);
    assert truth[j] && (labels[j] == Must || labels[j] == Should);
  }

  // How the siblings of child i must behave for it to decide the clause.
  ghost function Spotlight(cs: seq<Child>, i: nat): (choice: seq<bool>)
    requires i < |cs|
    ensures |choice| == |cs|
    ensures forall k :: 0 <= k < |cs| ==>
              choice[k] == !(Label(cs[i].occur) == Should && Label(cs[k].occur) == Should)
  {
    seq(|cs|, k requires 0 <= k < |cs| => !(Label(cs[i].occur) == Should && Label(cs[k].occur) == Should))
  }

  lemma {:induction false} ChildDecides(cs: seq<Child>, i: nat, doc: Document)
    requires i < |cs| && Relevant(cs, i)
    requires forall k :: 0 <= k < |cs| && k != i ==> ChildSat(cs[k], doc) == Spotlight(cs, i)[k]
    ensures Matches(Clause(cs), doc) == ChildSat(cs[i], doc)
  {
    hide Matches, Spotlight;
    MatchesClause(cs, doc);
    var labels, truth := Labels(cs), Truths(cs, doc);
    forall k | 0 <= k < |cs|
      ensures labels[k] == Label(cs[k].occur)
      ensures ChildSat(cs[k], doc) == ((labels[k] == MustNot) != truth[k])
    {
      OccurCases(cs[k].occur);
    }
    assert forall k :: 0 <= k < |cs| && k != i ==>
      ((labels[k] == MustNot) != truth[k]) == !(labels[i] == Should && labels[k] == Should);
  }

  // Whatever changes in a child that can be felt can be seen from outside.
  lemma {:induction false} InnerMismatch(cs: seq<Child>, i: nat, inner: Document) returns (doc: Document)
    requires ReadOnce(Clause(cs)) && i < |cs| && Relevant(cs, i) && SafeLevel(RewriteAll(cs))
    requires Matches(Rewrite(cs[i].ast), inner) != Matches(cs[i].ast, inner)
    ensures Matches(Rewrite(Clause(cs)), doc) != Matches(Clause(cs), doc)
  {
    hide Matches, Uniform, Dedup, ReadOnce, RewriteAll, SafeLevel, Leaves, Rewrite, Chosen, NoEmptyClause;
    var choice := Spotlight(cs, i);
    doc := Chosen(cs, choice, i, inner);
    var rewritten := RewriteAll(cs);
    RewrittenLabels(cs);
    forall k | 0 <= k < |cs| && k != i
      ensures ChildSat(cs[k], doc) == choice[k] && ChildSat(rewritten[k], doc) == choice[k]
    {
      ChosenUniform(cs, choice, i, inner, k);
      NoEmptyChild(cs, k);
      ForcedBothSides(cs[k], doc, choice[k]);
    }
    forall x ensures x in Leaves(Rewrite(cs[i].ast)) <==> x in Leaves(cs[i].ast) {
      if x >= 0 { RewriteKeepsLeaves(cs[i].ast, x); }
    }
    ChosenFree(cs, choice, i, inner, cs[i].ast);
    ChosenFree(cs, choice, i, inner, Rewrite(cs[i].ast));
    ChildDecides(cs, i, doc);
    ChildDecides(rewritten, i, doc);
    HoistPreserves(rewritten, doc);
    NothingToDedup(cs);
    RewriteIs(cs);
  }

  // A tree with independent leaves that is not safe: some document tells the difference.
  lemma {:induction false} Mismatch(t: Ast) returns (doc: Document)
    requires ReadOnce(t) && !SafeTree(t)
    ensures Matches(Rewrite(t), doc) != Matches(t, doc)
    decreases t
  {
    hide Matches, Uniform, Dedup, RewriteAll, Relevant, Leaves, Rewrite, Chosen;
    var cs := t.clauses;
    NothingToDedup(cs);
    RewrittenLabels(cs);
    if SafeLevel(RewriteAll(cs)) {
      var i :| 0 <= i < |cs| && Relevant(cs, i) && !SafeTree(cs[i].ast);
      var inner := Mismatch(cs[i].ast);
      doc := InnerMismatch(cs, i, inner);
    } else {
      var rewritten := RewriteAll(cs);
      var i, j :| 0 <= i < |cs| && 0 <= j < |cs| && i != j
        && Risky(rewritten[i]) && rewritten[j].occur != Some(MustNot);
      var choice := seq(|cs|, k => k != i);
      doc := Chosen(cs, choice, |cs|, _ => false);
      forall k | 0 <= k < |cs| ensures UniformChild(cs[k], doc, k != i) {
        ChosenUniform(cs, choice, |cs|, _ => false, k);
      }
      HoistMismatch(cs, i, j, doc);
    }
  }

  // --- the condition, read off the query itself ----------------------------------------------------

  // An unlabelled clause of one child which is labelled Must or MustNot, or is one itself.
  predicate Obligation(c: Child)
    decreases c
  {
    && c.occur.None? && c.ast.Clause? && |c.ast.clauses| == 1
    && var inner := c.ast.clauses[0];
       inner.occur == Some(Must) || inner.occur == Some(MustNot) || Obligation(inner)
  }

  ghost predicate HarmlessLevel(cs: seq<Child>) {
    forall i, j :: 0 <= i < |cs| && 0 <= j < |cs| && i != j && Obligation(cs[i]) ==> cs[j].occur == Some(MustNot)
  }

  // In every clause that can be felt, an obligation has only MustNot siblings.
  ghost predicate Harmless(t: Ast)
    decreases t
  {
    t.Clause? ==>
      && HarmlessLevel(t.clauses)
      && (forall i :: 0 <= i < |t.clauses| && Relevant(t.clauses, i) ==> Harmless(t.clauses[i].ast))
  }

  lemma {:induction false} RewriteSingleton(inner: Child)
    requires ReadOnce(Clause([inner]))
    ensures Rewrite(Clause([inner])) == Clause([Hoist(RewriteChild(inner))])
  {
    hide RewriteAll, ReadOnce, Rewrite;
    NothingToDedup([inner]);
    RewriteIs([inner]);
    RewrittenLabels([inner]);
    assert HoistAll(RewriteAll([inner])) == [Hoist(RewriteChild(inner))];
  }

  // What the pass turns into an obligation is one already in the query.
  lemma {:induction false} RiskyIsObligation(c: Child)
    requires ReadOnce(c.ast)
    ensures Risky(RewriteChild(c)) <==> Obligation(c)
    ensures RewriteChild(c).ast.Clause? && |RewriteChild(c).ast.clauses| == 1 ==>
              c.ast.Clause? && |c.ast.clauses| == 1
    decreases c
  {
    hide RewriteAll;
    if c.ast.Clause? {
      NothingToDedup(c.ast.clauses);
      RewriteIs(c.ast.clauses);
      if |c.ast.clauses| == 1 {
        var inner := c.ast.clauses[0];
        assert c.ast == Clause([inner]);
        RewriteSingleton(inner);
        RiskyIsObligation(inner);
      }
    } else {
    }
  }

  lemma {:induction false} LevelsAgree(cs: seq<Child>)
    requires ReadOnce(Clause(cs))
    ensures HarmlessLevel(cs) <==> SafeLevel(Dedup(RewriteAll(cs)))
  {
    hide Obligation, Risky, RewriteAll, Dedup;
    NothingToDedup(cs);
    RewrittenLabels(cs);
    forall i | 0 <= i < |cs| ensures Risky(RewriteAll(cs)[i]) <==> Obligation(cs[i]) {
      RiskyIsObligation(cs[i]);
    }
  }

  // Without repeated leaves, safety can be read off the query.
  lemma {:induction false} HarmlessIsSafe(t: Ast)
    requires ReadOnce(t)
    ensures Harmless(t) <==> SafeTree(t)
    decreases t
  {
    if t.Clause? {
      hide RewriteAll, Relevant, Dedup, SafeLevel, HarmlessLevel;
      var cs := t.clauses;
      LevelsAgree(cs);
      forall i | 0 <= i < |cs| ensures Harmless(cs[i].ast) <==> SafeTree(cs[i].ast) {
        HarmlessIsSafe(cs[i].ast);
      }
    }
  }

  // On every tree with independent leaves, the pass preserves all documents exactly when the
  // tree is harmless.
  lemma {:induction false} RewriteExact(t: Ast)
    requires ReadOnce(t)
    ensures Harmless(t) <==> forall doc: Document :: Matches(Rewrite(t), doc) == Matches(t, doc)
  {
    hide Matches, Rewrite, SafeTree, Harmless;
    HarmlessIsSafe(t);
    if SafeTree(t) {
      forall doc: Document ensures Matches(Rewrite(t), doc) == Matches(t, doc) {
        RewritePreserves(t, doc);
      }
    } else {
      var doc := Mismatch(t);
    }
  }

  // --- a condition for every query --------------------------------------------------------------------

  // Duplicates may shrink a clause to one child, but only when all of its children agree: an
  // unlabelled clause whose children are all Must, all MustNot, or all of this kind.
  predicate MayOblige(c: Child)
    decreases c
  {
    && c.occur.None? && c.ast.Clause? && |c.ast.clauses| > 0
    && (|| (forall i :: 0 <= i < |c.ast.clauses| ==> c.ast.clauses[i].occur == Some(Must))
        || (forall i :: 0 <= i < |c.ast.clauses| ==> c.ast.clauses[i].occur == Some(MustNot))
        || (forall i :: 0 <= i < |c.ast.clauses| ==> MayOblige(c.ast.clauses[i])))
  }

  ghost predicate CarefulLevel(cs: seq<Child>) {
    forall i, j :: 0 <= i < |cs| && 0 <= j < |cs| && i != j && MayOblige(cs[i]) ==> cs[j].occur == Some(MustNot)
  }

  ghost predicate Careful(t: Ast)
    decreases t
  {
    t.Clause? ==>
      && CarefulLevel(t.clauses)
      && (forall i :: 0 <= i < |t.clauses| && Relevant(t.clauses, i) ==> Careful(t.clauses[i].ast))
  }

  // The clauses of a rewritten clause that has one child left.
  lemma {:induction false} AllTheSame(cs: seq<Child>)
    requires |Dedup(RewriteAll(cs))| == 1
    ensures |cs| > 0 && forall i :: 0 <= i < |cs| ==> RewriteChild(cs[i]) == Dedup(RewriteAll(cs))[0]
  {
    hide RewriteAll, Dedup, Rewrite;
    var rewritten := RewriteAll(cs);
    var kept := Dedup(rewritten);
    DedupMembers(rewritten);
    RewrittenLabels(cs);
    assert kept[0] in kept;
    assert rewritten != [];
    forall i | 0 <= i < |cs| ensures RewriteChild(cs[i]) == kept[0] {
      assert rewritten[i] in rewritten;
    }
  }

  lemma {:induction false} RiskyMayOblige(c: Child)
    requires Risky(RewriteChild(c))
    ensures MayOblige(c)
    decreases c
  {
    hide RewriteAll, Dedup;
    var cs := c.ast.clauses;
    var only := Dedup(RewriteAll(cs))[0];
    AllTheSame(cs);
    if Hoistable(only) {
      forall i | 0 <= i < |cs| ensures MayOblige(cs[i]) {
        RiskyMayOblige(cs[i]);
      }
    } else {
      assert forall i :: 0 <= i < |cs| ==> cs[i].occur == only.occur by {
        forall i | 0 <= i < |cs| ensures cs[i].occur == only.occur {
          assert RewriteChild(cs[i]).occur == cs[i].occur;
        }
      }
    }
  }

  lemma {:induction false} DedupOnce(cs: seq<Child>)
    ensures forall i, j :: 0 <= i < j < |Dedup(cs)| ==> Dedup(cs)[i] != Dedup(cs)[j]
  {
    if |cs| > 0 {
      var n := |cs| - 1;
      DedupOnce(cs[..n]);
      DedupMembers(cs[..n]);
    }
  }

  lemma {:induction false} CarefulLevelIsSafe(cs: seq<Child>)
    requires CarefulLevel(cs)
    ensures SafeLevel(Dedup(RewriteAll(cs)))
  {
    hide RewriteAll, Dedup, Risky, MayOblige, Rewrite;
    var rewritten := RewriteAll(cs);
    var kept := Dedup(rewritten);
    RewrittenLabels(cs);
    DedupMembers(rewritten);
    DedupOnce(rewritten);
    forall i, j | 0 <= i < |kept| && 0 <= j < |kept| && i != j && Risky(kept[i])
      ensures kept[j].occur == Some(MustNot)
    {
      assert kept[i] in kept && kept[j] in kept && kept[i] != kept[j];
      var a :| 0 <= a < |cs| && rewritten[a] == kept[i];
      var b :| 0 <= b < |cs| && rewritten[b] == kept[j];
      RiskyMayOblige(cs[a]);
    }
  }

  // Whatever the leaves, a careful query is safe, so the pass preserves its documents.
  lemma {:induction false} CarefulIsSafe(t: Ast)
    requires Careful(t)
    ensures SafeTree(t)
    decreases t
  {
    if t.Clause? {
      hide RewriteAll, Relevant, Dedup, SafeLevel, CarefulLevel;
      CarefulLevelIsSafe(t.clauses);
      forall i | 0 <= i < |t.clauses| && Relevant(t.clauses, i) ensures SafeTree(t.clauses[i].ast) {
        CarefulIsSafe(t.clauses[i].ast);
      }
    }
  }

  lemma {:induction false} CarefulPreserves(t: Ast, doc: Document)
    requires Careful(t)
    ensures Matches(Rewrite(t), doc) == Matches(t, doc)
  {
    hide Matches, Rewrite, Careful, SafeTree;
    CarefulIsSafe(t);
    RewritePreserves(t, doc);
  }

  // Leaf 0, or not leaf 1, becomes leaf 0 and not leaf 1.
  lemma {:induction false} ChoiceBecomesObligation()
    ensures var negation := Child(Some(MustNot), Leaf(1));
            var t := Clause([Child(None, Leaf(0)), Child(None, Clause([negation]))]);
            && ReadOnce(t) && !Harmless(t)
            && Rewrite(t) == Clause([Child(None, Leaf(0)), negation])
            && Matches(t, _ => true) && !Matches(Rewrite(t), _ => true)
  {
    hide Matches, RewriteAll, Dedup;
    var negation := Child(Some(MustNot), Leaf(1));
    var cs := [Child(None, Leaf(0)), Child(None, Clause([negation]))];
    var doc: Document := _ => true;
    NegationStays(negation);
    assert Leaves(cs[0].ast) == [0] && Leaves(cs[1].ast) == [1] by { LeavesOfOne(negation); }
    RewrittenLabels(cs);
    assert RewriteAll(cs) == cs;
    assert ReadOnce(Clause(cs));
    NothingToDedup(cs);
    RewriteIs(cs);
    NothingToDedup(cs);
    assert HoistAll(cs) == [cs[0], negation];
    assert Risky(cs[1]);
    AlmostAllSat(cs, 1, 0, doc) by {
      SingletonClause(negation, doc);
      LeafMatches(doc);
    }
    ViolatedClause([cs[0], negation], 1, doc) by { LeafMatches(doc); }
  }

  lemma {:induction false} LeafMatches(doc: Document)
    ensures forall l :: Matches(Leaf(l), doc) == doc(l)
  {
  }

  lemma {:induction false} NegationStays(c: Child)
    requires c.ast.Leaf? && c.occur.Some?
    ensures Rewrite(Clause([c])) == Clause([c])
    ensures ReadOnce(Clause([c]))
  {
    hide RewriteAll, Dedup;
    RewrittenLabels([c]);
    assert RewriteAll([c])[0] == RewriteChild(c) == c;
    assert RewriteAll([c]) == [c];
    NothingToDedup([c]);
    RewriteIs([c]);
    assert HoistAll([c]) == [c];
  }
}
