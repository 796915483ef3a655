/** Queries whose leaves are independent: no leaf occurs twice and no clause is empty.

The children of such a clause can be made to hold or fail one by one, whatever the others
do.  That is what turns a syntactic difference between two queries into a document that
tells them apart.
 */
module QueryIndependence {
  import opened Collections
  import opened QueryAst

  ghost predicate Disjoint(a: Child, b: Child) {
    forall x :: x in Leaves(a.ast) ==> x !in Leaves(b.ast)
  }

  ghost predicate ReadOnce(t: Ast)
    decreases t
  {
    match t
    case Leaf(_) => true
    case Boost(u, _) => ReadOnce(u)
    case Clause(cs) =>
      && |cs| > 0
      && (forall i :: 0 <= i < |cs| ==> ReadOnce(cs[i].ast))
      && (forall i, j :: 0 <= i < |cs| && 0 <= j < |cs| && i != j ==> Disjoint(cs[i], cs[j]))
  }

  // --- leaves ----------------------------------------------------------------------------------

  ghost predicate HasLeaf(cs: seq<Child>, l: nat) {
    exists c :: c in cs && l in Leaves(c.ast)
  }

  lemma {:induction false} LeafOfClause(cs: seq<Child>, l: nat)
    ensures l in LeavesOf(cs) <==> HasLeaf(cs, l)
  {
    if |cs| > 0 {
      var n := |cs| - 1;
      LeafOfClause(cs[..n], l);
      assert forall c :: c in cs <==> c in cs[..n] || c == cs[n];
    }
  }

  lemma {:induction false} ChildLeaf(cs: seq<Child>, i: nat, l: nat)
    requires i < |cs| && l in Leaves(cs[i].ast)
    ensures l in Leaves(Clause(cs))
  {
    LeafOfClause(cs, l);
    assert cs[i] in cs;
  }

  lemma {:induction false} SomeLeaf(t: Ast) returns (l: nat)
    requires ReadOnce(t)
    ensures l in Leaves(t)
    decreases t
  {
    match t
    case Leaf(x) => l := x;
    case Boost(u, _) => l := SomeLeaf(u);
    case Clause(cs) =>
      l := SomeLeaf(cs[0].ast);
      ChildLeaf(cs, 0, l);
  }

  // Matching only looks at the leaves of the query.
  lemma {:induction false} MatchesLocal(t: Ast, a: Document, b: Document)
    requires forall x :: x in Leaves(t) ==> a(x) == b(x)
    ensures Matches(t, a) == Matches(t, b)
    decreases t
  {
    match t
    case Leaf(_) =>
    case Boost(u, _) => MatchesLocal(u, a, b);
    case Clause(cs) =>
      forall i | 0 <= i < |cs| ensures Matches(cs[i].ast, a) == Matches(cs[i].ast, b) {
        forall x | x in Leaves(cs[i].ast) ensures a(x) == b(x) { ChildLeaf(cs, i, x); }
        MatchesLocal(cs[i].ast, a, b);
      }
      MatchesClause(cs, a);
      MatchesClause(cs, b);
      assert Truths(cs, a) == Truths(cs, b);
  }

  // --- forcing a query -----------------------------------------------------------------------------

  predicate Negates(c: Child) {
    c.occur == Some(MustNot)
  }

  // Every leaf agrees with v, up to the negations above it.
  ghost predicate Uniform(t: Ast, doc: Document, v: bool)
    decreases t
  {
    match t
    case Leaf(l) => doc(l) == v
    case Boost(u, _) => Uniform(u, doc, v)
    case Clause(cs) => forall i :: 0 <= i < |cs| ==> Uniform(cs[i].ast, doc, v != Negates(cs[i]))
  }

  ghost predicate UniformChild(c: Child, doc: Document, v: bool) {
    Uniform(c.ast, doc, v != Negates(c))
  }

  ghost predicate NoEmptyClause(t: Ast)
    decreases t
  {
    match t
    case Leaf(_) => true
    case Boost(u, _) => NoEmptyClause(u)
    case Clause(cs) => |cs| > 0 && forall i :: 0 <= i < |cs| ==> NoEmptyClause(cs[i].ast)
  }

  lemma {:induction false} ReadOnceNoEmptyClause(t: Ast)
    requires ReadOnce(t)
    ensures NoEmptyClause(t)
    decreases t
  {
    match t
    case Leaf(_) =>
    case Boost(u, _) => ReadOnceNoEmptyClause(u);
    case Clause(cs) =>
      forall i | 0 <= i < |cs| ensures NoEmptyClause(cs[i].ast) { ReadOnceNoEmptyClause(cs[i].ast); }
  }

  // Children that all pull the same way decide the clause.
  lemma {:induction false} AllSame(cs: seq<Child>, doc: Document, v: bool)
    requires |cs| > 0 && forall i :: 0 <= i < |cs| ==> ChildSat(cs[i], doc) == v
    ensures Matches(Clause(cs), doc) == v
  {
    hide Matches;
    MatchesClause(cs, doc);
    var labels, truth := Labels(cs), Truths(cs, doc);
    forall i | 0 <= i < |cs| ensures truth[i] == (v != (labels[i] == MustNot)) {
      assert ChildSat(cs[i], doc) == v;
    }
    OccurLabel(labels[0]);
  }

  lemma {:induction false} OccurLabel(o: Occur)
    ensures o == Should || o == Must || o == MustNot
  {
    match o case Should => case Must => case MustNot =>
  }

  lemma {:induction false} UniformForces(t: Ast, doc: Document, v: bool)
    requires NoEmptyClause(t) && Uniform(t, doc, v)
    ensures Matches(t, doc) == v
    decreases t
  {
    match t
    case Leaf(_) =>
    case Boost(u, _) => UniformForces(u, doc, v);
    case Clause(cs) =>
      forall i | 0 <= i < |cs| ensures ChildSat(cs[i], doc) == v {
        UniformForces(cs[i].ast, doc, v != Negates(cs[i]));
      }
      AllSame(cs, doc, v);
  }

  lemma {:induction false} UniformChildForces(c: Child, doc: Document, v: bool)
    requires NoEmptyClause(c.ast) && UniformChild(c, doc, v)
    ensures ChildSat(c, doc) == v
  {
    UniformForces(c.ast, doc, v != Negates(c));
  }

  // --- a document for every choice ---------------------------------------------------------------

  // Leaf x stands under an odd number of negations.
  ghost predicate Negated(t: Ast, x: nat)
    decreases t
  {
    match t
    case Leaf(_) => false
    case Boost(u, _) => Negated(u, x)
    case Clause(cs) =>
      exists i :: 0 <= i < |cs| && x in Leaves(cs[i].ast) && Negates(cs[i]) != Negated(cs[i].ast, x)
  }

  ghost predicate NegatedIn(c: Child, x: nat) {
    Negates(c) != Negated(c.ast, x)
  }

  lemma {:induction false} SignsAreUniform(t: Ast, doc: Document, v: bool)
    requires ReadOnce(t) && forall x :: x in Leaves(t) ==> doc(x) == (v != Negated(t, x))
    ensures Uniform(t, doc, v)
    decreases t
  {
    match t
    case Leaf(_) =>
    case Boost(u, _) => SignsAreUniform(u, doc, v);
    case Clause(cs) =>
      forall i | 0 <= i < |cs| ensures Uniform(cs[i].ast, doc, v != Negates(cs[i])) {
        forall x | x in Leaves(cs[i].ast) ensures doc(x) == ((v != Negates(cs[i])) != Negated(cs[i].ast, x)) {
          ChildLeaf(cs, i, x);
        }
        SignsAreUniform(cs[i].ast, doc, v != Negates(cs[i]));
      }
  }

  // Leaf x is set as child k of the clause wants it.
  ghost predicate SetBy(cs: seq<Child>, choice: seq<bool>, k: nat, x: nat)
    requires k < |cs| == |choice|
  {
    x in Leaves(cs[k].ast) && choice[k] != NegatedIn(cs[k], x)
  }

  // The document that makes child k hold or fail as choice[k] says; on the leaves of child
  // `free` it is `inner` instead.
  ghost function Chosen(cs: seq<Child>, choice: seq<bool>, free: nat, inner: Document): (doc: Document)
    requires |cs| == |choice|
  {
    (x: nat) =>
      if free < |cs| && x in Leaves(cs[free].ast) then inner(x)
      else exists k: nat :: k < |cs| && SetBy(cs, choice, k, x)
  }

  lemma {:induction false} ChosenLeaf(cs: seq<Child>, choice: seq<bool>, free: nat, inner: Document, k: nat, x: nat)
    requires ReadOnce(Clause(cs)) && |cs| == |choice| && k < |cs| && k != free && x in Leaves(cs[k].ast)
    ensures Chosen(cs, choice, free, inner)(x) == (choice[k] != NegatedIn(cs[k], x))
  {
    hide Leaves, NegatedIn;
    assert forall i :: 0 <= i < |cs| && x in Leaves(cs[i].ast) ==> i == k by {
      forall i | 0 <= i < |cs| && x in Leaves(cs[i].ast) ensures i == k {
        assert i != k ==> Disjoint(cs[i], cs[k]);
      }
    }
    if choice[k] != NegatedIn(cs[k], x) {
      assert SetBy(cs, choice, k, x);
    }
  }

  // Every combination of holding and failing children occurs.
  lemma {:induction false} ChosenUniform(cs: seq<Child>, choice: seq<bool>, free: nat, inner: Document, k: nat)
    requires ReadOnce(Clause(cs)) && |cs| == |choice| && k < |cs| && k != free
    ensures UniformChild(cs[k], Chosen(cs, choice, free, inner), choice[k])
    ensures ChildSat(cs[k], Chosen(cs, choice, free, inner)) == choice[k]
  {
    hide Chosen, Leaves, Uniform;
    var doc := Chosen(cs, choice, free, inner);
    forall x | x in Leaves(cs[k].ast) ensures doc(x) == ((choice[k] != Negates(cs[k])) != Negated(cs[k].ast, x)) {
      ChosenLeaf(cs, choice, free, inner, k, x);
    }
    SignsAreUniform(cs[k].ast, doc, choice[k] != Negates(cs[k]));
    ReadOnceNoEmptyClause(cs[k].ast);
    UniformChildForces(cs[k], doc, choice[k]);
  }

  lemma {:induction false} ChosenFree(cs: seq<Child>, choice: seq<bool>, free: nat, inner: Document, t: Ast)
    requires |cs| == |choice| && free < |cs|
    requires forall x :: x in Leaves(t) ==> x in Leaves(cs[free].ast)
    ensures Matches(t, Chosen(cs, choice, free, inner)) == Matches(t, inner)
  {
    hide Leaves;
    MatchesLocal(t, Chosen(cs, choice, free, inner), inner);
  }
}
