/** Parsed queries and the documents they match.

Leaf queries are opaque and are identified by a number; a document is the valuation that
says which leaves it satisfies.  A clause matches when all of its Must children match, none
of its MustNot children matches and, if it has Should children but no Must, some Should
child matches.  A child without a label counts as Should, a clause of MustNot children only
is a complement, and the empty clause matches nothing.
 */
module QueryAst {
  import opened Collections

  datatype Occur = Should | Must | MustNot

  datatype Child = Child(occur: Option<Occur>, ast: Ast)

  datatype Ast =
    | Clause(clauses: seq<Child>)
    | Boost(underlying: Ast, boost: nat)
    | Leaf(leaf: nat)

  type Document = nat -> bool

  function Label(occur: Option<Occur>): (o: Occur)
  {
    if occur.Some? then occur.value else Should
  }

  function Labels(cs: seq<Child>): (labels: seq<Occur>)
    ensures |labels| == |cs|
    ensures forall i :: 0 <= i < |cs| ==> labels[i] == Label(cs[i].occur)
  {
    seq(|cs|, i requires 0 <= i < |cs| => Label(cs[i].occur))
  }

  // --- matching --------------------------------------------------------------------------

  // A clause, given the label and the truth of each child.
  ghost predicate ClauseHolds(labels: seq<Occur>, truth: seq<bool>)
    requires |labels| == |truth|
  {
    && |labels| > 0
    && (forall i :: 0 <= i < |labels| && labels[i] == Must ==> truth[i])
    && (forall i :: 0 <= i < |labels| && labels[i] == MustNot ==> !truth[i])
    && (|| (exists i :: 0 <= i < |labels| && labels[i] == Must)
        || (exists i :: 0 <= i < |labels| && labels[i] == Should && truth[i])
        || (forall i :: 0 <= i < |labels| ==> labels[i] == MustNot))
  }

  ghost predicate Matches(t: Ast, doc: Document)
    decreases t
  {
    match t
    case Leaf(l) => doc(l)
    case Boost(u, _) => Matches(u, doc)
    case Clause(cs) => ClauseHolds(Labels(cs), seq(|cs|, i requires 0 <= i < |cs| => Matches(cs[i].ast, doc)))
  }

  ghost function Truths(cs: seq<Child>, doc: Document): (truth: seq<bool>)
    ensures |truth| == |cs|
    ensures forall i :: 0 <= i < |cs| ==> truth[i] == Matches(cs[i].ast, doc)
  {
    seq(|cs|, i requires 0 <= i < |cs| => Matches(cs[i].ast, doc))
  }

  lemma {:induction false} MatchesClause(cs: seq<Child>, doc: Document)
    ensures Matches(Clause(cs), doc) == ClauseHolds(Labels(cs), Truths(cs, doc))
  {
    hide ClauseHolds, Labels;
    assert seq(|cs|, i requires 0 <= i < |cs| => Matches(cs[i].ast, doc)) == Truths(cs, doc);
  }

  // Whether a child pulls its clause towards a match.
  ghost predicate ChildSat(c: Child, doc: Document)
  {
    (c.occur == Some(MustNot)) != Matches(c.ast, doc)
  }

  // A clause of one child says what that child says.
  lemma {:induction false} SingletonClause(c: Child, doc: Document)
    ensures Matches(Clause([c]), doc) == ChildSat(c, doc)
  {
    MatchesClause([c], doc);
    var labels, truth := Labels([c]), Truths([c], doc);
    assert labels[0] == Label(c.occur) && truth[0] == Matches(c.ast, doc);
  }

  // A clause of Must and MustNot children is a conjunction.
  lemma {:induction false} ConjunctiveClause(cs: seq<Child>, doc: Document)
    requires |cs| > 0
    requires forall i :: 0 <= i < |cs| ==> cs[i].occur == Some(Must) || cs[i].occur == Some(MustNot)
    ensures Matches(Clause(cs), doc) <==> forall i :: 0 <= i < |cs| ==> ChildSat(cs[i], doc)
  {
    MatchesClause(cs, doc);
    var labels, truth := Labels(cs), Truths(cs, doc);
    assert forall i :: 0 <= i < |cs| ==> ChildSat(cs[i], doc) == ((labels[i] == MustNot) != truth[i]);
  }

  // A clause with a violated Must or MustNot child does not match.
  lemma {:induction false} ViolatedClause(cs: seq<Child>, i: nat, doc: Document)
    requires i < |cs| && cs[i].occur.Some? && cs[i].occur != Some(Should) && !ChildSat(cs[i], doc)
    ensures !Matches(Clause(cs), doc)
  {
    MatchesClause(cs, doc);
    var labels, truth := Labels(cs), Truths(cs, doc);
    assert labels[i] == cs[i].occur.value && truth[i] == Matches(cs[i].ast, doc);
  }

  // --- leaves ------------------------------------------------------------------------------

  // The leaves from left to right.
  function Leaves(t: Ast): (ls: seq<nat>)
    decreases t, 0
  {
    match t
    case Leaf(l) => [l]
    case Boost(u, _) => Leaves(u)
    case Clause(cs) => LeavesOf(cs)
  }

  function LeavesOf(cs: seq<Child>): (ls: seq<nat>)
    decreases cs, 1
  {
    if |cs| == 0 then [] else LeavesOf(cs[..|cs| - 1]) + LeavesIn(cs[|cs| - 1])
  }

  function LeavesIn(c: Child): (ls: seq<nat>)
    decreases c, 1
  {
    Leaves(c.ast)
  }

  lemma {:induction false} LeavesOfAppend(cs: seq<Child>, c: Child)
    ensures LeavesOf(cs + [c]) == LeavesOf(cs) + Leaves(c.ast)
  {
    assert (cs + [c])[..|cs|] == cs;
  }

  lemma {:induction false} LeavesOfOne(c: Child)
    ensures LeavesOf([c]) == Leaves(c.ast)
  {
    assert [c] == [] + [c];
    LeavesOfAppend([], c);
  }

  // The number of nodes.
  function Size(t: Ast): (n: nat)
    decreases t, 0
  {
    match t
    case Leaf(_) => 1
    case Boost(u, _) => 1 + Size(u)
    case Clause(cs) => 1 + SizeOf(cs)
  }

  function SizeOf(cs: seq<Child>): (n: nat)
    decreases cs, 1
  {
    if |cs| == 0 then 0 else SizeOf(cs[..|cs| - 1]) + SizeIn(cs[|cs| - 1])
  }

  function SizeIn(c: Child): (n: nat)
    decreases c, 1
  {
    Size(c.ast)
  }
}
