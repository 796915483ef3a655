/** The label that children without one get when the query is built: Should, or Must once the
parser is set to conjunction by default.
 */
module DefaultOccur {
  import opened Collections
  import opened QueryAst
  import opened Aggregation
  import opened AggregationMeaning

  function WithDefault(t: Ast, o: Occur): (r: Ast)
    decreases t, 0
  {
    match t
    case Leaf(l) => Leaf(l)
    case Boost(u, b) => Boost(WithDefault(u, o), b)
    case Clause(cs) => Clause(AllWithDefault(cs, o))
  }

  function AllWithDefault(cs: seq<Child>, o: Occur): (r: seq<Child>)
    ensures |r| == |cs|
    decreases cs, 1
  {
    if |cs| == 0 then [] else AllWithDefault(cs[..|cs| - 1], o) + [ChildWithDefault(cs[|cs| - 1], o)]
  }

  function ChildWithDefault(c: Child, o: Occur): (r: Child)
    decreases c, 1
  {
    Child(Some(if c.occur.Some? then c.occur.value else o), WithDefault(c.ast, o))
  }

  lemma {:induction false} AllWithDefaultAt(cs: seq<Child>, o: Occur)
    ensures forall i :: 0 <= i < |cs| ==> AllWithDefault(cs, o)[i] == ChildWithDefault(cs[i], o)
  {
    hide ChildWithDefault;
    if |cs| > 0 {
      AllWithDefaultAt(cs[..|cs| - 1], o);
    }
  }

  lemma {:induction false} AllWithDefaultIs(cs: seq<Child>, o: Occur, rs: seq<Child>)
    requires |rs| == |cs| && forall i :: 0 <= i < |cs| ==> rs[i] == ChildWithDefault(cs[i], o)
    ensures WithDefault(Clause(cs), o) == Clause(rs)
  {
    hide ChildWithDefault, AllWithDefault;
    AllWithDefaultAt(cs, o);
    assert AllWithDefault(cs, o) == rs;
  }

  // Should is what matching assumes of a child without a label.
  lemma {:induction false} ShouldChangesNothing(t: Ast, doc: Document)
    ensures Matches(WithDefault(t, Should), doc) == Matches(t, doc)
    decreases t
  {
    match t
    case Leaf(_) =>
    case Boost(u, _) => ShouldChangesNothing(u, doc);
    case Clause(cs) =>
      hide AllWithDefault, Matches;
      var rs := AllWithDefault(cs, Should);
      AllWithDefaultAt(cs, Should);
      forall i | 0 <= i < |cs| ensures Matches(rs[i].ast, doc) == Matches(cs[i].ast, doc) {
        ShouldChangesNothing(cs[i].ast, doc);
      }
      MatchesClause(rs, doc);
      MatchesClause(cs, doc);
      assert Labels(rs) == Labels(cs) && Truths(rs, doc) == Truths(cs, doc);
  }

  // --- conjunction by default ------------------------------------------------------------------------

  // An operand with neither a sign nor an operator on either side.
  predicate Bare(leafs: seq<Present>, i: nat)
    requires i < |leafs|
  {
    leafs[i].occur.None? && leafs[i].op.None? && NextOp(leafs, i).None?
  }

  // The same operands with every bare one marked +, inside them too.
  function Marked(leafs: seq<Present>): (r: seq<Present>)
    ensures |r| == |leafs|
    ensures forall i :: 0 <= i < |leafs| ==>
              r[i] == Present(leafs[i].op, if Bare(leafs, i) then Some(Must) else leafs[i].occur,
                              WithDefault(leafs[i].ast, Must))
  {
    seq(|leafs|, i requires 0 <= i < |leafs| =>
          Present(leafs[i].op, if Bare(leafs, i) then Some(Must) else leafs[i].occur,
                  WithDefault(leafs[i].ast, Must)))
  }

  lemma {:induction false} SameNext(leafs: seq<Present>, i: nat)
    requires i < |leafs|
    ensures NextOp(Marked(leafs), i) == NextOp(leafs, i)
  {
  }

  lemma {:induction false} NegationWithDefault(t: Ast)
    ensures WithDefault(Clause([Child(Some(MustNot), t)]), Must) == Clause([Child(Some(MustNot), WithDefault(t, Must))])
  {
    AllWithDefaultIs([Child(Some(MustNot), t)], Must, [Child(Some(MustNot), WithDefault(t, Must))]);
  }

  lemma {:induction false} MarkedEntry(leafs: seq<Present>, i: nat)
    requires i < |leafs|
    ensures Entry(Marked(leafs)[i], NextOp(leafs, i)) == ChildWithDefault(Entry(leafs[i], NextOp(leafs, i)), Must)
  {
    hide WithDefault;
    NegationWithDefault(leafs[i].ast);
    OpCases(leafs[i].op);
    OpCases(NextOp(leafs, i));
  }

  // The groups of the marked operands are the groups with defaults filled in.
  ghost predicate Filled(old': seq<seq<Child>>, new': seq<seq<Child>>) {
    && |old'| == |new'|
    && forall g :: 0 <= g < |old'| ==> GroupFilled(old'[g], new'[g])
  }

  ghost predicate GroupFilled(old': seq<Child>, new': seq<Child>) {
    && |old'| == |new'|
    && forall j :: 0 <= j < |old'| ==> new'[j] == ChildWithDefault(old'[j], Must)
  }

  lemma {:induction false} PlaceFilled(old': seq<seq<Child>>, new': seq<seq<Child>>, a: Present, b: Present,
                                       c: Child, d: Child)
    requires Filled(old', new') && a.op == b.op && d == ChildWithDefault(c, Must)
    ensures Filled(Place(old', a, c), Place(new', b, d))
  {
    hide ChildWithDefault, GroupFilled;
    if a.op == Some(And) && |old'| > 0 {
      var n := |old'| - 1;
      assert GroupFilled(old'[n], new'[n]);
      AppendFilled(old'[n], new'[n], c, d);
    } else {
      AppendFilled([], [], c, d);
      assert [] + [c] == [c] && [] + [d] == [d];
    }
  }

  lemma {:induction false} AppendFilled(old': seq<Child>, new': seq<Child>, c: Child, d: Child)
    requires GroupFilled(old', new') || (old' == [] && new' == [])
    requires d == ChildWithDefault(c, Must)
    ensures GroupFilled(old' + [c], new' + [d])
  {
    hide ChildWithDefault;
  }

  lemma {:induction false} GroupsFilled(leafs: seq<Present>, k: nat)
    requires k <= |leafs|
    ensures Filled(Groups(leafs, k), Groups(Marked(leafs), k))
  {
    hide Entry, Place, ChildWithDefault, GroupFilled;
    if k > 0 {
      GroupsFilled(leafs, k - 1);
      var c := Entry(leafs[k - 1], NextOp(leafs, k - 1));
      var d := Entry(Marked(leafs)[k - 1], NextOp(Marked(leafs), k - 1));
      SameNext(leafs, k - 1);
      MarkedEntry(leafs, k - 1);
      PlaceFilled(Groups(leafs, k - 1), Groups(Marked(leafs), k - 1), leafs[k - 1], Marked(leafs)[k - 1], c, d);
    }
  }

  lemma {:induction false} GroupWithDefault(old': seq<Child>, new': seq<Child>)
    requires GroupFilled(old', new')
    ensures WithDefault(Clause(old'), Must) == Clause(new')
    ensures |old'| > 0 ==> Nest(new') == ChildWithDefault(Nest(old'), Must)
  {
    hide ChildWithDefault, WithDefault;
    AllWithDefaultIs(old', Must, new');
    ShouldStays(Clause(old'));
  }

  lemma {:induction false} ShouldStays(t: Ast)
    ensures ChildWithDefault(Child(Some(Should), t), Must) == Child(Some(Should), WithDefault(t, Must))
  {
    hide WithDefault;
  }

  lemma {:induction false} AssembleFilled(old': seq<seq<Child>>, new': seq<seq<Child>>)
    requires Filled(old', new') && forall g :: 0 <= g < |old'| ==> |old'[g]| > 0
    ensures WithDefault(Assemble(old'), Must) == Assemble(new')
  {
    hide WithDefault, ChildWithDefault, Nest;
    if |old'| == 1 {
      assert GroupFilled(old'[0], new'[0]);
      GroupWithDefault(old'[0], new'[0]);
      LoneWithDefault(old'[0][0]);
    } else {
      forall g | 0 <= g < |old'| ensures NestAll(new')[g] == ChildWithDefault(NestAll(old')[g], Must) {
        GroupWithDefault(old'[g], new'[g]);
      }
      AllWithDefaultIs(NestAll(old'), Must, NestAll(new'));
    }
  }

  lemma {:induction false} LoneWithDefault(c: Child)
    ensures ChildWithDefault(c, Must).ast == WithDefault(c.ast, Must)
    ensures ChildWithDefault(c, Must).occur == Some(MustNot) <==> c.occur == Some(MustNot)
  {
    hide WithDefault;
  }

  // With conjunction by default the query is the one in which every bare operand is marked +.
  lemma {:induction false} MarkedAggregated(leafs: seq<Present>)
    ensures WithDefault(Aggregated(leafs), Must) == Aggregated(Marked(leafs))
  {
    hide Groups, Assemble;
    if |leafs| == 0 {
      AllWithDefaultIs([], Must, []);
    } else {
      GroupsFilled(leafs, |leafs|);
      NoEmptyGroup(leafs, |leafs|);
      AssembleFilled(Groups(leafs, |leafs|), Groups(Marked(leafs), |leafs|));
    }
  }

  // So it asks for what those operands ask for.
  lemma {:induction false} ConjunctionMeaning(leafs: seq<Present>, doc: Document)
    requires Signed(leafs)
    ensures Matches(WithDefault(Aggregated(leafs), Must), doc) <==> Wanted(Marked(leafs), doc)
  {
    hide Aggregated, WithDefault, Wanted, Matches;
    MarkedAggregated(leafs);
    AggregateMeaning(Marked(leafs), doc);
  }

  // In particular `a b c` asks for all three.
  lemma {:induction false} BareWordsConjoin(leafs: seq<Present>, doc: Document)
    requires |leafs| > 0 && forall i :: 0 <= i < |leafs| ==> leafs[i].op.None? && leafs[i].occur.None?
    ensures Matches(WithDefault(Aggregated(leafs), Must), doc) <==>
              forall i :: 0 <= i < |leafs| ==> Matches(WithDefault(leafs[i].ast, Must), doc)
  {
    hide Aggregated, WithDefault, Matches;
    MarkedAggregated(leafs);
    PlainMeaning(Marked(leafs), doc);
    forall i | 0 <= i < |leafs| ensures Marked(leafs)[i] == Present(None, Some(Must), WithDefault(leafs[i].ast, Must)) {
      assert Bare(leafs, i);
    }
    assert Marked(leafs)[0].occur == Some(Must);
  }
}
