/** What aggregation keeps, and what the aggregated query means.

Every operand ends up in the tree exactly once and in order, whatever the operators, and
`Wanted` says for every list which documents the tree matches.  When all operators are
explicit that is meant to be those that satisfy some maximal AND run; `Unambiguous` is the
exact condition under which it is.
 */
module AggregationMeaning {
  import opened Collections
  import opened QueryAst
  import opened QueryIndependence
  import opened Aggregation

  // --- every operand once, in order ------------------------------------------------------------

  // The child holds the operand itself, or the operand under a single MustNot.
  ghost predicate Keeps(c: Child, leaf: Present) {
    || c.ast == leaf.ast
    || (leaf.occur == Some(MustNot) && c == Child(Some(Should), Clause([Child(Some(MustNot), leaf.ast)])))
  }

  lemma {:induction false} FlattenPlace(groups: seq<seq<Child>>, leaf: Present, c: Child)
    ensures Flatten(Place(groups, leaf, c)) == Flatten(groups) + [c]
  {
    var r := Place(groups, leaf, c);
    var n := |r| - 1;
    if leaf.op == Some(And) && |groups| > 0 {
      assert r[..n] == groups[..n] && r[n] == groups[n] + [c];
    } else {
      assert r[..n] == groups && r[n] == [c];
    }
  }

  // Flattening the groups lists the operands in order, each wrapped at most once.
  lemma {:induction false} GroupsKeepOperands(leafs: seq<Present>, k: nat)
    requires k <= |leafs|
    ensures |Flatten(Groups(leafs, k))| == k
    ensures forall i :: 0 <= i < k ==> Flatten(Groups(leafs, k))[i] == Entry(leafs[i], NextOp(leafs, i))
    ensures forall i :: 0 <= i < k ==> Keeps(Flatten(Groups(leafs, k))[i], leafs[i])
  {
    hide Place, NextOp;
    if k == 0 {
    } else {
      GroupsKeepOperands(leafs, k - 1);
      FlattenPlace(Groups(leafs, k - 1), leafs[k - 1], Entry(leafs[k - 1], NextOp(leafs, k - 1)));
    }
  }

  // --- the leaves of the result ------------------------------------------------------------------

  function OperandLeaves(leafs: seq<Present>): (ls: seq<nat>)
  {
    if |leafs| == 0 then [] else OperandLeaves(leafs[..|leafs| - 1]) + Leaves(leafs[|leafs| - 1].ast)
  }

  ghost function GroupLeaves(groups: seq<seq<Child>>): (ls: seq<nat>)
  {
    if |groups| == 0 then [] else GroupLeaves(groups[..|groups| - 1]) + LeavesOf(groups[|groups| - 1])
  }

  lemma {:induction false} EntryLeaves(leaf: Present, next: Option<BinaryOperand>)
    ensures Leaves(Entry(leaf, next).ast) == Leaves(leaf.ast)
  {
    LeavesOfOne(Child(Some(MustNot), leaf.ast));
  }

  lemma {:induction false} GroupLeavesPlace(groups: seq<seq<Child>>, leaf: Present, c: Child)
    ensures GroupLeaves(Place(groups, leaf, c)) == GroupLeaves(groups) + Leaves(c.ast)
  {
    hide Leaves, LeavesOf;
    var r := Place(groups, leaf, c);
    var n := |r| - 1;
    if leaf.op == Some(And) && |groups| > 0 {
      assert r[..n] == groups[..n] && r[n] == groups[n] + [c];
      LeavesOfAppend(groups[n], c);
    } else {
      assert r[..n] == groups && r[n] == [c];
      LeavesOfOne(c);
    }
  }

  lemma {:induction false} GroupsLeaves(leafs: seq<Present>, k: nat)
    requires k <= |leafs|
    ensures GroupLeaves(Groups(leafs, k)) == OperandLeaves(leafs[..k])
  {
    hide Leaves, LeavesOf, Entry, Place;
    if k > 0 {
      GroupsLeaves(leafs, k - 1);
      var c := Entry(leafs[k - 1], NextOp(leafs, k - 1));
      GroupLeavesPlace(Groups(leafs, k - 1), leafs[k - 1], c);
      EntryLeaves(leafs[k - 1], NextOp(leafs, k - 1));
      assert leafs[..k][..k - 1] == leafs[..k - 1];
    }
  }

  lemma {:induction false} NoEmptyGroup(leafs: seq<Present>, k: nat)
    requires k <= |leafs|
    ensures forall i :: 0 <= i < |Groups(leafs, k)| ==> |Groups(leafs, k)[i]| > 0
  {
    hide Entry;
    if k > 0 {
      NoEmptyGroup(leafs, k - 1);
    }
  }

  lemma {:induction false} NestLeaves(group: seq<Child>)
    requires |group| > 0
    ensures Leaves(Nest(group).ast) == LeavesOf(group)
  {
    if |group| == 1 {
      assert group == [group[0]];
      LeavesOfOne(group[0]);
    }
  }

  lemma {:induction false} NestAllLeaves(groups: seq<seq<Child>>)
    requires forall i :: 0 <= i < |groups| ==> |groups[i]| > 0
    ensures LeavesOf(NestAll(groups)) == GroupLeaves(groups)
  {
    hide Leaves, Nest;
    if |groups| > 0 {
      var n := |groups| - 1;
      NestAllLeaves(groups[..n]);
      NestLeaves(groups[n]);
      assert NestAll(groups) == NestAll(groups[..n]) + [Nest(groups[n])];
      LeavesOfAppend(NestAll(groups[..n]), Nest(groups[n]));
    }
  }

  // No leaf is lost, duplicated or moved.
  lemma {:induction false} AggregationKeepsLeaves(leafs: seq<Present>)
    ensures Leaves(Aggregated(leafs)) == OperandLeaves(leafs)
  {
    hide Groups;
    if |leafs| > 0 {
      var groups := Groups(leafs, |leafs|);
      GroupsLeaves(leafs, |leafs|);
      NoEmptyGroup(leafs, |leafs|);
      assert leafs[..|leafs|] == leafs;
      if |groups| == 1 {
        assert groups[..0] == [];
        if |groups[0]| == 1 {
          assert groups[0] == [groups[0][0]];
          LeavesOfOne(groups[0][0]);
        }
      } else {
        NestAllLeaves(groups);
      }
    }
  }

  // --- AND runs ---------------------------------------------------------------------------------

  // Only the signs the grammar knows.
  ghost predicate Signed(leafs: seq<Present>) {
    |leafs| > 0 && forall i :: 0 <= i < |leafs| ==> leafs[i].occur != Some(Should)
  }

  ghost predicate Satisfied(leaf: Present, doc: Document) {
    (leaf.occur == Some(MustNot)) != Matches(leaf.ast, doc)
  }

  // [s, e) is a maximal stretch of operands joined by AND.
  ghost predicate IsRun(leafs: seq<Present>, s: nat, e: nat) {
    && s < e <= |leafs|
    && (s > 0 ==> leafs[s].op != Some(And))
    && (forall i :: s < i < e ==> leafs[i].op == Some(And))
    && (e < |leafs| ==> leafs[e].op != Some(And))
  }

  ghost predicate RunSatisfied(leafs: seq<Present>, s: nat, e: nat, doc: Document) {
    forall i :: s <= i < e && i < |leafs| ==> Satisfied(leafs[i], doc)
  }

  // One operand alone in its run.
  ghost predicate Lonely(leafs: seq<Present>, i: nat) {
    IsRun(leafs, i, i + 1)
  }

  // A lone operand marked +, or introduced by a leading AND.
  ghost predicate Mandatory(leafs: seq<Present>, i: nat) {
    Lonely(leafs, i) && (leafs[i].occur == Some(Must) || (leafs[i].occur.None? && leafs[i].op == Some(And)))
  }

  // A lone operand marked - that stands next to no OR, or after a leading AND.
  ghost predicate Excluded(leafs: seq<Present>, i: nat) {
    && Lonely(leafs, i) && leafs[i].occur == Some(MustNot)
    && (leafs[i].op == Some(And) || (leafs[i].op != Some(Or) && NextOp(leafs, i) != Some(Or)))
  }

  // What a run counts for in the query.
  ghost function RunLabel(leafs: seq<Present>, s: nat, e: nat): (o: Occur)
  {
    if e != s + 1 then Should else if Mandatory(leafs, s) then Must else if Excluded(leafs, s) then MustNot else Should
  }

  ghost predicate OptionalRun(leafs: seq<Present>, s: nat, e: nat) {
    IsRun(leafs, s, e) && RunLabel(leafs, s, e) == Should
  }

  // What an operand list asks for: every mandatory operand, no excluded one, and, unless
  // something is mandatory or everything is excluded, one optional run.
  ghost predicate Wanted(leafs: seq<Present>, doc: Document) {
    && (forall i: nat :: Mandatory(leafs, i) ==> Satisfied(leafs[i], doc))
    && (forall i: nat :: Excluded(leafs, i) ==> Satisfied(leafs[i], doc))
    && (|| (exists i: nat :: Mandatory(leafs, i))
        || (exists s: nat, e: nat :: OptionalRun(leafs, s, e) && RunSatisfied(leafs, s, e, doc))
        || (forall s: nat, e: nat :: IsRun(leafs, s, e) ==> Excluded(leafs, s)))
  }

  // --- groups are runs ---------------------------------------------------------------------------

  // The first and the last operand of each group.
  ghost function Bounds(leafs: seq<Present>, k: nat): (bounds: seq<(nat, nat)>)
    requires k <= |leafs|
  {
    if k == 0 then []
    else
      var before := Bounds(leafs, k - 1);
      if leafs[k - 1].op == Some(And) && |before| > 0 then
        before[..|before| - 1] + [(before[|before| - 1].0, k)]
      else before + [(k - 1, k)]
  }

  // How the k-th operand changes the groups and their bounds.
  lemma {:induction false} Step(leafs: seq<Present>, k: nat)
    requires 0 < k <= |leafs|
    ensures |Groups(leafs, k)| > 0 && |Bounds(leafs, k)| > 0
    ensures k > 1 ==> |Groups(leafs, k - 1)| > 0 && |Bounds(leafs, k - 1)| > 0
    ensures var c := Entry(leafs[k - 1], NextOp(leafs, k - 1));
            var old', new' := Groups(leafs, k - 1), Groups(leafs, k);
            if leafs[k - 1].op == Some(And) && k > 1 then
              new' == old'[..|old'| - 1] + [old'[|old'| - 1] + [c]]
            else new' == old' + [[c]]
    ensures var old', new' := Bounds(leafs, k - 1), Bounds(leafs, k);
            if leafs[k - 1].op == Some(And) && k > 1 then
              new' == old'[..|old'| - 1] + [(old'[|old'| - 1].0, k)]
            else new' == old' + [(k - 1, k)]
  {
    hide Entry;
    if k > 1 {
      Step(leafs, k - 1);
    }
  }

  lemma {:induction false} NothingYet(leafs: seq<Present>)
    ensures Groups(leafs, 0) == [] && Bounds(leafs, 0) == []
  {
  }

  ghost predicate Joined(leafs: seq<Present>, s: nat, e: nat) {
    s < e <= |leafs| && (s > 0 ==> leafs[s].op != Some(And)) && forall i :: s < i < e ==> leafs[i].op == Some(And)
  }

  // The bounds cut [0, k) wherever an operand does not follow AND.
  ghost predicate Cuts(leafs: seq<Present>, k: nat, bounds: seq<(nat, nat)>)
  {
    && (k > 0 ==> |bounds| > 0 && bounds[0].0 == 0 && bounds[|bounds| - 1].1 == k)
    && (forall g :: 0 <= g < |bounds| ==> Joined(leafs, bounds[g].0, bounds[g].1))
    && (forall g :: 0 <= g < |bounds| - 1 ==> bounds[g].1 == bounds[g + 1].0)
  }

  lemma {:induction false} BoundsCut(leafs: seq<Present>, k: nat)
    requires k <= |leafs|
    ensures Cuts(leafs, k, Bounds(leafs, k))
  {
    hide Groups, Bounds, Entry;
    NothingYet(leafs);
    if k > 0 {
      BoundsCut(leafs, k - 1);
      Step(leafs, k);
      var old', new' := Bounds(leafs, k - 1), Bounds(leafs, k);
      forall g | 0 <= g < |new'| - 1 ensures new'[g].1 == new'[g + 1].0 {
        if g + 1 < |old'| {
          assert old'[g].1 == old'[g + 1].0;
        }
      }
    }
  }

  ghost predicate GroupIs(leafs: seq<Present>, group: seq<Child>, s: nat, e: nat) {
    && s <= e <= |leafs| && |group| == e - s
    && forall i :: s <= i < e ==> group[i - s] == Entry(leafs[i], NextOp(leafs, i))
  }

  lemma {:induction false} GroupsAlign(leafs: seq<Present>, k: nat)
    requires k <= |leafs|
    ensures |Groups(leafs, k)| == |Bounds(leafs, k)|
    ensures forall g :: 0 <= g < |Bounds(leafs, k)| ==>
              GroupIs(leafs, Groups(leafs, k)[g], Bounds(leafs, k)[g].0, Bounds(leafs, k)[g].1)
  {
    hide Groups, Bounds, Joined;
    NothingYet(leafs);
    if k > 0 {
      GroupsAlign(leafs, k - 1);
      BoundsCut(leafs, k - 1);
      Step(leafs, k);
      var groups, bounds := Groups(leafs, k - 1), Bounds(leafs, k - 1);
      var m := |groups| - 1;
    }
  }

  // Every group is a run, and every run is a group.
  lemma {:induction false} BoundsAreRuns(leafs: seq<Present>)
    ensures forall g :: 0 <= g < |Bounds(leafs, |leafs|)| ==>
              IsRun(leafs, Bounds(leafs, |leafs|)[g].0, Bounds(leafs, |leafs|)[g].1)
    ensures forall s: nat, e: nat :: IsRun(leafs, s, e) ==> (s, e) in Bounds(leafs, |leafs|)
  {
    hide Bounds;
    var bounds := Bounds(leafs, |leafs|);
    BoundsCut(leafs, |leafs|);
    forall g | 0 <= g < |bounds| ensures IsRun(leafs, bounds[g].0, bounds[g].1) {
      CutIsRun(leafs, bounds, g);
    }
    forall s: nat, e: nat | IsRun(leafs, s, e) ensures (s, e) in bounds {
      var g := Containing(leafs, bounds, s, |bounds|);
      SameRun(leafs, s, e, bounds[g].0, bounds[g].1) by { CutIsRun(leafs, bounds, g); }
      assert bounds[g] == (s, e);
    }
  }

  lemma {:induction false} CutIsRun(leafs: seq<Present>, bounds: seq<(nat, nat)>, g: nat)
    requires Cuts(leafs, |leafs|, bounds) && g < |bounds|
    ensures IsRun(leafs, bounds[g].0, bounds[g].1)
  {
    assert Joined(leafs, bounds[g].0, bounds[g].1);
    if g + 1 < |bounds| {
      assert Joined(leafs, bounds[g + 1].0, bounds[g + 1].1);
    }
  }

  // Two runs that overlap are the same.
  lemma {:induction false} SameRun(leafs: seq<Present>, s: nat, e: nat, s': nat, e': nat)
    requires IsRun(leafs, s, e) && IsRun(leafs, s', e') && s' <= s < e'
    ensures s == s' && e == e'
  {
  }

  lemma {:induction false} Containing(leafs: seq<Present>, bounds: seq<(nat, nat)>, s: nat, n: nat) returns (g: nat)
    requires Cuts(leafs, |leafs|, bounds) && s < |leafs| && 0 < n <= |bounds| && s < bounds[n - 1].1
    ensures g < n && bounds[g].0 <= s < bounds[g].1
  {
    hide Joined;
    if bounds[n - 1].0 <= s {
      g := n - 1;
    } else {
      assert bounds[n - 2].1 == bounds[n - 2 + 1].0;
      g := Containing(leafs, bounds, s, n - 1);
    }
  }

  // --- labels and truth of a group --------------------------------------------------------------------

  lemma {:induction false} SignCases(occur: Option<Occur>)
    requires occur != Some(Should)
    ensures occur == None || occur == Some(Must) || occur == Some(MustNot)
  {
    match occur
    case None =>
    case Some(o) => match o case Should => case Must => case MustNot =>
  }

  lemma {:induction false} OpCases(op: Option<BinaryOperand>)
    ensures op == None || op == Some(Or) || op == Some(And)
  {
    match op
    case None =>
    case Some(o) => match o case Or => case And =>
  }

  lemma {:induction false} EntrySat(leaf: Present, next: Option<BinaryOperand>, doc: Document)
    requires leaf.occur != Some(Should)
    ensures ChildSat(Entry(leaf, next), doc) == Satisfied(leaf, doc)
  {
    SingletonClause(Child(Some(MustNot), leaf.ast), doc);
  }

  // Inside a run of several operands every label is Must or MustNot.
  lemma {:induction false} JoinedEntry(leaf: Present, next: Option<BinaryOperand>)
    requires leaf.occur != Some(Should) && (leaf.op == Some(And) || next == Some(And))
    ensures Entry(leaf, next).occur == Some(Must) || Entry(leaf, next).occur == Some(MustNot)
  {
    SignCases(leaf.occur);
  }

  ghost predicate GroupSat(group: seq<Child>, doc: Document) {
    forall j :: 0 <= j < |group| ==> ChildSat(group[j], doc)
  }

  // A group counts for what its run counts for, and holds when its run is satisfied.
  lemma {:induction false} GroupFacts(leafs: seq<Present>, group: seq<Child>, s: nat, e: nat, doc: Document)
    requires Signed(leafs) && IsRun(leafs, s, e) && GroupIs(leafs, group, s, e)
    ensures ChildSat(Nest(group), doc) <==> RunSatisfied(leafs, s, e, doc)
    ensures Label(Nest(group).occur) == RunLabel(leafs, s, e)
    ensures Matches(Assemble([group]), doc) <==> RunSatisfied(leafs, s, e, doc)
  {
    hide Satisfied;
    forall i | s <= i < e ensures ChildSat(group[i - s], doc) == Satisfied(leafs[i], doc) {
      EntrySat(leafs[i], NextOp(leafs, i), doc);
    }
    assert GroupSat(group, doc) <==> RunSatisfied(leafs, s, e, doc) by {
      assert forall i :: s <= i < e ==> ChildSat(group[i - s], doc) == Satisfied(leafs[i], doc);
      if GroupSat(group, doc) {
        forall i | s <= i < e ensures Satisfied(leafs[i], doc) { assert ChildSat(group[i - s], doc); }
      }
      if RunSatisfied(leafs, s, e, doc) {
        forall j | 0 <= j < |group| ensures ChildSat(group[j], doc) { assert Satisfied(leafs[s + j], doc); }
      }
    }
    if e == s + 1 {
      assert group == [group[0]];
    } else {
      forall j | 0 <= j < |group| ensures group[j].occur == Some(Must) || group[j].occur == Some(MustNot) {
        assert group[j] == Entry(leafs[s + j], NextOp(leafs, s + j));
        JoinedEntry(leafs[s + j], NextOp(leafs, s + j));
      }
      ConjunctiveClause(group, doc);
      SingletonClause(Child(Some(Should), Clause(group)), doc);
    }
  }

  // --- the meaning ------------------------------------------------------------------------------

  // Whether one group or several, the query is the clause of its nested groups.
  lemma {:induction false} OneOrMany(leafs: seq<Present>, doc: Document)
    requires Signed(leafs)
    ensures Matches(Aggregated(leafs), doc) <==> Matches(Clause(NestAll(Groups(leafs, |leafs|))), doc)
  {
    hide Groups, Matches, Bounds, Nest, ChildSat, GroupIs;
    var groups, bounds := Groups(leafs, |leafs|), Bounds(leafs, |leafs|);
    if |groups| == 1 {
      GroupsAlign(leafs, |leafs|);
      BoundsAreRuns(leafs);
      GroupFacts(leafs, groups[0], bounds[0].0, bounds[0].1, doc);
      assert groups == [groups[0]] && NestAll(groups) == [Nest(groups[0])];
      SingletonClause(Nest(groups[0]), doc);
    }
  }

  // A clause, from the label of each child and whether it pulls towards a match.
  ghost predicate Pulls(labels: seq<Occur>, sat: seq<bool>)
    requires |labels| == |sat|
  {
    && |labels| > 0
    && (forall g :: 0 <= g < |labels| && labels[g] != Should ==> sat[g])
    && (|| (exists g :: 0 <= g < |labels| && labels[g] == Must)
        || (exists g :: 0 <= g < |labels| && labels[g] == Should && sat[g])
        || (forall g :: 0 <= g < |labels| ==> labels[g] == MustNot))
  }

  lemma {:induction false} ClausePulls(cs: seq<Child>, labels: seq<Occur>, sat: seq<bool>, doc: Document)
    requires |cs| == |labels| == |sat|
    requires forall g :: 0 <= g < |cs| ==> labels[g] == Label(cs[g].occur) && sat[g] == ChildSat(cs[g], doc)
    ensures Matches(Clause(cs), doc) <==> Pulls(labels, sat)
  {
    hide Matches;
    MatchesClause(cs, doc);
    var truth := Truths(cs, doc);
    assert labels == Labels(cs);
    forall g | 0 <= g < |cs| ensures sat[g] == ((labels[g] == MustNot) != truth[g]) {
    }
    forall g | 0 <= g < |cs| ensures labels[g] == Should || labels[g] == Must || labels[g] == MustNot {
      OccurLabel(labels[g]);
    }
  }

  ghost function RunLabels(leafs: seq<Present>, bounds: seq<(nat, nat)>): (labels: seq<Occur>)
    ensures |labels| == |bounds|
    ensures forall g :: 0 <= g < |bounds| ==> labels[g] == RunLabel(leafs, bounds[g].0, bounds[g].1)
  {
    seq(|bounds|, g requires 0 <= g < |bounds| => RunLabel(leafs, bounds[g].0, bounds[g].1))
  }

  ghost function RunTruths(leafs: seq<Present>, bounds: seq<(nat, nat)>, doc: Document): (sat: seq<bool>)
    ensures |sat| == |bounds|
    ensures forall g :: 0 <= g < |bounds| ==> sat[g] == RunSatisfied(leafs, bounds[g].0, bounds[g].1, doc)
  {
    seq(|bounds|, g requires 0 <= g < |bounds| => RunSatisfied(leafs, bounds[g].0, bounds[g].1, doc))
  }

  // The runs pull as the operand list asks.
  lemma {:induction false} PullsIsWanted(leafs: seq<Present>, bounds: seq<(nat, nat)>, doc: Document)
    requires |bounds| > 0 && forall g :: 0 <= g < |bounds| ==> IsRun(leafs, bounds[g].0, bounds[g].1)
    requires forall s: nat, e: nat :: IsRun(leafs, s, e) ==> (s, e) in bounds
    ensures Pulls(RunLabels(leafs, bounds), RunTruths(leafs, bounds, doc)) <==> Wanted(leafs, doc)
  {
    hide Satisfied, RunLabels, RunTruths, RunSatisfied;
    var labels, sat := RunLabels(leafs, bounds), RunTruths(leafs, bounds, doc);
    forall g | 0 <= g < |bounds|
      ensures bounds[g].0 < |leafs|
      ensures labels[g] == Must ==> Mandatory(leafs, bounds[g].0) && sat[g] == Satisfied(leafs[bounds[g].0], doc)
      ensures labels[g] == MustNot ==> Excluded(leafs, bounds[g].0) && sat[g] == Satisfied(leafs[bounds[g].0], doc)
      ensures labels[g] == Should ==> OptionalRun(leafs, bounds[g].0, bounds[g].1) && !Excluded(leafs, bounds[g].0)
      ensures labels[g] == Should || labels[g] == Must || labels[g] == MustNot
    {
      LabelMeans(leafs, bounds[g].0, bounds[g].1, doc);
      OccurLabel(labels[g]);
    }
    forall i: nat | Mandatory(leafs, i) || Excluded(leafs, i)
      ensures exists g :: 0 <= g < |bounds| && bounds[g].0 == i && labels[g] != Should
      ensures Mandatory(leafs, i) ==> exists g :: 0 <= g < |bounds| && bounds[g].0 == i && labels[g] == Must
    {
      var g :| 0 <= g < |bounds| && bounds[g] == (i, i + 1);
      LabelMeans(leafs, i, i + 1, doc);
    }
    forall s: nat, e: nat | OptionalRun(leafs, s, e)
      ensures exists g :: 0 <= g < |bounds| && bounds[g] == (s, e) && labels[g] == Should
    {
      var g :| 0 <= g < |bounds| && bounds[g] == (s, e);
    }
  }

  lemma {:induction false} ExcludedLabel(leafs: seq<Present>, s: nat, e: nat)
    requires IsRun(leafs, s, e)
    ensures RunLabel(leafs, s, e) == MustNot <==> Excluded(leafs, s)
  {
    if Excluded(leafs, s) {
      SameRun(leafs, s, s + 1, s, e);
    }
  }

  lemma {:induction false} LabelMeans(leafs: seq<Present>, s: nat, e: nat, doc: Document)
    requires IsRun(leafs, s, e)
    ensures RunLabel(leafs, s, e) != Should ==> RunSatisfied(leafs, s, e, doc) == Satisfied(leafs[s], doc)
    ensures RunLabel(leafs, s, e) == Must <==> e == s + 1 && Mandatory(leafs, s)
    ensures RunLabel(leafs, s, e) == MustNot <==> e == s + 1 && Excluded(leafs, s)
    ensures RunLabel(leafs, s, e) == Should ==> OptionalRun(leafs, s, e) && !Excluded(leafs, s)
    ensures s < |leafs|
  {
    hide Satisfied;
    ExcludedLabel(leafs, s, e);
    if e == s + 1 {
      assert RunSatisfied(leafs, s, e, doc) <==> Satisfied(leafs[s], doc);
    }
  }

  // With any operators and signs, written or not: a document matches exactly when it has what
  // the operand list asks for.
  lemma {:induction false} AggregateMeaning(leafs: seq<Present>, doc: Document)
    requires Signed(leafs)
    ensures Matches(Aggregated(leafs), doc) <==> Wanted(leafs, doc)
  {
    hide Groups, Matches, Bounds, Nest, ChildSat, GroupIs, IsRun, Wanted, Pulls, Aggregated, RunLabels, RunTruths;
    var groups, bounds := Groups(leafs, |leafs|), Bounds(leafs, |leafs|);
    OneOrMany(leafs, doc);
    GroupsAlign(leafs, |leafs|);
    BoundsCut(leafs, |leafs|);
    BoundsAreRuns(leafs);
    var cs, labels, sat := NestAll(groups), RunLabels(leafs, bounds), RunTruths(leafs, bounds, doc);
    forall g | 0 <= g < |cs| ensures labels[g] == Label(cs[g].occur) && sat[g] == ChildSat(cs[g], doc) {
      GroupFacts(leafs, groups[g], bounds[g].0, bounds[g].1, doc);
    }
    ClausePulls(cs, labels, sat, doc);
    PullsIsWanted(leafs, bounds, doc);
  }

  // --- labels ------------------------------------------------------------------------------------

  // The child an operand becomes inside a run of several.
  function JoinedChild(leaf: Present): (c: Child)
  {
    Child(Some(if leaf.occur == Some(MustNot) then MustNot else Must), leaf.ast)
  }

  function JoinedChildren(leafs: seq<Present>, s: nat, e: nat): (cs: seq<Child>)
    requires s <= e <= |leafs|
    ensures |cs| == e - s
    ensures forall j :: 0 <= j < e - s ==> cs[j] == JoinedChild(leafs[s + j])
  {
    seq(e - s, j requires 0 <= j < e - s => JoinedChild(leafs[s + j]))
  }

  // The child a run becomes: unlabelled exactly for a lone operand with neither a sign nor an
  // operator on either side.
  ghost predicate RunChild(leafs: seq<Present>, s: nat, e: nat, c: Child)
    requires IsRun(leafs, s, e)
  {
    && Label(c.occur) == RunLabel(leafs, s, e)
    && (c.occur.None? <==>
          e == s + 1 && leafs[s].occur.None? && leafs[s].op.None? && NextOp(leafs, s) != Some(Or))
    && (if e == s + 1 then Keeps(c, leafs[s]) else c.ast == Clause(JoinedChildren(leafs, s, e)))
  }

  lemma {:induction false} JoinedGroup(leafs: seq<Present>, group: seq<Child>, s: nat, e: nat)
    requires Signed(leafs) && IsRun(leafs, s, e) && GroupIs(leafs, group, s, e) && e != s + 1
    ensures group == JoinedChildren(leafs, s, e)
  {
    forall j | 0 <= j < |group| ensures group[j] == JoinedChild(leafs[s + j]) {
      assert group[s + j - s] == Entry(leafs[s + j], NextOp(leafs, s + j));
      SignCases(leafs[s + j].occur);
    }
  }

  lemma {:induction false} NestIsRunChild(leafs: seq<Present>, group: seq<Child>, s: nat, e: nat)
    requires Signed(leafs) && IsRun(leafs, s, e) && GroupIs(leafs, group, s, e)
    ensures RunChild(leafs, s, e, Nest(group))
  {
    hide Satisfied, Matches;
    GroupFacts(leafs, group, s, e, _ => false);
    if e == s + 1 {
      assert group[s - s] == Entry(leafs[s], NextOp(leafs, s));
      SignCases(leafs[s].occur);
      OpCases(leafs[s].op);
      OpCases(NextOp(leafs, s));
    } else {
      JoinedGroup(leafs, group, s, e);
    }
  }

  // The whole tree, from the operands alone.  One operand is itself, or its negation; one run
  // is the conjunction of its operands; several runs are the children of a clause, in order.
  lemma {:induction false} AggregatedShape(leafs: seq<Present>)
    requires Signed(leafs)
    ensures |leafs| == 1 ==>
              Aggregated(leafs) ==
              if leafs[0].occur == Some(MustNot) then Clause([Child(Some(MustNot), leafs[0].ast)]) else leafs[0].ast
    ensures |leafs| > 1 && IsRun(leafs, 0, |leafs|) ==> Aggregated(leafs) == Clause(JoinedChildren(leafs, 0, |leafs|))
    ensures !IsRun(leafs, 0, |leafs|) ==>
              var t, bounds := Aggregated(leafs), Bounds(leafs, |leafs|);
              && t.Clause? && |t.clauses| == |bounds|
              && (forall g :: 0 <= g < |bounds| ==>
                    IsRun(leafs, bounds[g].0, bounds[g].1) && RunChild(leafs, bounds[g].0, bounds[g].1, t.clauses[g]))
  {
    hide Groups, Bounds, Nest, GroupIs, RunChild, Entry;
    var groups, bounds := Groups(leafs, |leafs|), Bounds(leafs, |leafs|);
    GroupsAlign(leafs, |leafs|);
    BoundsCut(leafs, |leafs|);
    BoundsAreRuns(leafs);
    OneRunOneGroup(leafs, bounds);
    if |groups| == 1 {
      assert bounds[0] == (0, |leafs|);
      OneGroup(leafs, groups[0]);
    } else {
      forall g | 0 <= g < |bounds| ensures RunChild(leafs, bounds[g].0, bounds[g].1, Nest(groups[g])) {
        NestIsRunChild(leafs, groups[g], bounds[g].0, bounds[g].1);
      }
    }
  }

  lemma {:induction false} OneRunOneGroup(leafs: seq<Present>, bounds: seq<(nat, nat)>)
    requires |leafs| > 0 && Cuts(leafs, |leafs|, bounds)
    requires forall s: nat, e: nat :: IsRun(leafs, s, e) ==> (s, e) in bounds
    ensures |bounds| == 1 <==> IsRun(leafs, 0, |leafs|)
    ensures |bounds| == 1 ==> bounds[0] == (0, |leafs|)
  {
    forall g | 0 <= g < |bounds| ensures IsRun(leafs, bounds[g].0, bounds[g].1) {
      CutIsRun(leafs, bounds, g);
    }
    if IsRun(leafs, 0, |leafs|) {
      SameRun(leafs, bounds[|bounds| - 1].0, bounds[|bounds| - 1].1, 0, |leafs|);
      LaterStarts(leafs, bounds);
    }
  }

  lemma {:induction false} LaterStarts(leafs: seq<Present>, bounds: seq<(nat, nat)>)
    requires Cuts(leafs, |leafs|, bounds)
    ensures |bounds| > 1 ==> bounds[|bounds| - 1].0 > 0
  {
    if |bounds| > 1 {
      var g := |bounds| - 2;
      assert bounds[g].1 == bounds[g + 1].0;
      assert Joined(leafs, bounds[g].0, bounds[g].1);
    }
  }

  lemma {:induction false} OneGroup(leafs: seq<Present>, group: seq<Child>)
    requires Signed(leafs) && IsRun(leafs, 0, |leafs|) && GroupIs(leafs, group, 0, |leafs|)
    ensures |leafs| == 1 ==>
              Assemble([group]) ==
              if leafs[0].occur == Some(MustNot) then Clause([Child(Some(MustNot), leafs[0].ast)]) else leafs[0].ast
    ensures |leafs| > 1 ==> Assemble([group]) == Clause(JoinedChildren(leafs, 0, |leafs|))
  {
    if |leafs| == 1 {
      assert group[0 - 0] == Entry(leafs[0], NextOp(leafs, 0));
      assert group == [group[0]];
      SignCases(leafs[0].occur);
    } else {
      JoinedGroup(leafs, group, 0, |leafs|);
    }
  }

  // --- when it is a disjunction of AND runs -----------------------------------------------------

  ghost predicate SomeRunSatisfied(leafs: seq<Present>, doc: Document) {
    exists s: nat, e: nat :: IsRun(leafs, s, e) && RunSatisfied(leafs, s, e, doc)
  }

  // Operators all written out.
  ghost predicate Explicit(leafs: seq<Present>) {
    Signed(leafs) && forall i :: 1 <= i < |leafs| ==> leafs[i].op.Some?
  }

  // Next to other runs, a lone operand is neither marked + nor introduced by a leading AND.
  ghost predicate Unambiguous(leafs: seq<Present>) {
    |leafs| > 1 ==>
      forall i: nat :: Lonely(leafs, i) ==> leafs[i].occur != Some(Must) && leafs[i].op != Some(And)
  }

  // The only run of a single operand decides the query.
  lemma {:induction false} OneOperand(leafs: seq<Present>, doc: Document)
    requires Signed(leafs) && |leafs| == 1
    ensures Wanted(leafs, doc) <==> SomeRunSatisfied(leafs, doc)
  {
    hide Satisfied;
    assert IsRun(leafs, 0, 1);
    assert RunSatisfied(leafs, 0, 1, doc) <==> Satisfied(leafs[0], doc);
    LabelMeans(leafs, 0, 1, doc);
    OccurLabel(RunLabel(leafs, 0, 1));
    forall s: nat, e: nat | IsRun(leafs, s, e) ensures s == 0 && e == 1 {
    }
  }

  // Between written operators, a lone operand that is not ambiguous is optional.
  lemma {:induction false} NothingForced(leafs: seq<Present>, s: nat, e: nat)
    requires Explicit(leafs) && Unambiguous(leafs) && |leafs| > 1 && IsRun(leafs, s, e)
    ensures !Mandatory(leafs, s) && !Excluded(leafs, s) && OptionalRun(leafs, s, e)
  {
    if e == s + 1 {
      assert Lonely(leafs, s);
      OpCases(leafs[s].op);
      OpCases(NextOp(leafs, s));
      assert s + 1 < |leafs| ==> leafs[s + 1].op.Some?;
      assert s > 0 ==> leafs[s].op.Some?;
    } else {
    }
  }

  // With explicit operators and no ambiguous lone operand, a document matches exactly when
  // some maximal AND run is satisfied.
  lemma {:induction false} RunMeaning(leafs: seq<Present>, doc: Document)
    requires Explicit(leafs) && Unambiguous(leafs)
    ensures Matches(Aggregated(leafs), doc) <==> SomeRunSatisfied(leafs, doc)
  {
    hide Matches, Aggregated;
    AggregateMeaning(leafs, doc);
    if |leafs| == 1 {
      OneOperand(leafs, doc);
    } else {
      hide IsRun, Explicit, Unambiguous, Satisfied, OptionalRun, Mandatory, Excluded;
      forall s: nat, e: nat | IsRun(leafs, s, e)
        ensures !Mandatory(leafs, s) && !Excluded(leafs, s) && OptionalRun(leafs, s, e)
      {
        NothingForced(leafs, s, e);
      }
      WantedIsSomeRun(leafs, doc);
    }
  }

  lemma {:induction false} WantedIsSomeRun(leafs: seq<Present>, doc: Document)
    requires |leafs| > 0
    requires forall s: nat, e: nat :: IsRun(leafs, s, e) ==>
               !Mandatory(leafs, s) && !Excluded(leafs, s) && OptionalRun(leafs, s, e)
    ensures Wanted(leafs, doc) <==> SomeRunSatisfied(leafs, doc)
  {
    hide Bounds, Satisfied, RunSatisfied;
    BoundsCut(leafs, |leafs|);
    BoundsAreRuns(leafs);
    var first := Bounds(leafs, |leafs|)[0];
    assert IsRun(leafs, first.0, first.1);
    forall i: nat | Lonely(leafs, i) ensures !Mandatory(leafs, i) && !Excluded(leafs, i) {
      assert IsRun(leafs, i, i + 1);
    }
  }

  // --- and when it is not ---------------------------------------------------------------------------

  function Operands(leafs: seq<Present>): (cs: seq<Child>)
    ensures |cs| == |leafs|
    ensures forall i :: 0 <= i < |leafs| ==> cs[i] == Child(leafs[i].occur, leafs[i].ast)
  {
    seq(|leafs|, i requires 0 <= i < |leafs| => Child(leafs[i].occur, leafs[i].ast))
  }

  // No leaf occurs in two places.
  ghost predicate Independent(leafs: seq<Present>) {
    ReadOnce(Clause(Operands(leafs)))
  }

  // Satisfies every operand except the one at `miss`.
  ghost function AllBut(leafs: seq<Present>, miss: nat): (doc: Document)
  {
    Chosen(Operands(leafs), seq(|leafs|, i => i != miss), |leafs|, _ => false)
  }

  lemma {:induction false} AllButSatisfies(leafs: seq<Present>, miss: nat, i: nat)
    requires Independent(leafs) && i < |leafs|
    ensures Satisfied(leafs[i], AllBut(leafs, miss)) <==> i != miss
  {
    hide Chosen, ReadOnce, Matches;
    ChosenUniform(Operands(leafs), seq(|leafs|, i => i != miss), |leafs|, _ => false, i);
  }

  // Some other run is satisfied by every document that satisfies all the other operands.
  lemma {:induction false} OtherRunSatisfied(leafs: seq<Present>, i: nat)
    requires Independent(leafs) && Lonely(leafs, i) && |leafs| > 1
    ensures SomeRunSatisfied(leafs, AllBut(leafs, i))
  {
    hide AllBut, Satisfied, Bounds;
    BoundsCut(leafs, |leafs|);
    BoundsAreRuns(leafs);
    var other := if i == 0 then 1 else 0;
    var bounds := Bounds(leafs, |leafs|);
    var g := Containing(leafs, bounds, other, |bounds|);
    var s, e := bounds[g].0, bounds[g].1;
    assert IsRun(leafs, s, e);
    forall j | s <= j < e ensures Satisfied(leafs[j], AllBut(leafs, i)) {
      AllButSatisfies(leafs, i, j);
    }
    assert RunSatisfied(leafs, s, e, AllBut(leafs, i));
  }

  lemma {:induction false} AmbiguousMismatch(leafs: seq<Present>, i: nat)
    requires Signed(leafs) && Independent(leafs) && Lonely(leafs, i) && |leafs| > 1
    requires leafs[i].occur == Some(Must) || leafs[i].op == Some(And)
    ensures SomeRunSatisfied(leafs, AllBut(leafs, i)) && !Matches(Aggregated(leafs), AllBut(leafs, i))
  {
    hide Matches, AllBut, Satisfied, SomeRunSatisfied, Aggregated, Independent;
    var doc := AllBut(leafs, i);
    OtherRunSatisfied(leafs, i);
    SignCases(leafs[i].occur);
    AllButSatisfies(leafs, i, i);
    assert Mandatory(leafs, i) || Excluded(leafs, i);
    AggregateMeaning(leafs, doc);
  }

  // For independent operands, `Unambiguous` is exactly when the aggregated query means what
  // its AND runs say.
  lemma {:induction false} RunMeaningExact(leafs: seq<Present>)
    requires Explicit(leafs) && Independent(leafs)
    ensures Unambiguous(leafs) <==>
              forall doc: Document :: Matches(Aggregated(leafs), doc) <==> SomeRunSatisfied(leafs, doc)
  {
    hide Matches, SomeRunSatisfied, Aggregated, Independent;
    if Unambiguous(leafs) {
      forall doc: Document ensures Matches(Aggregated(leafs), doc) <==> SomeRunSatisfied(leafs, doc) {
        RunMeaning(leafs, doc);
      }
    } else {
      var i: nat :| Lonely(leafs, i) && (leafs[i].occur == Some(Must) || leafs[i].op == Some(And));
      AmbiguousMismatch(leafs, i);
    }
  }

  // `+a OR b` does not match a document that only satisfies b.
  lemma {:induction false} PlusBeforeOr()
    ensures var leafs := [Present(None, Some(Must), Leaf(0)), Present(Some(Or), None, Leaf(1))];
            var onlyB: Document := AllBut(leafs, 0);
            && Explicit(leafs) && !onlyB(0) && onlyB(1)
            && SomeRunSatisfied(leafs, onlyB) && !Matches(Aggregated(leafs), onlyB)
  {
    hide SomeRunSatisfied, Aggregated, AllBut;
    var leafs := [Present(None, Some(Must), Leaf(0)), Present(Some(Or), None, Leaf(1))];
    assert Leaves(Operands(leafs)[0].ast) == [0] && Leaves(Operands(leafs)[1].ast) == [1];
    assert Independent(leafs);
    assert Lonely(leafs, 0);
    AmbiguousMismatch(leafs, 0);
    AllButSatisfies(leafs, 0, 0);
    AllButSatisfies(leafs, 0, 1);
  }

  // --- lists without operators -----------------------------------------------------------------------

  // `+a b -c`: all operands marked +, none marked -, and, unless one is marked + or all are
  // marked -, one of the others.
  lemma {:induction false} PlainMeaning(leafs: seq<Present>, doc: Document)
    requires Signed(leafs) && forall i :: 0 <= i < |leafs| ==> leafs[i].op.None?
    ensures Matches(Aggregated(leafs), doc) <==>
              && (forall i :: 0 <= i < |leafs| && leafs[i].occur == Some(Must) ==> Matches(leafs[i].ast, doc))
              && (forall i :: 0 <= i < |leafs| && leafs[i].occur == Some(MustNot) ==> !Matches(leafs[i].ast, doc))
              && (|| (exists i :: 0 <= i < |leafs| && leafs[i].occur == Some(Must))
                  || (exists i :: 0 <= i < |leafs| && leafs[i].occur == None && Matches(leafs[i].ast, doc))
                  || (forall i :: 0 <= i < |leafs| ==> leafs[i].occur == Some(MustNot)))
  {
    hide Matches, Aggregated;
    AggregateMeaning(leafs, doc);
    forall i | 0 <= i < |leafs|
      ensures Mandatory(leafs, i) <==> leafs[i].occur == Some(Must)
      ensures Excluded(leafs, i) <==> leafs[i].occur == Some(MustNot)
      ensures OptionalRun(leafs, i, i + 1) <==> leafs[i].occur == None
      ensures IsRun(leafs, i, i + 1)
      ensures RunSatisfied(leafs, i, i + 1, doc) <==> Satisfied(leafs[i], doc)
    {
      SignCases(leafs[i].occur);
      assert IsRun(leafs, i, i + 1);
      LabelMeans(leafs, i, i + 1, doc);
    }
    forall s: nat, e: nat | IsRun(leafs, s, e) ensures e == s + 1 && s < |leafs| {
      SameRun(leafs, s, s + 1, s, e) by { assert IsRun(leafs, s, s + 1); }
    }
  }
}
