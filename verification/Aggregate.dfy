/** From a flat list of operands to nested clauses.

Each operand carries the operator written before it, its sign and its sub-query.  AND
glues an operand to the previous group; anything else starts a new group.
 */
module Aggregation {
  import opened Collections
  import opened QueryAst

  datatype BinaryOperand = Or | And

  // An operand as the lenient parser hands it over: the sub-query may be missing.
  datatype Operand = Operand(op: Option<BinaryOperand>, occur: Option<Occur>, ast: Option<Ast>)

  datatype Present = Present(op: Option<BinaryOperand>, occur: Option<Occur>, ast: Ast)

  datatype Message = UnexpectedOperator

  function PresentOperands(input: seq<Operand>): (leafs: seq<Present>)
  {
    if |input| == 0 then []
    else
      var last := input[|input| - 1];
      PresentOperands(input[..|input| - 1])
      + (if last.ast.Some? then [Present(last.op, last.occur, last.ast.value)] else [])
  }

  // --- where an operand goes -----------------------------------------------------------------

  function OrElse(occur: Option<Occur>, default: Option<Occur>): (r: Option<Occur>)
  {
    if occur.Some? then occur else default
  }

  function NextOp(leafs: seq<Present>, i: nat): (op: Option<BinaryOperand>)
  {
    if i + 1 < |leafs| then leafs[i + 1].op else None
  }

  // The label an operand gets when it has no sign, unless it follows AND.
  function DefaultOccur(op: Option<BinaryOperand>, next: Option<BinaryOperand>): (o: Option<Occur>)
  {
    if next == Some(And) then Some(Must)
    else if op == Some(Or) || next == Some(Or) then Some(Should)
    else None
  }

  // The child made of an operand.  A negated operand of an OR becomes a Should child that
  // negates it.
  function Entry(leaf: Present, next: Option<BinaryOperand>): (c: Child)
  {
    var default := DefaultOccur(leaf.op, next);
    if leaf.op == Some(And) then Child(OrElse(leaf.occur, Some(Must)), leaf.ast)
    else if leaf.occur == Some(MustNot) && default == Some(Should) then
      Child(Some(Should), Clause([Child(Some(MustNot), leaf.ast)]))
    else Child(OrElse(leaf.occur, default), leaf.ast)
  }

  function Place(groups: seq<seq<Child>>, leaf: Present, c: Child): (r: seq<seq<Child>>)
  {
    if leaf.op == Some(And) && |groups| > 0 then
      groups[..|groups| - 1] + [groups[|groups| - 1] + [c]]
    else groups + [[c]]
  }

  // The groups made of the first k operands.
  function Groups(leafs: seq<Present>, k: nat): (groups: seq<seq<Child>>)
    requires k <= |leafs|
  {
    if k == 0 then [] else Place(Groups(leafs, k - 1), leafs[k - 1], Entry(leafs[k - 1], NextOp(leafs, k - 1)))
  }

  // A group of several operands is nested under Should.
  function Nest(group: seq<Child>): (c: Child)
  {
    if |group| == 1 then group[0] else Child(Some(Should), Clause(group))
  }

  function NestAll(groups: seq<seq<Child>>): (cs: seq<Child>)
    ensures |cs| == |groups|
    ensures forall i :: 0 <= i < |groups| ==> cs[i] == Nest(groups[i])
  {
    seq(|groups|, i requires 0 <= i < |groups| => Nest(groups[i]))
  }

  function Assemble(groups: seq<seq<Child>>): (t: Ast)
  {
    if |groups| == 1 then
      var group := groups[0];
      if |group| == 1 && group[0].occur != Some(MustNot) then group[0].ast else Clause(group)
    else Clause(NestAll(groups))
  }

  // The aggregated query; no operand at all gives the empty query.
  function Aggregated(leafs: seq<Present>): (t: Ast)
  {
    if |leafs| == 0 then Clause([]) else Assemble(Groups(leafs, |leafs|))
  }

  // The only complaint: an operator before the first operand.
  function EarlyOperator(leafs: seq<Present>): (errs: seq<Message>)
  {
    if |leafs| > 0 && leafs[0].op.Some? then [UnexpectedOperator] else []
  }

  // --- the loops -----------------------------------------------------------------------------

  method AggregateInfallibleExpressions(input: seq<Operand>) returns (res: Ast, errs: seq<Message>)
    ensures res == Aggregated(PresentOperands(input))
    ensures errs == EarlyOperator(PresentOperands(input))
  {
    hide Nest, Entry;
    var leafs := PresentOperands(input);
    errs := [];
    if |leafs| == 0 {
      return Clause([]), errs;
    }
    if leafs[0].op.Some? {
      errs := errs + [UnexpectedOperator];
    }
    var clauses: seq<seq<Child>> := [];
    var i := 0;
    while i + 1 < |leafs|
      invariant 0 <= i < |leafs|
      invariant clauses == Groups(leafs, i)
    {
      clauses := PushMiddle(clauses, leafs[i], leafs[i + 1].op);
      i := i + 1;
    }
    clauses := PushLast(clauses, leafs[i]);
    assert clauses == Groups(leafs, |leafs|);
    if |clauses| == 1 {
      var clause := clauses[0];
      if |clause| == 1 && clause[0].occur != Some(MustNot) {
        res := clause[0].ast;
      } else {
        res := Clause(clause);
      }
    } else {
      var finalClauses := NestGroups(clauses);
      res := Clause(finalClauses);
    }
  }

  method NestGroups(groups: seq<seq<Child>>) returns (cs: seq<Child>)
    ensures cs == NestAll(groups)
  {
    cs := [];
    while |cs| < |groups|
      invariant |cs| <= |groups|
      invariant forall i :: 0 <= i < |cs| ==> cs[i] == Nest(groups[i])
    {
      var group := groups[|cs|];
      if |group| == 1 {
        cs := cs + [group[0]];
      } else {
        cs := cs + [Child(Some(Should), Clause(group))];
      }
    }
  }

  // An operand that has a successor.
  method PushMiddle(clauses: seq<seq<Child>>, leaf: Present, nextOp: Option<BinaryOperand>)
    returns (r: seq<seq<Child>>)
    ensures r == Place(clauses, leaf, Entry(leaf, nextOp))
  {
    match leaf.op {
      case Some(And) =>
        var c := Child(OrElse(leaf.occur, Some(Must)), leaf.ast);
        if |clauses| > 0 {
          r := clauses[|clauses| - 1 := clauses[|clauses| - 1] + [c]];
        } else {
          r := clauses + [[c]];
        }
      case Some(Or) =>
        var default := match nextOp { case Some(And) => Some(Must) case _ => Some(Should) };
        if leaf.occur == Some(MustNot) && default == Some(Should) {
          r := clauses + [[Child(Some(Should), Clause([Child(Some(MustNot), leaf.ast)]))]];
        } else {
          r := clauses + [[Child(OrElse(leaf.occur, default), leaf.ast)]];
        }
      case None =>
        var default := match nextOp {
          case Some(And) => Some(Must)
          case Some(Or) => Some(Should)
          case None => None
        };
        if leaf.occur == Some(MustNot) && default == Some(Should) {
          r := clauses + [[Child(Some(Should), Clause([Child(Some(MustNot), leaf.ast)]))]];
        } else {
          r := clauses + [[Child(OrElse(leaf.occur, default), leaf.ast)]];
        }
    }
  }

  // The last operand has its own branches, which agree with an operand followed by nothing.
  method PushLast(clauses: seq<seq<Child>>, leaf: Present) returns (r: seq<seq<Child>>)
    ensures r == Place(clauses, leaf, Entry(leaf, None))
  {
    match leaf.op {
      case Some(And) =>
        var c := Child(OrElse(leaf.occur, Some(Must)), leaf.ast);
        if |clauses| > 0 {
          r := clauses[|clauses| - 1 := clauses[|clauses| - 1] + [c]];
        } else {
          r := clauses + [[c]];
        }
      case Some(Or) =>
        if leaf.occur == Some(MustNot) {
          r := clauses + [[Child(Some(Should), Clause([Child(Some(MustNot), leaf.ast)]))]];
        } else {
          r := clauses + [[Child(OrElse(leaf.occur, Some(Should)), leaf.ast)]];
        }
      case None =>
        r := clauses + [[Child(leaf.occur, leaf.ast)]];
    }
  }

  // The strict entry point: its first operand has no operator, so it cannot fail.
  method AggregateBinaryExpressions(left: (Option<Occur>, Ast), others: seq<Present>)
    returns (ok: bool, res: Ast)
    ensures ok
    ensures res == Aggregated([Present(None, left.0, left.1)] + others)
  {
    var leafs: seq<Operand> := [Operand(None, left.0, Some(left.1))];
    ghost var present := [Present(None, left.0, left.1)];
    PresentAppend([], leafs[0]);
    assert leafs == [] + [leafs[0]];
    var i := 0;
    while i < |others|
      invariant 0 <= i <= |others|
      invariant PresentOperands(leafs) == present + others[..i]
    {
      var next := Operand(others[i].op, others[i].occur, Some(others[i].ast));
      PresentAppend(leafs, next);
      leafs := leafs + [next];
      i := i + 1;
    }
    assert others[..i] == others;
    var errs;
    res, errs := AggregateInfallibleExpressions(leafs);
    ok := |errs| == 0;
  }

  lemma {:induction false} PresentAppend(input: seq<Operand>, last: Operand)
    ensures PresentOperands(input + [last])
         == PresentOperands(input)
          + (if last.ast.Some? then [Present(last.op, last.occur, last.ast.value)] else [])
  {
    assert (input + [last])[..|input|] == input;
  }
}
