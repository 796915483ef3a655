/** The grammar of the error-recovering parser: operators, signs, negation, boosts, field
groups and parenthesised sub-queries, nested to any depth.

Literals, boost suffixes and field names are parameters.  From the fact that these return
suffixes and record positions inside their input, the same is proved of whole queries, and
the list loop run on the operand parser is proved to parse this grammar.
 */
module LenientGrammar {
  import opened Collections
  import opened QueryAst
  import opened Aggregation
  import opened AggregationMeaning
  import opened Rewriting
  import opened LenientParsing

  // `literal` parses everything without parentheses, `boost` a suffix such as ^2 (none when
  // it is absent or one), `field` a field name with its colon; `inField` restricts a leaf to
  // a field.
  datatype Grammar = Grammar(
    literal: Parser<Option<Ast>>,
    boost: Parser<Option<nat>>,
    field: string -> Option<(string, nat)>,
    inField: (nat, nat) -> nat)

  ghost predicate Legal(g: Grammar) {
    WellBehaved(g.literal) && WellBehaved(g.boost) && ReturnsSuffix(g.field)
  }

  // The leaf that matches everything.
  const ALL: nat := 0

  // --- single tokens ----------------------------------------------------------------------------

  predicate StartsWith(input: string, word: string) {
    |word| <= |input| && input[..|word|] == word
  }

  predicate EndsStar(c: char) {
    IsSpace(c) || c in "^`:{}\"'[]()"
  }

  // A star that is not the start of a word.
  predicate StarAlone(input: string) {
    |input| > 0 && input[0] == '*' && (|input| == 1 || EndsStar(input[1]))
  }

  function BinaryOperandAt(input: string): (r: Parsed<Option<BinaryOperand>>)
    ensures |r.rest| <= |input|
  {
    if StartsWith(input, "AND ") then Parsed(input[4..], Some(And), [])
    else if StartsWith(input, "OR ") then Parsed(input[3..], Some(Or), [])
    else Parsed(input, None, [])
  }

  function OccurAt(input: string): (r: Parsed<Option<Occur>>)
    ensures |r.rest| <= |input|
  {
    if StartsWith(input, "-") then Parsed(input[1..], Some(MustNot), [])
    else if StartsWith(input, "+") then Parsed(input[1..], Some(Must), [])
    else Parsed(input, None, [])
  }

  function CloseParen(input: string): (r: Parsed<()>)
  {
    if StartsWith(input, ")") then Parsed(input[1..], (), [])
    else Parsed(input, (), [LenientErrorInternal(|input|, "expected ')'")])
  }

  // A field name, its colon and an opening parenthesis: where the group begins.
  function GroupHead(g: Grammar, input: string): (r: Option<(string, nat)>)
    requires Legal(g)
    ensures r.Some? ==> IsSuffix(r.value.0, input) && |r.value.0| < |input|
  {
    match g.field(input)
    case None => None
    case Some((rest, f)) =>
      var open := SkipSpaces(rest);
      if StartsWith(open, "(") then
        assert IsSuffix(rest, input);
        SuffixTransitive(open, rest, input);
        Drops(open, 1);
        SuffixTransitive(open[1..], open, input);
        SuffixTransitive(SkipSpaces(open[1..]), open[1..], input);
        Some((SkipSpaces(open[1..]), f))
      else None
  }

  lemma {:induction false} Drops(input: string, n: nat)
    requires n <= |input|
    ensures IsSuffix(input[n..], input)
  {
  }

  // --- fields -----------------------------------------------------------------------------------

  function SetDefaultField(t: Ast, f: nat, inField: (nat, nat) -> nat): (r: Ast)
    decreases t, 0
  {
    match t
    case Leaf(l) => Leaf(inField(f, l))
    case Boost(u, b) => Boost(SetDefaultField(u, f, inField), b)
    case Clause(cs) => Clause(SetFieldAll(cs, f, inField))
  }

  function SetFieldAll(cs: seq<Child>, f: nat, inField: (nat, nat) -> nat): (r: seq<Child>)
    decreases cs, 1
  {
    if |cs| == 0 then []
    else SetFieldAll(cs[..|cs| - 1], f, inField) + [SetFieldChild(cs[|cs| - 1], f, inField)]
  }

  function SetFieldChild(c: Child, f: nat, inField: (nat, nat) -> nat): (r: Child)
    decreases c, 1
  {
    Child(c.occur, SetDefaultField(c.ast, f, inField))
  }

  // The document a field group sees.
  function Restrict(doc: Document, f: nat, inField: (nat, nat) -> nat): (r: Document)
  {
    (l: nat) => doc(inField(f, l))
  }

  lemma {:induction false} SetFieldAt(cs: seq<Child>, f: nat, inField: (nat, nat) -> nat)
    ensures |SetFieldAll(cs, f, inField)| == |cs|
    ensures forall i :: 0 <= i < |cs| ==> SetFieldAll(cs, f, inField)[i] == SetFieldChild(cs[i], f, inField)
  {
    if |cs| > 0 {
      SetFieldAt(cs[..|cs| - 1], f, inField);
    }
  }

  // Setting the default field matches a document as the group matches the restricted one.
  lemma {:induction false} FieldMeaning(t: Ast, f: nat, inField: (nat, nat) -> nat, doc: Document)
    ensures Matches(SetDefaultField(t, f, inField), doc) == Matches(t, Restrict(doc, f, inField))
    decreases t
  {
    match t
    case Leaf(_) =>
    case Boost(u, _) => FieldMeaning(u, f, inField, doc);
    case Clause(cs) =>
      hide SetFieldAll, Matches;
      var rs := SetFieldAll(cs, f, inField);
      var inner := Restrict(doc, f, inField);
      SetFieldAt(cs, f, inField);
      forall i | 0 <= i < |cs| ensures Matches(rs[i].ast, doc) == Matches(cs[i].ast, inner) {
        FieldMeaning(cs[i].ast, f, inField, doc);
      }
      MatchesClause(rs, doc);
      MatchesClause(cs, inner);
      assert Labels(rs) == Labels(cs) && Truths(rs, doc) == Truths(cs, inner);
  }

  // --- the grammar --------------------------------------------------------------------------------

  function Negated(r: Parsed<Option<Ast>>): (r': Parsed<Option<Ast>>)
  {
    Parsed(r.rest, if r.output.Some? then Some(Clause([Child(Some(MustNot), r.output.value)])) else None, r.errors)
  }

  // The sub-query and its closing parenthesis, which may be missing.
  function CloseGroup(q: Parsed<Ast>): (r: Parsed<Ast>)
    ensures |r.rest| <= |q.rest|
  {
    var close := CloseParen(q.rest);
    Parsed(close.rest, q.output, q.errors + close.errors)
  }

  // The first alternative whose opening fits: a parenthesis, a lone star, NOT, a field group,
  // or else a literal.
  function LeafAt(g: Grammar, input: string): (r: Parsed<Option<Ast>>)
    requires Legal(g)
    ensures |r.rest| <= |input|
    decreases |input|, 0
  {
    if StartsWith(input, "(") then
      var q := CloseGroup(AstIn(g, input[1..]));
      Parsed(q.rest, Some(q.output), q.errors)
    else if StarAlone(input) then Parsed(input[1..], Some(Leaf(ALL)), [])
    else if StartsWith(input, "NOT ") then
      assert |SkipSpaces(input[4..])| <= |input[4..]|;
      Negated(LeafAt(g, SkipSpaces(input[4..])))
    else
      match GroupHead(g, input)
      case Some((rest, f)) =>
        var q := CloseGroup(AstIn(g, rest));
        Parsed(q.rest, Some(SetDefaultField(q.output, f, g.inField)), q.errors)
      case None =>
        assert Fits(g.literal(input), input);
        g.literal(input)
  }

  function BoostedAt(g: Grammar, input: string): (r: Parsed<Option<Ast>>)
    requires Legal(g)
    ensures |r.rest| <= |input|
    decreases |input|, 1
  {
    var leaf := LeafAt(g, input);
    var b := g.boost(leaf.rest);
    assert Fits(b, leaf.rest);
    Parsed(b.rest,
           if leaf.output.Some? && b.output.Some? then Some(Boost(leaf.output.value, b.output.value)) else leaf.output,
           leaf.errors + b.errors)
  }

  // The operator and the sign before an operand.
  function PrefixAt(input: string): (r: Parsed<(Option<BinaryOperand>, Option<Occur>)>)
    ensures |r.rest| <= |input|
  {
    var op := BinaryOperandAt(input);
    assert |SkipSpaces(op.rest)| <= |op.rest|;
    var sign := OccurAt(SkipSpaces(op.rest));
    Parsed(sign.rest, (op.output, sign.output), [])
  }

  function OperandAt(g: Grammar, input: string): (r: Parsed<Operand>)
    requires Legal(g)
    ensures |r.rest| <= |input|
    decreases |input|, 2
  {
    var prefix := PrefixAt(input);
    var leaf := BoostedAt(g, prefix.rest);
    Parsed(leaf.rest, Operand(prefix.output.0, prefix.output.1, leaf.output), leaf.errors)
  }

  function MoreOperands(g: Grammar, input: string): (r: Parsed<seq<Operand>>)
    requires Legal(g)
    ensures |r.rest| <= |input|
    decreases |input|, 3
  {
    var s := Space1(input);
    var e := OperandAt(g, s.rest);
    if |e.rest| == |s.rest| then Parsed(input, [], [])
    else
      var more := MoreOperands(g, e.rest);
      Parsed(more.rest, [e.output] + more.output, s.errors + e.errors + more.errors)
  }

  function OperandsAt(g: Grammar, input: string): (r: Parsed<seq<Operand>>)
    requires Legal(g)
    ensures |r.rest| <= |input|
    decreases |input|, 4
  {
    var first := OperandAt(g, input);
    var more := MoreOperands(g, first.rest);
    Parsed(more.rest, [first.output] + more.output, first.errors + more.errors)
  }

  // A whole query, and any parenthesised part of one.
  function AstIn(g: Grammar, input: string): (r: Parsed<Ast>)
    requires Legal(g)
    ensures |r.rest| <= |input|
    decreases |input|, 5
  {
    assert |SkipSpaces(input)| <= |input|;
    Query(OperandsAt(g, SkipSpaces(input)))
  }

  // --- suffixes and positions at every depth ----------------------------------------------------------

  lemma {:induction false} TokensFit(input: string)
    ensures Fits(BinaryOperandAt(input), input) && Fits(OccurAt(input), input) && Fits(CloseParen(input), input)
  {
    hide IsSuffix, Within;
    Same(input);
    OneError(LenientErrorInternal(|input|, "expected ')'"), |input|);
    if |input| >= 1 { Drops(input, 1); }
    if |input| >= 3 { Drops(input, 3); }
    if |input| >= 4 { Drops(input, 4); }
  }

  lemma {:induction false} CloseGroupFits(q: Parsed<Ast>, input: string)
    requires Fits(q, input)
    ensures Fits(CloseGroup(q), input)
  {
    hide IsSuffix, Within, CloseParen;
    TokensFit(q.rest);
    ThenFits(q, CloseParen(q.rest), input);
  }

  lemma {:induction false} LeafFits(g: Grammar, input: string)
    requires Legal(g)
    ensures Fits(LeafAt(g, input), input)
    decreases |input|, 0
  {
    hide IsSuffix, SkipSpaces, CloseGroup, GroupHead, AstIn, SetDefaultField;
    if StartsWith(input, "(") {
      AstFitsIn(g, input[1..]);
      CloseGroupFits(AstIn(g, input[1..]), input[1..]);
      Drops(input, 1);
      FitsOutside(CloseGroup(AstIn(g, input[1..])), input[1..], input);
    } else if StarAlone(input) {
      Drops(input, 1);
    } else if StartsWith(input, "NOT ") {
      var inner := SkipSpaces(input[4..]);
      Drops(input, 4);
      SuffixTransitive(inner, input[4..], input);
      SuffixLength(inner, input[4..]);
      LeafFits(g, inner);
      FitsOutside(LeafAt(g, inner), inner, input);
    } else {
      match GroupHead(g, input)
      case Some((rest, f)) =>
        AstFitsIn(g, rest);
        CloseGroupFits(AstIn(g, rest), rest);
        FitsOutside(CloseGroup(AstIn(g, rest)), rest, input);
      case None =>
        assert Fits(g.literal(input), input);
    }
  }

  lemma {:induction false} BoostedFits(g: Grammar, input: string)
    requires Legal(g)
    ensures Fits(BoostedAt(g, input), input)
    decreases |input|, 1
  {
    hide IsSuffix, Within, LeafAt;
    LeafFits(g, input);
    var leaf := LeafAt(g, input);
    assert Fits(g.boost(leaf.rest), leaf.rest);
    ThenFits(leaf, g.boost(leaf.rest), input);
  }

  lemma {:induction false} OperandFits(g: Grammar, input: string)
    requires Legal(g)
    ensures Fits(OperandAt(g, input), input)
    decreases |input|, 2
  {
    hide IsSuffix, Within, PrefixAt, BoostedAt;
    var rest := PrefixAt(input).rest;
    PrefixFits(input);
    BoostedFits(g, rest);
    FitsOutside(BoostedAt(g, rest), rest, input);
  }

  lemma {:induction false} PrefixFits(input: string)
    ensures IsSuffix(PrefixAt(input).rest, input)
  {
    hide IsSuffix, Within, SkipSpaces, BinaryOperandAt, OccurAt;
    var op := BinaryOperandAt(input);
    var signed := SkipSpaces(op.rest);
    TokensFit(input);
    TokensFit(signed);
    SuffixTransitive(signed, op.rest, input);
    SuffixTransitive(OccurAt(signed).rest, signed, input);
  }

  lemma {:induction false} MoreFits(g: Grammar, input: string)
    requires Legal(g)
    ensures Fits(MoreOperands(g, input), input)
    decreases |input|, 3
  {
    hide IsSuffix, Within, Space1, OperandAt;
    var s := Space1(input);
    var e := OperandAt(g, s.rest);
    SuffixLength(s.rest, input);
    OperandFits(g, s.rest);
    if |e.rest| == |s.rest| {
      Same(input);
    } else {
      MoreFits(g, e.rest);
      var more := MoreOperands(g, e.rest);
      ThenFits(s, e, input);
      ThenFits(Parsed(e.rest, (), s.errors + e.errors), more, input);
    }
  }

  lemma {:induction false} OperandsFit(g: Grammar, input: string)
    requires Legal(g)
    ensures Fits(OperandsAt(g, input), input)
    decreases |input|, 4
  {
    hide IsSuffix, Within, OperandAt, MoreOperands;
    OperandFits(g, input);
    var first := OperandAt(g, input);
    SuffixLength(first.rest, input);
    MoreFits(g, first.rest);
    ThenFits(first, MoreOperands(g, first.rest), input);
  }

  // Every query, nested to any depth, leaves a suffix and records positions inside its input.
  lemma {:induction false} AstFitsIn(g: Grammar, input: string)
    requires Legal(g)
    ensures Fits(AstIn(g, input), input)
    decreases |input|, 5
  {
    hide IsSuffix, Within, SkipSpaces, OperandsAt, Query;
    var start := SkipSpaces(input);
    SuffixLength(start, input);
    OperandsFit(g, start);
    QueryFits(OperandsAt(g, start), start);
    FitsOutside(AstIn(g, input), start, input);
  }

  // --- the loop parses the grammar ------------------------------------------------------------------

  function OperandParser(g: Grammar): (p: Parser<Operand>)
    requires Legal(g)
  {
    input => OperandAt(g, input)
  }

  lemma {:induction false} OperandParserBehaves(g: Grammar)
    requires Legal(g)
    ensures WellBehaved(OperandParser(g))
  {
    hide OperandAt, Fits, Legal;
    forall input ensures Fits(OperandParser(g)(input), input) {
      OperandFits(g, input);
    }
  }

  lemma {:induction false} SameElements(g: Grammar, input: string)
    requires Legal(g) && WellBehaved(OperandParser(g))
    ensures MoreElements(Space1, OperandParser(g), input) == MoreOperands(g, input)
    decreases |input|
  {
    hide OperandAt, Space1, Legal, Within;
    var s := Space1(input);
    var e := OperandAt(g, s.rest);
    OperandFits(g, s.rest);
    SuffixLength(s.rest, input);
    if |e.rest| != |s.rest| {
      SameElements(g, e.rest);
    }
  }

  lemma {:induction false} SameList(g: Grammar, input: string)
    requires Legal(g) && WellBehaved(OperandParser(g))
    ensures SeparatedListAt(Space1, OperandParser(g), input) == OperandsAt(g, input)
  {
    hide OperandAt, Space1, Legal, MoreElements, MoreOperands, Fits;
    SameElements(g, OperandAt(g, input).rest);
  }

  // The list loop, run on the operand parser of the grammar, is the grammar.
  lemma {:induction false} Knot(g: Grammar, input: string)
    requires Legal(g) && WellBehaved(OperandParser(g))
    ensures AstAt(OperandParser(g), input) == AstIn(g, input)
  {
    hide Legal, Query, SkipSpaces, Fits, SeparatedListAt, OperandsAt;
    SameList(g, SkipSpaces(input));
  }

  // --- the entry point ------------------------------------------------------------------------------

  // Every recorded error is reported, at its position counted from the start; what the query
  // leaves behind is reported last, where it begins; and the leaves of the query are those of
  // the operands that were parsed.
  method ParseToAstLenient(g: Grammar, query: string) returns (ast: Ast, errors: seq<LenientError>)
    requires Legal(g)
    ensures (forall i :: 0 <= i < |query| ==> IsSpace(query[i])) ==> ast == Clause([]) && errors == []
    ensures (exists i :: 0 <= i < |query| && !IsSpace(query[i])) ==>
              var parsed := AstIn(g, query);
              && ast == Rewrite(parsed.output)
              && |errors| == |parsed.errors| + (if |parsed.rest| > 0 then 1 else 0)
              && (forall i :: 0 <= i < |parsed.errors| ==>
                    && errors[i].pos + parsed.errors[i].pos == |query|
                    && errors[i].message == parsed.errors[i].message)
              && (|parsed.rest| > 0 ==>
                    var last := errors[|errors| - 1];
                    last.message == "unparsed end of query" && last.pos < |query| && query[last.pos..] == parsed.rest)
              && (forall l :: l in Leaves(ast) <==> l in OperandLeaves(PresentOperands(
                    OperandsAt(g, SkipSpaces(query)).output)))
  {
    hide Rewrite, Aggregated, OperandLeaves, PresentOperands, ToInternal, EarlyOperator, Leaves, SkipSpaces,
         OperandsAt, Legal, AstAt;
    if forall i :: 0 <= i < |query| ==> IsSpace(query[i]) {
      return Clause([]), [];
    }
    OperandParserBehaves(g);
    Knot(g, query);
    var parsed := AstInfallible(OperandParser(g), query);
    var internal := parsed.errors;
    if |parsed.rest| > 0 {
      internal := internal + [LenientErrorInternal(|parsed.rest|, "unparsed end of query")];
    }
    errors := [];
    while |errors| < |internal|
      invariant |errors| <= |internal|
      invariant forall i :: 0 <= i < |errors| ==>
                  errors[i].pos + internal[i].pos == |query| && errors[i].message == internal[i].message
    {
      errors := errors + [FromInternal(internal[|errors|], |query|)];
    }
    ast := RewriteAst(parsed.output);
    ghost var leafs := PresentOperands(OperandsAt(g, SkipSpaces(query)).output);
    AggregationKeepsLeaves(leafs);
    forall l ensures l in Leaves(ast) <==> l in OperandLeaves(leafs) {
      if l >= 0 { RewriteKeepsLeaves(parsed.output, l); }
    }
  }

}
