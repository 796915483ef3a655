/** The error-recovering parser: the two loops that could run forever or record impossible
positions, and the conversion of end-based error positions into start-based ones.

Element parsers are parameters.  `WellBehaved` is what the loops rely on: a parser returns a
suffix of its input and only records positions, counted from the end of the query, that lie
inside its input.
 */
module LenientParsing {
  import opened Collections
  import opened QueryAst
  import opened Aggregation

  // An error, with an offset from the end of the string.
  datatype LenientErrorInternal = LenientErrorInternal(pos: nat, message: string)

  datatype LenientError = LenientError(pos: nat, message: string)

  datatype Parsed<+O> = Parsed(rest: string, output: O, errors: seq<LenientErrorInternal>)

  type Parser<!O> = string -> Parsed<O>

  predicate IsSuffix(rest: string, input: string) {
    |rest| <= |input| && input[|input| - |rest|..] == rest
  }

  predicate Within(errors: seq<LenientErrorInternal>, n: nat) {
    forall i :: 0 <= i < |errors| ==> errors[i].pos <= n
  }

  predicate Fits<O>(r: Parsed<O>, input: string) {
    IsSuffix(r.rest, input) && Within(r.errors, |input|)
  }

  ghost predicate WellBehaved<O>(p: Parser<O>) {
    forall input :: Fits(p(input), input)
  }

  lemma {:induction false} SuffixTransitive(a: string, b: string, c: string)
    requires IsSuffix(a, b) && IsSuffix(b, c)
    ensures IsSuffix(a, c)
  {
    var m, n := |b| - |a|, |c| - |b|;
    assert c[n..][m..] == c[n + m..];
  }

  lemma {:induction false} SuffixLength(rest: string, input: string)
    requires IsSuffix(rest, input)
    ensures |rest| <= |input|
  {
  }

  lemma {:induction false} WithinAppend(a: seq<LenientErrorInternal>, b: seq<LenientErrorInternal>, m: nat, n: nat)
    requires Within(a, n) && Within(b, m) && m <= n
    ensures Within(a + b, n)
  {
  }

  // --- combinators ---------------------------------------------------------------------------

  ghost predicate ReturnsSuffix<O>(f: string -> Option<(string, O)>) {
    forall input :: f(input).Some? ==> IsSuffix(f(input).value.0, input)
  }

  // One parser after the other: what is left is a suffix, and the errors stay in order.
  lemma {:induction false} ThenFits<A, B>(a: Parsed<A>, b: Parsed<B>, input: string)
    requires Fits(a, input) && Fits(b, a.rest)
    ensures IsSuffix(b.rest, input) && Within(a.errors + b.errors, |input|)
  {
    SuffixTransitive(b.rest, a.rest, input);
  }

  predicate IsSpace(c: char) {
    c == ' ' || c == '\t' || c == '\r' || c == '\n'
  }

  function SkipSpaces(input: string): (rest: string)
    ensures IsSuffix(rest, input)
    ensures |rest| > 0 ==> !IsSpace(rest[0])
    ensures |rest| == 0 ==> forall i :: 0 <= i < |input| ==> IsSpace(input[i])
  {
    if |input| > 0 && IsSpace(input[0]) then
      SuffixTransitive(SkipSpaces(input[1..]), input[1..], input);
      SkipSpaces(input[1..])
    else input
  }

  function Space0(input: string): (r: Parsed<()>)
    ensures Fits(r, input)
  {
    Parsed(SkipSpaces(input), (), [])
  }

  function Space1(input: string): (r: Parsed<()>)
    ensures Fits(r, input)
  {
    var rest := SkipSpaces(input);
    Parsed(rest, (), if |rest| < |input| then [] else [LenientErrorInternal(|rest|, "missing space")])
  }

  // --- the separated list ----------------------------------------------------------------------

  // Elements after the first, as long as they consume something.
  function MoreElements<S, O>(sep: Parser<S>, f: Parser<O>, input: string): (r: Parsed<seq<O>>)
    requires WellBehaved(sep) && WellBehaved(f)
    ensures Fits(r, input)
    decreases |input|
  {
    var s := sep(input);
    var e := f(s.rest);
    assert Fits(s, input) && Fits(e, s.rest);
    if |e.rest| == |s.rest| then Parsed(input, [], [])
    else
      var more := MoreElements(sep, f, e.rest);
      SuffixTransitive(e.rest, s.rest, input);
      SuffixTransitive(more.rest, e.rest, input);
      Parsed(more.rest, [e.output] + more.output, s.errors + e.errors + more.errors)
  }

  function SeparatedListAt<S, O>(sep: Parser<S>, f: Parser<O>, input: string): (r: Parsed<seq<O>>)
    requires WellBehaved(sep) && WellBehaved(f)
    ensures Fits(r, input) && |r.output| >= 1
  {
    var first := f(input);
    assert Fits(first, input);
    var more := MoreElements(sep, f, first.rest);
    SuffixTransitive(more.rest, first.rest, input);
    Parsed(more.rest, [first.output] + more.output, first.errors + more.errors)
  }

  // Where the elements start: each after the separator that follows the one before, and each
  // but the first consumes something.
  ghost predicate IsChain<S, O>(sep: Parser<S>, f: Parser<O>, starts: seq<string>) {
    && |starts| > 0
    && (forall i :: 0 < i < |starts| ==>
          starts[i] == sep(f(starts[i - 1]).rest).rest && |f(starts[i]).rest| != |starts[i]|)
  }

  ghost function ChainErrors<S, O>(sep: Parser<S>, f: Parser<O>, starts: seq<string>): (errors: seq<LenientErrorInternal>)
  {
    if |starts| == 0 then []
    else if |starts| == 1 then f(starts[0]).errors
    else f(starts[0]).errors + (sep(f(starts[0]).rest).errors + ChainErrors(sep, f, starts[1..]))
  }

  // The list is what the element parser gives along the chain, and it ends where the parser
  // would consume nothing.
  ghost predicate Follows<S, O>(sep: Parser<S>, f: Parser<O>, starts: seq<string>, r: Parsed<seq<O>>) {
    && IsChain(sep, f, starts) && |r.output| == |starts|
    && (forall i :: 0 <= i < |starts| ==> r.output[i] == f(starts[i]).output)
    && r.rest == f(starts[|starts| - 1]).rest
    && |f(sep(r.rest).rest).rest| == |sep(r.rest).rest|
    && r.errors == ChainErrors(sep, f, starts)
  }

  lemma {:induction false} ListFollowsChain<S, O>(sep: Parser<S>, f: Parser<O>, input: string) returns (starts: seq<string>)
    requires WellBehaved(sep) && WellBehaved(f)
    ensures Follows(sep, f, starts, SeparatedListAt(sep, f, input)) && starts[0] == input
    decreases |f(input).rest|
  {
    hide IsSuffix, Within;
    var first := f(input);
    var s := sep(first.rest);
    var e := f(s.rest);
    var list := SeparatedListAt(sep, f, input);
    assert Fits(s, first.rest) && Fits(e, s.rest);
    if |e.rest| == |s.rest| {
      starts := [input];
      assert list == Parsed(first.rest, [first.output] + [], first.errors + []);
    } else {
      Shrinks(s, e, first.rest);
      var more := ListFollowsChain(sep, f, s.rest);
      var tail := SeparatedListAt(sep, f, s.rest);
      starts := [input] + more;
      assert starts[1..] == more;
      ListCons(sep, f, input);
      ChainCons(sep, f, input, more);
    }
  }

  lemma {:induction false} ListCons<S, O>(sep: Parser<S>, f: Parser<O>, input: string)
    requires WellBehaved(sep) && WellBehaved(f)
    requires var s := sep(f(input).rest); |f(s.rest).rest| != |s.rest|
    ensures var s := sep(f(input).rest);
            var tail := SeparatedListAt(sep, f, s.rest);
            SeparatedListAt(sep, f, input)
            == Parsed(tail.rest, [f(input).output] + tail.output, f(input).errors + (s.errors + tail.errors))
  {
    hide IsSuffix, Within;
    var s := sep(f(input).rest);
    var e := f(s.rest);
    var more := MoreElements(sep, f, e.rest);
    assert s.errors + e.errors + more.errors == s.errors + (e.errors + more.errors);
  }

  lemma {:induction false} ChainCons<S, O>(sep: Parser<S>, f: Parser<O>, input: string, more: seq<string>)
    requires IsChain(sep, f, more)
    requires more[0] == sep(f(input).rest).rest && |f(more[0]).rest| != |more[0]|
    ensures IsChain(sep, f, [input] + more)
    ensures ChainErrors(sep, f, [input] + more)
         == f(input).errors + (sep(f(input).rest).errors + ChainErrors(sep, f, more))
  {
    assert ([input] + more)[1..] == more;
    assert forall i :: 0 < i <= |more| ==> ([input] + more)[i] == more[i - 1];
  }

  // The loop: every turn but the last strictly shrinks the input.
  method SeparatedListInfallible<S, O>(sep: Parser<S>, f: Parser<O>, input: string) returns (r: Parsed<seq<O>>)
    requires WellBehaved(sep) && WellBehaved(f)
    ensures r == SeparatedListAt(sep, f, input)
    ensures Fits(r, input)
  {
    hide IsSuffix, Within;
    var first := f(input);
    var res, errors, i := [first.output], first.errors, first.rest;
    ghost var whole := SeparatedListAt(sep, f, input);
    assert Fits(first, input);
    while true
      invariant var more := MoreElements(sep, f, i);
                whole == Parsed(more.rest, res + more.output, errors + more.errors)
      decreases |i|
    {
      var s := sep(i);
      var e := f(s.rest);
      assert Fits(s, i) && Fits(e, s.rest);
      if |e.rest| == |s.rest| {
        assert res + [] == res && errors + [] == errors;
        return Parsed(i, res, errors);
      }
      Shrinks(s, e, i);
      ghost var more := MoreElements(sep, f, e.rest);
      assert res + ([e.output] + more.output) == (res + [e.output]) + more.output;
      assert errors + (s.errors + e.errors + more.errors) == (errors + s.errors + e.errors) + more.errors;
      res := res + [e.output];
      errors := errors + s.errors + e.errors;
      i := e.rest;
    }
  }

  lemma {:induction false} Shrinks<S, O>(s: Parsed<S>, e: Parsed<O>, i: string)
    requires Fits(s, i) && Fits(e, s.rest) && |e.rest| != |s.rest|
    ensures |e.rest| < |i|
  {
  }

  // --- the set literal ------------------------------------------------------------------------------

  datatype SetResult<T> = SetResult(rest: string, elements: seq<T>, errs: seq<LenientErrorInternal>)

  // The elements up to the closing bracket.  `term` parses one of them; it may record errors
  // and produce nothing.
  function SetFrom<T>(term: Parser<Option<T>>, input: string, firstRound: bool): (r: SetResult<T>)
    requires WellBehaved(term)
    decreases |input|
  {
    var space := if firstRound then Parsed(input, (), []) else Space1(input);
    var inp := space.rest;
    var missing := LenientErrorInternal(|inp|, "missing ]");
    if |inp| == 0 then SetResult(inp, [], [missing])
    else if inp[0] == ']' then SetResult(inp[1..], [], [])
    else
      var r := term(inp);
      assert Fits(r, inp);
      if |r.rest| == |inp| then SetResult(inp, [], space.errors + r.errors + [missing])
      else
        var more := SetFrom(term, r.rest, false);
        SetResult(more.rest, (if r.output.Some? then [r.output.value] else []) + more.elements,
                  space.errors + r.errors + more.errs)
  }

  // The rest is a suffix, positions lie inside the input, every element consumed something,
  // and either the closing bracket was consumed or its absence is the last error.
  ghost predicate SetFits<T>(r: SetResult<T>, input: string) {
    && IsSuffix(r.rest, input) && Within(r.errs, |input|)
    && |r.elements| <= |input| - |r.rest|
    && (Closed(input, r.rest) || (|r.errs| > 0 && r.errs[|r.errs| - 1] == LenientErrorInternal(|r.rest|, "missing ]")))
  }

  lemma {:induction false} SetFromFits<T>(term: Parser<Option<T>>, input: string, firstRound: bool)
    requires WellBehaved(term)
    ensures SetFits(SetFrom(term, input, firstRound), input)
    decreases |input|
  {
    hide Within, Space1;
    var space := if firstRound then Parsed(input, (), []) else Space1(input);
    Same(input);
    var inp := space.rest;
    var missing := LenientErrorInternal(|inp|, "missing ]");
    SuffixLength(inp, input);
    OneError(missing, |input|);
    if |inp| > 0 {
      if inp[0] != ']' {
        var r := term(inp);
        assert Fits(r, inp);
        SuffixLength(r.rest, inp);
        WithinAppend(space.errors, r.errors, |inp|, |input|);
        if |r.rest| == |inp| {
          WithinAppend(space.errors + r.errors, [missing], |input|, |input|);
        } else {
          SetFromFits(term, r.rest, false);
          SetCons(input, space, r, SetFrom(term, r.rest, false));
        }
      }
    }
  }

  lemma {:induction false} SetCons<T>(input: string, space: Parsed<()>, r: Parsed<Option<T>>, more: SetResult<T>)
    requires Fits(space, input) && Fits(r, space.rest) && SetFits(more, r.rest) && |r.rest| < |space.rest|
    requires Within(space.errors + r.errors, |input|)
    ensures SetFits(SetResult(more.rest, (if r.output.Some? then [r.output.value] else []) + more.elements,
                              space.errors + r.errors + more.errs), input)
  {
    hide Within;
    SuffixLength(space.rest, input);
    SuffixLength(more.rest, r.rest);
    SuffixTransitive(r.rest, space.rest, input);
    SuffixTransitive(more.rest, r.rest, input);
    WithinAppend(space.errors + r.errors, more.errs, |r.rest|, |input|);
    if Closed(r.rest, more.rest) {
    }
  }

  lemma {:induction false} Same(input: string)
    ensures IsSuffix(input, input) && Within([], |input|)
  {
  }

  lemma {:induction false} OneError(e: LenientErrorInternal, n: nat)
    requires e.pos <= n
    ensures Within([e], n)
  {
  }

  // What is left to do, on top of what was done, is the whole.
  ghost predicate Continues<T>(whole: SetResult<T>, elements: seq<T>, errs: seq<LenientErrorInternal>,
                               more: SetResult<T>)
  {
    whole == SetResult(more.rest, elements + more.elements, errs + more.errs)
  }

  lemma {:induction false} ContinuesNot<T>(whole: SetResult<T>, elements: seq<T>,
                                           errs: seq<LenientErrorInternal>, more: SetResult<T>)
    requires Continues(whole, elements, errs, more) && more.elements == []
    ensures whole == SetResult(more.rest, elements, errs + more.errs)
  {
    assert elements + [] == elements;
  }

  // One turn of the loop.
  lemma {:induction false} SetTurn<T>(term: Parser<Option<T>>, input: string, firstRound: bool,
                                      space: Parsed<()>, r: Parsed<Option<T>>)
    requires WellBehaved(term)
    requires space == if firstRound then Parsed(input, (), []) else Space1(input)
    requires r == term(space.rest)
    ensures var inp, missing := space.rest, LenientErrorInternal(|space.rest|, "missing ]");
            SetFrom(term, input, firstRound) ==
              if |inp| == 0 then SetResult(inp, [], [missing])
              else if inp[0] == ']' then SetResult(inp[1..], [], [])
              else if |r.rest| == |inp| then SetResult(inp, [], space.errors + r.errors + [missing])
              else
                var tail := SetFrom(term, r.rest, false);
                SetResult(tail.rest, (if r.output.Some? then [r.output.value] else []) + tail.elements,
                          space.errors + r.errors + tail.errs)
    ensures |space.rest| <= |input| && |r.rest| <= |space.rest|
  {
    assert Fits(r, space.rest);
  }

  // The loop: every turn but the last strictly shrinks the input.
  method SetInfallible<T>(term: Parser<Option<T>>, start: string)
    returns (rest: string, elements: seq<T>, errs: seq<LenientErrorInternal>)
    requires WellBehaved(term)
    ensures SetResult(rest, elements, errs) == SetFrom(term, start, true)
    ensures SetFits(SetResult(rest, elements, errs), start)
  {
    hide IsSuffix, Within, Closed, Space1, SetFits, SetFrom, WellBehaved;
    elements, errs := [], [];
    var inp := start;
    var firstRound := true;
    ghost var whole := SetFrom(term, start, true);
    SetFromFits(term, start, true);
    NothingDone(whole);
    while true
      invariant Continues(whole, elements, errs, SetFrom(term, inp, firstRound))
      decreases |inp|, firstRound
    {
      ghost var more := SetFrom(term, inp, firstRound);
      var space := Parsed(inp, (), []);
      if !firstRound {
        space := Space1(inp);
      }
      SetTurn(term, inp, firstRound, space, term(space.rest));
      firstRound := false;
      inp := space.rest;
      if |inp| == 0 {
        ContinuesNot(whole, elements, errs, more);
        errs := errs + [LenientErrorInternal(|inp|, "missing ]")];
        return inp, elements, errs;
      }
      if inp[0] == ']' {
        ContinuesNot(whole, elements, errs, more);
        assert errs + [] == errs;
        return inp[1..], elements, errs;
      }
      var r := term(inp);
      if |r.rest| == |inp| {
        ContinuesNot(whole, elements, errs, more);
        errs := errs + (space.errors + r.errors + [LenientErrorInternal(|inp|, "missing ]")]);
        return inp, elements, errs;
      }
      var found := if r.output.Some? then [r.output.value] else [];
      errs := errs + (space.errors + r.errors);
      elements := elements + found;
      inp := r.rest;
    }
  }

  lemma {:induction false} NothingDone<T>(whole: SetResult<T>)
    ensures Continues(whole, [], [], whole)
  {
    assert [] + whole.elements == whole.elements && [] + whole.errs == whole.errs;
  }

  // What was consumed ends with the closing bracket.
  predicate Closed(start: string, rest: string) {
    |rest| < |start| && start[|start| - |rest| - 1] == ']'
  }

  // --- the entry point --------------------------------------------------------------------------------

  function ToInternal(errs: seq<Message>): (r: seq<LenientErrorInternal>)
    ensures Within(r, 0)
  {
    if |errs| == 0 then []
    else ToInternal(errs[..|errs| - 1])
         + [LenientErrorInternal(0, "Found unexpected boolean operator before term")]
  }

  function FromInternal(e: LenientErrorInternal, len: nat): (r: LenientError)
    requires e.pos <= len
    ensures r.pos + e.pos == len
  {
    LenientError(len - e.pos, e.message)
  }

  // An error recorded when `rest` was left to parse is reported where `rest` begins.
  lemma {:induction false} ReportedWhereRecorded(rest: string, query: string, message: string)
    requires IsSuffix(rest, query)
    ensures var e := FromInternal(LenientErrorInternal(|rest|, message), |query|);
            query[e.pos..] == rest && query[..e.pos] + rest == query
  {
    var n := |query| - |rest|;
    assert query == query[..n] + query[n..];
  }

  // The operands aggregated into one query, and the spaces after them.
  function Query(list: Parsed<seq<Operand>>): (r: Parsed<Ast>)
    ensures |r.rest| <= |list.rest|
  {
    var leafs := PresentOperands(list.output);
    assert |SkipSpaces(list.rest)| <= |list.rest|;
    Parsed(SkipSpaces(list.rest), Aggregated(leafs), list.errors + ToInternal(EarlyOperator(leafs)))
  }

  lemma {:induction false} QueryFits(list: Parsed<seq<Operand>>, input: string)
    requires Fits(list, input)
    ensures Fits(Query(list), input)
  {
    hide IsSuffix, Within, SkipSpaces, Aggregated, ToInternal, EarlyOperator, PresentOperands;
    SuffixTransitive(SkipSpaces(list.rest), list.rest, input);
    WithinAppend(list.errors, ToInternal(EarlyOperator(PresentOperands(list.output))), 0, |input|);
  }

  // Spaces, a list of operands aggregated into one query, spaces.
  function AstAt(operand: Parser<Operand>, input: string): (r: Parsed<Ast>)
    requires WellBehaved(operand)
  {
    Query(SeparatedListAt(Space1, operand, SkipSpaces(input)))
  }

  lemma {:induction false} FitsOutside<O>(r: Parsed<O>, inner: string, input: string)
    requires Fits(r, inner) && IsSuffix(inner, input)
    ensures Fits(r, input)
  {
    SuffixTransitive(r.rest, inner, input);
  }

  lemma {:induction false} AstFits(operand: Parser<Operand>, input: string)
    requires WellBehaved(operand)
    ensures Fits(AstAt(operand, input), input)
  {
    hide IsSuffix, Within, SkipSpaces, SeparatedListAt, Query;
    var start := SkipSpaces(input);
    QueryFits(SeparatedListAt(Space1, operand, start), start);
    FitsOutside(AstAt(operand, input), start, input);
  }

  method AstInfallible(operand: Parser<Operand>, input: string) returns (r: Parsed<Ast>)
    requires WellBehaved(operand)
    ensures r == AstAt(operand, input)
    ensures Fits(r, input)
  {
    hide IsSuffix, Within, SkipSpaces, Aggregated, SeparatedListAt, ToInternal, EarlyOperator;
    AstFits(operand, input);
    var left := Space0(input);
    var list := SeparatedListInfallible(Space1, operand, left.rest);
    var ast, messages := AggregateInfallibleExpressions(list.output);
    var right := Space0(list.rest);
    r := Parsed(right.rest, ast, left.errors + (list.errors + ToInternal(messages)) + right.errors);
  }
}
