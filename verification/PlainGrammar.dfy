/** A small grammar whose words are lower-case letters, with field names and boosts of one digit:
an instance of everything the text of a query is assumed to be made of.
 */
module PlainGrammars {
  import opened Collections
  import opened QueryAst
  import opened LenientParsing
  import opened LenientGrammar
  import opened QueryText

  predicate Lower(c: char) {
    'a' <= c <= 'z'
  }

  predicate IsWord(text: string) {
    |text| > 0 && forall i :: 0 <= i < |text| ==> Lower(text[i])
  }

  // The length of the word at the beginning.
  function WordLen(input: string): (n: nat)
    ensures n <= |input| && (forall i :: 0 <= i < n ==> Lower(input[i])) && (n < |input| ==> !Lower(input[n]))
  {
    if |input| == 0 || !Lower(input[0]) then 0 else 1 + WordLen(input[1..])
  }

  lemma {:induction false} WordLenIs(text: string, t: string)
    requires (forall i :: 0 <= i < |text| ==> Lower(text[i])) && (|t| == 0 || !Lower(t[0]))
    ensures WordLen(text + t) == |text|
  {
    if |text| == 0 {
      assert text + t == t;
    } else {
      assert (text + t)[0] == text[0] && (text + t)[1..] == text[1..] + t;
      WordLenIs(text[1..], t);
    }
  }

  function PlainLiteral(code: string -> nat, input: string): (r: Parsed<Option<Ast>>)
  {
    var n := WordLen(input);
    if n == 0 then Parsed(input, None, [LenientErrorInternal(|input|, "expected word")])
    else Parsed(input[n..], Some(Leaf(code(input[..n]))), [])
  }

  function PlainBoost(input: string): (r: Parsed<Option<nat>>)
  {
    if |input| > 1 && input[0] == '^' && '0' <= input[1] <= '9' then
      Parsed(input[2..], Some((input[1] - '0') as nat), [])
    else Parsed(input, None, [])
  }

  function PlainField(code: string -> nat, input: string): (r: Option<(string, nat)>)
  {
    var n := WordLen(input);
    if 0 < n < |input| && input[n] == ':' then Some((input[n + 1..], code(input[..n]))) else None
  }

  function PlainGrammar(code: string -> nat, inField: (nat, nat) -> nat): (g: Grammar)
  {
    Grammar(input => PlainLiteral(code, input), PlainBoost, input => PlainField(code, input), inField)
  }

  // Lower-case words, the same followed by a colon, and ^0 to ^9 are all read back.
  lemma {:induction false} PlainReads(code: string -> nat, inField: (nat, nat) -> nat)
    ensures var g := PlainGrammar(code, inField);
            && Legal(g) && Stops(g)
            && (forall w :: IsWord(w) ==> ReadsWord(g, w, Leaf(code(w))) && ReadsField(g, w + ":", code(w)))
            && ReadsBoost(g, "^2", 2)
  {
    hide *;
    var g := PlainGrammar(code, inField);
    PlainLegal(code, inField);
    forall w | IsWord(w) ensures ReadsWord(g, w, Leaf(code(w))) && ReadsField(g, w + ":", code(w)) {
      PlainWordReads(code, inField, w);
      PlainFieldReads(code, inField, w);
    }
    PlainBoostReads(code, inField);
  }

  lemma {:induction false} PlainLegal(code: string -> nat, inField: (nat, nat) -> nat)
    ensures Legal(PlainGrammar(code, inField)) && Stops(PlainGrammar(code, inField))
  {
    hide PlainLiteral, PlainBoost, PlainField, Fits, IsSuffix;
    var g := PlainGrammar(code, inField);
    forall input: string
      ensures Fits(g.literal(input), input) && Fits(g.boost(input), input)
      ensures g.field(input).Some? ==> IsSuffix(g.field(input).value.0, input)
    {
      PlainFits(code, input);
    }
    assert WellBehaved(g.literal) && WellBehaved(g.boost) && ReturnsSuffix(g.field);
    forall t: string
      ensures |t| == 0 || t[0] != '^' ==> g.boost(t) == Parsed(t, None, [])
      ensures |t| == 0 || t[0] == ')' ==> g.field(t).None? && |g.literal(t).rest| == |t|
    {
      PlainStops(code, t);
    }
  }

  lemma {:induction false} PlainFits(code: string -> nat, input: string)
    ensures Fits(PlainLiteral(code, input), input) && Fits(PlainBoost(input), input)
    ensures PlainField(code, input).Some? ==> IsSuffix(PlainField(code, input).value.0, input)
  {
    hide WordLen, IsSuffix, Lower;
    Same(input);
    Drops(input, WordLen(input));
    if |input| > 1 { Drops(input, 2); }
    if WordLen(input) < |input| { Drops(input, WordLen(input) + 1); }
  }

  lemma {:induction false} PlainStops(code: string -> nat, t: string)
    ensures |t| == 0 || t[0] != '^' ==> PlainBoost(t) == Parsed(t, None, [])
    ensures |t| == 0 || t[0] == ')' ==> PlainField(code, t).None? && |PlainLiteral(code, t).rest| == |t|
  {
  }

  lemma {:induction false} PlainWordReads(code: string -> nat, inField: (nat, nat) -> nat, w: string)
    requires IsWord(w) && Legal(PlainGrammar(code, inField))
    ensures ReadsWord(PlainGrammar(code, inField), w, Leaf(code(w)))
  {
    hide Legal;
    var g := PlainGrammar(code, inField);
    forall t | AfterBody(t)
      ensures g.literal(w + t) == Parsed(t, Some(Leaf(code(w))), [])
      ensures !StarAlone(w + t) && !Keyword(w + t) && GroupHead(g, w + t).None?
    {
      PlainWordAt(code, inField, w, t);
    }
  }

  lemma {:induction false} PlainWordAt(code: string -> nat, inField: (nat, nat) -> nat, w: string, t: string)
    requires IsWord(w) && Legal(PlainGrammar(code, inField)) && AfterBody(t)
    ensures var g := PlainGrammar(code, inField);
            && g.literal(w + t) == Parsed(t, Some(Leaf(code(w))), [])
            && !StarAlone(w + t) && !Keyword(w + t) && GroupHead(g, w + t).None?
  {
    hide Legal, SkipSpaces, WordLen, IsSuffix;
    WordLenIs(w, t);
    assert (w + t)[..|w|] == w && (w + t)[|w|..] == t && (w + t)[0] == w[0];
    assert Lower(w[0]);
    BeginsOtherwise(w + t, "AND ");
    BeginsOtherwise(w + t, "OR ");
    BeginsOtherwise(w + t, "NOT ");
  }

  lemma {:induction false} PlainFieldReads(code: string -> nat, inField: (nat, nat) -> nat, w: string)
    requires IsWord(w)
    ensures ReadsField(PlainGrammar(code, inField), w + ":", code(w))
  {
    hide WordLen, StartsWith;
    var name := w + ":";
    assert name[0] == w[0] && Lower(w[0]);
    forall t: string
      ensures PlainField(code, name + ("(" + t)) == Some(("(" + t, code(w))) && !Keyword(name + ("(" + t))
    {
      var input := name + ("(" + t);
      assert input == w + (":(" + t);
      WordLenIs(w, ":(" + t);
      assert input[..|w|] == w && input[|w| + 1..] == "(" + t && input[0] == w[0];
      BeginsOtherwise(input, "AND ");
      BeginsOtherwise(input, "OR ");
      BeginsOtherwise(input, "NOT ");
    }
  }

  lemma {:induction false} PlainBoostReads(code: string -> nat, inField: (nat, nat) -> nat)
    ensures ReadsBoost(PlainGrammar(code, inField), "^2", 2)
  {
    hide After;
    forall t: string ensures PlainBoost("^2" + t) == Parsed(t, Some(2), []) {
      assert ("^2" + t)[2..] == t;
    }
  }
}
