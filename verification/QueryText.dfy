/** Queries written out as text, and the proof that the error-recovering parser reads them back.

A query is a list of operands with operators, signs, boosts, NOT, stars, parentheses and field
groups, nested to any depth; words, field names and boost suffixes are any that the given
character-level parsers read.
 */
module QueryText {
  import opened Collections
  import opened QueryAst
  import opened Aggregation
  import opened AggregationMeaning
  import opened Rewriting
  import opened QueryPipeline
  import opened LenientParsing
  import opened LenientGrammar

  datatype Body =
    | Word(text: string, ast: Ast)
    | Star
    | Not(gap: string, inner: Body)
    | Paren(items: seq<Item>, trail: string)
    | InField(name: string, field: nat, items: seq<Item>, trail: string)

  datatype Suffix = Suffix(text: string, boost: nat)

  // `space` is the white space before the operand; `gap`, here and after NOT, and `trail` before
  // a closing parenthesis are more of it.
  datatype Item = Item(space: string, op: Option<BinaryOperand>, gap: string, sign: Option<Occur>, body: Body,
                       suffix: Option<Suffix>)

  // --- writing ---------------------------------------------------------------------------------------

  function OpText(op: Option<BinaryOperand>, gap: string): (s: string)
  {
    match op
    case None => ""
    case Some(And) => "AND " + gap
    case Some(Or) => "OR " + gap
  }

  function SignText(sign: Option<Occur>): (s: string)
  {
    match sign
    case Some(MustNot) => "-"
    case Some(Must) => "+"
    case _ => ""
  }

  function Print(b: Body): (s: string)
    decreases b, 0
  {
    match b
    case Word(text, _) => text
    case Star => "*"
    case Not(gap, inner) => "NOT " + (gap + Print(inner))
    case Paren(items, trail) => "(" + (PrintAll(items) + (trail + ")"))
    case InField(name, _, items, trail) => name + ("(" + (PrintAll(items) + (trail + ")")))
  }

  function PrintItem(it: Item): (s: string)
    decreases it, 1
  {
    OpText(it.op, it.gap) + (SignText(it.sign) + (Print(it.body) + if it.suffix.Some? then it.suffix.value.text else ""))
  }

  function PrintAll(items: seq<Item>): (s: string)
    decreases items, 1
  {
    if |items| == 0 then "" else items[0].space + (PrintItem(items[0]) + PrintAll(items[1..]))
  }

  // --- meaning ---------------------------------------------------------------------------------------

  function Tree(g: Grammar, b: Body): (t: Ast)
    decreases b, 0
  {
    match b
    case Word(_, ast) => ast
    case Star => Leaf(ALL)
    case Not(_, inner) => Clause([Child(Some(MustNot), Tree(g, inner))])
    case Paren(items, _) => Aggregated(Meant(g, items))
    case InField(_, f, items, _) => SetDefaultField(Aggregated(Meant(g, items)), f, g.inField)
  }

  function ItemTree(g: Grammar, it: Item): (t: Ast)
    decreases it, 1
  {
    if it.suffix.Some? then Boost(Tree(g, it.body), it.suffix.value.boost) else Tree(g, it.body)
  }

  // The operands a list of items stands for.
  function Meant(g: Grammar, items: seq<Item>): (leafs: seq<Present>)
    ensures |leafs| == |items|
    decreases items, 1
  {
    if |items| == 0 then []
    else [Present(items[0].op, items[0].sign, ItemTree(g, items[0]))] + Meant(g, items[1..])
  }

  function Parsable(leafs: seq<Present>): (r: seq<Operand>)
    ensures |r| == |leafs|
    ensures forall i :: 0 <= i < |leafs| ==> r[i] == Operand(leafs[i].op, leafs[i].occur, Some(leafs[i].ast))
  {
    seq(|leafs|, i requires 0 <= i < |leafs| => Operand(leafs[i].op, leafs[i].occur, Some(leafs[i].ast)))
  }

  // --- what can be written -----------------------------------------------------------------------------

  // What may follow an operand: the end, a closing parenthesis, or space before anything but a
  // colon, which would turn the word into a field name.
  predicate After(t: string) {
    || |t| == 0 || t[0] == ')'
    || (IsSpace(t[0]) && (|SkipSpaces(t)| == 0 || SkipSpaces(t)[0] != ':'))
  }

  predicate AfterBody(t: string) {
    After(t) || t[0] == '^'
  }

  predicate Keyword(input: string) {
    StartsWith(input, "AND ") || StartsWith(input, "OR ") || StartsWith(input, "NOT ")
  }

  // A first character that no other token claims.
  predicate Opens(text: string) {
    && |text| > 0 && !IsSpace(text[0])
    && text[0] != '(' && text[0] != '+' && text[0] != '-' && text[0] != ':'
  }

  ghost predicate ReadsWord(g: Grammar, text: string, ast: Ast)
    requires Legal(g)
  {
    && Opens(text)
    && (forall t :: AfterBody(t) ==>
          && g.literal(text + t) == Parsed(t, Some(ast), [])
          && !StarAlone(text + t) && !Keyword(text + t) && GroupHead(g, text + t).None?)
  }

  ghost predicate ReadsField(g: Grammar, name: string, f: nat) {
    && Opens(name) && name[0] != '*'
    && (forall t :: g.field(name + ("(" + t)) == Some(("(" + t, f)) && !Keyword(name + ("(" + t)))
  }

  ghost predicate ReadsBoost(g: Grammar, text: string, boost: nat) {
    && |text| > 0 && text[0] == '^'
    && (forall t :: After(t) ==> g.boost(text + t) == Parsed(t, Some(boost), []))
  }

  // Nothing is read where an operand list ends, and only ^ starts a boost.
  ghost predicate Stops(g: Grammar) {
    && (forall t :: |t| == 0 || t[0] != '^' ==> g.boost(t) == Parsed(t, None, []))
    && (forall t :: |t| == 0 || t[0] == ')' ==> g.field(t).None? && |g.literal(t).rest| == |t|)
  }

  predicate Spaces(s: string) {
    forall i :: 0 <= i < |s| ==> IsSpace(s[i])
  }

  ghost predicate Writable(g: Grammar, b: Body)
    requires Legal(g)
    decreases b, 0
  {
    match b
    case Word(text, ast) => ReadsWord(g, text, ast)
    case Star => true
    case Not(gap, inner) => Spaces(gap) && Writable(g, inner)
    case Paren(items, trail) => Spaces(trail) && AllWritable(g, items) && items[0].op.None?
    case InField(name, f, items, trail) =>
      Spaces(trail) && ReadsField(g, name, f) && AllWritable(g, items) && items[0].op.None?
  }

  ghost predicate ItemWritable(g: Grammar, it: Item)
    requires Legal(g)
    decreases it, 1
  {
    && it.sign != Some(Should) && Spaces(it.space) && Spaces(it.gap) && Writable(g, it.body)
    && (it.suffix.Some? ==> ReadsBoost(g, it.suffix.value.text, it.suffix.value.boost))
  }

  // Operands are separated by white space.
  ghost predicate AllWritable(g: Grammar, items: seq<Item>)
    requires Legal(g)
    decreases items, 1
  {
    && |items| > 0
    && (forall i :: 0 <= i < |items| ==> ItemWritable(g, items[i]))
    && (forall i :: 0 < i < |items| ==> |items[i].space| > 0)
  }

  // --- spaces and tokens -----------------------------------------------------------------------------

  lemma {:induction false} SkipGap(gap: string, s: string)
    requires Spaces(gap) && (|s| == 0 || !IsSpace(s[0]))
    ensures SkipSpaces(gap + s) == s
  {
    hide IsSuffix;
    if |gap| == 0 {
      assert gap + s == s;
    } else {
      SkipGap(gap[1..], s);
      assert (gap + s)[0] == gap[0] && (gap + s)[1..] == gap[1..] + s;
    }
  }

  // Where no operator and no sign begins.
  predicate NoPrefix(input: string) {
    && |input| > 0 && !IsSpace(input[0]) && input[0] != ':' && input[0] != '+' && input[0] != '-'
    && !StartsWith(input, "AND ") && !StartsWith(input, "OR ")
  }

  lemma {:induction false} NoGap(s: string)
    requires |s| == 0 || !IsSpace(s[0])
    ensures SkipSpaces(s) == s
  {
  }

  lemma {:induction false} BeginsWith(word: string, rest: string)
    ensures StartsWith(word + rest, word) && (word + rest)[|word|..] == rest
  {
  }

  lemma {:induction false} BeginsOtherwise(input: string, word: string)
    requires |word| > 0 && |input| > 0 && input[0] != word[0]
    ensures !StartsWith(input, word)
  {
  }

  // The sign before an operand.
  lemma {:induction false} SignReads(sign: Option<Occur>, input: string)
    requires NoPrefix(input) && sign != Some(Should)
    ensures OccurAt(SignText(sign) + input) == Parsed(input, sign, [])
  {
    hide StartsWith;
    SignCases(sign);
    if sign == Some(MustNot) {
      BeginsWith("-", input);
    } else if sign == Some(Must) {
      BeginsWith("+", input);
      BeginsOtherwise("+" + input, "-");
    } else {
      assert "" + input == input;
      BeginsOtherwise(input, "-");
      BeginsOtherwise(input, "+");
    }
  }

  lemma {:induction false} SignedOpens(sign: Option<Occur>, input: string)
    requires NoPrefix(input) && sign != Some(Should)
    ensures var s := SignText(sign) + input;
            && |s| > 0 && s[0] != ':' && !IsSpace(s[0])
            && !StartsWith(s, "AND ") && !StartsWith(s, "OR ")
  {
    hide StartsWith;
    SignCases(sign);
    if sign.Some? {
      var s := SignText(sign) + input;
      BeginsOtherwise(s, "AND ");
      BeginsOtherwise(s, "OR ");
    } else {
      assert "" + input == input;
    }
  }

  // The operator before it, and the white space after that.
  lemma {:induction false} OpReads(op: Option<BinaryOperand>, gap: string, s: string)
    requires |s| > 0 && s[0] != ':' && !IsSpace(s[0]) && !StartsWith(s, "AND ") && !StartsWith(s, "OR ")
    ensures BinaryOperandAt(OpText(op, gap) + s) == Parsed(if op.None? then s else gap + s, op, [])
    ensures var r := OpText(op, gap) + s; |r| > 0 && r[0] != ':' && !IsSpace(r[0])
  {
    hide StartsWith;
    OpCases(op);
    if op == Some(And) {
      BeginsWith("AND ", gap + s);
      assert "AND " + gap + s == "AND " + (gap + s);
    } else if op == Some(Or) {
      BeginsWith("OR ", gap + s);
      assert "OR " + gap + s == "OR " + (gap + s);
      BeginsOtherwise("OR " + (gap + s), "AND ");
    } else {
      assert "" + s == s;
    }
  }

  lemma {:induction false} PrefixReads(op: Option<BinaryOperand>, gap: string, sign: Option<Occur>, input: string)
    requires NoPrefix(input) && sign != Some(Should) && Spaces(gap)
    ensures var s := OpText(op, gap) + (SignText(sign) + input);
            && PrefixAt(s) == Parsed(input, (op, sign), [])
            && |s| > 0 && s[0] != ':' && !IsSpace(s[0])
  {
    hide OccurAt, SkipSpaces, BinaryOperandAt, StartsWith, OpText, SignText, NoPrefix, Spaces;
    SignReads(sign, input);
    SignedOpens(sign, input);
    NoGap(SignText(sign) + input);
    SkipGap(gap, SignText(sign) + input);
    OpReads(op, gap, SignText(sign) + input);
  }

  // --- one operand -------------------------------------------------------------------------------------

  // Nothing but AND and OR begins with these letters.
  lemma {:induction false} FirstDecides(input: string)
    requires |input| > 0 && (input[0] == '*' || input[0] == 'N' || input[0] == '(')
    ensures NoPrefix(input)
  {
  }

  lemma {:induction false} OpensDecides(text: string, t: string)
    requires Opens(text) && !Keyword(text + t)
    ensures NoPrefix(text + t)
  {
    assert (text + t)[0] == text[0];
  }

  lemma {:induction false} FieldShape(name: string, inside: string, trail: string, t: string)
    ensures name + ("(" + (inside + (trail + ")"))) + t == name + ("(" + (inside + (trail + (")" + t))))
    ensures "(" + (inside + (trail + ")")) + t == "(" + (inside + (trail + (")" + t)))
  {
  }

  lemma {:induction false} BodyOpens(g: Grammar, b: Body, t: string)
    requires Legal(g) && Writable(g, b) && AfterBody(t)
    ensures NoPrefix(Print(b) + t)
  {
    hide PrintAll, GroupHead, AllWritable, SkipSpaces, NoPrefix, Keyword, Opens, AfterBody, StarAlone, Legal;
    match b
    case Word(text, ast) =>
      assert g.literal(text + t) == Parsed(t, Some(ast), []);
      OpensDecides(text, t);
    case Star => FirstDecides(Print(b) + t);
    case Not(_, _) => FirstDecides(Print(b) + t);
    case Paren(_, _) => FirstDecides(Print(b) + t);
    case InField(name, f, items, trail) =>
      var tail := PrintAll(items) + (trail + (")" + t));
      FieldShape(name, PrintAll(items), trail, t);
      assert g.field(name + ("(" + tail)) == Some(("(" + tail, f));
      OpensDecides(name, "(" + tail);
  }

  lemma {:induction false} LeafParen(g: Grammar, rest: string)
    requires Legal(g)
    ensures var q := CloseGroup(AstIn(g, rest)); LeafAt(g, "(" + rest) == Parsed(q.rest, Some(q.output), q.errors)
  {
    hide AstIn, CloseGroup, StartsWith, Legal;
    BeginsWith("(", rest);
  }

  lemma {:induction false} LeafStar(g: Grammar, t: string)
    requires Legal(g) && AfterBody(t)
    ensures LeafAt(g, "*" + t) == Parsed(t, Some(Leaf(ALL)), [])
  {
    hide AstIn, CloseGroup, StartsWith, Legal, SkipSpaces;
    BeginsOtherwise("*" + t, "(");
    assert ("*" + t)[1..] == t;
    assert StarAlone("*" + t);
  }

  lemma {:induction false} LeafNot(g: Grammar, gap: string, rest: string)
    requires Legal(g) && Spaces(gap) && |rest| > 0 && !IsSpace(rest[0])
    ensures LeafAt(g, "NOT " + (gap + rest)) == Negated(LeafAt(g, rest))
  {
    hide AstIn, CloseGroup, StartsWith, Legal, SkipSpaces, Negated, Spaces;
    var input := "NOT " + (gap + rest);
    BeginsOtherwise(input, "(");
    BeginsWith("NOT ", gap + rest);
    SkipGap(gap, rest);
    assert !StarAlone(input);
  }

  // Where no other alternative opens.
  lemma {:induction false} LiteralAt(g: Grammar, input: string)
    requires Legal(g) && !StartsWith(input, "(") && !StarAlone(input) && !StartsWith(input, "NOT ")
    requires GroupHead(g, input).None?
    ensures LeafAt(g, input) == g.literal(input)
  {
    hide AstIn, CloseGroup, StartsWith, Legal, SkipSpaces, StarAlone, GroupHead;
  }

  lemma {:induction false} LeafWord(g: Grammar, text: string, ast: Ast, t: string)
    requires Legal(g) && ReadsWord(g, text, ast) && AfterBody(t)
    ensures LeafAt(g, text + t) == Parsed(t, Some(ast), [])
  {
    hide LeafAt, StartsWith, Legal, SkipSpaces, StarAlone, GroupHead, AfterBody;
    BeginsOtherwise(text + t, "(");
    assert g.literal(text + t) == Parsed(t, Some(ast), []);
    LiteralAt(g, text + t);
  }

  lemma {:induction false} HeadReads(g: Grammar, name: string, f: nat, rest: string)
    requires Legal(g) && ReadsField(g, name, f)
    ensures GroupHead(g, name + ("(" + rest)) == Some((SkipSpaces(rest), f))
  {
    hide SkipSpaces, StartsWith, Opens, Keyword, IsSuffix;
    assert g.field(name + ("(" + rest)) == Some(("(" + rest, f));
    NoGap("(" + rest);
    BeginsWith("(", rest);
  }

  lemma {:induction false} LeafField(g: Grammar, name: string, f: nat, rest: string)
    requires Legal(g) && ReadsField(g, name, f)
    ensures var q := CloseGroup(AstIn(g, SkipSpaces(rest)));
            LeafAt(g, name + ("(" + rest)) == Parsed(q.rest, Some(SetDefaultField(q.output, f, g.inField)), q.errors)
  {
    hide AstIn, CloseGroup, StartsWith, Legal, SkipSpaces, GroupHead, SetDefaultField;
    var input := name + ("(" + rest);
    assert g.field(input) == Some(("(" + rest, f));
    BeginsOtherwise(input, "(");
    assert !StarAlone(input);
    HeadReads(g, name, f, rest);
  }

  lemma {:induction false} CloseReads(q: Parsed<Ast>, t: string)
    requires q.rest == ")" + t
    ensures CloseGroup(q) == Parsed(t, q.output, q.errors)
  {
    hide StartsWith;
    BeginsWith(")", t);
    assert q.errors + [] == q.errors;
  }

  lemma {:induction false} NotClosed(q: Parsed<Ast>)
    requires q.rest == ""
    ensures CloseGroup(q) == Parsed("", q.output, q.errors + [LenientErrorInternal(0, "expected ')'")])
  {
  }

  // --- lists -------------------------------------------------------------------------------------------

  // After white space a list ends at the end of the input or at a closing parenthesis.
  predicate Ends(u: string) {
    |SkipSpaces(u)| == 0 || SkipSpaces(u)[0] == ')'
  }

  lemma {:induction false} TrailEnds(trail: string, t: string)
    requires Spaces(trail) && (t == "" || t[0] == ')')
    ensures Ends(trail + t) && SkipSpaces(trail + t) == t
  {
    hide SkipSpaces;
    SkipGap(trail, t);
  }

  lemma {:induction false} NothingMore(g: Grammar, u: string)
    requires Legal(g) && Stops(g) && Ends(u)
    ensures MoreOperands(g, u) == Parsed(u, [], [])
  {
    hide MoreOperands, OperandAt, SkipSpaces, Legal, Stops;
    NoOperandAtEnd(g, SkipSpaces(u));
    EndStops(g, u);
  }

  lemma {:induction false} EndStops(g: Grammar, u: string)
    requires Legal(g) && OperandAt(g, SkipSpaces(u)).rest == SkipSpaces(u)
    ensures MoreOperands(g, u) == Parsed(u, [], [])
  {
    hide OperandAt, Legal, SkipSpaces, IsSuffix;
  }

  lemma {:induction false} NoOperandAtEnd(g: Grammar, t: string)
    requires Legal(g) && Stops(g) && (t == "" || t[0] == ')')
    ensures OperandAt(g, t).rest == t
  {
    hide Legal, PrefixAt, LeafAt;
    NoPrefixAtEnd(t);
    NoLeafAtEnd(g, t);
    assert g.boost(t) == Parsed(t, None, []);
  }

  lemma {:induction false} NoPrefixAtEnd(t: string)
    requires t == "" || t[0] == ')'
    ensures PrefixAt(t).rest == t
  {
    NoGap(t);
  }

  lemma {:induction false} NoLeafAtEnd(g: Grammar, t: string)
    requires Legal(g) && Stops(g) && (t == "" || t[0] == ')')
    ensures LeafAt(g, t).rest == t
  {
    hide AstIn, StartsWith, IsSuffix, LeafAt, SkipSpaces;
    assert g.field(t).None? && |g.literal(t).rest| == |t|;
    assert Fits(g.literal(t), t);
    assert !StartsWith(t, "(") && !StartsWith(t, "NOT ") by { EndIsNoToken(t); }
    LiteralAt(g, t);
    WholeSuffix(g.literal(t).rest, t);
  }

  lemma {:induction false} EndIsNoToken(t: string)
    requires t == "" || t[0] == ')'
    ensures !StartsWith(t, "(") && !StartsWith(t, "NOT ")
  {
  }

  lemma {:induction false} WholeSuffix(rest: string, t: string)
    requires IsSuffix(rest, t) && |rest| == |t|
    ensures rest == t
  {
  }

  lemma {:induction false} ItemOpens(g: Grammar, it: Item, t: string)
    requires Legal(g) && ItemWritable(g, it) && After(t)
    ensures var s := PrintItem(it) + t; |s| > 0 && s[0] != ':' && !IsSpace(s[0])
    ensures |PrintItem(it)| > 0
  {
    hide Print, After, OpText, SignText, NoPrefix, PrefixAt, Legal, Writable, Spaces;
    var tail := SuffixText(it) + t;
    SuffixAfterBody(g, it, t);
    BodyOpens(g, it.body, tail);
    PrefixReads(it.op, it.gap, it.sign, Print(it.body) + tail);
    ItemShape(it, t);
    BodyNotEmpty(g, it.body);
  }

  function SuffixText(it: Item): (s: string)
  {
    if it.suffix.Some? then it.suffix.value.text else ""
  }

  lemma {:induction false} ItemShape(it: Item, t: string)
    ensures PrintItem(it) + t == OpText(it.op, it.gap) + (SignText(it.sign) + (Print(it.body) + (SuffixText(it) + t)))
    ensures |PrintItem(it)| >= |Print(it.body)|
  {
    hide Print, OpText, SignText;
  }

  lemma {:induction false} SuffixAfterBody(g: Grammar, it: Item, t: string)
    requires Legal(g) && ItemWritable(g, it) && After(t)
    ensures AfterBody(SuffixText(it) + t)
  {
    hide After, Writable, Legal;
    if it.suffix.None? {
      assert "" + t == t;
    }
  }

  lemma {:induction false} BodyNotEmpty(g: Grammar, b: Body)
    requires Legal(g) && Writable(g, b)
    ensures |Print(b)| > 0
  {
    hide Legal, PrintAll, AllWritable, GroupHead;
  }

  lemma {:induction false} NotEmpty(g: Grammar, items: seq<Item>)
    requires Legal(g) && AllWritable(g, items)
    ensures |items| > 0 && ItemWritable(g, items[0])
    ensures |items| > 1 ==> AllWritable(g, items[1..]) && |items[1..][0].space| > 0
  {
    hide Legal, ItemWritable;
  }

  // What follows an operand of the list.
  lemma {:induction false} RestIsAfter(g: Grammar, items: seq<Item>, t: string)
    requires Legal(g) && Ends(t)
    requires |items| > 0 ==> AllWritable(g, items) && |items[0].space| > 0
    ensures After(PrintAll(items) + t)
  {
    if |items| == 0 {
      assert "" + t == t;
      EndIsAfter(t);
    } else {
      hide *;
      AllShape(items, t);
      NotEmpty(g, items);
      RestIsAfter(g, items[1..], t);
      ItemIsAfter(g, items[0], PrintAll(items[1..]) + t);
    }
  }

  lemma {:induction false} EndIsAfter(u: string)
    requires Ends(u)
    ensures After(u)
  {
  }

  lemma {:induction false} AllShape(items: seq<Item>, t: string)
    requires |items| > 0
    ensures PrintAll(items) + t == items[0].space + (PrintItem(items[0]) + (PrintAll(items[1..]) + t))
  {
    hide PrintItem;
  }

  lemma {:induction false} ItemIsAfter(g: Grammar, it: Item, t: string)
    requires Legal(g) && ItemWritable(g, it) && |it.space| > 0 && After(t)
    ensures After(it.space + (PrintItem(it) + t))
  {
    hide *;
    ItemOpens(g, it, t);
    SpacesOf(g, it);
    SkipGap(it.space, PrintItem(it) + t);
    SpacesFirst(it.space, PrintItem(it) + t);
  }

  lemma {:induction false} SpacesOf(g: Grammar, it: Item)
    requires Legal(g) && ItemWritable(g, it)
    ensures Spaces(it.space)
  {
    hide Legal, Writable;
  }

  lemma {:induction false} SpacesFirst(gap: string, s: string)
    requires Spaces(gap) && |gap| > 0 && |s| > 0 && s[0] != ':' && SkipSpaces(gap + s) == s
    ensures After(gap + s)
  {
    hide SkipSpaces;
    assert (gap + s)[0] == gap[0];
  }

  // --- the parser reads what was written ----------------------------------------------------------------

  lemma {:induction false} BodyReads(g: Grammar, b: Body, t: string)
    requires Legal(g) && Stops(g) && Writable(g, b) && AfterBody(t)
    ensures LeafAt(g, Print(b) + t) == Parsed(t, Some(Tree(g, b)), [])
    decreases b, 0
  {
    hide LeafAt, Print, PrintAll, Tree, Meant, Legal, Stops, After, AfterBody, AllWritable, AstIn, ReadsWord, Ends,
         ReadsField, Aggregated, ToInternal, EarlyOperator;
    match b
    case Word(_, _) =>
      WordReads(g, b, t);
    case Star =>
      StarReads(g, t);
    case Not(gap, inner) =>
      BodyReads(g, inner, t);
      NotReads(g, gap, inner, t);
    case Paren(items, trail) =>
      TrailEnds(trail, ")" + t);
      AllRead(g, items, trail + (")" + t));
      NotEmpty(g, items);
      ParenReads(g, items, trail, t);
    case InField(name, f, items, trail) =>
      TrailEnds(trail, ")" + t);
      AllRead(g, items, trail + (")" + t));
      NotEmpty(g, items);
      FieldReads(g, name, f, items, trail, t);
  }

  lemma {:induction false} WordReads(g: Grammar, b: Body, t: string)
    requires Legal(g) && Writable(g, b) && AfterBody(t) && b.Word?
    ensures LeafAt(g, Print(b) + t) == Parsed(t, Some(Tree(g, b)), [])
  {
    hide LeafAt, AfterBody, Legal;
    LeafWord(g, b.text, b.ast, t);
  }

  lemma {:induction false} StarReads(g: Grammar, t: string)
    requires Legal(g) && AfterBody(t)
    ensures LeafAt(g, Print(Star) + t) == Parsed(t, Some(Tree(g, Star)), [])
  {
    hide LeafAt, AfterBody, Legal;
    LeafStar(g, t);
  }

  lemma {:induction false} NotReads(g: Grammar, gap: string, inner: Body, t: string)
    requires Legal(g) && Spaces(gap) && Writable(g, inner) && AfterBody(t)
    requires LeafAt(g, Print(inner) + t) == Parsed(t, Some(Tree(g, inner)), [])
    ensures var b := Not(gap, inner); LeafAt(g, Print(b) + t) == Parsed(t, Some(Tree(g, b)), [])
  {
    hide LeafAt, Legal, Writable, AfterBody, StartsWith, Spaces;
    assert Print(Not(gap, inner)) + t == "NOT " + (gap + (Print(inner) + t));
    BodyOpens(g, inner, t);
    LeafNot(g, gap, Print(inner) + t);
  }

  // What is read of a list of items: all of them, and an error when the first has an operator.
  ghost predicate Reads(g: Grammar, items: seq<Item>, input: string, t: string)
    requires Legal(g)
  {
    AstIn(g, input) == Parsed(t, Aggregated(Meant(g, items)), ToInternal(EarlyOperator(Meant(g, items))))
  }

  lemma {:induction false} NoEarlyError(g: Grammar, items: seq<Item>)
    requires |items| > 0 && items[0].op.None?
    ensures ToInternal(EarlyOperator(Meant(g, items))) == []
  {
    hide ItemTree;
  }

  lemma {:induction false} ParenReads(g: Grammar, items: seq<Item>, trail: string, t: string)
    requires Legal(g) && |items| > 0 && items[0].op.None?
    requires Reads(g, items, PrintAll(items) + (trail + (")" + t)), ")" + t)
    ensures var b := Paren(items, trail); LeafAt(g, Print(b) + t) == Parsed(t, Some(Tree(g, b)), [])
  {
    hide LeafAt, Legal, AstIn, Aggregated, Meant, CloseGroup, ToInternal, EarlyOperator, PrintAll;
    var rest := PrintAll(items) + (trail + (")" + t));
    FieldShape("", PrintAll(items), trail, t);
    NoEarlyError(g, items);
    LeafParen(g, rest);
    CloseReads(AstIn(g, rest), t);
  }

  lemma {:induction false} FieldReads(g: Grammar, name: string, f: nat, items: seq<Item>, trail: string, t: string)
    requires Legal(g) && ReadsField(g, name, f) && |items| > 0 && items[0].op.None?
    requires Reads(g, items, PrintAll(items) + (trail + (")" + t)), ")" + t)
    ensures var b := InField(name, f, items, trail); LeafAt(g, Print(b) + t) == Parsed(t, Some(Tree(g, b)), [])
  {
    hide LeafAt, Legal, AstIn, Aggregated, Meant, CloseGroup, ToInternal, EarlyOperator, SetDefaultField, ReadsField,
         PrintAll;
    var rest := PrintAll(items) + (trail + (")" + t));
    FieldShape(name, PrintAll(items), trail, t);
    NoEarlyError(g, items);
    LeafField(g, name, f, rest);
    SkipTwice(g, rest);
    CloseReads(AstIn(g, rest), t);
  }

  lemma {:induction false} SkipTwice(g: Grammar, input: string)
    requires Legal(g)
    ensures AstIn(g, SkipSpaces(input)) == AstIn(g, input)
  {
    hide OperandsAt, Legal, Query;
    NoGap(SkipSpaces(input));
  }

  lemma {:induction false} ItemReads(g: Grammar, it: Item, t: string)
    requires Legal(g) && Stops(g) && ItemWritable(g, it) && After(t)
    ensures OperandAt(g, PrintItem(it) + t) == Parsed(t, Operand(it.op, it.sign, Some(ItemTree(g, it))), [])
    decreases it, 1
  {
    var tail := SuffixText(it) + t;
    SuffixAfterBody(g, it, t);
    BodyReads(g, it.body, tail);
    BodyOpens(g, it.body, tail);
    hide *;
    OperandReads(g, it, t);
  }

  lemma {:induction false} OperandReads(g: Grammar, it: Item, t: string)
    requires Legal(g) && Stops(g) && ItemWritable(g, it) && After(t)
    requires NoPrefix(Print(it.body) + (SuffixText(it) + t))
    requires LeafAt(g, Print(it.body) + (SuffixText(it) + t)) == Parsed(SuffixText(it) + t, Some(Tree(g, it.body)), [])
    ensures OperandAt(g, PrintItem(it) + t) == Parsed(t, Operand(it.op, it.sign, Some(ItemTree(g, it))), [])
  {
    hide LeafAt, Legal, PrintItem, Print, OpText, SignText, PrefixAt, NoPrefix, Tree, Writable, After, Spaces;
    var body := Print(it.body) + (SuffixText(it) + t);
    ItemShape(it, t);
    PrefixReads(it.op, it.gap, it.sign, body);
    SuffixReads(g, it, t);
  }

  lemma {:induction false} SuffixReads(g: Grammar, it: Item, t: string)
    requires Legal(g) && Stops(g) && ItemWritable(g, it) && After(t)
    ensures g.boost(SuffixText(it) + t)
         == Parsed(t, if it.suffix.Some? then Some(it.suffix.value.boost) else None, [])
  {
    hide Legal, Writable;
    if it.suffix.None? {
      assert "" + t == t;
    }
  }

  lemma {:induction false} MoreRead(g: Grammar, items: seq<Item>, t: string)
    requires Legal(g) && Stops(g) && Ends(t)
    requires |items| > 0 ==> AllWritable(g, items) && |items[0].space| > 0
    ensures MoreOperands(g, PrintAll(items) + t) == Parsed(t, Parsable(Meant(g, items)), [])
    decreases items, 2
  {
    if |items| == 0 {
      assert "" + t == t;
      NothingMore(g, t);
    } else {
      hide *;
      NotEmpty(g, items);
      RestIsAfter(g, items[1..], t);
      ItemReads(g, items[0], PrintAll(items[1..]) + t);
      MoreRead(g, items[1..], t);
      MoreStep(g, items, t);
    }
  }

  lemma {:induction false} MoreStep(g: Grammar, items: seq<Item>, t: string)
    requires Legal(g) && |items| > 0 && ItemWritable(g, items[0]) && |items[0].space| > 0
    requires After(PrintAll(items[1..]) + t)
    requires OperandAt(g, PrintItem(items[0]) + (PrintAll(items[1..]) + t))
          == Parsed(PrintAll(items[1..]) + t, Operand(items[0].op, items[0].sign, Some(ItemTree(g, items[0]))), [])
    requires MoreOperands(g, PrintAll(items[1..]) + t) == Parsed(t, Parsable(Meant(g, items[1..])), [])
    ensures MoreOperands(g, PrintAll(items) + t) == Parsed(t, Parsable(Meant(g, items)), [])
  {
    hide *;
    AllShape(items, t);
    var it, tail := items[0], PrintAll(items[1..]) + t;
    ItemOpens(g, it, tail);
    SpacesOf(g, it);
    GapReads(it.space, PrintItem(it) + tail);
    MoreIs(g, it.space + (PrintItem(it) + tail), PrintItem(it) + tail, tail, t,
           Operand(it.op, it.sign, Some(ItemTree(g, it))), Parsable(Meant(g, items[1..])), []);
    ParsableCons(g, items);
  }

  lemma {:induction false} GapReads(gap: string, s: string)
    requires Spaces(gap) && |gap| > 0 && |s| > 0 && !IsSpace(s[0])
    ensures Space1(gap + s) == Parsed(s, (), [])
  {
    hide SkipSpaces;
    SkipGap(gap, s);
  }

  lemma {:induction false} MoreIs(g: Grammar, input: string, s: string, tail: string, t: string, o: Operand,
                                  more: seq<Operand>, errors: seq<LenientErrorInternal>)
    requires Legal(g) && Space1(input) == Parsed(s, (), errors) && OperandAt(g, s) == Parsed(tail, o, [])
    requires |tail| != |s| && MoreOperands(g, tail) == Parsed(t, more, [])
    ensures MoreOperands(g, input) == Parsed(t, [o] + more, errors)
  {
    hide Legal, Space1, OperandAt;
    assert errors + [] + [] == errors;
  }

  lemma {:induction false} ParsableCons(g: Grammar, items: seq<Item>)
    requires |items| > 0
    ensures Parsable(Meant(g, items))
         == [Operand(items[0].op, items[0].sign, Some(ItemTree(g, items[0])))] + Parsable(Meant(g, items[1..]))
  {
    hide ItemTree;
  }

  lemma {:induction false} PresentAll(leafs: seq<Present>)
    ensures PresentOperands(Parsable(leafs)) == leafs
  {
    if |leafs| > 0 {
      var n := |leafs| - 1;
      PresentAll(leafs[..n]);
      assert Parsable(leafs)[..n] == Parsable(leafs[..n]);
      assert leafs == leafs[..n] + [leafs[n]];
    }
  }

  // Exactly the operands that were written, with no error, whatever is nested inside them.
  lemma {:induction false} AllRead(g: Grammar, items: seq<Item>, t: string)
    requires Legal(g) && Stops(g) && AllWritable(g, items) && Ends(t)
    ensures OperandsAt(g, SkipSpaces(PrintAll(items) + t)) == Parsed(t, Parsable(Meant(g, items)), [])
    ensures Reads(g, items, PrintAll(items) + t, SkipSpaces(t))
    decreases items, 3
  {
    hide *;
    NotEmpty(g, items);
    RestIsAfter(g, items[1..], t);
    ItemReads(g, items[0], PrintAll(items[1..]) + t);
    MoreRead(g, items[1..], t);
    ListReads(g, items, t);
    QueryReads(g, items, PrintAll(items) + t, t);
  }

  lemma {:induction false} ListReads(g: Grammar, items: seq<Item>, t: string)
    requires Legal(g) && |items| > 0 && ItemWritable(g, items[0])
    requires After(PrintAll(items[1..]) + t)
    requires OperandAt(g, PrintItem(items[0]) + (PrintAll(items[1..]) + t))
          == Parsed(PrintAll(items[1..]) + t, Operand(items[0].op, items[0].sign, Some(ItemTree(g, items[0]))), [])
    requires MoreOperands(g, PrintAll(items[1..]) + t) == Parsed(t, Parsable(Meant(g, items[1..])), [])
    ensures OperandsAt(g, SkipSpaces(PrintAll(items) + t)) == Parsed(t, Parsable(Meant(g, items)), [])
  {
    hide Legal, OperandAt, MoreOperands, PrintItem, ItemTree, After, SkipSpaces, ItemWritable;
    var it, tail := items[0], PrintAll(items[1..]) + t;
    ItemOpens(g, it, tail);
    SpacesOf(g, it);
    SkipGap(it.space, PrintItem(it) + tail);
    AllShape(items, t);
    ParsableCons(g, items);
  }

  lemma {:induction false} QueryReads(g: Grammar, items: seq<Item>, input: string, t: string)
    requires Legal(g)
    requires OperandsAt(g, SkipSpaces(input)) == Parsed(t, Parsable(Meant(g, items)), [])
    ensures Reads(g, items, input, SkipSpaces(t))
  {
    hide Legal, OperandsAt, SkipSpaces, Aggregated, ToInternal, EarlyOperator, Meant, PresentOperands;
    PresentAll(Meant(g, items));
    assert [] + ToInternal(EarlyOperator(Meant(g, items))) == ToInternal(EarlyOperator(Meant(g, items)));
  }

  // --- what written queries match ------------------------------------------------------------------------

  lemma {:induction false} MeantAt(g: Grammar, items: seq<Item>, i: nat)
    requires i < |items|
    ensures Meant(g, items)[i] == Present(items[i].op, items[i].sign, ItemTree(g, items[i]))
  {
    hide ItemTree;
    if i > 0 {
      MeantAt(g, items[1..], i - 1);
    }
  }

  lemma {:induction false} MeantSigned(g: Grammar, items: seq<Item>)
    requires Legal(g) && AllWritable(g, items)
    ensures Signed(Meant(g, items))
  {
    hide Legal, ItemTree, Writable;
    forall i | 0 <= i < |items| ensures Meant(g, items)[i].occur != Some(Should) {
      MeantAt(g, items, i);
      assert ItemWritable(g, items[i]);
    }
  }

  // A whole query is read to its end and matches what its operands ask for; the only error is
  // an operator before the first of them.
  lemma {:induction false} WrittenMeaning(g: Grammar, items: seq<Item>, trail: string, doc: Document)
    requires Legal(g) && Stops(g) && AllWritable(g, items) && Spaces(trail)
    ensures var parsed := AstIn(g, PrintAll(items) + trail);
            && parsed.rest == ""
            && parsed.errors == (if items[0].op.None? then []
                                 else [LenientErrorInternal(0, "Found unexpected boolean operator before term")])
            && (Matches(parsed.output, doc) <==> Wanted(Meant(g, items), doc))
  {
    hide Legal, Stops, AllWritable, AstIn, Aggregated, Matches, Wanted, PrintAll, ItemTree, Spaces;
    NotEmpty(g, items);
    AllReadTo(g, items, trail, "");
    assert trail + "" == trail;
    MeantSigned(g, items);
    AggregateMeaning(Meant(g, items), doc);
    MeantAt(g, items, 0);
    EarlyErrors(Meant(g, items));
  }

  lemma {:induction false} AllReadTo(g: Grammar, items: seq<Item>, trail: string, t: string)
    requires Legal(g) && Stops(g) && AllWritable(g, items) && Spaces(trail) && (t == "" || t[0] == ')')
    ensures Reads(g, items, PrintAll(items) + (trail + t), t)
  {
    hide *;
    TrailEnds(trail, t);
    AllRead(g, items, trail + t);
  }

  lemma {:induction false} EarlyErrors(leafs: seq<Present>)
    requires |leafs| > 0
    ensures ToInternal(EarlyOperator(leafs))
         == if leafs[0].op.None? then []
            else [LenientErrorInternal(0, "Found unexpected boolean operator before term")]
  {
    assert [UnexpectedOperator][..0] == [];
  }

  // What each kind of operand matches, at every depth.
  lemma {:induction false} BodyMeaning(g: Grammar, b: Body, doc: Document)
    requires Legal(g) && Writable(g, b)
    ensures Matches(Tree(g, b), doc) <==>
              match b
              case Word(_, ast) => Matches(ast, doc)
              case Star => doc(ALL)
              case Not(_, inner) => !Matches(Tree(g, inner), doc)
              case Paren(items, _) => Wanted(Meant(g, items), doc)
              case InField(_, f, items, _) => Wanted(Meant(g, items), Restrict(doc, f, g.inField))
  {
    hide Legal, Aggregated, Wanted, AllWritable, Meant, SetDefaultField, ReadsField, ReadsWord;
    match b
    case Word(_, _) =>
    case Star =>
    case Not(_, inner) =>
      SingletonClause(Child(Some(MustNot), Tree(g, inner)), doc);
    case Paren(items, _) =>
      MeantSigned(g, items);
      AggregateMeaning(Meant(g, items), doc);
    case InField(_, f, items, _) =>
      MeantSigned(g, items);
      FieldMeaning(Aggregated(Meant(g, items)), f, g.inField, doc);
      AggregateMeaning(Meant(g, items), Restrict(doc, f, g.inField));
  }

  // --- broken queries ---------------------------------------------------------------------------------

  // What follows the query, from a stray closing parenthesis on, is left over.
  lemma {:induction false} StrayEnd(g: Grammar, items: seq<Item>, trail: string, junk: string)
    requires Legal(g) && Stops(g) && AllWritable(g, items) && items[0].op.None? && Spaces(trail)
    ensures AstIn(g, PrintAll(items) + (trail + (")" + junk))) == Parsed(")" + junk, Aggregated(Meant(g, items)), [])
  {
    hide Legal, Stops, AllWritable, AstIn, Aggregated, PrintAll, Meant, ToInternal, EarlyOperator, Spaces;
    NotEmpty(g, items);
    NoEarlyError(g, items);
    AllReadTo(g, items, trail, ")" + junk);
  }

  function Opening(n: nat): (s: string)
  {
    if n == 0 then "" else "(" + Opening(n - 1)
  }

  function MissingCloses(n: nat): (errors: seq<LenientErrorInternal>)
  {
    if n == 0 then [] else MissingCloses(n - 1) + [LenientErrorInternal(0, "expected ')'")]
  }

  // However many groups are never closed, the query inside is read all the same, and each
  // missing parenthesis is recorded at the end.
  lemma {:induction false} Unclosed(g: Grammar, items: seq<Item>, trail: string, n: nat)
    requires Legal(g) && Stops(g) && AllWritable(g, items) && items[0].op.None? && Spaces(trail)
    ensures AstIn(g, Opening(n) + (PrintAll(items) + trail)) == Parsed("", Aggregated(Meant(g, items)), MissingCloses(n))
  {
    hide Legal, Stops, AllWritable, AstIn, LeafAt, CloseGroup, Aggregated, PrintAll, Meant, ToInternal, EarlyOperator,
         Spaces, NoPrefix;
    var inside := PrintAll(items) + trail;
    if n == 0 {
      NotEmpty(g, items);
      NoEarlyError(g, items);
      AllReadTo(g, items, trail, "");
      assert trail + "" == trail && "" + inside == inside;
    } else {
      Unclosed(g, items, trail, n - 1);
      var rest := Opening(n - 1) + inside;
      assert Opening(n) + inside == "(" + rest;
      LeafParen(g, rest);
      NotClosed(AstIn(g, rest));
      FirstDecides("(" + rest);
      OneOperandQuery(g, "(" + rest, Aggregated(Meant(g, items)), MissingCloses(n));
    }
  }

  // A query of one operand without operator and sign is that operand.
  lemma {:induction false} OneOperandQuery(g: Grammar, input: string, tree: Ast, errors: seq<LenientErrorInternal>)
    requires Legal(g) && Stops(g) && NoPrefix(input) && LeafAt(g, input) == Parsed("", Some(tree), errors)
    ensures AstIn(g, input) == Parsed("", tree, errors)
  {
    hide Legal, LeafAt, OperandAt, MoreOperands, SkipSpaces, StartsWith, Query;
    PlainOperand(g, input, "", tree, errors);
    NoGap(input);
    NoGap("");
    NothingMore(g, "");
    var o := Operand(None, None, Some(tree));
    assert [o] + [] == [o] && errors + [] == errors;
    OneOperandTree(tree, errors);
  }

  lemma {:induction false} OneOperandTree(tree: Ast, errors: seq<LenientErrorInternal>)
    ensures Query(Parsed("", [Operand(None, None, Some(tree))], errors)) == Parsed("", tree, errors)
  {
    hide PresentOperands, Aggregated, SkipSpaces, ToInternal;
    var leaf := Present(None, None, tree);
    PresentAll([leaf]);
    assert Parsable([leaf]) == [Operand(None, None, Some(tree))];
    AggregatedShape([leaf]);
    EarlyErrors([leaf]);
    NoGap("");
    assert errors + [] == errors;
  }

  lemma {:induction false} PlainOperand(g: Grammar, input: string, t: string, tree: Ast,
                                        errors: seq<LenientErrorInternal>)
    requires Legal(g) && Stops(g) && NoPrefix(input) && LeafAt(g, input) == Parsed(t, Some(tree), errors)
    requires t == "" || t[0] != '^'
    ensures OperandAt(g, input) == Parsed(t, Operand(None, None, Some(tree)), errors)
  {
    hide Legal, LeafAt, PrefixAt, NoPrefix;
    PrefixReads(None, "", None, input);
    assert OpText(None, "") + (SignText(None) + input) == input;
    assert g.boost(t) == Parsed(t, None, []);
    assert errors + [] == errors;
  }

  // Two groups that touch are both read, and the missing space is recorded where the second
  // begins.
  lemma {:induction false} MissingSpace(g: Grammar, a: Body, b: Body)
    requires Legal(g) && Stops(g) && a.Paren? && b.Paren? && Writable(g, a) && Writable(g, b)
    ensures OperandsAt(g, Print(a) + Print(b))
         == Parsed("", [Operand(None, None, Some(Tree(g, a))), Operand(None, None, Some(Tree(g, b)))],
                   [LenientErrorInternal(|Print(b)|, "missing space")])
  {
    hide Legal, Stops, Writable, OperandAt, MoreOperands, Print, Tree, SkipSpaces;
    var second := Print(b);
    ParenOpens(b);
    GroupAt(g, a, second);
    GroupAt(g, b, "");
    assert second + "" == second;
    NoGap("");
    NothingMore(g, "");
    var x, y := Operand(None, None, Some(Tree(g, a))), Operand(None, None, Some(Tree(g, b)));
    Touching(g, second, y);
    assert [x] + [y] == [x, y];
    var missing := [LenientErrorInternal(|second|, "missing space")];
    assert [] + missing == missing;
  }

  lemma {:induction false} Touching(g: Grammar, s: string, o: Operand)
    requires Legal(g) && |s| > 0 && !IsSpace(s[0]) && OperandAt(g, s) == Parsed("", o, [])
    requires MoreOperands(g, "") == Parsed("", [], [])
    ensures MoreOperands(g, s) == Parsed("", [o], [LenientErrorInternal(|s|, "missing space")])
  {
    hide *;
    NoSpace(s);
    MoreIs(g, s, s, "", "", o, [], [LenientErrorInternal(|s|, "missing space")]);
    assert [o] + [] == [o];
  }

  lemma {:induction false} NoSpace(s: string)
    requires |s| > 0 && !IsSpace(s[0])
    ensures Space1(s) == Parsed(s, (), [LenientErrorInternal(|s|, "missing space")])
  {
    hide SkipSpaces;
    NoGap(s);
  }

  lemma {:induction false} ParenOpens(b: Body)
    requires b.Paren?
    ensures |Print(b)| > 0 && Print(b)[0] == '('
  {
  }

  lemma {:induction false} GroupAt(g: Grammar, b: Body, t: string)
    requires Legal(g) && Stops(g) && b.Paren? && Writable(g, b) && (t == "" || t[0] == '(')
    ensures OperandAt(g, Print(b) + t) == Parsed(t, Operand(None, None, Some(Tree(g, b))), [])
  {
    hide Legal, LeafAt, Print, PrintAll, Tree, AllWritable, AstIn, OperandAt, Spaces, Stops, NoPrefix;
    AllReadTo(g, b.items, b.trail, ")" + t);
    NotEmpty(g, b.items);
    ParenReads(g, b.items, b.trail, t);
    ParenOpens(b);
    FirstDecides(Print(b) + t);
    PlainOperand(g, Print(b) + t, t, Tree(g, b), []);
  }

  // --- a negated word -----------------------------------------------------------------------------------

  // `u NOT v` is parsed and rewritten into: u, and not v.
  lemma {:induction false} NotInText(g: Grammar, u: string, a: nat, v: string, b: nat, doc: Document)
    requires Legal(g) && Stops(g) && ReadsWord(g, u, Leaf(a)) && ReadsWord(g, v, Leaf(b))
    ensures var parsed := AstIn(g, u + (" NOT " + v));
            && parsed.rest == "" && parsed.errors == []
            && Rewrite(parsed.output) == Clause([Child(None, Leaf(a)), Child(Some(MustNot), Leaf(b))])
            && (Matches(Rewrite(parsed.output), doc) <==> doc(a) && !doc(b))
  {
    hide Legal, Stops, AstIn, Aggregated, Rewrite, Matches, ReadsWord, ToInternal, EarlyOperator, Reads, ItemWritable,
         AllWritable, PrintAll, PrintItem, Meant, ItemTree;
    var first, second := WordItem("", u, a), NotItem(" ", v, b);
    WordItemIs(g, u, a);
    NotItemIs(g, v, b);
    TwoItems(g, first, second);
    assert u + (" " + ("NOT " + v)) == u + (" NOT " + v);
    NoEarlyError(g, [first, second]);
    AllReadTo(g, [first, second], "", "");
    WordNotWord(a, b, doc);
    ReadsToEnd(g, [first, second], u + (" NOT " + v));
  }

  lemma {:induction false} ReadsToEnd(g: Grammar, items: seq<Item>, input: string)
    requires Legal(g) && PrintAll(items) == input && Reads(g, items, PrintAll(items) + ("" + ""), "")
    requires ToInternal(EarlyOperator(Meant(g, items))) == []
    ensures AstIn(g, input) == Parsed("", Aggregated(Meant(g, items)), [])
  {
    hide AstIn, PrintAll, Aggregated, Meant, ToInternal, EarlyOperator, Legal;
    assert PrintAll(items) + ("" + "") == input;
  }

  function WordItem(space: string, text: string, l: nat): (it: Item)
  {
    Item(space, None, "", None, Word(text, Leaf(l)), None)
  }

  function NotItem(space: string, text: string, l: nat): (it: Item)
  {
    Item(space, None, "", None, Not("", Word(text, Leaf(l))), None)
  }

  lemma {:induction false} WordItemIs(g: Grammar, text: string, l: nat)
    requires Legal(g) && ReadsWord(g, text, Leaf(l))
    ensures var it := WordItem("", text, l);
            ItemWritable(g, it) && ItemTree(g, it) == Leaf(l) && it.space + PrintItem(it) == text
  {
    hide Legal, ReadsWord;
  }

  lemma {:induction false} NotItemIs(g: Grammar, text: string, l: nat)
    requires Legal(g) && ReadsWord(g, text, Leaf(l))
    ensures var it := NotItem(" ", text, l);
            && ItemWritable(g, it) && ItemTree(g, it) == Negation(Leaf(l))
            && it.space + PrintItem(it) == " " + ("NOT " + text)
  {
    hide Legal, ReadsWord;
    var word, it := Word(text, Leaf(l)), NotItem(" ", text, l);
    assert Writable(g, word) && Tree(g, word) == Leaf(l) && Print(word) == text;
    assert Writable(g, it.body) && Tree(g, it.body) == Negation(Leaf(l)) && Print(it.body) == "NOT " + text;
    assert PrintItem(it) == "NOT " + text;
  }

  lemma {:induction false} TwoItems(g: Grammar, first: Item, second: Item)
    requires Legal(g) && ItemWritable(g, first) && ItemWritable(g, second) && |second.space| > 0
    ensures AllWritable(g, [first, second])
    ensures PrintAll([first, second]) == (first.space + PrintItem(first)) + (second.space + PrintItem(second))
    ensures Meant(g, [first, second])
         == [Present(first.op, first.sign, ItemTree(g, first)), Present(second.op, second.sign, ItemTree(g, second))]
  {
    hide PrintItem, ItemTree, Legal, ItemWritable;
    assert [first, second][1..] == [second] && [second][1..] == [];
    assert PrintAll([second]) == second.space + PrintItem(second);
    assert Meant(g, [second]) == [Present(second.op, second.sign, ItemTree(g, second))];
  }
}
