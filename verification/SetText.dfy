/** Set literals written out as text, and the proof that the error-recovering loop reads them back. */
module SetText {
  import opened Collections
  import opened LenientParsing
  import opened QueryText

  // `space` is the white space before the element.
  datatype Element<T> = Element(space: string, text: string, value: T)

  function PrintElements<T>(es: seq<Element<T>>): (s: string)
  {
    if |es| == 0 then "" else es[0].space + (es[0].text + PrintElements(es[1..]))
  }

  function Values<T>(es: seq<Element<T>>): (vs: seq<T>)
  {
    if |es| == 0 then [] else [es[0].value] + Values(es[1..])
  }

  predicate AfterElement(t: string) {
    |t| == 0 || t[0] == ']' || IsSpace(t[0])
  }

  ghost predicate ReadsElement<T>(term: Parser<Option<T>>, e: Element<T>) {
    && Spaces(e.space) && |e.text| > 0 && !IsSpace(e.text[0]) && e.text[0] != ']'
    && (forall t :: AfterElement(t) ==> term(e.text + t) == Parsed(t, Some(e.value), []))
  }

  // Elements after the first are separated by white space.
  ghost predicate Readable<T>(term: Parser<Option<T>>, es: seq<Element<T>>) {
    forall i :: 0 <= i < |es| ==> ReadsElement(term, es[i]) && |es[i].space| > 0
  }

  // What may end the elements: a closing bracket, or nothing at all.
  predicate IsEnd(end: string) {
    end == "" || end[0] == ']'
  }

  function EndOf<T>(end: string, values: seq<T>): (r: SetResult<T>)
    requires IsEnd(end)
  {
    if end == "" then SetResult("", values, [LenientErrorInternal(0, "missing ]")]) else SetResult(end[1..], values, [])
  }

  lemma {:induction false} EndReads<T>(term: Parser<Option<T>>, trail: string, end: string)
    requires WellBehaved(term) && Spaces(trail) && IsEnd(end)
    ensures SetFrom(term, trail + end, false) == EndOf(end, [])
  {
    hide WellBehaved, SkipSpaces, Spaces;
    SkipGap(trail, end);
  }

  lemma {:induction false} ElementReads<T>(term: Parser<Option<T>>, input: string, firstRound: bool, e: Element<T>,
                                           tail: string)
    requires WellBehaved(term) && ReadsElement(term, e) && AfterElement(tail)
    requires (if firstRound then input else SkipSpaces(input)) == e.text + tail
    requires !firstRound ==> |e.text + tail| < |input|
    ensures var more := SetFrom(term, tail, false);
            SetFrom(term, input, firstRound) == SetResult(more.rest, [e.value] + more.elements, more.errs)
  {
    hide WellBehaved, SkipSpaces, Spaces, AfterElement;
    assert term(e.text + tail) == Parsed(tail, Some(e.value), []);
    assert (e.text + tail)[0] == e.text[0];
    var more := SetFrom(term, tail, false);
    assert [] + [] + more.errs == more.errs;
  }

  // An element that touches the one before is read, and the missing space is recorded.
  lemma {:induction false} TouchingElement<T>(term: Parser<Option<T>>, e: Element<T>, tail: string)
    requires WellBehaved(term) && ReadsElement(term, e) && AfterElement(tail)
    ensures var more := SetFrom(term, tail, false);
            SetFrom(term, e.text + tail, false)
            == SetResult(more.rest, [e.value] + more.elements,
                         [LenientErrorInternal(|e.text + tail|, "missing space")] + more.errs)
  {
    hide WellBehaved, SkipSpaces, Spaces, AfterElement;
    assert term(e.text + tail) == Parsed(tail, Some(e.value), []);
    assert (e.text + tail)[0] == e.text[0];
    NoGap(e.text + tail);
    var missing, more := [LenientErrorInternal(|e.text + tail|, "missing space")], SetFrom(term, tail, false);
    assert missing + [] + more.errs == missing + more.errs;
  }

  lemma {:induction false} TailIsAfter<T>(term: Parser<Option<T>>, es: seq<Element<T>>, trail: string, end: string)
    requires Readable(term, es) && Spaces(trail) && IsEnd(end)
    ensures AfterElement(PrintElements(es) + (trail + end))
  {
    var s := PrintElements(es) + (trail + end);
    if |es| > 0 {
      assert ReadsElement(term, es[0]);
      assert s[0] == es[0].space[0];
    } else {
      assert s == trail + end;
    }
  }

  lemma {:induction false} MoreElementsRead<T>(term: Parser<Option<T>>, es: seq<Element<T>>, trail: string, end: string)
    requires WellBehaved(term) && Readable(term, es) && Spaces(trail) && IsEnd(end)
    ensures SetFrom(term, PrintElements(es) + (trail + end), false) == EndOf(end, Values(es))
  {
    hide WellBehaved, SetFrom, Spaces, SkipSpaces, AfterElement, ReadsElement;
    if |es| == 0 {
      assert "" + (trail + end) == trail + end;
      EndReads(term, trail, end);
    } else {
      MoreElementsRead(term, es[1..], trail, end);
      var e, tail := es[0], PrintElements(es[1..]) + (trail + end);
      assert PrintElements(es) + (trail + end) == e.space + (e.text + tail);
      TailIsAfter(term, es[1..], trail, end);
      assert ReadsElement(term, e) && |e.space| > 0;
      GapBefore(term, e, tail);
      ElementReads(term, e.space + (e.text + tail), false, e, tail);
    }
  }

  lemma {:induction false} GapBefore<T>(term: Parser<Option<T>>, e: Element<T>, tail: string)
    requires ReadsElement(term, e)
    ensures SkipSpaces(e.space + (e.text + tail)) == e.text + tail
  {
    hide SkipSpaces, Spaces;
    SkipGap(e.space, e.text + tail);
  }

  // All elements are read, in order and without error, up to the closing bracket; when that is
  // missing, its absence is recorded at the end.
  lemma {:induction false} SetReads<T>(term: Parser<Option<T>>, first: Element<T>, es: seq<Element<T>>, trail: string,
                                       end: string)
    requires WellBehaved(term) && ReadsElement(term, first) && Readable(term, es) && Spaces(trail) && IsEnd(end)
    ensures SetFrom(term, first.text + (PrintElements(es) + (trail + end)), true)
         == EndOf(end, [first.value] + Values(es))
  {
    hide WellBehaved, SetFrom, Spaces, AfterElement, ReadsElement, Readable;
    var tail := PrintElements(es) + (trail + end);
    TailIsAfter(term, es, trail, end);
    MoreElementsRead(term, es, trail, end);
    ElementReads(term, first.text + tail, true, first, tail);
  }
}
