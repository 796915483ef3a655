/** Dictionary encoding: terms get ids in order of first appearance, and are renumbered by
rank when the dictionary is written.

The arena hash map is a map; its iteration order is arbitrary.
 */
module Dictionaries {
  import opened Collections
  import opened Bits

  type Term = seq<U8>

  // Byte-wise lexicographic order.
  predicate Less(a: Term, b: Term)
    decreases |a|
  {
    |b| > 0 && (|a| == 0 || a[0] < b[0] || (a[0] == b[0] && Less(a[1..], b[1..])))
  }

  lemma {:induction false} LessTransitive(a: Term, b: Term, c: Term)
    requires Less(a, b) && Less(b, c)
    ensures Less(a, c)
    decreases |a|
  {
    if |a| > 0 && a[0] == b[0] == c[0] {
      LessTransitive(a[1..], b[1..], c[1..]);
    }
  }

  lemma {:induction false} LessTotal(a: Term, b: Term)
    ensures Less(a, b) || a == b || Less(b, a)
    ensures !(Less(a, b) && Less(b, a))
    ensures !Less(a, a)
    decreases |a|
  {
    if |a| > 0 {
      LessTotal(a[1..], if |b| > 0 then b[1..] else []);
      if |b| > 0 && a[0] == b[0] && a[1..] == b[1..] {
        assert a == [a[0]] + a[1..] && b == [b[0]] + b[1..];
      }
    }
  }

  // The terms agree before byte i, and there a ends or has the smaller byte.
  ghost predicate DecidedAt(a: Term, b: Term, i: nat) {
    && i <= |a| && i < |b| && (forall j :: 0 <= j < i ==> a[j] == b[j])
    && (i == |a| || a[i] < b[i])
  }

  // The first difference decides.
  lemma {:induction false} LessIsLexicographic(a: Term, b: Term)
    ensures Less(a, b) <==> exists i: nat :: DecidedAt(a, b, i)
    decreases |a|
  {
    if |a| > 0 && |b| > 0 && a[0] == b[0] {
      var x, y := a[1..], b[1..];
      LessIsLexicographic(x, y);
      if Less(x, y) {
        var i: nat :| DecidedAt(x, y, i);
        assert DecidedAt(a, b, i + 1);
      }
      if i: nat :| DecidedAt(a, b, i) {
        assert DecidedAt(x, y, i - 1);
      }
    } else if Less(a, b) {
      assert DecidedAt(a, b, 0);
    }
  }

  datatype Entry = Entry(key: Term, id: nat)

  ghost predicate Sorted(terms: seq<Entry>) {
    forall i, j :: 0 <= i < j < |terms| ==> Less(terms[i].key, terms[j].key)
  }

  ghost predicate Lists(terms: seq<Entry>, dict: map<Term, nat>) {
    forall e :: e in terms <==> e.key in dict && dict[e.key] == e.id
  }

  // Ids are distinct and below the number of terms.
  ghost predicate Numbered(dict: map<Term, nat>) {
    && (forall t :: t in dict ==> dict[t] < |dict|)
    && (forall t, u :: t in dict && u in dict && dict[t] == dict[u] ==> t == u)
  }

  // --- the rank of a term -------------------------------------------------------------------------

  ghost function Smaller(dict: map<Term, nat>, t: Term): (s: set<Term>)
  {
    set u | u in dict && Less(u, t)
  }

  ghost function Rank(dict: map<Term, nat>, t: Term): (r: nat)
  {
    |Smaller(dict, t)|
  }

  ghost function KeysOf(terms: seq<Entry>): (s: set<Term>)
  {
    set i | 0 <= i < |terms| :: terms[i].key
  }

  lemma {:induction false} KeysOfSize(terms: seq<Entry>)
    requires Sorted(terms)
    ensures |KeysOf(terms)| == |terms|
  {
    hide Less;
    if |terms| > 0 {
      var n := |terms| - 1;
      KeysOfSize(terms[..n]);
      assert KeysOf(terms) == KeysOf(terms[..n]) + {terms[n].key};
      assert terms[n].key !in KeysOf(terms[..n]) by {
        if terms[n].key in KeysOf(terms[..n]) {
          var i :| 0 <= i < n && terms[i].key == terms[n].key;
          LessTotal(terms[i].key, terms[n].key);
        }
      }
    }
  }

  // In the sorted list the index of a term is its rank.
  lemma {:induction false} IndexIsRank(terms: seq<Entry>, dict: map<Term, nat>, i: nat)
    requires Sorted(terms) && Lists(terms, dict) && i < |terms|
    ensures Rank(dict, terms[i].key) == i
  {
    hide Less;
    KeysOfSize(terms[..i]);
    var t := terms[i].key;
    forall u ensures u in Smaller(dict, t) <==> u in KeysOf(terms[..i]) {
      if u in Smaller(dict, t) {
        assert Entry(u, dict[u]) in terms;
        var j :| 0 <= j < |terms| && terms[j] == Entry(u, dict[u]);
        LessTotal(u, t);
        assert j < i;
        assert terms[..i][j].key == u;
      }
      if u in KeysOf(terms[..i]) {
        var j :| 0 <= j < i && terms[..i][j].key == u;
        assert terms[j] in terms;
      }
    }
    assert Smaller(dict, t) == KeysOf(terms[..i]);
  }

  lemma {:induction false} ListedOnce(terms: seq<Entry>, dict: map<Term, nat>)
    requires Sorted(terms) && Lists(terms, dict)
    ensures |terms| == |dict|
  {
    hide Less, Sorted;
    KeysOfSize(terms);
    forall t ensures t in KeysOf(terms) <==> t in dict {
      if t in dict {
        assert Entry(t, dict[t]) in terms;
      }
      if t in KeysOf(terms) {
        var i :| 0 <= i < |terms| && terms[i].key == t;
        assert terms[i] in terms;
      }
    }
    assert KeysOf(terms) == dict.Keys;
  }

  // --- building ---------------------------------------------------------------------------------------

  class DictionaryBuilder {
    var dict: map<Term, nat>

    ghost predicate Valid()
      reads this
    {
      Numbered(dict)
    }

    constructor ()
      ensures Valid() && dict == map[]
    {
      dict := map[];
    }

    // A known term keeps its id; a new one gets the next.
    method GetOrAllocateId(term: Term) returns (id: nat)
      requires Valid() && |dict| < U32_BOUND
      modifies this
      ensures Valid()
      ensures term in dict && dict[term] == id
      ensures old(dict).Keys <= dict.Keys && forall t :: t in old(dict) ==> dict[t] == old(dict)[t]
      ensures dict == if term in old(dict) then old(dict) else old(dict)[term := |old(dict)|]
    {
      var nextId := |dict|;
      if term in dict {
        id := dict[term];
      } else {
        id := nextId;
        assert dict[term := id].Keys == dict.Keys + {term};
        dict := dict[term := id];
      }
    }

    // Whatever order the hash map yields its terms in, the result is sorted by key.
    method BuildSortedTerms() returns (terms: seq<Entry>)
      ensures Sorted(terms) && Lists(terms, dict)
    {
      hide Less;
      terms := [];
      var left := dict.Keys;
      while left != {}
        invariant left <= dict.Keys && Sorted(terms)
        invariant forall e :: e in terms <==> e.key in dict && e.key !in left && dict[e.key] == e.id
        decreases left
      {
        var t: Term :| t in left;
        terms := InsertSorted(terms, Entry(t, dict[t]));
        left := left - {t};
      }
    }

    // The ids renumbered by rank.
    method BuildTermIdMapping() returns (unorderedToOrd: array<nat>)
      requires Valid()
      ensures IsRankMapping(unorderedToOrd[..], dict)
    {
      hide Less, Sorted, Lists, Rank, Numbered;
      var terms := BuildSortedTerms();
      ListedOnce(terms, dict);
      unorderedToOrd := new nat[|terms|](_ => 0);
      var ord := 0;
      while ord < |terms|
        invariant 0 <= ord <= |terms| == unorderedToOrd.Length
        invariant forall i :: 0 <= i < ord ==>
                    terms[i].id < |terms| && unorderedToOrd[terms[i].id] == i
      {
        IdOfEntry(terms, dict, ord);
        forall i | 0 <= i < ord ensures terms[i].id != terms[ord].id {
          DistinctIds(terms, dict, i, ord);
        }
        unorderedToOrd[terms[ord].id] := ord;
        ord := ord + 1;
      }
      FilledIsRankMapping(terms, dict, unorderedToOrd[..]);
    }

    // Serialization feeds the table writer the same terms in the same order.
    method Serialize() returns (unorderedToOrd: array<nat>, keys: seq<Term>)
      requires Valid()
      ensures IsRankMapping(unorderedToOrd[..], dict)
      ensures forall i, j :: 0 <= i < j < |keys| ==> Less(keys[i], keys[j])
      ensures forall t :: t in keys <==> t in dict
      ensures forall i :: 0 <= i < |keys| ==> Rank(dict, keys[i]) == i
    {
      hide Less, Lists, Rank, Numbered;
      var terms := BuildSortedTerms();
      ListedOnce(terms, dict);
      unorderedToOrd := new nat[|terms|](_ => 0);
      keys := [];
      var ord := 0;
      while ord < |terms|
        invariant 0 <= ord <= |terms| == unorderedToOrd.Length && |keys| == ord
        invariant forall i :: 0 <= i < ord ==> keys[i] == terms[i].key
        invariant forall i :: 0 <= i < ord ==>
                    terms[i].id < |terms| && unorderedToOrd[terms[i].id] == i
      {
        IdOfEntry(terms, dict, ord);
        forall i | 0 <= i < ord ensures terms[i].id != terms[ord].id {
          DistinctIds(terms, dict, i, ord);
        }
        keys := keys + [terms[ord].key];
        unorderedToOrd[terms[ord].id] := ord;
        ord := ord + 1;
      }
      FilledIsRankMapping(terms, dict, unorderedToOrd[..]);
      KeysAreTerms(terms, dict, keys);
    }
  }

  method InsertSorted(terms: seq<Entry>, e: Entry) returns (r: seq<Entry>)
    requires Sorted(terms) && forall x :: x in terms ==> x.key != e.key
    ensures Sorted(r)
    ensures forall x :: x in r <==> x in terms || x == e
  {
    hide Less;
    var k := 0;
    while k < |terms| && Less(terms[k].key, e.key)
      invariant 0 <= k <= |terms|
      invariant forall j :: 0 <= j < k ==> Less(terms[j].key, e.key)
    {
      k := k + 1;
    }
    forall j | k <= j < |terms| ensures Less(e.key, terms[j].key) {
      assert terms[k] in terms;
      LessTotal(terms[k].key, e.key);
      if k < j {
        LessTransitive(e.key, terms[k].key, terms[j].key);
      }
    }
    r := terms[..k] + [e] + terms[k..];
    assert forall x :: x in terms <==> x in terms[..k] || x in terms[k..] by {
      assert terms == terms[..k] + terms[k..];
    }
  }

  lemma {:induction false} IdOfEntry(terms: seq<Entry>, dict: map<Term, nat>, i: nat)
    requires Lists(terms, dict) && Numbered(dict) && |terms| == |dict| && i < |terms|
    ensures terms[i].id < |terms|
  {
    assert terms[i] in terms;
  }

  lemma {:induction false} DistinctIds(terms: seq<Entry>, dict: map<Term, nat>, i: nat, j: nat)
    requires Sorted(terms) && Lists(terms, dict) && Numbered(dict) && i < j < |terms|
    ensures terms[i].id != terms[j].id
  {
    hide Less;
    assert terms[i] in terms && terms[j] in terms;
    LessTotal(terms[i].key, terms[j].key);
  }

  // --- the mapping ----------------------------------------------------------------------------------------

  // Every id is sent to the rank of its term.
  ghost predicate IsRankMapping(toOrd: seq<nat>, dict: map<Term, nat>) {
    && |toOrd| == |dict|
    && forall t :: t in dict ==> dict[t] < |toOrd| && toOrd[dict[t]] == Rank(dict, t)
  }

  lemma {:induction false} FilledIsRankMapping(terms: seq<Entry>, dict: map<Term, nat>, toOrd: seq<nat>)
    requires Sorted(terms) && Lists(terms, dict) && |toOrd| == |terms| == |dict|
    requires forall i :: 0 <= i < |terms| ==> terms[i].id < |terms| && toOrd[terms[i].id] == i
    ensures IsRankMapping(toOrd, dict)
  {
    hide Rank, Sorted;
    forall t | t in dict ensures dict[t] < |toOrd| && toOrd[dict[t]] == Rank(dict, t) {
      assert Entry(t, dict[t]) in terms;
      var i :| 0 <= i < |terms| && terms[i] == Entry(t, dict[t]);
      IndexIsRank(terms, dict, i);
    }
  }

  lemma {:induction false} KeysAreTerms(terms: seq<Entry>, dict: map<Term, nat>, keys: seq<Term>)
    requires Sorted(terms) && Lists(terms, dict) && |keys| == |terms|
    requires forall i :: 0 <= i < |terms| ==> keys[i] == terms[i].key
    ensures forall t :: t in keys <==> t in dict
    ensures forall i :: 0 <= i < |keys| ==> Rank(dict, keys[i]) == i
  {
    hide Rank, Less;
    forall t ensures t in keys <==> t in dict {
      if t in dict {
        assert Entry(t, dict[t]) in terms;
        var i :| 0 <= i < |terms| && terms[i] == Entry(t, dict[t]);
        assert keys[i] == t;
      }
      if t in keys {
        var i :| 0 <= i < |keys| && keys[i] == t;
        assert terms[i] in terms;
      }
    }
    forall i | 0 <= i < |keys| ensures Rank(dict, keys[i]) == i {
      IndexIsRank(terms, dict, i);
    }
  }

  lemma {:induction false} SmallerGrows(dict: map<Term, nat>, t: Term, u: Term)
    requires t in dict && Less(t, u)
    ensures Rank(dict, t) < Rank(dict, u)
  {
    hide Less;
    var a, b := Smaller(dict, t), Smaller(dict, u);
    forall x | x in a ensures x in b { LessTransitive(x, t, u); }
    LessTotal(t, t);
    assert t in b && t !in a;
    assert a <= b - {t};
    SubsetSize(a, b - {t});
  }

  // Ordered ids compare like the terms, and every ordinal is used exactly once.
  lemma {:induction false} RankMappingOrders(toOrd: seq<nat>, dict: map<Term, nat>, t: Term, u: Term)
    requires IsRankMapping(toOrd, dict) && t in dict && u in dict
    ensures toOrd[dict[t]] < toOrd[dict[u]] <==> Less(t, u)
    ensures toOrd[dict[t]] == toOrd[dict[u]] <==> t == u
    ensures toOrd[dict[t]] < |dict|
  {
    hide Less, Rank;
    LessTotal(t, u);
    if Less(t, u) {
      SmallerGrows(dict, t, u);
    } else if Less(u, t) {
      SmallerGrows(dict, u, t);
    }
    RankBelow(dict, t);
  }

  lemma {:induction false} RankBelow(dict: map<Term, nat>, t: Term)
    requires t in dict
    ensures Rank(dict, t) < |dict|
  {
    hide Less;
    LessTotal(t, t);
    assert Smaller(dict, t) <= dict.Keys - {t};
    SubsetSize(Smaller(dict, t), dict.Keys - {t});
  }
}
