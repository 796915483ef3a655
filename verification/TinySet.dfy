/** Sets of numbers below 64 held in one machine word. */
module TinySets {
  import opened Collections
  import opened Bits

  type TinySet = U64

  ghost function Members(t: TinySet): (s: set<nat>)
  {
    BitsBelow(t, 64)
  }

  ghost function BitsBelow(t: nat, n: nat): (s: set<nat>)
  {
    set i: nat | i < n && Bit(t, i)
  }

  function Singleton(el: nat): (t: TinySet)
    requires el < 64
  {
    Shl64(1, el)
  }

  predicate Contains(t: TinySet, el: nat)
    requires el < 64
  {
    And(t, Singleton(el)) != 0
  }

  function Union(t: TinySet, other: TinySet): (r: TinySet)
  {
    Pow2Literals();
    OrBound(t, other, 64);
    Or(t, other)
  }

  function Intersect(t: TinySet, other: TinySet): (r: TinySet)
  {
    And(t, other)
  }

  function Complement(t: TinySet): (r: TinySet)
  {
    Pow2Literals();
    Not(t, 64)
  }

  function Insert(t: TinySet, el: nat): (r: TinySet)
    requires el < 64
  {
    Union(t, Singleton(el))
  }

  function Remove(t: TinySet, el: nat): (r: TinySet)
    requires el < 64
  {
    Intersect(t, Complement(Singleton(el)))
  }

  function Len(t: TinySet): (n: nat)
  {
    PopCount(t)
  }

  // The lowest element, and the word with its lowest set bit cleared.
  function PopLowest(t: TinySet): (r: (TinySet, Option<nat>))
  {
    if t == 0 then (t, None) else (And(t, t - 1), Some(TrailingZeros(t)))
  }

  function RangeLower(upperBound: nat): (t: TinySet)
  {
    SingletonIs(upperBound % 64);
    Shl64(1, upperBound % 64) - 1
  }

  function RangeGreaterOrEqual(fromIncluded: nat): (t: TinySet)
  {
    Complement(RangeLower(fromIncluded))
  }

  // --- what the word operations mean as sets -----------------------------------------

  lemma {:induction false} OneHasBitZero(i: nat)
    ensures Bit(1, i) == (i == 0)
  {
    if i > 0 {
      BitZero(i - 1);
    }
  }

  lemma {:induction false} SingletonIs(el: nat)
    requires el < 64
    ensures Singleton(el) == Pow2(el)
    ensures forall i: nat :: Bit(Singleton(el), i) == (i == el)
  {
    hide Low, Shl, Pow2, Bit;
    Pow2Literals();
    Pow2AsShl(el);
    Pow2Monotone(el, 64);
    SmallWord(Pow2(el), 64);
    forall i: nat ensures Bit(Singleton(el), i) == (i == el) {
      BitOfShl(1, el, i);
      if el <= i {
        OneHasBitZero(i - el);
      }
    }
  }

  lemma {:induction false} MembersUnion(t: TinySet, other: TinySet)
    ensures Members(Union(t, other)) == Members(t) + Members(other)
  {
    hide Or, Bit;
    forall i: nat | i < 64 ensures Bit(Or(t, other), i) == (Bit(t, i) || Bit(other, i)) {
      BitOr(t, other, i);
    }
  }

  lemma {:induction false} MembersIntersect(t: TinySet, other: TinySet)
    ensures Members(Intersect(t, other)) == Members(t) * Members(other)
  {
    hide And, Bit;
    forall i: nat | i < 64 ensures Bit(And(t, other), i) == (Bit(t, i) && Bit(other, i)) {
      BitAnd(t, other, i);
    }
  }

  lemma {:induction false} MembersComplement(t: TinySet)
    ensures forall i: nat :: i in Members(Complement(t)) <==> i < 64 && i !in Members(t)
  {
    hide Not, Bit, Pow2;
    Pow2Literals();
    forall i: nat | i < 64 ensures Bit(Not(t, 64), i) == !Bit(t, i) {
      BitNot(t, 64, i);
    }
  }

  lemma {:induction false} MembersSingleton(el: nat)
    requires el < 64
    ensures Members(Singleton(el)) == {el}
  {
    hide Singleton, Bit;
    SingletonIs(el);
  }

  lemma {:induction false} MembersInsert(t: TinySet, el: nat)
    requires el < 64
    ensures Members(Insert(t, el)) == Members(t) + {el}
  {
    hide Members;
    MembersUnion(t, Singleton(el));
    MembersSingleton(el);
  }

  lemma {:induction false} MembersRemove(t: TinySet, el: nat)
    requires el < 64
    ensures Members(Remove(t, el)) == Members(t) - {el}
  {
    hide Bit;
    MembersIntersect(t, Complement(Singleton(el)));
    MembersComplement(Singleton(el));
    MembersSingleton(el);
  }

  lemma {:induction false} MembersEmpty(t: TinySet)
    ensures Members(t) == {} <==> t == 0
  {
    hide Bit, Pow2;
    if t == 0 {
      forall i: nat | i < 64 ensures !Bit(t, i) { BitZero(i); }
    } else if Members(t) == {} {
      Pow2Literals();
      forall i: nat | i < 64 ensures Bit(t, i) == Bit(0, i) {
        BitZero(i);
        assert i !in Members(t);
      }
      BitsDetermine(t, 0, 64);
    }
  }

  lemma {:induction false} MembersDetermine(t: TinySet, other: TinySet)
    requires Members(t) == Members(other)
    ensures t == other
  {
    hide Bit, Pow2;
    Pow2Literals();
    forall i: nat | i < 64 ensures Bit(t, i) == Bit(other, i) {
      assert i in Members(t) <==> i in Members(other);
    }
    BitsDetermine(t, other, 64);
  }

  lemma {:induction false} ContainsIsMember(t: TinySet, el: nat)
    requires el < 64
    ensures Contains(t, el) == (el in Members(t))
  {
    hide Members;
    MembersIntersect(t, Singleton(el));
    MembersSingleton(el);
    MembersEmpty(Intersect(t, Singleton(el)));
    if el in Members(t) {
      assert el in Members(t) * {el};
    } else {
      assert Members(t) * {el} == {};
    }
  }

  // The set changes exactly when the element is new, respectively present.
  lemma {:induction false} ChangedWhenNew(t: TinySet, el: nat)
    requires el < 64
    ensures Insert(t, el) != t <==> el !in Members(t)
    ensures Remove(t, el) != t <==> el in Members(t)
  {
    hide Members, Insert, Remove;
    MembersInsert(t, el);
    MembersRemove(t, el);
    if el in Members(t) {
      assert Members(t) + {el} == Members(t);
      MembersDetermine(Insert(t, el), t);
    } else {
      assert Members(t) - {el} == Members(t);
      MembersDetermine(Remove(t, el), t);
    }
  }

  lemma {:induction false} PopLowestIsMinimum(t: TinySet)
    ensures PopLowest(t).1.None? <==> Members(t) == {}
    ensures PopLowest(t).1.Some? ==>
              var low := PopLowest(t).1.value;
              && low in Members(t)
              && (forall i :: i in Members(t) ==> low <= i)
              && Members(PopLowest(t).0) == Members(t) - {low}
  {
    hide Bit, And, TrailingZeros, Pow2;
    MembersEmpty(t);
    if t != 0 {
      var low := TrailingZeros(t);
      LowestBit(t, 0);
      Pow2Literals();
      assert low < 64 by {
        if low >= 64 {
          BitAboveWidth(t, 64, low);
        }
      }
      forall i: nat | i < 64
        ensures Bit(And(t, t - 1), i) == (Bit(t, i) && i != low)
        ensures Bit(t, i) ==> low <= i
      {
        LowestBit(t, i);
      }
    }
  }

  // --- cardinality -------------------------------------------------------------------

  ghost function CountBits(t: nat, n: nat): (c: nat)
  {
    if n == 0 then 0 else CountBits(t, n - 1) + (if Bit(t, n - 1) then 1 else 0)
  }

  lemma {:induction false} CountBitsHalf(t: nat, n: nat)
    requires n > 0
    ensures CountBits(t, n) == t % 2 + CountBits(t / 2, n - 1)
  {
    if n > 1 {
      CountBitsHalf(t, n - 1);
    }
  }

  lemma {:induction false} PopCountIsCount(t: nat, n: nat)
    requires t < Pow2(n)
    ensures PopCount(t) == CountBits(t, n)
  {
    if n > 0 {
      CountBitsHalf(t, n);
      PopCountIsCount(t / 2, n - 1);
    }
  }

  lemma {:induction false} CountIsCardinality(t: nat, n: nat)
    ensures |BitsBelow(t, n)| == CountBits(t, n)
  {
    if n == 0 {
      assert BitsBelow(t, n) == {};
    } else {
      CountIsCardinality(t, n - 1);
      assert BitsBelow(t, n) == if Bit(t, n - 1) then BitsBelow(t, n - 1) + {n - 1} else BitsBelow(t, n - 1);
    }
  }

  lemma {:induction false} LenIsCardinality(t: TinySet)
    ensures Len(t) == |Members(t)|
  {
    Pow2Literals();
    PopCountIsCount(t, 64);
    CountIsCardinality(t, 64);
  }

  // --- ranges ------------------------------------------------------------------------

  lemma {:induction false} BitsOfMask(n: nat, i: nat)
    ensures Bit(Pow2(n) - 1, i) == (i < n)
    decreases i
  {
    if n == 0 {
      BitZero(i);
    } else if i > 0 {
      assert (Pow2(n) - 1) / 2 == Pow2(n - 1) - 1;
      BitsOfMask(n - 1, i - 1);
    }
  }

  lemma {:induction false} RangeLowerIs(upperBound: nat)
    requires upperBound < 64
    ensures forall i: nat :: i in Members(RangeLower(upperBound)) <==> i < upperBound
    ensures forall i: nat :: i in Members(RangeGreaterOrEqual(upperBound)) <==> upperBound <= i < 64
  {
    hide Bit, Pow2, Shl, Low;
    SingletonIs(upperBound);
    var t := RangeLower(upperBound);
    assert t == Pow2(upperBound) - 1;
    forall i: nat ensures i in Members(t) <==> i < upperBound {
      BitsOfMask(upperBound, i);
    }
    MembersComplement(t);
  }

  // --- draining ------------------------------------------------------------------------

  // Popping until empty lists the members in ascending order.
  method Drain(t: TinySet) returns (els: seq<nat>)
    ensures Ascending(els)
    ensures forall i :: i in els <==> i in Members(t)
  {
    hide Members, PopLowest;
    els := [];
    var rest := t;
    while true
      invariant Ascending(els)
      invariant forall i :: i in els ==> i in Members(t) && forall j :: j in Members(rest) ==> i < j
      invariant forall i :: i in Members(t) <==> i in els || i in Members(rest)
      decreases Members(rest)
    {
      PopLowestIsMinimum(rest);
      var popped := PopLowest(rest);
      match popped.1 {
        case None =>
          return;
        case Some(low) =>
          assert forall k :: 0 <= k < |els| ==> els[k] in els;
          els := els + [low];
          rest := popped.0;
      }
    }
  }
}
