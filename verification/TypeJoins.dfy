/** Conformance constructor by constructor, and the join of any two types without Unknown and Any: when
    it is their least upper bound. */
module TypeJoins {
  import opened Chains
  import opened Wrappers
  import opened Types

  // ---------- conformance by constructors ----------

  predicate Container(t: Type) {
    t.Vector? || t.Iterable? || t.Enumerable?
  }

  predicate Opaque(t: Type) {
    t.UnknownType? || t.AnyType?
  }

  predicate Alike(a: Type, b: Type) {
    (a.Number? && b.Number?) || (a.Nominal? && b.Nominal?) || (Container(a) && Container(b))
  }

  /** Containers are covariant. A vector may also be used as an iterable and as an enumerable, and no
      other container as one of another kind. */
  lemma ContainersExactly(h: Hierarchy, x: Type, y: Type)
    ensures Conforms(h, Vector(x), Vector(y)) <==> Conforms(h, x, y)
    ensures Conforms(h, Vector(x), Iterable(y)) <==> Conforms(h, x, y)
    ensures Conforms(h, Vector(x), Enumerable(y)) <==> Conforms(h, x, y)
    ensures Conforms(h, Iterable(x), Iterable(y)) <==> Conforms(h, x, y)
    ensures Conforms(h, Enumerable(x), Enumerable(y)) <==> Conforms(h, x, y)
    ensures !Conforms(h, Iterable(x), Vector(y)) && !Conforms(h, Enumerable(x), Vector(y))
    ensures !Conforms(h, Iterable(x), Enumerable(y)) && !Conforms(h, Enumerable(x), Iterable(y))
  {
    ConformsReflexive(h, x);
  }

  /** Everything else: Unknown and Any conform both ways; everything but Void conforms to Object; numbers
      to the number without a kind and to their own; classes to their ancestors; and the rest only to
      itself. */
  lemma OthersExactly(h: Hierarchy, a: Type, b: Type)
    ensures Opaque(a) || Opaque(b) ==> Conforms(h, a, b)
    ensures b.ObjectType? ==> (Conforms(h, a, b) <==> !a.VoidType?)
    ensures a.Number? && b.Number? ==> (Conforms(h, a, b) <==> b.kind.None? || a.kind == b.kind)
    ensures a.Nominal? && b.Nominal? ==> (Conforms(h, a, b) <==> OnChain(h, a.name, b.name))
    ensures !Opaque(a) && !Opaque(b) && !b.ObjectType? && !Alike(a, b) ==> (Conforms(h, a, b) <==> a == b)
  {
    if a.Nominal? && b.Nominal? {
      NominalsConform(h, a.name, b.name);
    }
  }

  // ---------- joins of known types ----------

  /** The two types, inside equal vectors or iterables perhaps, are Void and something else. */
  predicate VoidClash(a: Type, b: Type)
    decreases a
  {
    if (a.Vector? && b.Vector?) || (a.Iterable? && b.Iterable?) then VoidClash(a.element, b.element)
    else a != b && (a.VoidType? || b.VoidType?)
  }

  /** The two types, inside equal vectors or iterables perhaps, are containers that have a common container
      above them, which the join passes over: two enumerables, or a vector and another container, of which
      neither conforms to the other and of whose elements neither is Void. */
  ghost predicate Crossing(h: Hierarchy, a: Type, b: Type)
    decreases a
  {
    if (a.Vector? && b.Vector?) || (a.Iterable? && b.Iterable?) then Crossing(h, a.element, b.element)
    else if (a.Enumerable? && b.Enumerable?) || (a.Vector? && Container(b)) || (Container(a) && b.Vector?) then
      !Conforms(h, a, b) && !Conforms(h, b, a) && !a.element.VoidType? && !b.element.VoidType?
    else false
  }

  ghost predicate Above(h: Hierarchy, a: Type, b: Type, c: Type) {
    Known(c) && Conforms(h, a, c) && Conforms(h, b, c)
  }

  /** The join conforms to every type without Unknown and Any above both. */
  ghost predicate Least(h: Hierarchy, a: Type, b: Type) {
    forall c | Above(h, a, b, c) :: Conforms(h, Join(h, a, b), c)
  }

  /** The join of known types is known exactly when no Void meets another type. */
  lemma {:induction false} JoinKnownExactly(h: Hierarchy, a: Type, b: Type)
    requires Known(a) && Known(b)
    ensures Known(Join(h, a, b)) <==> !VoidClash(a, b)
    decreases a
  {
    if a == b {
      NoVoidClash(a);
    } else if (a.Vector? && b.Vector?) || (a.Iterable? && b.Iterable?) {
      JoinKnownExactly(h, a.element, b.element);
    } else if a.Nominal? && b.Nominal? {
      JoinOfClasses(h, a, b);
    }
  }

  lemma {:induction false} NoVoidClash(t: Type)
    ensures !VoidClash(t, t)
    decreases t
  {
    if t.Vector? || t.Iterable? {
      NoVoidClash(t.element);
    }
  }

  lemma {:induction false} NoCrossing(h: Hierarchy, t: Type)
    ensures !Crossing(h, t, t)
    decreases t
  {
    ConformsReflexive(h, t);
    if t.Vector? || t.Iterable? {
      NoCrossing(h, t.element);
    }
  }

  /** The join of known types is below all known upper bounds exactly when they do not cross. */
  lemma {:induction false} LeastExactly(h: Hierarchy, a: Type, b: Type)
    requires Known(a) && Known(b) && JoinEnds(h, a, b)
    ensures Least(h, a, b) <==> !Crossing(h, a, b)
    decreases a
  {
    if Crossing(h, a, b) {
      var c := CrossingPassesOver(h, a, b);
      assert Above(h, a, b, c);
    } else {
      forall c | Above(h, a, b, c) ensures Conforms(h, Join(h, a, b), c) {
        JoinBelow(h, a, b, c);
      }
    }
  }

  /** Where two types cross, a known type above both is not above the join. */
  lemma {:induction false} CrossingPassesOver(h: Hierarchy, a: Type, b: Type) returns (c: Type)
    requires Known(a) && Known(b) && Crossing(h, a, b)
    ensures Above(h, a, b, c) && !Conforms(h, Join(h, a, b), c)
    decreases a
  {
    if (a.Vector? && b.Vector?) || (a.Iterable? && b.Iterable?) {
      var e := CrossingPassesOver(h, a.element, b.element);
      c := if a.Vector? then Vector(e) else Iterable(e);
      PassedInside(h, a, b, e);
    } else {
      c := if a.Enumerable? || b.Enumerable? then Enumerable(ObjectType) else Iterable(ObjectType);
      PassedOver(h, a, b, c);
    }
  }

  lemma PassedInside(h: Hierarchy, a: Type, b: Type, e: Type)
    requires (a.Vector? && b.Vector?) || (a.Iterable? && b.Iterable?)
    requires Above(h, a.element, b.element, e) && !Conforms(h, Join(h, a.element, b.element), e)
    ensures var c := if a.Vector? then Vector(e) else Iterable(e);
            Above(h, a, b, c) && !Conforms(h, Join(h, a, b), c)
  {
    JoinInside(h, a, b);
    hide Join, Conforms;
    ContainersExactly(h, a.element, e);
    ContainersExactly(h, b.element, e);
    ContainersExactly(h, Join(h, a.element, b.element), e);
  }

  /** The join of two vectors or iterables is the one of the join of the elements. */
  lemma JoinInside(h: Hierarchy, a: Type, b: Type)
    requires (a.Vector? && b.Vector?) || (a.Iterable? && b.Iterable?)
    ensures Join(h, a, b) == if a.Vector? then Vector(Join(h, a.element, b.element))
                             else Iterable(Join(h, a.element, b.element))
  {
  }

  lemma PassedOver(h: Hierarchy, a: Type, b: Type, c: Type)
    requires Known(a) && Known(b) && Crossing(h, a, b)
    requires !(a.Vector? && b.Vector?) && !(a.Iterable? && b.Iterable?)
    requires c == if a.Enumerable? || b.Enumerable? then Enumerable(ObjectType) else Iterable(ObjectType)
    ensures Above(h, a, b, c) && !Conforms(h, Join(h, a, b), c)
  {
    assert Join(h, a, b) == ObjectType;
    hide Join, Conforms;
    ContainersExactly(h, a.element, ObjectType);
    ContainersExactly(h, b.element, ObjectType);
    OthersExactly(h, a.element, ObjectType);
    OthersExactly(h, b.element, ObjectType);
    OthersExactly(h, ObjectType, c);
  }

  lemma {:induction false} JoinBelow(h: Hierarchy, a: Type, b: Type, c: Type)
    requires Known(a) && Known(b) && JoinEnds(h, a, b) && !Crossing(h, a, b) && Above(h, a, b, c)
    ensures Conforms(h, Join(h, a, b), c)
    decreases a
  {
    if a == b {
    } else if (a.Vector? && b.Vector?) || (a.Iterable? && b.Iterable?) {
      ElementsBelow(h, a, b, c);
    } else if a.Nominal? && b.Nominal? {
      NominalsBelow(h, a, b, c);
    } else {
      UnlikeBelow(h, a, b, c);
    }
  }

  lemma {:induction false} ElementsBelow(h: Hierarchy, a: Type, b: Type, c: Type)
    requires Known(a) && Known(b) && JoinEnds(h, a, b) && !Crossing(h, a, b) && Above(h, a, b, c) && a != b
    requires (a.Vector? && b.Vector?) || (a.Iterable? && b.Iterable?)
    ensures Conforms(h, Join(h, a, b), c)
    decreases a, 0
  {
    var x, y := a.element, b.element;
    if Container(c) {
      ContainersExactly(h, x, c.element);
      ContainersExactly(h, y, c.element);
      ContainersExactly(h, Join(h, x, y), c.element);
      JoinBelow(h, x, y, c.element);
    } else {
      OthersExactly(h, a, c);
    }
  }

  lemma NominalsBelow(h: Hierarchy, a: Type, b: Type, c: Type)
    requires a.Nominal? && b.Nominal? && a != b && JoinEnds(h, a, b) && Above(h, a, b, c)
    ensures Conforms(h, Join(h, a, b), c)
  {
    if Conforms(h, a, b) || Conforms(h, b, a) {
    } else if c.Nominal? {
      JoinEndsExactly(h, a.name, b.name);
      NominalsConform(h, a.name, b.name);
      NominalsConform(h, b.name, a.name);
      NominalsConform(h, a.name, c.name);
      NominalsConform(h, b.name, c.name);
      var k: nat :| AncestorAt(h, b.name, k) == Some(c.name);
      ChainBounded(h, b.name);
      if k > |h| + 1 {
        NoAncestor(h, b.name, |h| + 1, k);
      }
      FirstCommonLeast(h, a.name, b.name, c.name, |h| + 1, k);
    } else {
      assert AncestorAt(h, b.name, 0) == Some(b.name);
      FirstCommonAbove(h, a.name, b.name, b.name, |h| + 1);
    }
  }

  lemma UnlikeBelow(h: Hierarchy, a: Type, b: Type, c: Type)
    requires Known(a) && Known(b) && !Crossing(h, a, b) && Above(h, a, b, c) && a != b
    requires !(a.Vector? && b.Vector?) && !(a.Iterable? && b.Iterable?) && !(a.Nominal? && b.Nominal?)
    ensures Conforms(h, Join(h, a, b), c)
  {
    hide OnChain, FirstCommon;
    if Container(a) && Container(b) && Container(c) {
      ContainersBelow(h, a, b, c);
    } else {
      OthersExactly(h, a, c);
      OthersExactly(h, b, c);
    }
  }

  /** Containers of which neither conforms to the other have no container above both, unless they cross. */
  lemma ContainersBelow(h: Hierarchy, a: Type, b: Type, c: Type)
    requires Known(a) && Known(b) && !Crossing(h, a, b) && Above(h, a, b, c) && a != b
    requires !(a.Vector? && b.Vector?) && !(a.Iterable? && b.Iterable?)
    requires Container(a) && Container(b) && Container(c)
    ensures Join(h, a, b) == a || Join(h, a, b) == b
  {
    hide OnChain, FirstCommon;
    ContainersExactly(h, a.element, c.element);
    ContainersExactly(h, b.element, c.element);
    ContainersExactly(h, a.element, b.element);
    ContainersExactly(h, b.element, a.element);
    VoidAlone(h, a.element, c.element);
    VoidAlone(h, b.element, c.element);
  }

  /** Among known types Void conforms only to itself, and nothing else to it. */
  lemma VoidAlone(h: Hierarchy, a: Type, c: Type)
    requires Known(a) && Known(c) && Conforms(h, a, c)
    ensures a.VoidType? <==> c.VoidType?
  {
  }

  ghost predicate LeastUpperBound(h: Hierarchy, a: Type, b: Type, t: Type) {
    Above(h, a, b, t) && forall c | Above(h, a, b, c) :: Conforms(h, t, c)
  }

  /** The join is the least upper bound of two known types, among known types, exactly when no two
      different number kinds meet in them, no Void meets another type, and they do not cross. */
  lemma JoinExactly(h: Hierarchy, a: Type, b: Type)
    requires Known(a) && Known(b) && JoinEnds(h, a, b)
    ensures LeastUpperBound(h, a, b, Join(h, a, b)) <==>
            !MixedKinds(a, b) && !VoidClash(a, b) && !Crossing(h, a, b)
  {
    hide Join, Conforms, MixedKinds, VoidClash, Crossing;
    JoinIsUpperBound(h, a, b);
    JoinKnownExactly(h, a, b);
    LeastExactly(h, a, b);
  }

  /** Outside known types: Unknown gives way to the other type; of Any and another type, the right one is
      taken, unless one is a protocol; and Void beside another known type gives Unknown. */
  lemma JoinOfWild(h: Hierarchy, t: Type)
    ensures Join(h, UnknownType, t) == t && Join(h, t, UnknownType) == t
    ensures !t.Protocol? ==> Join(h, AnyType, t) == if t.UnknownType? then AnyType else t
    ensures !t.Protocol? ==> Join(h, t, AnyType) == AnyType
    ensures t.Protocol? ==> Join(h, AnyType, t) == UnknownType && Join(h, t, AnyType) == UnknownType
    ensures Known(t) && !t.VoidType? ==> Join(h, VoidType, t) == UnknownType && Join(h, t, VoidType) == UnknownType
  {
  }

  lemma JoinIdempotent(h: Hierarchy, a: Type)
    ensures Join(h, a, a) == a
  {
  }

  /** Without cycles the join of known types does not depend on their order. */
  lemma {:induction false} KnownJoinCommutes(h: Hierarchy, a: Type, b: Type)
    requires Acyclic(h) && Known(a) && Known(b)
    ensures Join(h, a, b) == Join(h, b, a)
    decreases a
  {
    if (a.Vector? && b.Vector?) || (a.Iterable? && b.Iterable?) {
      KnownJoinCommutes(h, a.element, b.element);
    } else if a.Nominal? && b.Nominal? {
      JoinCommutes(h, a, b);
    } else {
      UnlikeCommutes(h, a, b);
    }
  }

  lemma UnlikeCommutes(h: Hierarchy, a: Type, b: Type)
    requires Acyclic(h) && Known(a) && Known(b)
    requires !(a.Vector? && b.Vector?) && !(a.Iterable? && b.Iterable?) && !(a.Nominal? && b.Nominal?)
    ensures Join(h, a, b) == Join(h, b, a)
  {
    hide FirstCommon, OnChain, Conforms;
    if Conforms(h, a, b) && Conforms(h, b, a) {
      AcyclicLoops(h);
      ConformsAntisymmetric(h, a, b);
    }
    KindsCommute(a, b);
  }

  lemma AcyclicLoops(h: Hierarchy)
    requires Acyclic(h)
    ensures OnlySelfLoops(h)
  {
  }

  lemma KindsCommute(a: Type, b: Type)
    ensures CommonNumber(a, b) == CommonNumber(b, a)
  {
  }
}
