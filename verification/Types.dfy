/** Types, conformance and common ancestors (semantic/type.hpp). */
module Types {
  import opened Chains
  import opened Wrappers

  datatype NumberKind = Int | Long | Float | Double

  function Rank(kind: NumberKind): nat {
    match kind
    case Int => 0
    case Long => 1
    case Float => 2
    case Double => 3
  }

  /** A type. Two types are equal in the sense of the original exactly when they are equal values: the
      parent of a nominal type is not part of it. */
  datatype Type =
    | ObjectType
    | Nominal(name: string) | Protocol(name: string)
    | Number(kind: Option<NumberKind>)
    | BoolType | StringType | VoidType
    | Function(params: seq<Type>, result: Type)
    | Iterable(element: Type) | Enumerable(element: Type) | Vector(element: Type)
    | UnknownType | AnyType

  /** The parents of nominal types, by name; a type without an entry has `Object` as its parent. */
  type Hierarchy = map<string, string>

  predicate ObjectLike(t: Type) {
    !t.VoidType? && !t.UnknownType? && !t.AnyType?
  }

  function CommonNumber(left: Type, right: Type): Option<Type> {
    if !left.Number? || !right.Number? then None
    else if left.kind.None? || right.kind.None? then Some(Number(None))
    else Some(Number(if Rank(left.kind.value) >= Rank(right.kind.value) then left.kind else right.kind))
  }

  predicate NumbersCompatible(expected: Type, actual: Type) {
    && expected.Number? && actual.Number?
    && (expected.kind.None? || (actual.kind.Some? && expected.kind == actual.kind))
  }

  ghost predicate OnChain(h: Hierarchy, start: string, name: string) {
    exists k: nat :: AncestorAt(h, start, k) == Some(name)
  }

  /** `actual` may be used where `expected` is asked for. */
  ghost predicate Conforms(h: Hierarchy, actual: Type, expected: Type)
    decreases actual
  {
    if actual.UnknownType? || expected.UnknownType? || actual.AnyType? || expected.AnyType? then true
    else if actual == expected then true
    else if expected.ObjectType? && !actual.VoidType? then ObjectLike(actual)
    else if expected.Number? && actual.Number? then NumbersCompatible(expected, actual)
    else if expected.Iterable? && (actual.Iterable? || actual.Vector?) then
      Conforms(h, actual.element, expected.element)
    else if expected.Enumerable? && (actual.Enumerable? || actual.Vector?) then
      Conforms(h, actual.element, expected.element)
    else if expected.Vector? && actual.Vector? then Conforms(h, actual.element, expected.element)
    else actual.Nominal? && expected.Nominal? && OnChain(h, actual.name, expected.name)
  }

  // ---------- chains that run into a cycle ----------

  function Universe(h: Hierarchy, start: string): set<string> {
    {start} + h.Values
  }

  lemma {:induction false} ChainInUniverse(h: Hierarchy, start: string, k: nat)
    requires AncestorAt(h, start, k).Some?
    ensures AncestorAt(h, start, k).value in Universe(h, start)
    decreases k
  {
    if k > 0 {
      ChainInUniverse(h, start, k - 1);
      var below := AncestorAt(h, start, k - 1).value;
      assert h[below] in h.Values;
    }
  }

  lemma NotLater(h: Hierarchy, start: string, name: string, k: nat)
    requires forall j: nat | j < k :: AncestorAt(h, start, j) != Some(name)
    requires AncestorAt(h, start, k).None? ||
             exists j: nat | j < k :: AncestorAt(h, start, j) == AncestorAt(h, start, k)
    ensures !OnChain(h, start, name)
  {
    forall i: nat ensures AncestorAt(h, start, i) != Some(name) {
      if AncestorAt(h, start, k).None? {
        if i >= k {
          NoAncestor(h, start, k, i);
        }
      } else {
        var j: nat :| j < k && AncestorAt(h, start, j) == AncestorAt(h, start, k);
        var i' := ChainRepeats(h, start, j, k, i);
      }
    }
  }

  /** The walk up the parents of a nominal type. The set of names seen ends it even on a cycle. */
  method WalkUp(h: Hierarchy, start: string, expected: Type) returns (found: bool)
    requires !expected.ObjectType?
    ensures found <==> expected.Nominal? && OnChain(h, start, expected.name)
  {
    var seen: set<string> := {};
    var cursor := start;
    ghost var k: nat := 0;
    while cursor !in seen
      invariant AncestorAt(h, start, k) == Some(cursor)
      invariant seen == set j: nat | j < k && AncestorAt(h, start, j).Some? :: AncestorAt(h, start, j).value
      invariant forall j: nat | j <= k :: AncestorAt(h, start, j).Some?
      invariant forall j: nat | j < k :: expected != Nominal(AncestorAt(h, start, j).value)
      invariant seen <= Universe(h, start)
      decreases Universe(h, start) - seen
    {
      ChainInUniverse(h, start, k);
      seen := seen + {cursor};
      if Nominal(cursor) == expected {
        return true;
      }
      if cursor !in h {
        // The next cursor is `Object`, which is not what is expected, and has no parent.
        assert AncestorAt(h, start, k + 1).None?;
        if expected.Nominal? {
          NotLater(h, start, expected.name, k + 1);
        }
        return false;
      }
      cursor := h[cursor];
      k := k + 1;
    }
    if expected.Nominal? {
      NotLater(h, start, expected.name, k);
    }
    found := false;
  }

  /** Null pointers conform to nothing. */
  method TypeConforms(h: Hierarchy, actual: Option<Type>, expected: Option<Type>) returns (r: bool)
    ensures r <==> actual.Some? && expected.Some? && Conforms(h, actual.value, expected.value)
  {
    if actual.None? || expected.None? {
      return false;
    }
    r := ConformsTo(h, actual.value, expected.value);
  }

  method ConformsTo(h: Hierarchy, a: Type, e: Type) returns (r: bool)
    ensures r <==> Conforms(h, a, e)
    decreases a
  {
    if a.UnknownType? || e.UnknownType? || a.AnyType? || e.AnyType? || a == e {
      return true;
    }
    if e.ObjectType? && !a.VoidType? {
      return ObjectLike(a);
    }
    if e.Number? && a.Number? {
      return NumbersCompatible(e, a);
    }
    if (e.Iterable? && (a.Iterable? || a.Vector?)) || (e.Enumerable? && (a.Enumerable? || a.Vector?)) ||
       (e.Vector? && a.Vector?)
    {
      r := ConformsTo(h, a.element, e.element);
      return;
    }
    if e.Protocol? || a.Protocol? || e.StringType? || e.BoolType? {
      return false;
    }
    if a.Nominal? {
      r := WalkUp(h, a.name, e);
      return;
    }
    r := false;
  }

  // ---------- conformance is a partial order ----------

  /** No `Unknown` or `Any` at any depth. */
  predicate Known(t: Type)
    decreases t
  {
    match t
    case UnknownType => false
    case AnyType => false
    case Function(ps, r) => (forall i | 0 <= i < |ps| :: Known(ps[i])) && Known(r)
    case Iterable(e) => Known(e)
    case Enumerable(e) => Known(e)
    case Vector(e) => Known(e)
    case _ => true
  }

  lemma ConformsReflexive(h: Hierarchy, t: Type)
    ensures Conforms(h, t, t)
  {
  }

  lemma OnChainTransitive(h: Hierarchy, a: string, b: string, c: string)
    requires OnChain(h, a, b) && OnChain(h, b, c)
    ensures OnChain(h, a, c)
  {
    var i: nat :| AncestorAt(h, a, i) == Some(b);
    var j: nat :| AncestorAt(h, b, j) == Some(c);
    AncestorOfAncestor(h, a, i, j);
  }

  /** `Unknown` or `Any`, possibly as an element, an element's element, and so on. */
  predicate Wild(t: Type)
    decreases t
  {
    match t
    case UnknownType => true
    case AnyType => true
    case Iterable(e) => Wild(e)
    case Enumerable(e) => Wild(e)
    case Vector(e) => Wild(e)
    case _ => false
  }

  /** Only the type in the middle matters. */
  lemma {:induction false} ConformsTransitive(h: Hierarchy, a: Type, b: Type, c: Type)
    requires !Wild(b) && Conforms(h, a, b) && Conforms(h, b, c)
    ensures Conforms(h, a, c)
    decreases b
  {
    if a == b || b == c || c.ObjectType? || a.UnknownType? || a.AnyType? {
    } else if b.Iterable? || b.Enumerable? || b.Vector? {
      if c.Iterable? || c.Enumerable? || c.Vector? {
        ConformsTransitive(h, a.element, b.element, c.element);
      }
    } else if a.Nominal? && b.Nominal? && c.Nominal? {
      OnChainTransitive(h, a.name, b.name, c.name);
    }
  }

  /** Between any two types that a wild type relates, there may be nothing else. */
  lemma {:induction false} WildRelatesStrangers(h: Hierarchy, b: Type) returns (a: Type, c: Type)
    requires Wild(b)
    ensures Conforms(h, a, b) && Conforms(h, b, c) && !Conforms(h, a, c)
    decreases b
  {
    if b.UnknownType? || b.AnyType? {
      a, c := BoolType, StringType;
    } else {
      a, c := WildRelatesStrangers(h, b.element);
      ConformsReflexive(h, a);
      if b.Iterable? {
        a, c := Iterable(a), Iterable(c);
      } else if b.Enumerable? {
        a, c := Enumerable(a), Enumerable(c);
      } else {
        a, c := Vector(a), Vector(c);
      }
      WrappedConform(h, a, b, c);
    }
  }

  lemma WrappedConform(h: Hierarchy, a: Type, b: Type, c: Type)
    requires (a.Iterable? && b.Iterable? && c.Iterable?) || (a.Enumerable? && b.Enumerable? && c.Enumerable?) ||
             (a.Vector? && b.Vector? && c.Vector?)
    requires Conforms(h, a.element, b.element) && Conforms(h, b.element, c.element)
    requires !Conforms(h, a.element, c.element)
    ensures Conforms(h, a, b) && Conforms(h, b, c) && !Conforms(h, a, c)
  {
    ConformsReflexive(h, a.element);
  }

  /** Conformance is transitive through a type exactly when that type is not wild. */
  lemma TransitiveExactly(h: Hierarchy, b: Type)
    ensures (forall a, c | Conforms(h, a, b) && Conforms(h, b, c) :: Conforms(h, a, c)) <==> !Wild(b)
  {
    if Wild(b) {
      var a, c := WildRelatesStrangers(h, b);
      assert Conforms(h, a, b) && Conforms(h, b, c) && !Conforms(h, a, c);
    } else {
      forall a, c | Conforms(h, a, b) && Conforms(h, b, c) ensures Conforms(h, a, c) {
        ConformsTransitive(h, a, b, c);
      }
    }
  }

  /** The only cycles of parents are types that are their own parent. */
  ghost predicate OnlySelfLoops(h: Hierarchy) {
    forall a: string, k: nat | k > 0 && AncestorAt(h, a, k) == Some(a) :: a in h && h[a] == a
  }

  lemma {:induction false} SelfLoopStays(h: Hierarchy, a: string, k: nat)
    requires a in h && h[a] == a
    ensures AncestorAt(h, a, k) == Some(a)
  {
    if k > 0 {
      SelfLoopStays(h, a, k - 1);
    }
  }

  lemma OnChainAntisymmetric(h: Hierarchy, a: string, b: string)
    requires OnlySelfLoops(h) && OnChain(h, a, b) && OnChain(h, b, a)
    ensures a == b
  {
    var i: nat :| AncestorAt(h, a, i) == Some(b);
    var j: nat :| AncestorAt(h, b, j) == Some(a);
    AncestorOfAncestor(h, a, i, j);
    if i + j > 0 {
      SelfLoopStays(h, a, i);
    }
  }

  lemma {:induction false} ConformsAntisymmetric(h: Hierarchy, a: Type, b: Type)
    requires OnlySelfLoops(h) && Known(a) && Known(b) && Conforms(h, a, b) && Conforms(h, b, a)
    ensures a == b
    decreases a
  {
    if a != b {
      if a.Nominal? && b.Nominal? {
        OnChainAntisymmetric(h, a.name, b.name);
      } else if (a.Iterable? && b.Iterable?) || (a.Enumerable? && b.Enumerable?) || (a.Vector? && b.Vector?) {
        ConformsAntisymmetric(h, a.element, b.element);
      }
    }
  }

  /** On a cycle of at least two parents, different types conform to each other. */
  lemma CycleBreaksAntisymmetry(h: Hierarchy, a: string, k: nat)
    requires k > 0 && AncestorAt(h, a, k) == Some(a) && !(a in h && h[a] == a)
    ensures a in h && Nominal(a) != Nominal(h[a])
    ensures Conforms(h, Nominal(a), Nominal(h[a])) && Conforms(h, Nominal(h[a]), Nominal(a))
  {
    ChainStarts(h, a, k);
    assert AncestorAt(h, a, 0) == Some(a) && AncestorAt(h, a, 1) == Some(h[a]);
    AncestorOfAncestor(h, a, 1, k - 1);
    assert AncestorAt(h, h[a], k - 1) == Some(a);
  }

  /** Not both ways between different types. */
  ghost predicate OneWay(h: Hierarchy, a: Type, b: Type) {
    Conforms(h, a, b) && Conforms(h, b, a) ==> a == b
  }

  /** Conformance is antisymmetric on types without `Unknown` and `Any` exactly when no cycle of parents
      has two types. */
  lemma AntisymmetricExactly(h: Hierarchy)
    ensures (forall a, b | Known(a) && Known(b) :: OneWay(h, a, b)) <==> OnlySelfLoops(h)
  {
    if OnlySelfLoops(h) {
      forall a, b | Known(a) && Known(b) ensures OneWay(h, a, b) {
        if Conforms(h, a, b) && Conforms(h, b, a) {
          ConformsAntisymmetric(h, a, b);
        }
      }
    } else {
      var a: string, k: nat :| k > 0 && AncestorAt(h, a, k) == Some(a) && !(a in h && h[a] == a);
      CycleBreaksAntisymmetry(h, a, k);
      assert Known(Nominal(a)) && Known(Nominal(h[a])) && !OneWay(h, Nominal(a), Nominal(h[a]));
    }
  }

  // ---------- common ancestors ----------

  /** The first type up from `right` that is also above `left`. */
  ghost function FirstCommon(h: Hierarchy, left: string, right: string, n: nat): Type
    decreases n
  {
    if OnChain(h, left, right) then Nominal(right)
    else if n == 0 || right !in h then ObjectType
    else FirstCommon(h, left, h[right], n - 1)
  }

  ghost function Join(h: Hierarchy, left: Type, right: Type): Type
    decreases left
  {
    if left.UnknownType? then right
    else if right.UnknownType? then left
    else if left == right then left
    else if left.Number? && right.Number? then CommonNumber(left, right).value
    else if left.Vector? && right.Vector? then Vector(Join(h, left.element, right.element))
    else if left.Iterable? && right.Iterable? then Iterable(Join(h, left.element, right.element))
    else if left.Protocol? || right.Protocol? then
      if ObjectLike(left) && ObjectLike(right) then ObjectType else UnknownType
    else if Conforms(h, left, right) then right
    else if Conforms(h, right, left) then left
    else if left.Nominal? && right.Nominal? then FirstCommon(h, left.name, right.name, |h| + 1)
    else if ObjectLike(left) && ObjectLike(right) then ObjectType
    else UnknownType
  }

  /** The two walks for nominal types end: the first at the end of the left chain, the second at the end
      of the right chain or at a type on both. */
  ghost predicate WalksEnd(h: Hierarchy, left: string, right: string) {
    && (exists m: nat :: AncestorAt(h, left, m).None?)
    && exists n: nat :: AncestorAt(h, right, n).None? || OnChain(h, left, AncestorAt(h, right, n).value)
  }

  /** The common ancestor is found: if the walks are reached at all, they end. */
  ghost predicate JoinEnds(h: Hierarchy, a: Type, b: Type)
    decreases a
  {
    if a == b then true
    else if (a.Vector? && b.Vector?) || (a.Iterable? && b.Iterable?) then JoinEnds(h, a.element, b.element)
    else if a.Nominal? && b.Nominal? then
      Conforms(h, a, b) || Conforms(h, b, a) || WalksEnd(h, a.name, b.name)
    else true
  }

  /** Two nominal types have an answer exactly when one conforms to the other or both chains end. */
  lemma JoinEndsExactly(h: Hierarchy, x: string, y: string)
    ensures JoinEnds(h, Nominal(x), Nominal(y)) <==>
            OnChain(h, x, y) || OnChain(h, y, x) || (Ends(h, x) && Ends(h, y))
  {
    assert AncestorAt(h, x, 0) == Some(x);
    assert x == y ==> OnChain(h, x, y);
    if WalksEnd(h, x, y) && !Ends(h, y) {
      var n: nat :| AncestorAt(h, y, n).None? || OnChain(h, x, AncestorAt(h, y, n).value);
      var i: nat :| AncestorAt(h, x, i) == AncestorAt(h, y, n);
      forall m: nat ensures AncestorAt(h, x, m).Some? {
        SharedTail(h, x, y, i, n, m);
      }
    }
    if Ends(h, x) && Ends(h, y) && x != y {
      assert WalksEnd(h, x, y);
    }
  }

  /** A chain that meets one without end has no end. */
  lemma SharedTail(h: Hierarchy, x: string, y: string, i: nat, n: nat, m: nat)
    requires AncestorAt(h, x, i) == AncestorAt(h, y, n) && AncestorAt(h, y, n).Some? && !Ends(h, y)
    ensures AncestorAt(h, x, m).Some?
  {
    if m <= i {
      EarlierToo(h, x, m, i);
    } else {
      AncestorOfAncestor(h, x, i, m - i);
      AncestorOfAncestor(h, y, n, m - i);
    }
  }

  /** Without cycles there is always an answer. */
  lemma {:induction false} AcyclicJoinEnds(h: Hierarchy, a: Type, b: Type)
    requires Acyclic(h)
    ensures JoinEnds(h, a, b)
    decreases a
  {
    if (a.Vector? && b.Vector?) || (a.Iterable? && b.Iterable?) {
      AcyclicJoinEnds(h, a.element, b.element);
    } else if a.Nominal? && b.Nominal? {
      AcyclicEnds(h, a.name);
      AcyclicEnds(h, b.name);
      JoinEndsExactly(h, a.name, b.name);
    }
  }

  /** All types up from `name`, which must come to an end. */
  method Ancestors(h: Hierarchy, name: string) returns (names: set<string>)
    requires Ends(h, name)
    ensures forall x :: x in names <==> OnChain(h, name, x)
  {
    ghost var n: nat :| AncestorAt(h, name, n).None?;
    names := {name};
    var cursor := name;
    ghost var k: nat := 0;
    assert AncestorAt(h, name, 0) == Some(name);
    while cursor in h
      invariant AncestorAt(h, name, k) == Some(cursor)
      invariant forall x | x in names :: OnChain(h, name, x)
      invariant forall j: nat | j <= k :: AncestorAt(h, name, j).Some? && AncestorAt(h, name, j).value in names
      decreases n - k
    {
      if k >= n {
        NoAncestor(h, name, n, k);
      }
      assert AncestorAt(h, name, k + 1) == Some(h[cursor]);
      cursor := h[cursor];
      k := k + 1;
      names := names + {cursor};
      if k >= n {
        NoAncestor(h, name, n, k);
      }
    }
    forall x | OnChain(h, name, x) ensures x in names {
      var j: nat :| AncestorAt(h, name, j) == Some(x);
      if j > k {
        assert AncestorAt(h, name, k + 1).None?;
        NoAncestor(h, name, k + 1, j);
      }
    }
  }

  /** The common ancestor of two types; null pointers give the other type. The walks have no guard
      against cycles of parents, so they must end. */
  method LowestCommonAncestor(h: Hierarchy, left: Option<Type>, right: Option<Type>) returns (r: Option<Type>)
    requires left.Some? && right.Some? ==> JoinEnds(h, left.value, right.value)
    ensures r == if left.None? then right
                 else if right.None? then left
                 else Some(Join(h, left.value, right.value))
  {
    if left.None? {
      return right;
    }
    if right.None? {
      return left;
    }
    var joined := JoinTypes(h, left.value, right.value);
    r := Some(joined);
  }

  method JoinTypes(h: Hierarchy, a: Type, b: Type) returns (r: Type)
    requires JoinEnds(h, a, b)
    ensures r == Join(h, a, b)
    decreases a
  {
    hide Conforms, FirstCommon;
    if a.UnknownType? {
      return b;
    }
    if b.UnknownType? || a == b {
      return a;
    }
    if a.Number? && b.Number? {
      return CommonNumber(a, b).value;
    }
    if a.Vector? && b.Vector? {
      var e := JoinTypes(h, a.element, b.element);
      return Vector(e);
    }
    if a.Iterable? && b.Iterable? {
      var e := JoinTypes(h, a.element, b.element);
      return Iterable(e);
    }
    r := JoinUnlike(h, a, b);
  }

  /** The common ancestor of two types without common structure. */
  method JoinUnlike(h: Hierarchy, a: Type, b: Type) returns (r: Type)
    requires JoinEnds(h, a, b) && !a.UnknownType? && !b.UnknownType? && a != b && !(a.Number? && b.Number?)
    requires !(a.Vector? && b.Vector?) && !(a.Iterable? && b.Iterable?)
    ensures r == Join(h, a, b)
  {
    hide Conforms, FirstCommon;
    if a.Protocol? || b.Protocol? {
      return if ObjectLike(a) && ObjectLike(b) then ObjectType else UnknownType;
    }
    var up := ConformsTo(h, a, b);
    if up {
      return b;
    }
    var down := ConformsTo(h, b, a);
    if down {
      return a;
    }
    if a.Nominal? && b.Nominal? {
      JoinEndsExactly(h, a.name, b.name);
      NominalsConform(h, a.name, b.name);
      NominalsConform(h, b.name, a.name);
      r := CommonAncestor(h, a.name, b.name);
      return;
    }
    r := if ObjectLike(a) && ObjectLike(b) then ObjectType else UnknownType;
  }

  method CommonAncestor(h: Hierarchy, left: string, right: string) returns (r: Type)
    requires Ends(h, left) && Ends(h, right)
    ensures r == FirstCommon(h, left, right, |h| + 1)
  {
    ChainBounded(h, left);
    ChainBounded(h, right);
    var ancestors := Ancestors(h, left);
    var cursor := right;
    ghost var k: nat := 0;
    while true
      invariant k <= |h| + 1 && AncestorAt(h, right, k) == Some(cursor)
      invariant FirstCommon(h, left, right, |h| + 1) == FirstCommon(h, left, cursor, |h| + 1 - k)
      decreases |h| + 1 - k
    {
      if cursor in ancestors {
        return Nominal(cursor);
      }
      if cursor !in h {
        return ObjectType;
      }
      assert AncestorAt(h, right, k + 1) == Some(h[cursor]);
      cursor := h[cursor];
      k := k + 1;
    }
  }

  lemma NominalsConform(h: Hierarchy, x: string, y: string)
    ensures Conforms(h, Nominal(x), Nominal(y)) <==> OnChain(h, x, y)
  {
    assert AncestorAt(h, x, 0) == Some(x);
  }

  // ---------- the common ancestor is an upper bound ----------

  /** Two different concrete number kinds meet, possibly inside vectors or iterables. */
  predicate MixedKinds(a: Type, b: Type)
    decreases a
  {
    || (a.Number? && b.Number? && a.kind.Some? && b.kind.Some? && a != b)
    || (a.Vector? && b.Vector? && MixedKinds(a.element, b.element))
    || (a.Iterable? && b.Iterable? && MixedKinds(a.element, b.element))
  }

  lemma {:induction false} FirstCommonAbove(h: Hierarchy, left: string, right: string, start: string, n: nat)
    requires OnChain(h, start, right)
    ensures var t := FirstCommon(h, left, right, n);
            t == ObjectType || (t.Nominal? && OnChain(h, left, t.name) && OnChain(h, start, t.name))
    decreases n
  {
    if !OnChain(h, left, right) && n > 0 && right in h {
      assert AncestorAt(h, right, 0) == Some(right) && AncestorAt(h, right, 1) == Some(h[right]);
      OnChainTransitive(h, start, right, h[right]);
      FirstCommonAbove(h, left, h[right], start, n - 1);
    }
  }

  lemma {:induction false} NeverMixed(t: Type)
    ensures !MixedKinds(t, t)
    decreases t
  {
    if t.Vector? || t.Iterable? {
      NeverMixed(t.element);
    }
  }

  /** The common ancestor is above both types exactly when no two different number kinds meet. */
  lemma {:induction false} JoinIsUpperBound(h: Hierarchy, a: Type, b: Type)
    ensures Conforms(h, a, Join(h, a, b)) && Conforms(h, b, Join(h, a, b)) <==> !MixedKinds(a, b)
    decreases a
  {
    if a == b {
      NeverMixed(a);
    } else if (a.Vector? && b.Vector?) || (a.Iterable? && b.Iterable?) {
      JoinIsUpperBound(h, a.element, b.element);
      ElementsBound(h, a, b);
    } else if a.Nominal? && b.Nominal? {
      NominalsBound(h, a, b);
    } else {
      OthersBound(h, a, b);
    }
  }

  lemma ElementsBound(h: Hierarchy, a: Type, b: Type)
    requires a != b && ((a.Vector? && b.Vector?) || (a.Iterable? && b.Iterable?))
    ensures var e := Join(h, a.element, b.element);
            && (Conforms(h, a, Join(h, a, b)) <==> Conforms(h, a.element, e))
            && (Conforms(h, b, Join(h, a, b)) <==> Conforms(h, b.element, e))
  {
  }

  lemma NominalsBound(h: Hierarchy, a: Type, b: Type)
    requires a.Nominal? && b.Nominal? && a != b
    ensures Conforms(h, a, Join(h, a, b)) && Conforms(h, b, Join(h, a, b))
  {
    assert AncestorAt(h, b.name, 0) == Some(b.name);
    FirstCommonAbove(h, a.name, b.name, b.name, |h| + 1);
  }

  lemma OthersBound(h: Hierarchy, a: Type, b: Type)
    requires a != b && !(a.Vector? && b.Vector?) && !(a.Iterable? && b.Iterable?) && !(a.Nominal? && b.Nominal?)
    ensures Conforms(h, a, Join(h, a, b)) && Conforms(h, b, Join(h, a, b)) <==> !MixedKinds(a, b)
  {
    hide FirstCommon, OnChain;
  }

  /** Doubles are wider than floats, these than longs, these than ints. */
  predicate Wider(a: NumberKind, b: NumberKind) {
    || (a.Double? && !b.Double?)
    || (a.Float? && (b.Long? || b.Int?))
    || (a.Long? && b.Int?)
  }

  /** When two different number kinds meet, the wider one is kept, and the other does not conform to it. */
  lemma MixedKindsKeepHigher(h: Hierarchy, a: NumberKind, b: NumberKind)
    requires a != b
    ensures var (wide, narrow) := if Wider(a, b) then (a, b) else (b, a);
            && Wider(wide, narrow)
            && Join(h, Number(Some(a)), Number(Some(b))) == Number(Some(wide))
            && !Conforms(h, Number(Some(narrow)), Number(Some(wide)))
  {
  }

  // ---------- nominal types form a join semilattice ----------

  predicate ClassLike(t: Type) {
    t.Nominal? || t.ObjectType?
  }

  /** Any type above both that is on the chain is above the first common one. */
  lemma {:induction false} FirstCommonLeast(h: Hierarchy, left: string, right: string, name: string, n: nat, k: nat)
    requires OnChain(h, left, name) && AncestorAt(h, right, k) == Some(name) && k <= n
    ensures var t := FirstCommon(h, left, right, n); t.Nominal? && OnChain(h, t.name, name)
    decreases n
  {
    if !OnChain(h, left, right) {
      assert k != 0;
      ChainStarts(h, right, k);
      assert AncestorAt(h, right, 1) == Some(h[right]);
      AncestorOfAncestor(h, right, 1, k - 1);
      FirstCommonLeast(h, left, h[right], name, n - 1, k - 1);
    }
  }

  /** Among classes the common ancestor is the least upper bound. */
  lemma JoinIsLeast(h: Hierarchy, a: Type, b: Type, c: Type)
    requires Acyclic(h) && ClassLike(a) && ClassLike(b) && Known(c) && Conforms(h, a, c) && Conforms(h, b, c)
    ensures ClassLike(Join(h, a, b)) && Conforms(h, Join(h, a, b), c)
  {
    if a.Nominal? && b.Nominal? && a != b && !Conforms(h, a, b) && !Conforms(h, b, a) && c.Nominal? {
      var k: nat :| AncestorAt(h, b.name, k) == Some(c.name);
      AcyclicEnds(h, b.name);
      if k > |h| + 1 {
        NoAncestor(h, b.name, |h| + 1, k);
      }
      FirstCommonLeast(h, a.name, b.name, c.name, |h| + 1, k);
    } else if a.Nominal? && b.Nominal? && a != b && !Conforms(h, a, b) && !Conforms(h, b, a) {
      assert AncestorAt(h, b.name, 0) == Some(b.name);
      FirstCommonAbove(h, a.name, b.name, b.name, |h| + 1);
    }
  }

  lemma JoinOfClasses(h: Hierarchy, a: Type, b: Type)
    requires ClassLike(a) && ClassLike(b)
    ensures ClassLike(Join(h, a, b)) && Known(Join(h, a, b))
    ensures Conforms(h, a, Join(h, a, b)) && Conforms(h, b, Join(h, a, b))
  {
    JoinIsUpperBound(h, a, b);
    if a.Nominal? && b.Nominal? {
      assert AncestorAt(h, b.name, 0) == Some(b.name);
      FirstCommonAbove(h, a.name, b.name, b.name, |h| + 1);
    }
  }

  lemma JoinCommutes(h: Hierarchy, a: Type, b: Type)
    requires Acyclic(h) && ClassLike(a) && ClassLike(b)
    ensures Join(h, a, b) == Join(h, b, a)
  {
    JoinOfClasses(h, a, b);
    JoinOfClasses(h, b, a);
    JoinIsLeast(h, a, b, Join(h, b, a));
    JoinIsLeast(h, b, a, Join(h, a, b));
    ConformsAntisymmetric(h, Join(h, a, b), Join(h, b, a));
  }

  lemma JoinAssociates(h: Hierarchy, a: Type, b: Type, c: Type)
    requires Acyclic(h) && ClassLike(a) && ClassLike(b) && ClassLike(c)
    ensures Join(h, Join(h, a, b), c) == Join(h, a, Join(h, b, c))
  {
    hide Conforms, Join, FirstCommon;
    var ab, bc := Join(h, a, b), Join(h, b, c);
    JoinOfClasses(h, a, b);
    JoinOfClasses(h, b, c);
    JoinOfClasses(h, ab, c);
    JoinOfClasses(h, a, bc);
    var l, r := Join(h, ab, c), Join(h, a, bc);
    ConformsTransitive(h, a, ab, l);
    ConformsTransitive(h, b, ab, l);
    ConformsTransitive(h, b, bc, r);
    ConformsTransitive(h, c, bc, r);
    JoinIsLeast(h, b, c, l);
    JoinIsLeast(h, a, bc, l);
    JoinIsLeast(h, a, b, r);
    JoinIsLeast(h, ab, c, r);
    ConformsAntisymmetric(h, l, r);
  }

  /** The common ancestor of a list, as for the elements of a vector. */
  ghost function JoinAll(h: Hierarchy, first: Type, rest: seq<Type>): Type
    decreases rest
  {
    if rest == [] then first else JoinAll(h, Join(h, first, rest[0]), rest[1..])
  }

  lemma {:induction false} JoinAllBounds(h: Hierarchy, first: Type, rest: seq<Type>, c: Type)
    requires Acyclic(h) && ClassLike(first) && (forall t | t in rest :: ClassLike(t)) && Known(c)
    ensures ClassLike(JoinAll(h, first, rest))
    ensures Conforms(h, JoinAll(h, first, rest), c) <==>
            Conforms(h, first, c) && forall t | t in rest :: Conforms(h, t, c)
    decreases rest
  {
    hide Conforms, Join;
    if rest != [] {
      var t := Join(h, first, rest[0]);
      JoinOfClasses(h, first, rest[0]);
      JoinAllBounds(h, t, rest[1..], c);
      assert rest == [rest[0]] + rest[1..];
      if Conforms(h, t, c) {
        ConformsTransitive(h, first, t, c) by { assert Known(first); }
        ConformsTransitive(h, rest[0], t, c) by { assert Known(rest[0]); }
      }
      if Conforms(h, first, c) && Conforms(h, rest[0], c) {
        JoinIsLeast(h, first, rest[0], c);
      }
    }
  }

  /** The order of the list does not matter, nor do repetitions: only which types occur. */
  lemma JoinAllAnyOrder(h: Hierarchy, a: Type, as_: seq<Type>, b: Type, bs: seq<Type>)
    requires Acyclic(h) && ClassLike(a) && ClassLike(b)
    requires (forall t | t in as_ :: ClassLike(t)) && (forall t | t in bs :: ClassLike(t))
    requires forall t :: t in [a] + as_ <==> t in [b] + bs
    ensures JoinAll(h, a, as_) == JoinAll(h, b, bs)
  {
    hide Conforms, Join, JoinAll;
    var l, r := JoinAll(h, a, as_), JoinAll(h, b, bs);
    JoinAllBounds(h, a, as_, ObjectType);
    JoinAllBounds(h, b, bs, ObjectType);
    JoinAllBounds(h, a, as_, l);
    JoinAllBounds(h, a, as_, r);
    JoinAllBounds(h, b, bs, l);
    JoinAllBounds(h, b, bs, r);
    ConformsReflexive(h, l);
    ConformsReflexive(h, r);
    assert a in [b] + bs && b in [a] + as_;
    forall t | t in bs ensures t == a || t in as_ {
      assert t in [b] + bs;
    }
    forall t | t in as_ ensures t == b || t in bs {
      assert t in [a] + as_;
    }
    ConformsAntisymmetric(h, l, r);
  }
}
