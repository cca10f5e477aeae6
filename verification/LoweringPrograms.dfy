/** Lowering whole programs, and the programs it gets wrong. */
module LoweringPrograms {
  import opened Wrappers
  import opened Decimal
  import opened Scoping
  import opened LoweringTree
  import opened LoweringSemantics
  import opened LoweringRelation
  import opened LoweringCorrectness
  import opened LoweringSimulation

  const GLOBAL: ScopeStack := [map[]]

  /** A lowered program: the generated types, each put before those already there, and the rest. */
  datatype LoweredProgram = LoweredProgram(types: seq<Delegate>, decls: seq<Tree>, stmts: seq<Tree>)

  function Reversed<T>(s: seq<T>): (r: seq<T>)
    ensures |r| == |s| && forall i | 0 <= i < |s| :: r[i] == s[|s| - 1 - i]
  {
    if s == [] then [] else [s[|s| - 1]] + Reversed(s[..|s| - 1])
  }

  function LowerProgram(order: set<string> -> seq<string>, decls: seq<Tree>, stmts: seq<Tree>, id: nat): LoweredProgram {
    var d := LowerKids(order, Program, decls, 0, GLOBAL, [], id);
    var s := LowerKids(order, Program, stmts, |decls|, GLOBAL, d.generated, d.delegateId);
    LoweredProgram(Reversed(s.generated), d.trees, s.trees)
  }

  lemma {:induction false} KidsAppend(order: set<string> -> seq<string>, kind: Kind, a: seq<Tree>, b: seq<Tree>, i: nat,
                                      scopes: ScopeStack, generated: seq<Delegate>, id: nat)
    ensures var first := LowerKids(order, kind, a, i, scopes, generated, id);
            var second := LowerKids(order, kind, b, i + |a|, scopes, first.generated, first.delegateId);
            LowerKids(order, kind, a + b, i, scopes, generated, id) ==
            LoweredAll(first.trees + second.trees, second.generated, second.delegateId)
    decreases a
  {
    hide Lower, KidScopes;
    if a == [] {
      assert a + b == b;
    } else {
      var r := Lower(order, a[0], KidScopes(kind, i, scopes), generated, id);
      KidsAppend(order, kind, a[1..], b, i + 1, scopes, r.generated, r.delegateId);
      assert (a + b)[1..] == a[1..] + b;
    }
  }

  /** A program is lowered like one node over its declarations and statements. */
  lemma ProgramIsNode(order: set<string> -> seq<string>, decls: seq<Tree>, stmts: seq<Tree>, id: nat)
    ensures var r := LowerKids(order, Program, decls + stmts, 0, GLOBAL, [], id);
            LowerProgram(order, decls, stmts, id) ==
            LoweredProgram(Reversed(r.generated), r.trees[..|decls|], r.trees[|decls|..])
  {
    hide LowerKids;
    KidsAppend(order, Program, decls, stmts, 0, GLOBAL, [], id);
  }

  /** Functions and methods have a body. */
  predicate HaveBodies(decls: seq<Tree>) {
    forall i | 0 <= i < |decls| ::
      && (decls[i].kind.FunctionDecl? ==> |decls[i].kids| == 1)
      && (decls[i].kind.TypeDecl? ==> MembersHaveBodies(decls[i].kids))
  }

  predicate MembersHaveBodies(members: seq<Tree>) {
    forall i | 0 <= i < |members| && members[i].kind.FunctionDecl? :: |members[i].kids| == 1
  }

  function FunctionOf(decl: Tree): Function
    requires decl.kind.FunctionDecl? && |decl.kids| == 1
  {
    Function(decl.kind.params, decl.kids[0])
  }

  function FunctionsOf(decls: seq<Tree>): map<string, Function>
    requires HaveBodies(decls)
  {
    if decls == [] then map[]
    else if decls[0].kind.FunctionDecl? then FunctionsOf(decls[1..])[decls[0].kind.name := FunctionOf(decls[0])]
    else FunctionsOf(decls[1..])
  }

  /** The methods of one type. */
  function MembersOf(owner: string, members: seq<Tree>): map<(string, string), Function>
    requires MembersHaveBodies(members)
  {
    if members == [] then map[]
    else if members[0].kind.FunctionDecl? then
      MembersOf(owner, members[1..])[(owner, members[0].kind.name) := FunctionOf(members[0])]
    else MembersOf(owner, members[1..])
  }

  /** The methods of all types. */
  function MethodsOf(decls: seq<Tree>): map<(string, string), Function>
    requires HaveBodies(decls)
  {
    if decls == [] then map[]
    else if decls[0].kind.TypeDecl? then MethodsOf(decls[1..]) + MembersOf(TypeName(decls[0]), decls[0].kids)
    else MethodsOf(decls[1..])
  }

  function TypeName(decl: Tree): string
    requires decl.kind.TypeDecl?
  {
    decl.kind.name
  }

  // ---------- generated types are found ----------

  /** Types generated so far carry the numbers up to `id`. */
  ghost predicate Unique(generated: seq<Delegate>, id: nat) {
    forall i | 0 <= i < |generated| ::
      && (exists k: nat :: k <= id && generated[i].name == DelegateName(k))
      && forall j | 0 <= j < i :: generated[j].name != generated[i].name
  }

  lemma DelegateNamesDiffer(a: nat, b: nat)
    requires DelegateName(a) == DelegateName(b)
    ensures a == b
  {
    var n := |"Delegate_"|;
    assert DelegateName(a)[n..] == ToText(a) && DelegateName(b)[n..] == ToText(b);
    TextInjective(a, b);
  }

  lemma RewriteUnique(order: set<string> -> seq<string>, kind: Kind, kids: seq<Tree>, scopes: ScopeStack,
                      generated: seq<Delegate>, id: nat)
    requires Unique(generated, id)
    ensures var r := Rewrite(order, kind, kids, scopes, generated, id); Unique(r.generated, r.delegateId)
  {
    hide DelegateName, Visible, Wrapped, RewriteBinary, ForLoop;
    if kind.Lambda? && |kids| == 1 {
      var r := Rewrite(order, kind, kids, scopes, generated, id);
      var n := |generated|;
      assert r.generated[n].name == DelegateName(id + 1) && r.generated[..n] == generated;
      forall i | 0 <= i < n + 1
        ensures exists k: nat :: k <= id + 1 && r.generated[i].name == DelegateName(k)
        ensures forall j | 0 <= j < i :: r.generated[j].name != r.generated[i].name
      {
        if i < n {
          var k: nat :| k <= id && generated[i].name == DelegateName(k);
        } else {
          forall j | 0 <= j < n ensures r.generated[j].name != DelegateName(id + 1) {
            var k: nat :| k <= id && generated[j].name == DelegateName(k);
            if DelegateName(k) == DelegateName(id + 1) {
              DelegateNamesDiffer(k, id + 1);
            }
          }
        }
      }
    }
  }

  lemma {:induction false} LowerUnique(order: set<string> -> seq<string>, t: Tree, scopes: ScopeStack,
                                       generated: seq<Delegate>, id: nat)
    requires Unique(generated, id)
    ensures var r := Lower(order, t, scopes, generated, id); Unique(r.generated, r.delegateId)
    decreases t, 1
  {
    hide Rewrite, Unique;
    LowerKidsUnique(order, t.kind, t.kids, 0, scopes, generated, id);
    var ks := LowerKids(order, t.kind, t.kids, 0, scopes, generated, id);
    RewriteUnique(order, t.kind, ks.trees, scopes, ks.generated, ks.delegateId);
  }

  lemma {:induction false} LowerKidsUnique(order: set<string> -> seq<string>, kind: Kind, kids: seq<Tree>, i: nat,
                                           scopes: ScopeStack, generated: seq<Delegate>, id: nat)
    requires Unique(generated, id)
    ensures var r := LowerKids(order, kind, kids, i, scopes, generated, id); Unique(r.generated, r.delegateId)
    decreases kids, 0
  {
    hide KidScopes, Unique;
    if kids != [] {
      LowerUnique(order, kids[0], KidScopes(kind, i, scopes), generated, id);
      var first := Lower(order, kids[0], KidScopes(kind, i, scopes), generated, id);
      LowerKidsUnique(order, kind, kids[1..], i + 1, scopes, first.generated, first.delegateId);
    }
  }

  lemma {:induction false} FindAt(ds: seq<Delegate>, i: nat)
    requires i < |ds| && forall j | 0 <= j < |ds| && j != i :: ds[j].name != ds[i].name
    ensures FindDelegate(ds, ds[i].name) == Some(ds[i])
    decreases ds
  {
    if i > 0 {
      FindAt(ds[1..], i - 1);
    }
  }

  /** Every generated type is found under its name, wherever the program declares it. */
  lemma UniqueFound(generated: seq<Delegate>, id: nat)
    requires Unique(generated, id)
    ensures AllFound(Reversed(generated), generated) && Numbered(Reversed(generated))
  {
    hide FindDelegate, DelegateName;
    var ds := Reversed(generated);
    forall i | 0 <= i < |generated| ensures FindDelegate(ds, generated[i].name) == Some(generated[i]) {
      var at := |ds| - 1 - i;
      assert ds[at] == generated[i];
      forall j | 0 <= j < |ds| && j != at ensures ds[j].name != ds[at].name {
        assert ds[j] == generated[|ds| - 1 - j];
      }
      FindAt(ds, at);
    }
    UniqueNumbered(generated, id);
  }

  lemma UniqueNumbered(generated: seq<Delegate>, id: nat)
    requires Unique(generated, id)
    ensures Numbered(Reversed(generated))
  {
    var ds := Reversed(generated);
    forall i | 0 <= i < |ds| ensures "Delegate_" <= ds[i].name {
      var k: nat :| k <= id && generated[|ds| - 1 - i].name == DelegateName(k);
    }
  }

  // ---------- whole programs ----------

  ghost predicate SupportedAll(ts: seq<Tree>, scopes: ScopeStack) {
    forall i | 0 <= i < |ts| :: Supported(ts[i], scopes)
  }

  /** Functions that have their lowered forms under the same names. */
  ghost predicate Lowerings<K(!new)>(order: set<string> -> seq<string>, ds: seq<Delegate>, fs: map<K, Function>,
                                     fs': map<K, Function>)
  {
    fs'.Keys == fs.Keys && forall k | k in fs :: SomeLowering(order, ds, fs[k], fs'[k])
  }

  /** Each declared function and method has its lowered form in the lowered program. */
  lemma {:induction false} DeclsLowered(order: set<string> -> seq<string>, ds: seq<Delegate>, decls: seq<Tree>, i: nat,
                                        generated: seq<Delegate>, id: nat)
    requires HaveBodies(decls) && SupportedAll(decls, GLOBAL)
    requires AllFound(ds, LowerKids(order, Program, decls, i, GLOBAL, generated, id).generated)
    ensures var r := LowerKids(order, Program, decls, i, GLOBAL, generated, id);
            && HaveBodies(r.trees)
            && Lowerings(order, ds, FunctionsOf(decls), FunctionsOf(r.trees))
            && Lowerings(order, ds, MethodsOf(decls), MethodsOf(r.trees))
    decreases decls
  {
    hide Supported, SomeLowering, Lower, AllFound, Tracked, Saved, MembersOf;
    if decls != [] {
      var first := Lower(order, decls[0], GLOBAL, generated, id);
      LowerKidsGrow(order, Program, decls[1..], i + 1, GLOBAL, first.generated, first.delegateId);
      var r := LowerKids(order, Program, decls, i, GLOBAL, generated, id);
      var rest := LowerKids(order, Program, decls[1..], i + 1, GLOBAL, first.generated, first.delegateId);
      assert r.trees == [first.tree] + rest.trees;
      FoundBefore(ds, first.generated, r.generated);
      DeclLowered(order, ds, decls[0], generated, id);
      DeclsLowered(order, ds, decls[1..], i + 1, first.generated, first.delegateId);
      assert r.trees[1..] == rest.trees;
    }
  }

  /** One declaration. */
  lemma DeclLowered(order: set<string> -> seq<string>, ds: seq<Delegate>, decl: Tree, generated: seq<Delegate>, id: nat)
    requires HaveBodies([decl]) && Supported(decl, GLOBAL)
    requires AllFound(ds, Lower(order, decl, GLOBAL, generated, id).generated)
    ensures var t := Lower(order, decl, GLOBAL, generated, id).tree;
            && (t.kind.FunctionDecl? <==> decl.kind.FunctionDecl?) && (t.kind.TypeDecl? <==> decl.kind.TypeDecl?)
            && (decl.kind.FunctionDecl? ==>
                  && t.kind.name == decl.kind.name && |t.kids| == 1 && |decl.kids| == 1
                  && SomeLowering(order, ds, FunctionOf(decl), FunctionOf(t)))
            && (decl.kind.TypeDecl? ==>
                  && TypeName(t) == TypeName(decl) && MembersHaveBodies(t.kids) && MembersHaveBodies(decl.kids)
                  && Lowerings(order, ds, MembersOf(TypeName(decl), decl.kids), MembersOf(TypeName(t), t.kids)))
  {
    hide Supported, SomeLowering, LowerKids, AllFound, MembersOf, Lowerings;
    var only := [decl];
    assert only[0] == decl;
    if decl.kind.FunctionDecl? {
      FunctionLowers(order, ds, decl, generated, id);
    } else if decl.kind.TypeDecl? {
      TypeLowers(order, ds, decl, generated, id);
    } else {
      KindStays(order, decl, generated, id);
    }
  }

  lemma KindStays(order: set<string> -> seq<string>, t: Tree, generated: seq<Delegate>, id: nat)
    requires !t.kind.FunctionDecl? && !t.kind.TypeDecl?
    ensures var r := Lower(order, t, GLOBAL, generated, id).tree; !r.kind.FunctionDecl? && !r.kind.TypeDecl?
  {
    hide LowerKids;
  }

  lemma TypeLowers(order: set<string> -> seq<string>, ds: seq<Delegate>, decl: Tree, generated: seq<Delegate>, id: nat)
    requires decl.kind.TypeDecl? && MembersHaveBodies(decl.kids) && Supported(decl, GLOBAL)
    requires AllFound(ds, Lower(order, decl, GLOBAL, generated, id).generated)
    ensures var t := Lower(order, decl, GLOBAL, generated, id).tree;
            && t.kind == decl.kind && MembersHaveBodies(t.kids)
            && Lowerings(order, ds, MembersOf(TypeName(decl), decl.kids), MembersOf(TypeName(decl), t.kids))
  {
    hide LowerKids, AllFound, MembersOf, Lowerings;
    assert forall i | 0 <= i < |decl.kids| :: KidScopes(decl.kind, i, GLOBAL) == GLOBAL;
    MembersLowered(order, ds, decl.kind, decl.kids, 0, generated, id);
  }

  lemma {:induction false} MembersLowered(order: set<string> -> seq<string>, ds: seq<Delegate>, kind: Kind,
                                          members: seq<Tree>, i: nat, generated: seq<Delegate>, id: nat)
    requires kind.TypeDecl? && MembersHaveBodies(members) && SupportedAll(members, GLOBAL)
    requires AllFound(ds, LowerKids(order, kind, members, i, GLOBAL, generated, id).generated)
    ensures var r := LowerKids(order, kind, members, i, GLOBAL, generated, id);
            && MembersHaveBodies(r.trees)
            && Lowerings(order, ds, MembersOf(kind.name, members), MembersOf(kind.name, r.trees))
    decreases members
  {
    hide Supported, SomeLowering, Lower, AllFound, Tracked, Saved;
    if members != [] {
      var first := Lower(order, members[0], GLOBAL, generated, id);
      LowerKidsGrow(order, kind, members[1..], i + 1, GLOBAL, first.generated, first.delegateId);
      var r := LowerKids(order, kind, members, i, GLOBAL, generated, id);
      var rest := LowerKids(order, kind, members[1..], i + 1, GLOBAL, first.generated, first.delegateId);
      assert r.trees == [first.tree] + rest.trees;
      FoundBefore(ds, first.generated, r.generated);
      if members[0].kind.FunctionDecl? {
        FunctionLowers(order, ds, members[0], generated, id);
      } else {
        NoFunction(order, members[0], generated, id);
      }
      MembersLowered(order, ds, kind, members[1..], i + 1, first.generated, first.delegateId);
      assert r.trees[1..] == rest.trees;
    }
  }

  lemma NoFunction(order: set<string> -> seq<string>, t: Tree, generated: seq<Delegate>, id: nat)
    requires !t.kind.FunctionDecl?
    ensures !Lower(order, t, GLOBAL, generated, id).tree.kind.FunctionDecl?
  {
    hide LowerKids;
  }

  lemma FunctionLowers(order: set<string> -> seq<string>, ds: seq<Delegate>, decl: Tree, generated: seq<Delegate>,
                       id: nat)
    requires decl.kind.FunctionDecl? && |decl.kids| == 1 && Supported(decl, GLOBAL)
    requires AllFound(ds, Lower(order, decl, GLOBAL, generated, id).generated)
    ensures var t := Lower(order, decl, GLOBAL, generated, id).tree;
            && t.kind.FunctionDecl? && t.kind.name == decl.kind.name && t.kind.params == decl.kind.params
            && |t.kids| == 1
            && SomeLowering(order, ds, FunctionOf(decl), FunctionOf(t))
  {
    hide LowerKids, AllFound;
    KidsOne(order, decl.kind, decl.kids, GLOBAL, generated, id);
    var inner := KidScopes(decl.kind, 0, GLOBAL);
    KidTracks(decl.kind, 0, GLOBAL);
    assert Tracked(GLOBAL) == {};
    var t := Lower(order, decl, GLOBAL, generated, id).tree;
    assert FunctionLowered(order, ds, FunctionOf(decl), FunctionOf(t), inner, generated, id);
  }

  /** The machine with the program's functions and methods and the generated types. */
  function Running<W>(base: Machine<W>, decls: seq<Tree>, types: seq<Delegate>): Machine<W>
    requires HaveBodies(decls)
  {
    base.(functions := FunctionsOf(decls), methods := MethodsOf(decls), delegates := types)
  }

  /** Lowering preserves whole programs: whenever the statements of a program run to the end, those of
      the lowered program do so too, with the same effects and related values. */
  lemma ProgramPreserved<W>(order: set<string> -> seq<string>, base: Machine<W>, decls: seq<Tree>, stmts: seq<Tree>,
                            id: nat, w: W, fuel: nat)
    requires Enumerates(order) && HaveBodies(decls) && SupportedAll(decls, GLOBAL) && SupportedAll(stmts, GLOBAL)
    requires "pow" !in FunctionsOf(decls) && "mod" !in FunctionsOf(decls)
    requires EvalAll(Running(base, decls, []), stmts, [], w, fuel).Some?
    ensures var p := LowerProgram(order, decls, stmts, id);
            && HaveBodies(p.decls)
            && var o := EvalAll(Running(base, decls, []), stmts, [], w, fuel).value;
               var r := EvalAll(Running(base, p.decls, p.types), p.stmts, [], w, fuel);
               && r.Some? && r.value.world == o.world && AllRelated(order, p.types, o.values, r.value.values)
               && forall i | 0 <= i < |stmts| && FirstOrder(o.values[i]) :: r.value.values[i] == o.values[i]
  {
    hide Enumerates, Supported, Eval, EvalAll, Related, SomeLowering, Lower, LowerKids, FunctionsOf, MethodsOf,
      AllFound, Numbered,
      FindDelegate, Reversed;
    var d := LowerKids(order, Program, decls, 0, GLOBAL, [], id);
    var s := LowerKids(order, Program, stmts, |decls|, GLOBAL, d.generated, d.delegateId);
    var p := LowerProgram(order, decls, stmts, id);
    LowerKidsUnique(order, Program, decls, 0, GLOBAL, [], id);
    LowerKidsUnique(order, Program, stmts, |decls|, GLOBAL, d.generated, d.delegateId);
    UniqueFound(s.generated, s.delegateId);
    LowerKidsGrow(order, Program, stmts, |decls|, GLOBAL, d.generated, d.delegateId);
    FoundBefore(p.types, d.generated, s.generated);
    DeclsLowered(order, p.types, decls, 0, [], id);
    var m, n := Running(base, decls, []), Running(base, p.decls, p.types);
    var setting := Setting(order, m, n);
    assert Good(setting);
    SimAll(setting, Program, stmts, |decls|, GLOBAL, d.generated, d.delegateId, [], [], FreeAll(stmts), w, fuel);
    var o := EvalAll(m, stmts, [], w, fuel).value;
    var r := EvalAll(n, p.stmts, [], w, fuel).value;
    forall i | 0 <= i < |stmts| && FirstOrder(o.values[i]) ensures r.values[i] == o.values[i] {
      RelatedFirstOrder(order, p.types, o.values[i], r.values[i]);
    }
  }
}
