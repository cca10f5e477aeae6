/** Macro expansion (semantic/macro_expander.cpp): cloning a macro body with its binders renamed,
    its parameters replaced and its matches decided. */
module MacroExpansion {
  import opened Wrappers
  import opened Decimal
  import opened MacroSyntax

  const MAX_EXPANSION_DEPTH: nat := 128

  datatype Macro = Macro(params: seq<string>, body: Expr)

  type Macros = map<string, Macro>

  type Bindings = map<string, Expr>

  type Renames = seq<map<string, string>>

  /** A clone and the counter of fresh names after it. */
  datatype Cloned = Cloned(expr: Expr, counter: nat)

  datatype ClonedAll = ClonedAll(exprs: seq<Expr>, counter: nat)

  function FreshName(base: string, index: nat): string {
    "__macro_" + base + "_" + ToText(index)
  }

  /** The new name of a macro-local variable, innermost scope first. */
  function LookupLocal(renames: Renames, name: string): Option<string> {
    if renames == [] then None
    else if name in renames[|renames| - 1] then Some(renames[|renames| - 1][name])
    else LookupLocal(renames[..|renames| - 1], name)
  }

  /** Fresh names for a parameter list, and the scope that records them. */
  function FreshAll(names: seq<string>, counter: nat): (renamed: seq<string>)
    ensures |renamed| == |names|
    decreases names
  {
    if names == [] then [] else [FreshName(names[0], counter + 1)] + FreshAll(names[1..], counter + 1)
  }

  function Zip<T>(names: seq<string>, values: seq<T>): map<string, T>
    requires |names| == |values|
  {
    if names == [] then map[]
    else Zip(names[..|names| - 1], values[..|values| - 1])[names[|names| - 1] := values[|values| - 1]]
  }

  /** Matches a value against a pattern, adding to the captures; `None` when it does not match. */
  function BindPattern(p: Pattern, v: Expr, captures: Bindings): Option<Bindings>
    decreases p
  {
    match p
    case Capture(x) => Some(captures[x := v])
    case LitPattern(l) => if v == Lit(l) then Some(captures) else None
    case BinaryPattern(op, l, r) =>
      if v.Node? && v.kind == BinaryOp(op) && |v.kids| == 2 then
        var c1 :- BindPattern(l, v.kids[0], captures);
        BindPattern(r, v.kids[1], c1)
      else None
    case UnaryPattern(op, a) =>
      if v.Node? && v.kind == UnaryOp(op) && |v.kids| == 1 then BindPattern(a, v.kids[0], captures)
      else None
    case Other => None
  }

  /** The clone of `e` inside an expansion; `None` when an error is reported. */
  function Clone(macros: Macros, e: Expr, bindings: Bindings, renames: Renames, counter: nat, depth: nat)
    : Option<Cloned>
    requires depth <= MAX_EXPANSION_DEPTH
    decreases MAX_EXPANSION_DEPTH - depth, 1, e, 1
  {
    match e
    case Lit(_) => Some(Cloned(e, counter))
    case Var(x) =>
      (match LookupLocal(renames, x)
       case Some(y) => Some(Cloned(Var(y), counter))
       case None => Some(Cloned(if x in bindings then bindings[x] else e, counter)))
    case Node(kind, kids) =>
      var r :- CloneAll(macros, kids, bindings, renames, counter, depth);
      Some(Cloned(Node(kind, r.exprs), r.counter))
    case Bind(binder, x, init, body) =>
      var r1 :- Clone(macros, init, bindings, renames, counter, depth);
      var renamed := FreshName(x, r1.counter + 1);
      var r2 :- Clone(macros, body, bindings, renames + [map[x := renamed]], r1.counter + 1, depth);
      Some(Cloned(Bind(binder, renamed, r1.expr, r2.expr), r2.counter))
    case Lambda(ps, body) =>
      var renamed := FreshAll(ps, counter);
      var r :- Clone(macros, body, bindings, renames + [Zip(ps, renamed)], counter + |ps|, depth);
      Some(Cloned(Lambda(renamed, r.expr), r.counter))
    case Call(f, args) =>
      var r :- CloneAll(macros, args, bindings, renames, counter, depth);
      CloneCall(macros, f, r.exprs, bindings, renames, r.counter, depth)
    case Match(subject, cases, fallback) =>
      var r :- Clone(macros, subject, bindings, renames, counter, depth);
      CloneMatch(macros, e, cases, r.expr, bindings, renames, r.counter, depth)
  }

  function CloneAll(macros: Macros, es: seq<Expr>, bindings: Bindings, renames: Renames, counter: nat,
                    depth: nat): (r: Option<ClonedAll>)
    requires depth <= MAX_EXPANSION_DEPTH
    ensures r.Some? ==> |r.value.exprs| == |es|
    decreases MAX_EXPANSION_DEPTH - depth, 1, es, 0
  {
    if es == [] then Some(ClonedAll([], counter))
    else
      var r :- Clone(macros, es[0], bindings, renames, counter, depth);
      var rest :- CloneAll(macros, es[1..], bindings, renames, r.counter, depth);
      Some(ClonedAll([r.expr] + rest.exprs, rest.counter))
  }

  /** A call whose arguments have been cloned: a renamed local, a parameter, a macro or a function. */
  function CloneCall(macros: Macros, f: string, args: seq<Expr>, bindings: Bindings, renames: Renames,
                     counter: nat, depth: nat): Option<Cloned>
    requires depth <= MAX_EXPANSION_DEPTH
    decreases MAX_EXPANSION_DEPTH - depth, 0, 2
  {
    var local := LookupLocal(renames, f);
    if local.Some? then CallNamed(macros, local.value, args, counter, depth)
    else if f in bindings then
      (match bindings[f]
       case Var(g) => CallNamed(macros, g, args, counter, depth)
       case actual => Some(Cloned(Node(MethodCall("invoke"), [actual] + args), counter)))
    else CallNamed(macros, f, args, counter, depth)
  }

  function CallNamed(macros: Macros, f: string, args: seq<Expr>, counter: nat, depth: nat): Option<Cloned>
    requires depth <= MAX_EXPANSION_DEPTH
    decreases MAX_EXPANSION_DEPTH - depth, 0, 1
  {
    if f in macros then ExpandMacroCall(macros, f, args, counter, depth)
    else Some(Cloned(Call(f, args), counter))
  }

  /** The body of a macro with its parameters bound to `args`. */
  function ExpandMacroCall(macros: Macros, name: string, args: seq<Expr>, counter: nat, depth: nat)
    : Option<Cloned>
    requires depth <= MAX_EXPANSION_DEPTH
    decreases MAX_EXPANSION_DEPTH - depth, 0, 0
  {
    if name !in macros || depth >= MAX_EXPANSION_DEPTH || |args| != |macros[name].params| then None
    else Clone(macros, macros[name].body, Zip(macros[name].params, args), [map[]], counter, depth + 1)
  }

  /** The first case whose pattern matches, with its captures bound, or the default. */
  function CloneMatch(macros: Macros, e: Expr, cases: seq<Case>, subject: Expr, bindings: Bindings,
                      renames: Renames, counter: nat, depth: nat): Option<Cloned>
    requires depth <= MAX_EXPANSION_DEPTH
    requires e.Match? && |cases| <= |e.cases| && cases == e.cases[|e.cases| - |cases|..]
    decreases MAX_EXPANSION_DEPTH - depth, 1, e, 0, |cases|
  {
    if cases == [] then Clone(macros, e.fallback, bindings, renames, counter, depth)
    else
      match BindPattern(cases[0].pattern, subject, map[])
      case Some(captures) => Clone(macros, cases[0].result, bindings + captures, renames, counter, depth)
      case None => CloneMatch(macros, e, cases[1..], subject, bindings, renames, counter, depth)
  }

  /** Expansion of the calls in a program text; `None` when an error is reported, in particular for
      a match outside a macro. */
  function Expand(macros: Macros, e: Expr, counter: nat): Option<Cloned>
    decreases e, 1
  {
    match e
    case Lit(_) => Some(Cloned(e, counter))
    case Var(_) => Some(Cloned(e, counter))
    case Node(kind, kids) =>
      var r :- ExpandAll(macros, kids, counter);
      Some(Cloned(Node(kind, r.exprs), r.counter))
    case Bind(binder, x, init, body) =>
      var r1 :- Expand(macros, init, counter);
      var r2 :- Expand(macros, body, r1.counter);
      Some(Cloned(Bind(binder, x, r1.expr, r2.expr), r2.counter))
    case Lambda(ps, body) =>
      var r :- Expand(macros, body, counter);
      Some(Cloned(Lambda(ps, r.expr), r.counter))
    case Call(f, args) =>
      var r :- ExpandAll(macros, args, counter);
      CallNamed(macros, f, r.exprs, r.counter, 0)
    case Match(_, _, _) => None
  }

  function ExpandAll(macros: Macros, es: seq<Expr>, counter: nat): (r: Option<ClonedAll>)
    ensures r.Some? ==> |r.value.exprs| == |es|
    decreases es, 0
  {
    if es == [] then Some(ClonedAll([], counter))
    else
      var r :- Expand(macros, es[0], counter);
      var rest :- ExpandAll(macros, es[1..], r.counter);
      Some(ClonedAll([r.expr] + rest.exprs, rest.counter))
  }

  // ---------- the expander object ----------

  class ExpansionEnv {
    var bindings: Bindings
    var renameScopes: Renames

    constructor (bindings: Bindings, renameScopes: Renames)
      ensures this.bindings == bindings && this.renameScopes == renameScopes
    {
      this.bindings, this.renameScopes := bindings, renameScopes;
    }

    method PushScope()
      modifies this
      ensures bindings == old(bindings) && renameScopes == old(renameScopes) + [map[]]
    {
      renameScopes := renameScopes + [map[]];
    }

    method PopScope()
      modifies this
      ensures bindings == old(bindings)
      ensures renameScopes == if old(renameScopes) == [] then [] else old(renameScopes)[..|old(renameScopes)| - 1]
    {
      if renameScopes != [] {
        renameScopes := renameScopes[..|renameScopes| - 1];
      }
    }

    method BindLocal(original: string, renamed: string)
      modifies this
      ensures bindings == old(bindings)
      ensures var scopes := if old(renameScopes) == [] then [map[]] else old(renameScopes);
              renameScopes == scopes[..|scopes| - 1] + [scopes[|scopes| - 1][original := renamed]]
    {
      if renameScopes == [] {
        PushScope();
      }
      var last := |renameScopes| - 1;
      renameScopes := renameScopes[..last] + [renameScopes[last][original := renamed]];
    }

    method FindLocal(name: string) returns (renamed: Option<string>)
      ensures renamed == LookupLocal(renameScopes, name)
    {
      var i := |renameScopes|;
      assert renameScopes[..i] == renameScopes;
      while 0 < i
        invariant 0 <= i <= |renameScopes|
        invariant LookupLocal(renameScopes, name) == LookupLocal(renameScopes[..i], name)
      {
        i := i - 1;
        assert renameScopes[..i + 1][..i] == renameScopes[..i];
        if name in renameScopes[i] {
          return Some(renameScopes[i][name]);
        }
      }
      return None;
    }
  }

  method MatchPattern(p: Pattern, v: Expr, captures: Bindings) returns (r: Option<Bindings>)
    ensures r == BindPattern(p, v, captures)
    decreases p
  {
    match p
    case Capture(x) =>
      r := Some(captures[x := v]);
    case LitPattern(l) =>
      r := if v.Lit? && v.literal == l then Some(captures) else None;
    case BinaryPattern(op, left, right) =>
      if v.Node? && v.kind == BinaryOp(op) && |v.kids| == 2 {
        r := MatchPattern(left, v.kids[0], captures);
        if r.Some? {
          r := MatchPattern(right, v.kids[1], r.value);
        }
      } else {
        r := None;
      }
    case UnaryPattern(op, operand) =>
      if v.Node? && v.kind == UnaryOp(op) && |v.kids| == 1 {
        r := MatchPattern(operand, v.kids[0], captures);
      } else {
        r := None;
      }
    case Other =>
      r := None;
  }

  /** The expander: clones count up one shared counter and push and pop the renamings of the
      expansion they belong to. */
  class MacroExpander {
    const macros: Macros
    var uniqueCounter: nat
    var expansionDepth: nat

    constructor (macros: Macros)
      ensures this.macros == macros && uniqueCounter == 0 && expansionDepth == 0
    {
      this.macros := macros;
      uniqueCounter, expansionDepth := 0, 0;
    }

    method NewName(base: string) returns (name: string)
      modifies this`uniqueCounter
      ensures uniqueCounter == old(uniqueCounter) + 1 && name == FreshName(base, uniqueCounter)
    {
      uniqueCounter := uniqueCounter + 1;
      name := "__macro_" + base + "_" + ToText(uniqueCounter);
    }

    /** The step gave the specified tree and left the counter where it should be. */
    ghost predicate Gave(expected: Option<Cloned>, r: Option<Expr>)
      reads this`uniqueCounter
    {
      match expected
      case None => r == None
      case Some(cloned) => r == Some(cloned.expr) && uniqueCounter == cloned.counter
    }

    method CloneNode(e: Expr, env: ExpansionEnv) returns (r: Option<Expr>)
      requires expansionDepth <= MAX_EXPANSION_DEPTH
      modifies this`uniqueCounter, this`expansionDepth, env
      ensures Gave(Clone(macros, e, old(env.bindings), old(env.renameScopes), old(uniqueCounter),
                        old(expansionDepth)), r)
      ensures r.Some? ==> expansionDepth == old(expansionDepth)
      ensures r.Some? ==> env.bindings == old(env.bindings) && env.renameScopes == old(env.renameScopes)
      decreases MAX_EXPANSION_DEPTH - expansionDepth, 1, e, 2
    {
      match e
      case Lit(_) =>
        r := Some(e);
      case Var(x) =>
        var local := env.FindLocal(x);
        if local.Some? {
          r := Some(Var(local.value));
        } else {
          r := Some(if x in env.bindings then env.bindings[x] else e);
        }
      case Node(kind, kids) =>
        var rs := CloneNodes(kids, env);
        r := if rs.Some? then Some(Node(kind, rs.value)) else None;
      case Bind(_, _, _, _) =>
        r := CloneBinder(e, env);
      case Lambda(_, _) =>
        r := CloneLambda(e, env);
      case Call(f, args) =>
        var rs := CloneNodes(args, env);
        if rs.None? {
          return None;
        }
        r := CallByName(f, rs.value, env);
      case Match(subject, _, _) =>
        var v := CloneNode(subject, env);
        if v.None? {
          return None;
        }
        r := CloneCases(e, v.value, env);
    }

    method CloneNodes(es: seq<Expr>, env: ExpansionEnv) returns (rs: Option<seq<Expr>>)
      requires expansionDepth <= MAX_EXPANSION_DEPTH
      modifies this`uniqueCounter, this`expansionDepth, env
      ensures match CloneAll(macros, es, old(env.bindings), old(env.renameScopes), old(uniqueCounter),
                             old(expansionDepth))
              case None => rs == None
              case Some(cloned) => rs == Some(cloned.exprs) && uniqueCounter == cloned.counter
      ensures rs.Some? ==> expansionDepth == old(expansionDepth)
      ensures rs.Some? ==> env.bindings == old(env.bindings) && env.renameScopes == old(env.renameScopes)
      decreases MAX_EXPANSION_DEPTH - expansionDepth, 1, es, 0
    {
      if es == [] {
        return Some([]);
      }
      var r := CloneNode(es[0], env);
      if r.None? {
        return None;
      }
      var rest := CloneNodes(es[1..], env);
      if rest.None? {
        return None;
      }
      rs := Some([r.value] + rest.value);
    }

    method CloneBinder(e: Expr, env: ExpansionEnv) returns (r: Option<Expr>)
      requires expansionDepth <= MAX_EXPANSION_DEPTH && e.Bind?
      modifies this`uniqueCounter, this`expansionDepth, env
      ensures Gave(Clone(macros, e, old(env.bindings), old(env.renameScopes), old(uniqueCounter),
                        old(expansionDepth)), r)
      ensures r.Some? ==> expansionDepth == old(expansionDepth)
      ensures r.Some? ==> env.bindings == old(env.bindings) && env.renameScopes == old(env.renameScopes)
      decreases MAX_EXPANSION_DEPTH - expansionDepth, 1, e, 1
    {
      var init := CloneNode(e.init, env);
      if init.None? {
        return None;
      }
      env.PushScope();
      var name := NewName(e.name);
      env.BindLocal(e.name, name);
      assert env.renameScopes == old(env.renameScopes) + [map[e.name := name]];
      var body := CloneNode(e.body, env);
      if body.None? {
        return None;
      }
      env.PopScope();
      r := Some(Bind(e.binder, name, init.value, body.value));
    }

    method CloneLambda(e: Expr, env: ExpansionEnv) returns (r: Option<Expr>)
      requires expansionDepth <= MAX_EXPANSION_DEPTH && e.Lambda?
      modifies this`uniqueCounter, this`expansionDepth, env
      ensures Gave(Clone(macros, e, old(env.bindings), old(env.renameScopes), old(uniqueCounter),
                        old(expansionDepth)), r)
      ensures r.Some? ==> expansionDepth == old(expansionDepth)
      ensures r.Some? ==> env.bindings == old(env.bindings) && env.renameScopes == old(env.renameScopes)
      decreases MAX_EXPANSION_DEPTH - expansionDepth, 1, e, 1
    {
      var names := RenameParams(e.params, env);
      var body := CloneNode(e.body, env);
      if body.None? {
        return None;
      }
      env.PopScope();
      r := Some(Lambda(names, body.value));
    }

    method RenameParams(ps: seq<string>, env: ExpansionEnv) returns (names: seq<string>)
      modifies this`uniqueCounter, env
      ensures names == FreshAll(ps, old(uniqueCounter)) && uniqueCounter == old(uniqueCounter) + |ps|
      ensures env.bindings == old(env.bindings)
      ensures env.renameScopes == old(env.renameScopes) + [Zip(ps, names)]
    {
      env.PushScope();
      names := [];
      for i := 0 to |ps|
        invariant uniqueCounter == old(uniqueCounter) + i
        invariant names == FreshAll(ps[..i], old(uniqueCounter))
        invariant env.bindings == old(env.bindings)
        invariant env.renameScopes == old(env.renameScopes) + [Zip(ps[..i], names)]
      {
        var name := NewName(ps[i]);
        env.BindLocal(ps[i], name);
        assert ps[..i + 1] == ps[..i] + [ps[i]];
        FreshAllSnoc(ps[..i], ps[i], old(uniqueCounter));
        names := names + [name];
        assert ps[..i + 1][..i] == ps[..i] && names[..i] == names[..|names| - 1];
      }
      assert ps[..|ps|] == ps;
    }

    method CallByName(f: string, args: seq<Expr>, env: ExpansionEnv) returns (r: Option<Expr>)
      requires expansionDepth <= MAX_EXPANSION_DEPTH
      modifies this`uniqueCounter, this`expansionDepth
      ensures Gave(CloneCall(macros, f, args, env.bindings, env.renameScopes, old(uniqueCounter),
                            old(expansionDepth)), r)
      ensures r.Some? ==> expansionDepth == old(expansionDepth)
      decreases MAX_EXPANSION_DEPTH - expansionDepth, 0, 2
    {
      var name := f;
      var local := env.FindLocal(f);
      if local.Some? {
        name := local.value;
      } else if f in env.bindings {
        if env.bindings[f].Var? {
          name := env.bindings[f].name;
        } else {
          return Some(Node(MethodCall("invoke"), [env.bindings[f]] + args));
        }
      }
      assert CloneCall(macros, f, args, env.bindings, env.renameScopes, uniqueCounter, expansionDepth) ==
             CallNamed(macros, name, args, uniqueCounter, expansionDepth);
      if name in macros {
        r := ExpandCall(name, args);
      } else {
        r := Some(Call(name, args));
      }
    }

    method ExpandCall(name: string, args: seq<Expr>) returns (r: Option<Expr>)
      requires expansionDepth <= MAX_EXPANSION_DEPTH
      modifies this`uniqueCounter, this`expansionDepth
      ensures Gave(ExpandMacroCall(macros, name, args, old(uniqueCounter), old(expansionDepth)), r)
      ensures r.Some? ==> expansionDepth == old(expansionDepth)
      decreases MAX_EXPANSION_DEPTH - expansionDepth, 0, 0
    {
      if name !in macros || expansionDepth >= MAX_EXPANSION_DEPTH || |args| != |macros[name].params| {
        return None;
      }
      var env := new ExpansionEnv(Zip(macros[name].params, args), [map[]]);
      expansionDepth := expansionDepth + 1;
      r := CloneNode(macros[name].body, env);
      expansionDepth := if r.None? then expansionDepth else expansionDepth - 1;
    }

    method CloneCases(e: Expr, subject: Expr, env: ExpansionEnv) returns (r: Option<Expr>)
      requires expansionDepth <= MAX_EXPANSION_DEPTH && e.Match?
      modifies this`uniqueCounter, this`expansionDepth, env
      ensures Gave(CloneMatch(macros, e, e.cases, subject, old(env.bindings), old(env.renameScopes),
                             old(uniqueCounter), old(expansionDepth)), r)
      ensures r.Some? ==> expansionDepth == old(expansionDepth)
      ensures r.Some? ==> env.bindings == old(env.bindings) && env.renameScopes == old(env.renameScopes)
      decreases MAX_EXPANSION_DEPTH - expansionDepth, 1, e, 1
    {
      for i := 0 to |e.cases|
        invariant uniqueCounter == old(uniqueCounter) && expansionDepth == old(expansionDepth)
        invariant env.bindings == old(env.bindings) && env.renameScopes == old(env.renameScopes)
        invariant CloneMatch(macros, e, e.cases, subject, env.bindings, env.renameScopes, uniqueCounter,
                             expansionDepth) ==
                  CloneMatch(macros, e, e.cases[i..], subject, env.bindings, env.renameScopes, uniqueCounter,
                             expansionDepth)
      {
        var captures := MatchPattern(e.cases[i].pattern, subject, map[]);
        if captures.Some? {
          var branch := new ExpansionEnv(env.bindings + captures.value, env.renameScopes);
          r := CloneNode(e.cases[i].result, branch);
          return;
        }
        assert e.cases[i..][1..] == e.cases[i + 1..];
      }
      r := CloneNode(e.fallback, env);
    }

    /** Expands the macro calls of a program text, innermost arguments first. */
    method ExpandNode(e: Expr) returns (r: Option<Expr>)
      requires expansionDepth == 0
      modifies this`uniqueCounter, this`expansionDepth
      ensures Gave(Expand(macros, e, old(uniqueCounter)), r)
      ensures r.Some? ==> expansionDepth == 0
      decreases e, 1
    {
      match e
      case Lit(_) =>
        r := Some(e);
      case Var(_) =>
        r := Some(e);
      case Node(kind, kids) =>
        var rs := ExpandNodes(kids);
        r := if rs.Some? then Some(Node(kind, rs.value)) else None;
      case Bind(binder, x, init, body) =>
        var i := ExpandNode(init);
        if i.None? {
          return None;
        }
        var b := ExpandNode(body);
        r := if b.Some? then Some(Bind(binder, x, i.value, b.value)) else None;
      case Lambda(ps, body) =>
        var b := ExpandNode(body);
        r := if b.Some? then Some(Lambda(ps, b.value)) else None;
      case Call(f, args) =>
        var rs := ExpandNodes(args);
        if rs.None? {
          return None;
        }
        if f in macros {
          r := ExpandCall(f, rs.value);
        } else {
          r := Some(Call(f, rs.value));
        }
      case Match(_, _, _) =>
        r := None;
    }

    method ExpandNodes(es: seq<Expr>) returns (rs: Option<seq<Expr>>)
      requires expansionDepth == 0
      modifies this`uniqueCounter, this`expansionDepth
      ensures match ExpandAll(macros, es, old(uniqueCounter))
              case None => rs == None
              case Some(all) => rs == Some(all.exprs) && uniqueCounter == all.counter
      ensures rs.Some? ==> expansionDepth == 0
      decreases es, 0
    {
      if es == [] {
        return Some([]);
      }
      var r := ExpandNode(es[0]);
      if r.None? {
        return None;
      }
      var rest := ExpandNodes(es[1..]);
      rs := if rest.Some? then Some([r.value] + rest.value) else None;
    }
  }

  lemma {:induction false} FreshAllSnoc(names: seq<string>, name: string, counter: nat)
    ensures FreshAll(names + [name], counter) == FreshAll(names, counter) + [FreshName(name, counter + |names| + 1)]
    decreases names
  {
    if names != [] {
      assert (names + [name])[1..] == names[1..] + [name];
      FreshAllSnoc(names[1..], name, counter + 1);
    }
  }
}
