/** What trees mean, before and after lowering. Functions are first-class values that capture their
    variables by value; everything outside the fragment (library functions, vectors, the objects of user
    types and their attributes) is a parameter of the semantics with access to the state of the world. */
module LoweringSemantics {
  import opened Wrappers
  import opened Scoping
  import opened LoweringTree

  datatype Value =
    | Unit
    | Num(number: real) | Str(text: string) | Bool(truth: bool)
    | Ref(address: nat)
    | Closure(params: seq<string>, body: Tree, captured: Env)
    | Instance(typeName: string, fields: Env)

  datatype Entry = Entry(name: string, value: Value)

  /** Variables and their values; the last entry of a name counts. */
  type Env = seq<Entry>

  datatype Function = Function(params: seq<string>, body: Tree)

  /** What the program runs on: its functions, the methods of its types by type and name, the generated
      types, arithmetic, the type in which an object finds a method, and the operations of everything
      else. */
  datatype Machine<!W> = Machine(
    functions: map<string, Function>,
    methods: map<(string, string), Function>,
    delegates: seq<Delegate>,
    arithmetic: (string, Value, Value) -> Option<Value>,
    power: (real, real) -> real,
    remainder: (real, real) -> real,
    textOf: Value -> string,
    dispatch: (Value, string, W) -> Option<string>,
    operation: (Kind, seq<Value>, W) -> Option<(Value, W)>)

  datatype Outcome<W> = Outcome(value: Value, env: Env, world: W)

  datatype Outcomes<W> = Outcomes(values: seq<Value>, env: Env, world: W)

  // ---------- environments ----------

  function Get(env: Env, x: string): (r: Option<Value>)
    ensures r.Some? ==> exists i | 0 <= i < |env| :: env[i] == Entry(x, r.value)
  {
    if env == [] then None
    else if env[|env| - 1].name == x then Some(env[|env| - 1].value)
    else Get(env[..|env| - 1], x)
  }

  function Put(env: Env, x: string, v: Value): (r: Env)
    ensures forall y :: Get(r, y) == if y == x then Some(v) else Get(env, y)
  {
    var r := env + [Entry(x, v)];
    assert r[..|env|] == env;
    r
  }

  function Drop(env: Env, x: string): (r: Env)
    ensures forall y :: Get(r, y) == if y == x then None else Get(env, y)
  {
    if env == [] then []
    else
      var rest := Drop(env[..|env| - 1], x);
      if env[|env| - 1].name == x then rest else Put(rest, env[|env| - 1].name, env[|env| - 1].value)
  }

  /** On leaving the scope of `x`, the name means what it meant before. */
  function Restore(env: Env, x: string, saved: Option<Value>): (r: Env)
    ensures forall y :: Get(r, y) == if y == x then saved else Get(env, y)
  {
    match saved
    case Some(v) => Put(env, x, v)
    case None => Drop(env, x)
  }

  function PutAll(env: Env, xs: seq<string>, vs: seq<Value>): Env
    decreases xs
  {
    if xs == [] || vs == [] then env else PutAll(Put(env, xs[0], vs[0]), xs[1..], vs[1..])
  }

  // ---------- operations ----------

  predicate FirstOrder(v: Value) {
    !v.Closure? && !v.Instance?
  }

  predicate AllFirstOrder(vs: seq<Value>) {
    forall i | 0 <= i < |vs| :: FirstOrder(vs[i])
  }

  function FindDelegate(ds: seq<Delegate>, name: string): Option<Delegate> {
    if ds == [] then None
    else if ds[0].name == name then Some(ds[0])
    else FindDelegate(ds[1..], name)
  }

  /** Binary operators: `^` and `%` are arithmetic, `!=` the opposite of `==`, and `@@` concatenation
      with a blank in between. */
  function BinaryValue<W>(m: Machine<W>, op: string, a: Value, b: Value): Option<Value> {
    if !FirstOrder(a) || !FirstOrder(b) then None
    else if op == "^" then if a.Num? && b.Num? then Some(Num(m.power(a.number, b.number))) else None
    else if op == "%" then if a.Num? && b.Num? then Some(Num(m.remainder(a.number, b.number))) else None
    else if op == "==" then Some(Bool(a == b))
    else if op == "!=" then Some(Bool(a != b))
    else if op == "@" then Some(Str(TextOf(m, a) + TextOf(m, b)))
    else if op == "@@" then Some(Str(TextOf(m, a) + " " + TextOf(m, b)))
    else m.arithmetic(op, a, b)
  }

  function TextOf<W>(m: Machine<W>, v: Value): string {
    if v.Str? then v.text else m.textOf(v)
  }

  /** Operations that are not the language's own: only on values that are not functions. */
  function Foreign<W>(m: Machine<W>, kind: Kind, vs: seq<Value>, w: W): Option<(Value, W)> {
    if AllFirstOrder(vs) then
      var r :- m.operation(kind, vs, w);
      if FirstOrder(r.0) then Some(r) else None
    else None
  }

  /** The method of the program's types that a call runs, if it is one of theirs. */
  function MethodOf<W>(m: Machine<W>, selector: string, vs: seq<Value>, w: W): Option<Function> {
    if vs != [] && FirstOrder(vs[0]) then
      var owner :- m.dispatch(vs[0], selector, w);
      if (owner, selector) in m.methods then Some(m.methods[(owner, selector)]) else None
    else None
  }

  /** Kinds whose children are all evaluated, in order, before anything else happens. */
  predicate Strict(kind: Kind) {
    match kind
    case Binary(_) => true
    case Unary(_) => true
    case Call(_, functorValue) => !functorValue
    case MethodCall(_) => true
    case Member(_) => true
    case New(_) => true
    case VectorLiteral => true
    case Index => true
    case _ => false
  }

  // ---------- evaluation ----------

  function Eval<W>(m: Machine<W>, t: Tree, env: Env, w: W, fuel: nat): Option<Outcome<W>>
    decreases fuel, 1, t, 2
  {
    match t.kind
    case Number(r) => Some(Outcome(Num(r), env, w))
    case Text(s) => Some(Outcome(Str(s), env, w))
    case Boolean(b) => Some(Outcome(Bool(b), env, w))
    case Variable(x) =>
      var v :- Get(env, x);
      Some(Outcome(v, env, w))
    case Lambda(params) =>
      if |t.kids| == 1 then Some(Outcome(Closure(params, t.kids[0], env), env, w)) else None
    case Let(x) =>
      if |t.kids| == 2 then
        var init :- Eval(m, t.kids[0], env, w, fuel);
        var body :- Eval(m, t.kids[1], Put(init.env, x, init.value), init.world, fuel);
        Some(Outcome(body.value, Restore(body.env, x, Get(init.env, x)), body.world))
      else None
    case If =>
      if |t.kids| == 2 || |t.kids| == 3 then
        var c :- Eval(m, t.kids[0], env, w, fuel);
        if c.value == Bool(true) then Eval(m, t.kids[1], c.env, c.world, fuel)
        else if c.value == Bool(false) then
          if |t.kids| == 3 then Eval(m, t.kids[2], c.env, c.world, fuel) else Some(Outcome(Unit, c.env, c.world))
        else None
      else None
    case While =>
      if |t.kids| == 2 && fuel > 0 then
        var c :- Eval(m, t.kids[0], env, w, fuel);
        if c.value == Bool(true) then
          var b :- Eval(m, t.kids[1], c.env, c.world, fuel);
          Eval(m, t, b.env, b.world, fuel - 1)
        else if c.value == Bool(false) then Some(Outcome(Unit, c.env, c.world))
        else None
      else None
    case For(x) =>
      if |t.kids| == 2 then
        var iter :- Eval(m, t.kids[0], env, w, fuel);
        EvalFor(m, t, x, iter.value, iter.env, iter.world, fuel)
      else None
    case Block =>
      var all :- EvalAll(m, t.kids, env, w, fuel);
      Some(Outcome(if all.values == [] then Unit else all.values[|all.values| - 1], all.env, all.world))
    case ExprStmt => if |t.kids| == 1 then Eval(m, t.kids[0], env, w, fuel) else None
    case Assignment =>
      if |t.kids| == 2 && t.kids[0].kind.Variable? then
        var r :- Eval(m, t.kids[1], env, w, fuel);
        if Get(r.env, t.kids[0].kind.name).Some? then
          Some(Outcome(r.value, Put(r.env, t.kids[0].kind.name, r.value), r.world))
        else None
      else None
    case Call(f, functorValue) =>
      if functorValue then
        var callee :- Get(env, f);
        var args :- EvalAll(m, t.kids, env, w, fuel);
        var r :- Apply(m, callee, args.values, args.world, fuel);
        Some(Outcome(r.0, args.env, r.1))
      else EvalStrict(m, t, env, w, fuel)
    case _ => EvalStrict(m, t, env, w, fuel)
  }

  function EvalStrict<W>(m: Machine<W>, t: Tree, env: Env, w: W, fuel: nat): Option<Outcome<W>>
    decreases fuel, 1, t, 1
  {
    if Strict(t.kind) then
      var args :- EvalAll(m, t.kids, env, w, fuel);
      var r :- Operate(m, t.kind, args.values, args.world, fuel);
      Some(Outcome(r.0, args.env, r.1))
    else None
  }

  function EvalAll<W>(m: Machine<W>, ts: seq<Tree>, env: Env, w: W, fuel: nat): (r: Option<Outcomes<W>>)
    ensures r.Some? ==> |r.value.values| == |ts|
    decreases fuel, 1, ts, 0
  {
    if ts == [] then Some(Outcomes([], env, w))
    else
      var first :- Eval(m, ts[0], env, w, fuel);
      var rest :- EvalAll(m, ts[1..], first.env, first.world, fuel);
      Some(Outcomes([first.value] + rest.values, rest.env, rest.world))
  }

  /** The rounds of a for-loop over the object `it`. */
  function EvalFor<W>(m: Machine<W>, t: Tree, x: string, it: Value, env: Env, w: W, fuel: nat): Option<Outcome<W>>
    requires |t.kids| == 2
    decreases fuel, 1, t, 1
  {
    if fuel == 0 then None
    else
      var more :- Operate(m, MethodCall("next"), [it], w, fuel);
      if more.0 == Bool(true) then
        var current :- Operate(m, MethodCall("current"), [it], more.1, fuel);
        var body :- Eval(m, t.kids[1], Put(env, x, current.0), current.1, fuel);
        EvalFor(m, t, x, it, Restore(body.env, x, Get(env, x)), body.world, fuel - 1)
      else if more.0 == Bool(false) then Some(Outcome(Unit, env, more.1))
      else None
  }

  /** What a strict kind does with the values of its children. */
  function Operate<W>(m: Machine<W>, kind: Kind, vs: seq<Value>, w: W, fuel: nat): Option<(Value, W)>
    decreases fuel, 0, 1
  {
    match kind
    case Binary(op) =>
      if |vs| == 2 then
        var v :- BinaryValue(m, op, vs[0], vs[1]);
        if FirstOrder(v) then Some((v, w)) else None
      else None
    case Unary(op) =>
      if op == "!" then if |vs| == 1 && vs[0].Bool? then Some((Bool(!vs[0].truth), w)) else None
      else Foreign(m, kind, vs, w)
    case Call(f, _) =>
      if f in m.functions then
        if |vs| == |m.functions[f].params| && fuel > 0 then
          var r :- Eval(m, m.functions[f].body, PutAll([], m.functions[f].params, vs), w, fuel - 1);
          Some((r.value, r.world))
        else None
      else if f == "pow" && |vs| == 2 then
        if vs[0].Num? && vs[1].Num? then Some((Num(m.power(vs[0].number, vs[1].number)), w)) else None
      else if f == "mod" && |vs| == 2 then
        if vs[0].Num? && vs[1].Num? then Some((Num(m.remainder(vs[0].number, vs[1].number)), w)) else None
      else Foreign(m, kind, vs, w)
    case MethodCall(selector) =>
      if selector == "invoke" && vs != [] && !FirstOrder(vs[0]) then Apply(m, vs[0], vs[1..], w, fuel)
      else
        (match MethodOf(m, selector, vs, w)
         case Some(f) =>
           if |vs| == 1 + |f.params| && fuel > 0 then
             var r :- Eval(m, f.body, PutAll([Entry("self", vs[0])], f.params, vs[1..]), w, fuel - 1);
             Some((r.value, r.world))
           else None
         case None => Foreign(m, kind, vs, w))
    case Member(x) =>
      if |vs| == 1 && vs[0].Instance? then
        var v :- Get(vs[0].fields, x);
        Some((v, w))
      else Foreign(m, kind, vs, w)
    case New(name) =>
      (match FindDelegate(m.delegates, name)
       case Some(d) =>
         if |vs| == |d.captured| then Some((Instance(name, PutAll([], d.captured, vs)), w)) else None
       case None => Foreign(m, kind, vs, w))
    case _ => Foreign(m, kind, vs, w)
  }

  /** Calls a function value: a closure in the program as written, a delegate after lowering. */
  function Apply<W>(m: Machine<W>, callee: Value, vs: seq<Value>, w: W, fuel: nat): Option<(Value, W)>
    decreases fuel, 0, 0
  {
    if fuel == 0 then None
    else
      match callee
      case Closure(params, body, captured) =>
        if |vs| == |params| then
          var r :- Eval(m, body, PutAll(captured, params, vs), w, fuel - 1);
          Some((r.value, r.world))
        else None
      case Instance(name, _) =>
        (match FindDelegate(m.delegates, name)
         case Some(d) =>
           if |vs| == |d.params| then
             var r :- Eval(m, d.body, PutAll([Entry("self", callee)], d.params, vs), w, fuel - 1);
             Some((r.value, r.world))
           else None
         case None => None)
      case _ => None
  }
}
