/** Code generation for expressions (ir_generator/ir_generator.cpp). */
module IrGeneration {
  import opened Wrappers
  import opened Names
  import opened Scoping
  import opened Source
  import Qbe
  import opened Qb = Qbe

  /** What the visitors read and update. */
  datatype GenState = GenState(
    code: Program, name: string, cls: Class, scopes: Scopes<Ty>, counters: Counters)

  function ClassOf(ty: Ty): Class {
    match ty
    case Number => D
    case Bool => W
    case Other => L
  }

  function FreshName(s: GenState, base: string): string {
    Numbered(base, Count(s.counters, base) + 1)
  }

  function Bump(s: GenState, base: string): GenState {
    s.(counters := s.counters[base := Count(s.counters, base) + 1])
  }

  function Emit(s: GenState, i: Instr): GenState {
    s.(code := s.code + [i])
  }

  function Result(s: GenState, name: string, cls: Class): GenState {
    s.(name := name, cls := cls)
  }

  /** A fresh register for the value of `operation`, which becomes the current expression. */
  function Yield(s: GenState, base: string, cls: Class, operation: Operation): GenState {
    Result(Emit(Bump(s, base), Set(FreshName(s, base), operation)), FreshName(s, base), cls)
  }

  function EnterScope(s: GenState): GenState {
    s.(scopes := s.scopes + [map[]])
  }

  function ExitScope(s: GenState): GenState {
    s.(scopes := if s.scopes == [] then [] else s.scopes[..|s.scopes| - 1])
  }

  /** What a generated name is for, other than a source variable. */
  datatype Purpose =
    | NumLiteral | BoolLiteral | LetInResult | BlockResult | IfResult
    | ThenLabel | ElseLabel | MergeLabel | LoopCond | LoopBody | LoopEnd
    | Compared(rel: Relation) | Calculated(arith: ArithOp) | Negation | Negated

  function Base(purpose: Purpose): string {
    match purpose
    case NumLiteral => "num_literal"
    case BoolLiteral => "bool_literal"
    case LetInResult => "let_in_result"
    case BlockResult => "block_result"
    case IfResult => "if_result"
    case ThenLabel => "then"
    case ElseLabel => "else"
    case MergeLabel => "merge"
    case LoopCond => "loop_cond"
    case LoopBody => "loop_body"
    case LoopEnd => "loop_end"
    case Compared(Lt) => "less_than"
    case Compared(Gt) => "greater_than"
    case Compared(Le) => "less_equal"
    case Compared(Ge) => "greater_equal"
    case Compared(Eq) => "equals"
    case Calculated(Add) => "addition"
    case Calculated(Sub) => "subtraction"
    case Calculated(Mul) => "multiplication"
    case Calculated(Div) => "division"
    case Negation => "negation"
    case Negated => "not"
  }

  function UnaryPurpose(op: UnaryOp): Purpose {
    match op
    case Neg => Negation
    case Not => Negated
  }

  /** No purpose gives a base that ends in a digit or could be a variable's. */
  lemma BaseIsPlain(purpose: Purpose)
    ensures !EndsInDigit(Base(purpose)) && Base(purpose) != [] && Base(purpose)[0] != '_'
  {
  }

  /** The emission for an operation on two compiled operands. `&` and `|` emit nothing, which
      leaves the right operand as the current expression. */
  function CompileOperation(s: GenState, op: BinaryOp, left: string, cls: Class,
                            leftTy: Ty, rightTy: Ty, ty: Ty): GenState {
    match op
    case Compare(rel) =>
      if rel.Eq? && leftTy != rightTy then
        Yield(s, Base(Compared(rel)), W, Constant(W, Word(0)))
      else
        Yield(s, Base(Compared(rel)), W, Comparison(rel, cls, left, s.name))
    case Arith(arith) =>
      Yield(s, Base(Calculated(arith)), ClassOf(ty), Arithmetic(ClassOf(ty), arith, left, s.name))
    case And => s
    case Or => s
  }

  function CompileUnary(s: GenState, op: UnaryOp, ty: Ty): GenState {
    match op
    case Neg => Yield(s, Base(UnaryPurpose(op)), ClassOf(ty), SubtractFromZero(ClassOf(ty), s.name))
    case Not => Yield(s, Base(UnaryPurpose(op)), ClassOf(ty), XorOne(ClassOf(ty), s.name))
  }

  /** Generation only appends code, only hands out more names and leaves the scopes as they were. */
  ghost predicate Extends(s: GenState, t: GenState) {
    s.code <= t.code && t.scopes == s.scopes && Grown(s.counters, t.counters)
  }

  // One function per visitor: the state it leaves behind, or `None` where an unknown variable
  // makes it throw.

  function Compile(s: GenState, e: Expr): (t: Option<GenState>)
    ensures t.Some? ==> Extends(s, t.value)
    decreases e, 3
  {
    match e
    case NumberLit(n, ty) =>
      Some(Yield(s, Base(NumLiteral), ClassOf(ty), Constant(ClassOf(ty), Double(n))))
    case BoolLit(b, ty) =>
      Some(Yield(s, Base(BoolLiteral), ClassOf(ty), Constant(ClassOf(ty), Flag(b))))
    case Var(x, ty) =>
      var info :- Lookup(s.scopes, x);
      Some(Result(s, info.register, ClassOf(ty)))
    case Binary(_, _, _, _) => CompileBinary(s, e)
    case Unary(op, a, ty) =>
      var s1 :- Compile(s, a);
      Some(CompileUnary(s1, op, ty))
    case Let(_, _, _, _) => CompileLet(s, e)
    case Block(_, _) => CompileBlock(s, e)
    case If(_, _, _, _) => CompileIf(s, e)
    case Assign(_, _, _) => CompileAssign(s, e)
    case While(_, _, _) => CompileWhile(s, e)
  }

  function CompileBinary(s: GenState, e: Expr): (t: Option<GenState>)
    requires e.Binary?
    ensures t.Some? ==> Extends(s, t.value)
    decreases e, 0
  {
    var s1 :- Compile(s, e.left);
    var s2 :- Compile(s1, e.right);
    Some(CompileOperation(s2, e.op, s1.name, s1.cls, e.left.ty, e.right.ty, e.ty))
  }

  function CompileLet(s: GenState, e: Expr): (t: Option<GenState>)
    requires e.Let?
    ensures t.Some? ==> Extends(s, t.value)
    decreases e, 0
  {
    var s2 :- Compile(StartLet(s, e.name), e.init);
    var s4 :- Compile(EndInit(s, e.name, s2), e.body);
    Some(ExitScope(CopyResult(s4, Base(LetInResult), e.ty)))
  }

  /** The register is defined before the initialiser is compiled. */
  function StartLet(s: GenState, x: string): GenState {
    var s0 := EnterScope(s);
    Bump(s0, "_" + x).(scopes := Defined(s0.scopes, x, VariableInfo(FreshName(s0, "_" + x), None)))
  }

  function EndInit(s: GenState, x: string, s2: GenState): GenState {
    Emit(s2, Set(FreshName(s, "_" + x), Copy(s2.cls, s2.name)))
  }

  function CopyResult(s: GenState, base: string, ty: Ty): GenState {
    Yield(s, base, ClassOf(ty), Copy(ClassOf(ty), s.name))
  }

  function CompileBlock(s: GenState, e: Expr): (t: Option<GenState>)
    requires e.Block?
    ensures t.Some? ==> Extends(s, t.value)
    decreases e, 0
  {
    var s1 :- CompileSeq(EnterScope(s), e.stmts);
    Some(ExitScope(CopyResult(s1, Base(BlockResult), e.ty)))
  }

  function CompileSeq(s: GenState, es: seq<Expr>): (t: Option<GenState>)
    ensures t.Some? ==> Extends(s, t.value)
    decreases es
  {
    if es == [] then Some(s)
    else
      var s1 :- Compile(s, es[0]);
      CompileSeq(s1, es[1..])
  }

  function CompileIf(s: GenState, e: Expr): (t: Option<GenState>)
    requires e.If?
    ensures t.Some? ==> Extends(s, t.value)
    decreases e, 2
  {
    var s1 :- Compile(Bump(s, Base(IfResult)), e.cond);
    CompileBranches(s1, e, FreshName(s, Base(IfResult)))
  }

  /** Everything after the condition; both branches leave their value in `res`. */
  function CompileBranches(s1: GenState, e: Expr, res: string): (t: Option<GenState>)
    requires e.If?
    ensures t.Some? ==> Extends(s1, t.value)
    decreases e, 1
  {
    var s3 :- Compile(StartBranches(s1), e.thenBranch);
    var s5 :- CompileElse(EndThen(s3, res, s1), e, res);
    Some(Result(Emit(s5, Label(FreshName(s1, Base(MergeLabel)))), res, ClassOf(e.ty)))
  }

  function StartBranches(s: GenState): GenState {
    var s' := Bump(Bump(Bump(s, Base(ThenLabel)), Base(ElseLabel)), Base(MergeLabel));
    Emit(Emit(s', Jnz(s.name, FreshName(s, Base(ThenLabel)), FreshName(s, Base(ElseLabel)))), Label(FreshName(s, Base(ThenLabel))))
  }

  /** The end of the then branch; `s1` is the state whose fresh names became the labels. */
  function EndThen(s: GenState, res: string, s1: GenState): GenState {
    Emit(Emit(Emit(s, Set(res, Copy(s.cls, s.name))), Jmp(FreshName(s1, Base(MergeLabel)))), Label(FreshName(s1, Base(ElseLabel))))
  }

  function CompileElse(s: GenState, e: Expr, res: string): (t: Option<GenState>)
    requires e.If?
    ensures t.Some? ==> Extends(s, t.value)
    decreases e, 0
  {
    match e.elseBranch
    case None => Some(s)
    case Some(f) =>
      var s' :- Compile(EnterScope(s), f);
      Some(ExitScope(Emit(s', Set(res, Copy(s'.cls, s'.name)))))
  }

  function CompileAssign(s: GenState, e: Expr): (t: Option<GenState>)
    requires e.Assign?
    ensures t.Some? ==> Extends(s, t.value)
    decreases e, 0
  {
    var s1 :- Compile(s, e.source);
    var info :- Lookup(s1.scopes, e.target);
    Some(Result(Emit(s1, Set(info.register, Copy(ClassOf(e.ty), s1.name))), s1.name, ClassOf(e.ty)))
  }

  function CompileWhile(s: GenState, e: Expr): (t: Option<GenState>)
    requires e.While?
    ensures t.Some? ==> Extends(s, t.value)
    decreases e, 0
  {
    var s2 :- Compile(StartLoop(s), e.cond);
    var s4 :- Compile(EnterScope(StartBody(s2, s)), e.loopBody);
    Some(EndLoop(s4, s))
  }

  function StartLoop(s: GenState): GenState {
    Emit(Bump(Bump(Bump(s, Base(LoopCond)), Base(LoopBody)), Base(LoopEnd)), Label(FreshName(s, Base(LoopCond))))
  }

  /** The loop test; `s0` is the state whose fresh names became the labels. */
  function StartBody(s: GenState, s0: GenState): GenState {
    Emit(Emit(s, Jnz(s.name, FreshName(s0, Base(LoopBody)), FreshName(s0, Base(LoopEnd)))),
         Label(FreshName(s0, Base(LoopBody))))
  }

  function EndLoop(s: GenState, s0: GenState): GenState {
    Emit(ExitScope(Emit(s, Jmp(FreshName(s0, Base(LoopCond))))), Label(FreshName(s0, Base(LoopEnd))))
  }

  /** The generator object: visitors append to the code and update the current expression, the
      scopes and the name counters. Each method is proved against the function of its name. */
  class IrGenerator {
    var code: Program
    var nameForCurrentExpression: string
    var typeForCurrentExpression: Class
    const nameManager: NameManager
    const scopeTable: ScopeTable<Ty>

    ghost function State(): GenState
      reads this, nameManager, scopeTable
    {
      GenState(code, nameForCurrentExpression, typeForCurrentExpression,
               scopeTable.lexicalScopes, nameManager.counters)
    }

    constructor ()
      ensures State() == GenState([], "", W, [map[]], map[])
      ensures fresh(nameManager) && fresh(scopeTable)
    {
      code, nameForCurrentExpression, typeForCurrentExpression := [], "", W;
      nameManager := new NameManager();
      scopeTable := new ScopeTable<Ty>();
    }

    method AddLine(i: Instr)
      modifies this
      ensures State() == Emit(old(State()), i)
    {
      code := code + [i];
    }

    method SetCurrent(name: string, cls: Class)
      modifies this
      ensures State() == Result(old(State()), name, cls)
    {
      nameForCurrentExpression, typeForCurrentExpression := name, cls;
    }

    method Visit(e: Expr) returns (ok: bool)
      modifies this, nameManager, scopeTable
      ensures ok == Compile(old(State()), e).Some?
      ensures ok ==> State() == Compile(old(State()), e).value
      decreases e, 3
    {
      match e
      case NumberLit(n, ty) =>
        var name := nameManager.GenerateName(Base(NumLiteral));
        SetCurrent(name, ClassOf(ty));
        AddLine(Set(name, Constant(ClassOf(ty), Double(n))));
        return true;
      case BoolLit(b, ty) =>
        var name := nameManager.GenerateName(Base(BoolLiteral));
        SetCurrent(name, ClassOf(ty));
        AddLine(Set(name, Constant(ClassOf(ty), Flag(b))));
        return true;
      case Var(x, ty) =>
        var register := scopeTable.ResolveVariable(x);
        if register.None? {
          return false;
        }
        SetCurrent(register.value, ClassOf(ty));
        return true;
      case Binary(_, _, _, _) =>
        ok := VisitBinary(e);
      case Unary(_, _, _) =>
        ok := VisitUnary(e);
      case Let(_, _, _, _) =>
        ok := VisitLet(e);
      case Block(_, _) =>
        ok := VisitBlock(e);
      case If(_, _, _, _) =>
        ok := VisitIf(e);
      case Assign(x, source, ty) =>
        ok := VisitAssign(e);
      case While(_, _, _) =>
        ok := VisitWhile(e);
    }

    method VisitBinary(e: Expr) returns (ok: bool)
      requires e.Binary?
      modifies this, nameManager, scopeTable
      ensures ok == CompileBinary(old(State()), e).Some?
      ensures ok ==> State() == CompileBinary(old(State()), e).value
      decreases e, 0
    {
      ok := Visit(e.left);
      if !ok {
        return;
      }
      var leftName, leftType := nameForCurrentExpression, typeForCurrentExpression;
      ok := Visit(e.right);
      if !ok {
        return;
      }
      EmitOperation(e.op, leftName, leftType, e.left.ty, e.right.ty, e.ty);
    }

    method EmitOperation(op: BinaryOp, leftName: string, leftType: Class, leftTy: Ty, rightTy: Ty, ty: Ty)
      modifies this, nameManager
      ensures State() == CompileOperation(old(State()), op, leftName, leftType, leftTy, rightTy, ty)
    {
      var rightName := nameForCurrentExpression;
      match op
      case Compare(rel) =>
        var name := nameManager.GenerateName(Base(Compared(rel)));
        SetCurrent(name, W);
        if rel.Eq? && leftTy != rightTy {
          AddLine(Set(name, Constant(W, Word(0))));
        } else {
          AddLine(Set(name, Comparison(rel, leftType, leftName, rightName)));
        }
      case Arith(arith) =>
        var name := nameManager.GenerateName(Base(Calculated(arith)));
        SetCurrent(name, ClassOf(ty));
        AddLine(Set(name, Arithmetic(ClassOf(ty), arith, leftName, rightName)));
      case And =>
      case Or =>
    }

    method VisitUnary(e: Expr) returns (ok: bool)
      requires e.Unary?
      modifies this, nameManager, scopeTable
      ensures ok == Compile(old(State()), e).Some?
      ensures ok ==> State() == Compile(old(State()), e).value
      decreases e, 0
    {
      ok := Visit(e.operand);
      if !ok {
        return;
      }
      var operand := nameForCurrentExpression;
      var name := nameManager.GenerateName(Base(UnaryPurpose(e.uop)));
      SetCurrent(name, ClassOf(e.ty));
      match e.uop
      case Neg => AddLine(Set(name, SubtractFromZero(ClassOf(e.ty), operand)));
      case Not => AddLine(Set(name, XorOne(ClassOf(e.ty), operand)));
    }

    method VisitLet(e: Expr) returns (ok: bool)
      requires e.Let?
      modifies this, nameManager, scopeTable
      ensures ok == CompileLet(old(State()), e).Some?
      ensures ok ==> State() == CompileLet(old(State()), e).value
      decreases e, 0
    {
      hide Base, Extends;
      var register := OpenLet(e.name);
      ok := Visit(e.init);
      if !ok {
        return;
      }
      AddLine(Set(register, Copy(typeForCurrentExpression, nameForCurrentExpression)));
      ok := Visit(e.body);
      if !ok {
        return;
      }
      CloseScope(Base(LetInResult), e.ty);
    }

    /** The register of a new variable, in scope from here on. */
    method OpenLet(x: string) returns (register: string)
      modifies this, nameManager, scopeTable
      ensures State() == StartLet(old(State()), x)
      ensures register == FreshName(old(State()), "_" + x)
    {
      scopeTable.EnterScope();
      register := nameManager.GenerateName("_" + x);
      scopeTable.DefineVariable(x, register, None);
    }

    /** The value of a scope is copied to a temporary on the way out. */
    method CloseScope(base: string, ty: Ty)
      modifies this, nameManager, scopeTable
      ensures State() == ExitScope(CopyResult(old(State()), base, ty))
    {
      var lastExpressionName := nameForCurrentExpression;
      var result := nameManager.GenerateName(base);
      SetCurrent(result, ClassOf(ty));
      AddLine(Set(result, Copy(ClassOf(ty), lastExpressionName)));
      scopeTable.ExitScope();
    }

    method VisitBlock(e: Expr) returns (ok: bool)
      requires e.Block?
      modifies this, nameManager, scopeTable
      ensures ok == CompileBlock(old(State()), e).Some?
      ensures ok ==> State() == CompileBlock(old(State()), e).value
      decreases e, 0
    {
      hide Base, Extends;
      scopeTable.EnterScope();
      ok := VisitAll(e.stmts);
      if !ok {
        return;
      }
      CloseScope(Base(BlockResult), e.ty);
    }

    /** The statement loop of a block and of the program. */
    method VisitAll(es: seq<Expr>) returns (ok: bool)
      modifies this, nameManager, scopeTable
      ensures ok == CompileSeq(old(State()), es).Some?
      ensures ok ==> State() == CompileSeq(old(State()), es).value
      decreases es, 0
    {
      ghost var start := State();
      for i := 0 to |es|
        invariant CompileSeq(start, es) == CompileSeq(State(), es[i..])
      {
        ok := Visit(es[i]);
        if !ok {
          return;
        }
        assert es[i..][1..] == es[i + 1..];
      }
      return true;
    }

    method VisitIf(e: Expr) returns (ok: bool)
      requires e.If?
      modifies this, nameManager, scopeTable
      ensures ok == CompileIf(old(State()), e).Some?
      ensures ok ==> State() == CompileIf(old(State()), e).value
      decreases e, 2
    {
      hide Base, Extends;
      var ifResult := nameManager.GenerateName(Base(IfResult));
      ok := Visit(e.cond);
      if !ok {
        return;
      }
      ok := VisitBranches(e, ifResult);
    }

    method VisitBranches(e: Expr, ifResult: string) returns (ok: bool)
      requires e.If?
      modifies this, nameManager, scopeTable
      ensures ok == CompileBranches(old(State()), e, ifResult).Some?
      ensures ok ==> State() == CompileBranches(old(State()), e, ifResult).value
      decreases e, 1
    {
      ghost var s1 := State();
      var thenLabel, elseLabel, mergeLabel := OpenBranches();
      ok := Visit(e.thenBranch);
      if !ok {
        return;
      }
      CloseThen(ifResult, elseLabel, mergeLabel, s1);
      ok := VisitElse(e, ifResult);
      if !ok {
        return;
      }
      AddLine(Label(mergeLabel));
      SetCurrent(ifResult, ClassOf(e.ty));
    }

    method OpenBranches() returns (thenLabel: string, elseLabel: string, mergeLabel: string)
      modifies this, nameManager
      ensures State() == StartBranches(old(State()))
      ensures thenLabel == FreshName(old(State()), Base(ThenLabel))
      ensures elseLabel == FreshName(old(State()), Base(ElseLabel))
      ensures mergeLabel == FreshName(old(State()), Base(MergeLabel))
    {
      thenLabel := nameManager.GenerateName(Base(ThenLabel));
      elseLabel := nameManager.GenerateName(Base(ElseLabel));
      mergeLabel := nameManager.GenerateName(Base(MergeLabel));
      AddLine(Jnz(nameForCurrentExpression, thenLabel, elseLabel));
      AddLine(Label(thenLabel));
    }

    method CloseThen(ifResult: string, elseLabel: string, mergeLabel: string, ghost s1: GenState)
      requires elseLabel == FreshName(s1, Base(ElseLabel)) && mergeLabel == FreshName(s1, Base(MergeLabel))
      modifies this, scopeTable
      ensures State() == EndThen(old(State()), ifResult, s1)
    {
      scopeTable.EnterScope();
      AddLine(Set(ifResult, Copy(typeForCurrentExpression, nameForCurrentExpression)));
      AddLine(Jmp(mergeLabel));
      AddLine(Label(elseLabel));
      scopeTable.ExitScope();
    }

    method VisitElse(e: Expr, ifResult: string) returns (ok: bool)
      requires e.If?
      modifies this, nameManager, scopeTable
      ensures ok == CompileElse(old(State()), e, ifResult).Some?
      ensures ok ==> State() == CompileElse(old(State()), e, ifResult).value
      decreases e, 0
    {
      if e.elseBranch.None? {
        return true;
      }
      scopeTable.EnterScope();
      ok := Visit(e.elseBranch.value);
      if !ok {
        return;
      }
      AddLine(Set(ifResult, Copy(typeForCurrentExpression, nameForCurrentExpression)));
      scopeTable.ExitScope();
    }

    method VisitAssign(e: Expr) returns (ok: bool)
      requires e.Assign?
      modifies this, nameManager, scopeTable
      ensures ok == CompileAssign(old(State()), e).Some?
      ensures ok ==> State() == CompileAssign(old(State()), e).value
      decreases e, 0
    {
      ok := Visit(e.source);
      if !ok {
        return;
      }
      var valueResult := nameForCurrentExpression;
      var register := scopeTable.ResolveVariable(e.target);
      if register.None? {
        return false;
      }
      AddLine(Set(register.value, Copy(ClassOf(e.ty), valueResult)));
      SetCurrent(valueResult, ClassOf(e.ty));
    }

    method VisitWhile(e: Expr) returns (ok: bool)
      requires e.While?
      modifies this, nameManager, scopeTable
      ensures ok == CompileWhile(old(State()), e).Some?
      ensures ok ==> State() == CompileWhile(old(State()), e).value
      decreases e, 0
    {
      ghost var s := State();
      var conditionLabel, bodyLabel, endLabel := OpenLoop();
      ok := Visit(e.cond);
      if !ok {
        return;
      }
      TestLoop(bodyLabel, endLabel, s);
      scopeTable.EnterScope();
      ok := Visit(e.loopBody);
      if !ok {
        return;
      }
      CloseLoop(conditionLabel, endLabel, s);
    }

    method OpenLoop() returns (conditionLabel: string, bodyLabel: string, endLabel: string)
      modifies this, nameManager
      ensures State() == StartLoop(old(State()))
      ensures conditionLabel == FreshName(old(State()), Base(LoopCond))
      ensures bodyLabel == FreshName(old(State()), Base(LoopBody))
      ensures endLabel == FreshName(old(State()), Base(LoopEnd))
    {
      conditionLabel := nameManager.GenerateName(Base(LoopCond));
      bodyLabel := nameManager.GenerateName(Base(LoopBody));
      endLabel := nameManager.GenerateName(Base(LoopEnd));
      AddLine(Label(conditionLabel));
    }

    method TestLoop(bodyLabel: string, endLabel: string, ghost s: GenState)
      requires bodyLabel == FreshName(s, Base(LoopBody)) && endLabel == FreshName(s, Base(LoopEnd))
      modifies this
      ensures State() == StartBody(old(State()), s)
    {
      AddLine(Jnz(nameForCurrentExpression, bodyLabel, endLabel));
      AddLine(Label(bodyLabel));
    }

    method CloseLoop(conditionLabel: string, endLabel: string, ghost s: GenState)
      requires conditionLabel == FreshName(s, Base(LoopCond)) && endLabel == FreshName(s, Base(LoopEnd))
      modifies this, scopeTable
      ensures State() == EndLoop(old(State()), s)
    {
      AddLine(Jmp(conditionLabel));
      scopeTable.ExitScope();
      AddLine(Label(endLabel));
    }
  }
}
