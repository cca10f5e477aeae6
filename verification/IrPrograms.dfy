/** Whole generated programs: unique labels, when generation succeeds, and the shapes that the
    generator gets wrong. */
module IrPrograms {
  import opened Wrappers
  import opened Names
  import opened Scoping
  import opened Source
  import opened Qbe
  import opened IrGeneration
  import opened IrCorrectness

  // ---------- labels ----------

  /** The labels between `s` and `t` are new names, all different. */
  ghost predicate LabelsNew(s: GenState, t: GenState) {
    && s.code <= t.code
    && (forall i | |s.code| <= i < |t.code| && t.code[i].Label? ::
          Used(t.counters, t.code[i].name) && !Used(s.counters, t.code[i].name))
    && (forall i, j | |s.code| <= i < j < |t.code| && t.code[i].Label? && t.code[j].Label? ::
          t.code[i].name != t.code[j].name)
  }

  ghost predicate Lacks(s: GenState, t: GenState, name: string) {
    forall i | |s.code| <= i < |t.code| :: t.code[i] != Label(name)
  }

  lemma LabelsNewTrans(s: GenState, s1: GenState, t: GenState)
    requires LabelsNew(s, s1) && LabelsNew(s1, t)
    requires Grown(s.counters, s1.counters) && Grown(s1.counters, t.counters)
    ensures LabelsNew(s, t)
  {
    hide Used, Grown;
    UsedStaysUsed(s.counters, s1.counters);
    UsedStaysUsed(s1.counters, t.counters);
    forall i | |s.code| <= i < |s1.code| ensures t.code[i] == s1.code[i] {
    }
  }

  lemma LacksTrans(s: GenState, s1: GenState, t: GenState, name: string)
    requires Lacks(s, s1, name) && Lacks(s1, t, name) && s1.code <= t.code
    ensures Lacks(s, t, name)
  {
    forall i | |s.code| <= i < |t.code| ensures t.code[i] != Label(name) {
      if i < |s1.code| {
        assert t.code[i] == s1.code[i];
      }
    }
  }

  lemma LacksUsed(s: GenState, t: GenState, name: string)
    requires LabelsNew(s, t) && Used(s.counters, name)
    ensures Lacks(s, t, name)
  {
    hide Used;
  }

  /** Emitting a label whose name was reserved earlier. */
  lemma EmitReserved(s: GenState, t: GenState, name: string)
    requires LabelsNew(s, t) && Lacks(s, t, name) && !Used(s.counters, name) && Used(t.counters, name)
    ensures LabelsNew(s, Emit(t, Label(name)))
  {
    hide Used;
  }

  lemma EmitPlain(s: GenState, t: GenState, i: Instr)
    requires LabelsNew(s, t) && !i.Label?
    ensures LabelsNew(s, Emit(t, i))
    ensures forall name :: Lacks(s, t, name) ==> Lacks(s, Emit(t, i), name)
  {
    hide Used;
  }

  lemma PurposesApart(s: GenState, a: Purpose, b: Purpose)
    requires Base(a) != Base(b)
    ensures FreshName(s, Base(a)) != FreshName(s, Base(b))
  {
    hide Base;
    BaseIsPlain(a);
    BaseIsPlain(b);
    if FreshName(s, Base(a)) == FreshName(s, Base(b)) {
      NumberedInjective(Base(a), Count(s.counters, Base(a)) + 1, Base(b), Count(s.counters, Base(b)) + 1);
    }
  }

  lemma LabelBasesApart()
    ensures Base(ThenLabel) != Base(ElseLabel) && Base(ThenLabel) != Base(MergeLabel)
    ensures Base(ElseLabel) != Base(MergeLabel)
    ensures Base(LoopCond) != Base(LoopBody) && Base(LoopCond) != Base(LoopEnd)
    ensures Base(LoopBody) != Base(LoopEnd)
  {
    assert Base(ThenLabel)[0] == 't' && Base(ElseLabel)[0] == 'e' && Base(MergeLabel)[0] == 'm';
    assert Base(LoopCond)[5] == 'c' && Base(LoopBody)[5] == 'b' && Base(LoopEnd)[5] == 'e';
  }

  /** A name taken for a purpose is new, and stays taken. */
  lemma Reserve(s: GenState, purpose: Purpose, later: Counters)
    requires Grown(Bump(s, Base(purpose)).counters, later)
    ensures !Used(s.counters, FreshName(s, Base(purpose))) && Used(later, FreshName(s, Base(purpose)))
  {
    hide Base, Used;
    BaseIsPlain(purpose);
    FreshIsUnused(s.counters, Base(purpose));
    UsedStaysUsed(Bump(s, Base(purpose)).counters, later);
  }

  lemma {:induction false} CompileLabels(s: GenState, e: Expr)
    requires Compile(s, e).Some?
    ensures LabelsNew(s, Compile(s, e).value)
    decreases e, 2
  {
    hide Base, Used, Grown;
    match e
    case NumberLit(_, _) =>
    case BoolLit(_, _) =>
    case Var(_, _) =>
    case Binary(_, l, r, _) => BinaryLabels(s, e);
    case Unary(op, a, ty) => UnaryLabels(s, e);
    case Let(_, _, _, _) => LetLabels(s, e);
    case Block(_, _) => BlockLabels(s, e);
    case If(_, _, _, _) => IfLabels(s, e);
    case Assign(_, source, _) => AssignLabels(s, e);
    case While(_, _, _) => WhileLabels(s, e);
  }

  lemma {:induction false} CompileSeqLabels(s: GenState, es: seq<Expr>)
    requires CompileSeq(s, es).Some?
    ensures LabelsNew(s, CompileSeq(s, es).value)
    decreases es, 2
  {
    hide Used, Grown;
    if es != [] {
      CompileLabels(s, es[0]);
      var s1 := Compile(s, es[0]).value;
      CompileSeqLabels(s1, es[1..]);
      LabelsNewTrans(s, s1, CompileSeq(s, es).value);
    }
  }

  lemma {:induction false} BinaryLabels(s: GenState, e: Expr)
    requires e.Binary? && CompileBinary(s, e).Some?
    ensures LabelsNew(s, CompileBinary(s, e).value)
    decreases e, 1
  {
    hide Base, Used, Grown;
    CompileLabels(s, e.left);
    var s1 := Compile(s, e.left).value;
    CompileLabels(s1, e.right);
    var s2 := Compile(s1, e.right).value;
    LabelsNewTrans(s, s1, s2);
    OperationGrows(s2, e.op, s1.name, s1.cls, e.left.ty, e.right.ty, e.ty);
    OperationLabels(s, s2, CompileBinary(s, e).value);
  }

  lemma {:induction false} UnaryLabels(s: GenState, e: Expr)
    requires e.Unary? && Compile(s, e).Some?
    ensures LabelsNew(s, Compile(s, e).value)
    decreases e, 1
  {
    hide Base, Used, Grown;
    CompileLabels(s, e.operand);
    UnaryGrows(Compile(s, e.operand).value, e.uop, e.ty);
    OperationLabels(s, Compile(s, e.operand).value, Compile(s, e).value);
  }

  lemma OperationGrows(s: GenState, op: BinaryOp, left: string, cls: Class, lty: Ty, rty: Ty, ty: Ty)
    ensures Grown(s.counters, CompileOperation(s, op, left, cls, lty, rty, ty).counters)
  {
    hide Base;
  }

  lemma UnaryGrows(s: GenState, op: UnaryOp, ty: Ty)
    ensures Grown(s.counters, CompileUnary(s, op, ty).counters)
  {
    hide Base;
  }

  /** Code without labels, for more names. */
  lemma OperationLabels(s: GenState, s1: GenState, t: GenState)
    requires LabelsNew(s, s1) && s1.code <= t.code && Grown(s1.counters, t.counters)
    requires forall i | |s1.code| <= i < |t.code| :: !t.code[i].Label?
    ensures LabelsNew(s, t)
  {
    hide Used;
    UsedStaysUsed(s1.counters, t.counters);
    forall i | |s.code| <= i < |s1.code| ensures t.code[i] == s1.code[i] {
    }
  }

  lemma {:induction false} AssignLabels(s: GenState, e: Expr)
    requires e.Assign? && CompileAssign(s, e).Some?
    ensures LabelsNew(s, CompileAssign(s, e).value)
    decreases e, 1
  {
    hide Used, Grown;
    CompileLabels(s, e.source);
  }

  lemma {:induction false} LetLabels(s: GenState, e: Expr)
    requires e.Let? && CompileLet(s, e).Some?
    ensures LabelsNew(s, CompileLet(s, e).value)
    decreases e, 1
  {
    hide Base, Used, Grown;
    var s1 := StartLet(s, e.name);
    StartLetGrows(s, e.name);
    CompileLabels(s1, e.init);
    var s2 := Compile(s1, e.init).value;
    LabelsNewTrans(s, s1, s2);
    var s3 := EndInit(s, e.name, s2);
    CompileLabels(s3, e.body);
    var s4 := Compile(s3, e.body).value;
    GrownTrans(s.counters, s1.counters, s3.counters);
    LabelsNewTrans(s, s3, s4);
    YieldLabels(s, s4, LetInResult, e.ty);
  }

  lemma StartLetGrows(s: GenState, x: string)
    ensures Grown(s.counters, StartLet(s, x).counters)
  {
  }

  lemma YieldLabels(s: GenState, s1: GenState, purpose: Purpose, ty: Ty)
    requires LabelsNew(s, s1)
    ensures LabelsNew(s, CopyResult(s1, Base(purpose), ty))
  {
    hide Base, Used;
    var t := CopyResult(s1, Base(purpose), ty);
    assert Grown(s1.counters, t.counters);
    UsedStaysUsed(s1.counters, t.counters);
  }

  lemma {:induction false} BlockLabels(s: GenState, e: Expr)
    requires e.Block? && CompileBlock(s, e).Some?
    ensures LabelsNew(s, CompileBlock(s, e).value)
    decreases e, 1
  {
    hide Base, Used, Grown;
    var s0 := EnterScope(s);
    CompileSeqLabels(s0, e.stmts);
    YieldLabels(s0, CompileSeq(s0, e.stmts).value, BlockResult, e.ty);
  }

  lemma {:induction false} IfLabels(s: GenState, e: Expr)
    requires e.If? && CompileIf(s, e).Some?
    ensures LabelsNew(s, CompileIf(s, e).value)
    decreases e, 1
  {
    hide Base, Used, Grown;
    var s0 := Bump(s, Base(IfResult));
    assert Grown(s.counters, s0.counters) by { BumpGrows(s, Base(IfResult)); }
    CompileLabels(s0, e.cond);
    var s1 := Compile(s0, e.cond).value;
    LabelsNewTrans(s, s0, s1);
    BranchLabels(s1, e, FreshName(s, Base(IfResult)));
    GrownTrans(s.counters, s0.counters, s1.counters);
    LabelsNewTrans(s, s1, CompileIf(s, e).value);
  }

  lemma BumpGrows(s: GenState, base: string)
    ensures Grown(s.counters, Bump(s, base).counters)
  {
  }

  lemma {:induction false} BranchLabels(s1: GenState, e: Expr, res: string)
    requires e.If? && CompileBranches(s1, e, res).Some?
    ensures LabelsNew(s1, CompileBranches(s1, e, res).value)
    decreases e, 0
  {
    hide Base, Used, Grown;
    var elseLabel, mergeLabel := FreshName(s1, Base(ElseLabel)), FreshName(s1, Base(MergeLabel));
    var s2 := StartBranches(s1);
    OpenBranchLabels(s1);
    CompileLabels(s2, e.thenBranch);
    var s3 := Compile(s2, e.thenBranch).value;
    Reserved(s1, s2, s3, elseLabel);
    Reserved(s1, s2, s3, mergeLabel);
    LabelsNewTrans(s1, s2, s3);
    GrownTrans(s1.counters, s2.counters, s3.counters);
    var s4 := EndThen(s3, res, s1);
    EndThenLabels(s1, s3, res);
    var s5 := CompileElse(s4, e, res).value;
    if e.elseBranch.Some? {
      var u := EnterScope(s4);
      CompileLabels(u, e.elseBranch.value);
      var v := Compile(u, e.elseBranch.value).value;
      Reserved(s1, s4, v, mergeLabel);
      LabelsNewTrans(s1, s4, v);
      EmitPlain(s1, v, Set(res, Copy(v.cls, v.name)));
    }
    UsedStaysUsed(s4.counters, s5.counters);
    EmitReserved(s1, s5, mergeLabel);
  }

  /** A reserved name is not used as a label by code compiled later. */
  lemma Reserved(s: GenState, s1: GenState, t: GenState, name: string)
    requires Lacks(s, s1, name) && Used(s1.counters, name) && LabelsNew(s1, t) && Grown(s1.counters, t.counters)
    ensures Lacks(s, t, name) && Used(t.counters, name)
  {
    LacksUsed(s1, t, name);
    LacksTrans(s, s1, t, name);
    UsedStaysUsed(s1.counters, t.counters);
  }

  lemma OpenBranchLabels(s1: GenState)
    ensures var s2 := StartBranches(s1);
            var elseLabel, mergeLabel := FreshName(s1, Base(ElseLabel)), FreshName(s1, Base(MergeLabel));
            && LabelsNew(s1, s2) && Grown(s1.counters, s2.counters)
            && Lacks(s1, s2, elseLabel) && Lacks(s1, s2, mergeLabel) && elseLabel != mergeLabel
            && Used(s2.counters, elseLabel) && Used(s2.counters, mergeLabel)
            && !Used(s1.counters, elseLabel) && !Used(s1.counters, mergeLabel)
  {
    hide Used, Base, FreshName, LabelsNew, Lacks, StartBranches;
    LabelBasesApart();
    var s2 := StartBranches(s1);
    BranchesCode(s1);
    Reserve(s1, ThenLabel, s2.counters);
    Reserve(s1, ElseLabel, s2.counters);
    Reserve(s1, MergeLabel, s2.counters);
    PurposesApart(s1, ThenLabel, ElseLabel);
    PurposesApart(s1, ThenLabel, MergeLabel);
    PurposesApart(s1, ElseLabel, MergeLabel);
    var thenLabel, elseLabel := FreshName(s1, Base(ThenLabel)), FreshName(s1, Base(ElseLabel));
    JumpAndLabel(s1, s2, Jnz(s1.name, thenLabel, elseLabel), thenLabel);
  }

  lemma BranchesCode(s1: GenState)
    ensures var s2 := StartBranches(s1);
            var thenLabel, elseLabel := FreshName(s1, Base(ThenLabel)), FreshName(s1, Base(ElseLabel));
            && s2.code == s1.code + [Jnz(s1.name, thenLabel, elseLabel), Label(thenLabel)]
            && s2.counters == Bump(Bump(Bump(s1, Base(ThenLabel)), Base(ElseLabel)), Base(MergeLabel)).counters
            && s2.scopes == s1.scopes
  {
    hide Base, FreshName;
  }

  lemma JumpAndLabel(s: GenState, t: GenState, jump: Instr, name: string)
    requires t.code == s.code + [jump, Label(name)] && !jump.Label?
    requires !Used(s.counters, name) && Used(t.counters, name)
    ensures LabelsNew(s, t) && forall other | other != name :: Lacks(s, t, other)
  {
    hide Used;
  }

  lemma EndThenLabels(s1: GenState, s3: GenState, res: string)
    requires LabelsNew(s1, s3) && Lacks(s1, s3, FreshName(s1, Base(ElseLabel)))
    requires Lacks(s1, s3, FreshName(s1, Base(MergeLabel)))
    requires FreshName(s1, Base(ElseLabel)) != FreshName(s1, Base(MergeLabel))
    requires !Used(s1.counters, FreshName(s1, Base(ElseLabel))) && Used(s3.counters, FreshName(s1, Base(ElseLabel)))
    ensures LabelsNew(s1, EndThen(s3, res, s1))
    ensures Lacks(s1, EndThen(s3, res, s1), FreshName(s1, Base(MergeLabel)))
  {
    hide Used, Base;
    var elseLabel, mergeLabel := FreshName(s1, Base(ElseLabel)), FreshName(s1, Base(MergeLabel));
    var u := Emit(s3, Set(res, Copy(s3.cls, s3.name)));
    EmitPlain(s1, s3, Set(res, Copy(s3.cls, s3.name)));
    EmitPlain(s1, u, Jmp(mergeLabel));
    EmitReserved(s1, Emit(u, Jmp(mergeLabel)), elseLabel);
  }

  lemma {:induction false} WhileLabels(s: GenState, e: Expr)
    requires e.While? && CompileWhile(s, e).Some?
    ensures LabelsNew(s, CompileWhile(s, e).value)
    decreases e, 1
  {
    hide Base, Used, Grown;
    var bodyLabel, endLabel := FreshName(s, Base(LoopBody)), FreshName(s, Base(LoopEnd));
    var s1 := StartLoop(s);
    OpenLoopLabels(s);
    CompileLabels(s1, e.cond);
    var s2 := Compile(s1, e.cond).value;
    Reserved(s, s1, s2, bodyLabel);
    Reserved(s, s1, s2, endLabel);
    LabelsNewTrans(s, s1, s2);
    GrownTrans(s.counters, s1.counters, s2.counters);
    var s3 := StartBody(s2, s);
    EmitPlain(s, s2, Jnz(s2.name, bodyLabel, endLabel));
    EmitReserved(s, Emit(s2, Jnz(s2.name, bodyLabel, endLabel)), bodyLabel);
    var u := EnterScope(s3);
    CompileLabels(u, e.loopBody);
    var s4 := Compile(u, e.loopBody).value;
    Reserved(s, s3, s4, endLabel);
    LabelsNewTrans(s, s3, s4);
    EmitPlain(s, s4, Jmp(FreshName(s, Base(LoopCond))));
    EmitReserved(s, Emit(s4, Jmp(FreshName(s, Base(LoopCond)))), endLabel);
  }

  lemma OpenLoopLabels(s: GenState)
    ensures var s1 := StartLoop(s);
            var bodyLabel, endLabel := FreshName(s, Base(LoopBody)), FreshName(s, Base(LoopEnd));
            && LabelsNew(s, s1) && Grown(s.counters, s1.counters)
            && Lacks(s, s1, bodyLabel) && Lacks(s, s1, endLabel) && bodyLabel != endLabel
            && Used(s1.counters, bodyLabel) && Used(s1.counters, endLabel)
            && !Used(s.counters, bodyLabel) && !Used(s.counters, endLabel)
  {
    hide Used, Base;
    LabelBasesApart();
    var s1 := StartLoop(s);
    Reserve(s, LoopCond, s1.counters);
    Reserve(s, LoopBody, s1.counters);
    Reserve(s, LoopEnd, s1.counters);
    PurposesApart(s, LoopCond, LoopBody);
    PurposesApart(s, LoopCond, LoopEnd);
    PurposesApart(s, LoopBody, LoopEnd);
  }

  // ---------- when generation succeeds ----------

  ghost predicate AllKnown(xs: set<string>, scopes: Scopes<Ty>) {
    forall x | x in xs :: Lookup(scopes, x).Some?
  }

  /** A supported expression is compiled exactly when all its free variables are in scope;
      otherwise the generator throws. */
  lemma {:induction false} CompileSucceeds(bs: Bases, s: GenState, e: Expr)
    requires Supported(bs, e)
    ensures Compile(s, e).Some? <==> AllKnown(FreeVars(e), s.scopes)
    decreases e, 1
  {
    hide Base, Grown;
    match e
    case NumberLit(_, _) =>
    case BoolLit(_, _) =>
    case Var(x, _) =>
    case Binary(_, l, r, _) =>
      assert Compile(s, e) == CompileBinary(s, e);
      CompileSucceeds(bs, s, l);
      if Compile(s, l).Some? {
        CompileSucceeds(bs, Compile(s, l).value, r);
      }
    case Unary(_, a, _) =>
      CompileSucceeds(bs, s, a);
    case Let(_, _, _, _) =>
      LetSucceeds(bs, s, e);
    case Block(stmts, _) =>
      assert Compile(s, e) == CompileBlock(s, e);
      CompileSeqSucceeds(bs, EnterScope(s), stmts);
      LookupEmptyScope(s.scopes);
    case If(_, _, _, _) =>
      IfSucceeds(bs, s, e);
    case Assign(_, source, _) =>
      assert Compile(s, e) == CompileAssign(s, e);
      CompileSucceeds(bs, s, source);
    case While(c, body, _) =>
      WhileSucceeds(bs, s, e);
  }

  lemma {:induction false} CompileSeqSucceeds(bs: Bases, s: GenState, es: seq<Expr>)
    requires SupportedSeq(bs, es)
    ensures CompileSeq(s, es).Some? <==> AllKnown(FreeVarsSeq(es), s.scopes)
    decreases es, 1
  {
    hide Grown;
    if es != [] {
      CompileSucceeds(bs, s, es[0]);
      if Compile(s, es[0]).Some? {
        CompileSeqSucceeds(bs, Compile(s, es[0]).value, es[1..]);
      }
    }
  }

  lemma {:induction false} LetSucceeds(bs: Bases, s: GenState, e: Expr)
    requires e.Let? && Supported(bs, e)
    ensures Compile(s, e).Some? <==> AllKnown(FreeVars(e), s.scopes)
    decreases e, 0
  {
    hide Base, Grown;
    assert Compile(s, e) == CompileLet(s, e);
    var s1 := StartLet(s, e.name);
    var info := VariableInfo(FreshName(s, "_" + e.name), None);
    forall y ensures Lookup(s1.scopes, y) == if e.name == y then Some(info) else Lookup(s.scopes, y) {
      LookupPush(s.scopes, e.name, info, y);
    }
    CompileSucceeds(bs, s1, e.init);
    if Compile(s1, e.init).Some? {
      CompileSucceeds(bs, EndInit(s, e.name, Compile(s1, e.init).value), e.body);
    }
  }

  lemma {:induction false} IfSucceeds(bs: Bases, s: GenState, e: Expr)
    requires e.If? && Supported(bs, e)
    ensures Compile(s, e).Some? <==> AllKnown(FreeVars(e), s.scopes)
    decreases e, 0
  {
    hide Base, Grown;
    assert Compile(s, e) == CompileIf(s, e);
    var s0 := Bump(s, Base(IfResult));
    CompileSucceeds(bs, s0, e.cond);
    if Compile(s0, e.cond).Some? {
      var s1 := Compile(s0, e.cond).value;
      var res := FreshName(s, Base(IfResult));
      assert CompileIf(s, e) == CompileBranches(s1, e, res);
      CompileSucceeds(bs, StartBranches(s1), e.thenBranch);
      if Compile(StartBranches(s1), e.thenBranch).Some? {
        var s4 := EndThen(Compile(StartBranches(s1), e.thenBranch).value, res, s1);
        assert CompileBranches(s1, e, res).Some? <==> CompileElse(s4, e, res).Some?;
        if e.elseBranch.Some? {
          LookupEmptyScope(s4.scopes);
          CompileSucceeds(bs, EnterScope(s4), e.elseBranch.value);
          assert CompileElse(s4, e, res).Some? <==> Compile(EnterScope(s4), e.elseBranch.value).Some?;
        }
      }
    }
  }

  lemma {:induction false} WhileSucceeds(bs: Bases, s: GenState, e: Expr)
    requires e.While? && Supported(bs, e)
    ensures Compile(s, e).Some? <==> AllKnown(FreeVars(e), s.scopes)
    decreases e, 0
  {
    hide Base, Grown;
    assert Compile(s, e) == CompileWhile(s, e);
    CompileSucceeds(bs, StartLoop(s), e.cond);
    if Compile(StartLoop(s), e.cond).Some? {
      var s2 := Compile(StartLoop(s), e.cond).value;
      LookupEmptyScope(s2.scopes);
      CompileSucceeds(bs, EnterScope(StartBody(s2, s)), e.loopBody);
    }
  }

  // ---------- readings of `&` and `|` ----------

  /** Where the right operands decide, all readings give the same. */
  lemma {:induction false} DecidedAgrees(rd: Reading, e: Expr, env: Env, fuel: nat)
    requires Eval(Decided, e, env, fuel).Some?
    ensures Eval(rd, e, env, fuel) == Eval(Decided, e, env, fuel)
    decreases fuel, e, 1
  {
    hide BoundNames, Find;
    match e
    case NumberLit(_, _) =>
    case BoolLit(_, _) =>
    case Var(_, _) =>
    case Binary(_, l, r, _) =>
      DecidedAgrees(rd, l, env, fuel);
      DecidedAgrees(rd, r, Eval(rd, l, env, fuel).value.env, fuel);
    case Unary(_, a, _) => DecidedAgrees(rd, a, env, fuel);
    case Let(x, init, body, _) =>
      DecidedAgrees(rd, init, env, fuel);
      var o := Eval(rd, init, env, fuel).value;
      DecidedAgrees(rd, body, o.env + [Binding(x, o.val)], fuel);
    case Block(stmts, _) => DecidedSeq(rd, stmts, env, Void, fuel);
    case If(c, t, els, _) =>
      DecidedAgrees(rd, c, env, fuel);
      var o := Eval(rd, c, env, fuel).value;
      if o.val.b {
        DecidedAgrees(rd, t, o.env, fuel);
      } else if els.Some? {
        DecidedAgrees(rd, els.value, o.env, fuel);
      }
    case Assign(_, source, _) => DecidedAgrees(rd, source, env, fuel);
    case While(c, body, _) =>
      DecidedAgrees(rd, c, env, fuel);
      var o := Eval(rd, c, env, fuel).value;
      if o.val.b {
        DecidedAgrees(rd, body, o.env, fuel);
        DecidedAgrees(rd, e, Eval(rd, body, o.env, fuel).value.env, fuel - 1);
      }
  }

  lemma {:induction false} DecidedSeq(rd: Reading, es: seq<Expr>, env: Env, last: Value, fuel: nat)
    requires EvalSeq(Decided, es, env, last, fuel).Some?
    ensures EvalSeq(rd, es, env, last, fuel) == EvalSeq(Decided, es, env, last, fuel)
    decreases fuel, es, 0
  {
    if es != [] {
      DecidedAgrees(rd, es[0], env, fuel);
      var o := Eval(rd, es[0], env, fuel).value;
      DecidedSeq(rd, es[1..], o.env, o.val, fuel);
    }
  }

  /** No `&` and no `|`. */
  predicate Plain(e: Expr) {
    match e
    case NumberLit(_, _) => true
    case BoolLit(_, _) => true
    case Var(_, _) => true
    case Binary(op, l, r, _) => (op.Compare? || op.Arith?) && Plain(l) && Plain(r)
    case Unary(_, a, _) => Plain(a)
    case Let(_, init, body, _) => Plain(init) && Plain(body)
    case Block(stmts, _) => PlainSeq(stmts)
    case If(c, t, els, _) => Plain(c) && Plain(t) && (match els case Some(f) => Plain(f) case None => true)
    case Assign(_, source, _) => Plain(source)
    case While(c, body, _) => Plain(c) && Plain(body)
  }

  predicate PlainSeq(es: seq<Expr>) {
    es == [] || (Plain(es[0]) && PlainSeq(es[1..]))
  }

  /** Without `&` and `|` all readings give the same. */
  lemma {:induction false} PlainAgrees(rd: Reading, e: Expr, env: Env, fuel: nat)
    requires Plain(e)
    ensures Eval(rd, e, env, fuel) == Eval(Decided, e, env, fuel)
    decreases fuel, e, 1
  {
    hide BoundNames, Find;
    match e
    case NumberLit(_, _) =>
    case BoolLit(_, _) =>
    case Var(_, _) =>
    case Binary(_, l, r, _) =>
      PlainAgrees(rd, l, env, fuel);
      if Eval(rd, l, env, fuel).Some? {
        PlainAgrees(rd, r, Eval(rd, l, env, fuel).value.env, fuel);
      }
    case Unary(_, a, _) => PlainAgrees(rd, a, env, fuel);
    case Let(x, init, body, _) =>
      PlainAgrees(rd, init, env, fuel);
      if Eval(rd, init, env, fuel).Some? {
        var o := Eval(rd, init, env, fuel).value;
        PlainAgrees(rd, body, o.env + [Binding(x, o.val)], fuel);
      }
    case Block(stmts, _) => PlainSeqAgrees(rd, stmts, env, Void, fuel);
    case If(c, t, els, _) =>
      PlainAgrees(rd, c, env, fuel);
      if Eval(rd, c, env, fuel).Some? {
        var o := Eval(rd, c, env, fuel).value;
        PlainAgrees(rd, t, o.env, fuel);
        if els.Some? {
          PlainAgrees(rd, els.value, o.env, fuel);
        }
      }
    case Assign(_, source, _) => PlainAgrees(rd, source, env, fuel);
    case While(c, body, _) =>
      PlainAgrees(rd, c, env, fuel);
      if Eval(rd, c, env, fuel).Some? {
        var o := Eval(rd, c, env, fuel).value;
        PlainAgrees(rd, body, o.env, fuel);
        if Eval(rd, body, o.env, fuel).Some? && fuel > 0 {
          PlainAgrees(rd, e, Eval(rd, body, o.env, fuel).value.env, fuel - 1);
        }
      }
  }

  lemma {:induction false} PlainSeqAgrees(rd: Reading, es: seq<Expr>, env: Env, last: Value, fuel: nat)
    requires PlainSeq(es)
    ensures EvalSeq(rd, es, env, last, fuel) == EvalSeq(Decided, es, env, last, fuel)
    decreases fuel, es, 0
  {
    if es != [] {
      PlainAgrees(rd, es[0], env, fuel);
      if Eval(rd, es[0], env, fuel).Some? {
        var o := Eval(rd, es[0], env, fuel).value;
        PlainSeqAgrees(rd, es[1..], o.env, o.val, fuel);
      }
    }
  }

  // ---------- whole programs ----------

  const INITIAL := GenState([], "", W, [map[]], map[])

  /** The statements of a closed program: code is generated, and every run of it from the start that
      reaches the end leaves the value of the last statement in the current register; there is such
      a run whenever the source evaluates. Registers of variables are named from `bs`, in which no two
      bases collide: `x` and `y1` may be variables of one program, `x` and `x1` may not. The value is the
      one in which every `&` and `|` stands for its right operand, and also the one that the language gives
      where these have the same value. */
  lemma ProgramCorrect(rd: Compiled, bs: Bases, es: seq<Expr>, o: Outcome, fuel: nat)
    returns (t: GenState, after: Registers)
    requires SupportedSeq(bs, es) && Apart(bs) && WellTypedSeq(es, [], []) && FreeVarsSeq(es) == {}
    requires EvalSeq(rd, es, [], Void, fuel) == Some(o)
    ensures CompileSeq(INITIAL, es) == Some(t) && UniqueLabels(t.code)
    ensures Reaches(t.code, State(0, map[]), State(|t.code|, after))
    ensures es != [] && !o.val.Void? ==> Get(after, t.name) == Encode(o.val)
    ensures forall regs | Reaches(t.code, State(0, map[]), State(|t.code|, regs)) :: regs == after
    ensures rd.Decided? ==> EvalSeq(AsWritten, es, [], Void, fuel) == Some(o)
  {
    CompileSeqSucceeds(bs, INITIAL, es);
    t := CompileSeq(INITIAL, es).value;
    CompileSeqLabels(INITIAL, es);
    after := SimulatesSeq(rd, bs, t.code, INITIAL, t, es, Frame([], [], [], map[]), o, Void, fuel);
    forall regs | Reaches(t.code, State(0, map[]), State(|t.code|, regs)) ensures regs == after {
      EndIsUnique(t.code, State(0, map[]), State(|t.code|, after), State(|t.code|, regs));
    }
    if rd.Decided? {
      DecidedSeq(AsWritten, es, [], Void, fuel);
    }
  }

  /** A program with any `&` and `|`: its code leaves the value that the language gives exactly when that is
      the value with every `&` and `|` standing for its right operand. */
  lemma ProgramExactly(bs: Bases, es: seq<Expr>, o: Outcome, emitted: Outcome, fuel: nat)
    returns (t: GenState, after: Registers)
    requires SupportedSeq(bs, es) && Apart(bs) && WellTypedSeq(es, [], []) && FreeVarsSeq(es) == {} && es != []
    requires EvalSeq(AsWritten, es, [], Void, fuel) == Some(o) && !o.val.Void?
    requires EvalSeq(AsEmitted, es, [], Void, fuel) == Some(emitted) && !emitted.val.Void?
    ensures CompileSeq(INITIAL, es) == Some(t)
    ensures Reaches(t.code, State(0, map[]), State(|t.code|, after))
    ensures forall regs | Reaches(t.code, State(0, map[]), State(|t.code|, regs)) :: regs == after
    ensures Get(after, t.name) == Encode(o.val) <==> o.val == emitted.val
  {
    hide SupportedSeq, WellTypedSeq, EvalSeq, HasType, Encode;
    t, after := ProgramCorrect(AsEmitted, bs, es, emitted, fuel);
    TypesSoundSeq(AsWritten, es, [], [], Void, fuel);
    TypesSoundSeq(AsEmitted, es, [], [], Void, fuel);
    EncodeInjective(o.val, emitted.val, es[|es| - 1].ty);
  }

  lemma EndIsUnique(p: Program, s: State, t: State, u: State)
    requires Reaches(p, s, t) && Reaches(p, s, u) && t.pc == |p| && u.pc == |p|
    ensures t == u
  {
    var m: nat :| Run(p, s, m) == Some(t);
    var n: nat :| Run(p, s, n) == Some(u);
    if m <= n {
      RunAppend(p, s, m, t, n - m);
    } else {
      RunAppend(p, s, n, u, m - n);
    }
  }

  // ---------- what the conditions exclude ----------

  // Each lemma below compiles one unsupported expression with `x` in scope and gives the register
  // contents at the end of its code, beside the value the source has.

  const X_IN_SCOPE := GenState([], "", W, [map["x" := VariableInfo("r", None)]], map[])

  const X: Expr := Var("x", Number)

  lemma XAlone(rd: Reading, x: Value)
    ensures BoundNames([Binding("x", x)]) == ["x"] && Find(["x"], "x") == Some(0)
    ensures Eval(rd, X, [Binding("x", x)], 0) == Some(Outcome(x, [Binding("x", x)]))
  {
    assert BoundNames([Binding("x", x)]) == ["x"];
  }

  lemma XKnown(s: GenState, register: string)
    requires Lookup(s.scopes, "x").Some? && Lookup(s.scopes, "x").value.register == register
    ensures Compile(s, X) == Some(Result(s, register, D))
  {
  }

  lemma XInScope()
    ensures Lookup(X_IN_SCOPE.scopes, "x") == Some(VariableInfo("r", None))
  {
  }

  /** `let x = x in x`: the new register is copied to itself before it has a value. */
  lemma InitialiserMentionsItself(rd: Reading, x: real) returns (t: GenState, after: Registers)
    ensures var e := Let("x", X, X, Number);
            var o := Eval(rd, e, [Binding("x", Num(x))], 0);
            && o.Some? && o.value.val == Num(x)
            && Compile(X_IN_SCOPE, e) == Some(t)
            && Reaches(t.code, State(0, map["r" := Double(x)]), State(|t.code|, after))
            && Get(after, t.name) == Junk
  {
    hide Base, Taken, Grown, Eval, Compile;
    LetOfItself(rd, Num(x));
    var r;
    t, r := CompileLetOfItself();
    var regs0: Registers := map["r" := Double(x)];
    var regs1 := regs0[r := Junk];
    after := regs1[t.name := Junk];
    ReachesStep(t.code, State(0, regs0), State(1, regs1));
    ReachesStep(t.code, State(1, regs1), State(2, after));
    ReachesTrans(t.code, State(0, regs0), State(1, regs1), State(2, after));
  }

  lemma LetOfItself(rd: Reading, x: Value)
    ensures var o := Eval(rd, Let("x", X, X, Number), [Binding("x", x)], 0);
            o.Some? && o.value.val == x
  {
    var env := [Binding("x", x)];
    XAlone(rd, x);
    var inner := env + [Binding("x", x)];
    assert BoundNames(inner) == ["x"] + ["x"];
    FindAppend(["x"], "x", "x");
    assert Eval(rd, X, inner, 0) == Some(Outcome(x, inner));
  }

  lemma CompileLetOfItself() returns (t: GenState, r: string)
    ensures Compile(X_IN_SCOPE, Let("x", X, X, Number)) == Some(t)
    ensures t.code == [Set(r, Copy(D, r)), Set(t.name, Copy(D, r))] && r != "r"
  {
    hide Base, Taken, Grown;
    var s := X_IN_SCOPE;
    var s1 := StartLet(s, "x");
    r := FreshName(s, "_" + "x");
    LookupPush(s.scopes, "x", VariableInfo(r, None), "x");
    XKnown(s1, r);
    var s3 := EndInit(s, "x", Result(s1, r, D));
    XKnown(s3, r);
    t := CompileLet(s, Let("x", X, X, Number)).value;
    assert r[0] == '_';
  }

  /** `x + (x := y)`: the left operand is the register that the right operand overwrites, so the
      sum is twice `y`. */
  lemma RightOperandAssigns(rd: Reading, x: real, y: real) returns (t: GenState, after: Registers)
    ensures var e := Binary(Arith(Add), X, Assign("x", NumberLit(y, Number), Number), Number);
            var o := Eval(rd, e, [Binding("x", Num(x))], 0);
            && o.Some? && o.value.val == Num(x + y)
            && Compile(X_IN_SCOPE, e) == Some(t)
            && Reaches(t.code, State(0, map["r" := Double(x)]), State(|t.code|, after))
            && Get(after, t.name) == Double(y + y)
  {
    hide Base, Taken, Grown, Eval, Compile;
    SumWithAssignment(rd, x, y);
    var n;
    t, n := CompileSumWithAssignment(y);
    var regs0: Registers := map["r" := Double(x)];
    var regs1 := regs0[n := Double(y)];
    var regs2 := regs1["r" := Double(y)];
    after := regs2[t.name := Double(y + y)];
    ReachesStep(t.code, State(0, regs0), State(1, regs1));
    ReachesStep(t.code, State(1, regs1), State(2, regs2));
    ReachesStep(t.code, State(2, regs2), State(3, after));
    ReachesTrans(t.code, State(0, regs0), State(1, regs1), State(2, regs2));
    ReachesTrans(t.code, State(0, regs0), State(2, regs2), State(3, after));
  }

  lemma SumWithAssignment(rd: Reading, x: real, y: real)
    ensures var o := Eval(rd, Binary(Arith(Add), X, Assign("x", NumberLit(y, Number), Number), Number),
                          [Binding("x", Num(x))], 0);
            o.Some? && o.value.val == Num(x + y)
  {
    XAlone(rd, Num(x));
    var a := Assign("x", NumberLit(y, Number), Number);
    assert Eval(rd, a.source, [Binding("x", Num(x))], 0) == Some(Outcome(Num(y), [Binding("x", Num(x))]));
    assert Eval(rd, a, [Binding("x", Num(x))], 0).Some?;
  }

  lemma CompileSumWithAssignment(y: real) returns (t: GenState, n: string)
    ensures Compile(X_IN_SCOPE, Binary(Arith(Add), X, Assign("x", NumberLit(y, Number), Number), Number)) == Some(t)
    ensures t.code == [Set(n, Constant(D, Double(y))), Set("r", Copy(D, n)), Set(t.name, Arithmetic(D, Add, "r", n))]
    ensures n != "r"
  {
    hide Taken, Grown;
    var s := X_IN_SCOPE;
    XInScope();
    XKnown(s, "r");
    var a := Assign("x", NumberLit(y, Number), Number);
    var s1 := Result(s, "r", D);
    n := FreshName(s1, Base(NumLiteral));
    var s2 := Yield(s1, Base(NumLiteral), D, Constant(D, Double(y)));
    assert Compile(s1, NumberLit(y, Number)) == Some(s2);
    var s3 := Result(Emit(s2, Set("r", Copy(D, n))), n, D);
    assert CompileAssign(s1, a) == Some(s3);
    t := CompileOperation(s3, Arith(Add), "r", D, Number, Number, Number);
    assert CompileBinary(s, Binary(Arith(Add), X, a, Number)) == Some(t);
    assert n[0] == 'n';
  }

  /** The operands of `e` are supported, whatever `e` itself is. */
  ghost predicate OperandsReady(rd: Compiled, bs: Bases, p: Program, s: GenState, t: GenState, e: Expr, f: Frame,
                                o: Outcome, fuel: nat) {
    && e.Binary?
    && Compile(s, e) == Some(t)
    && t.code <= p
    && UniqueLabels(p)
    && Supported(bs, e.left)
    && Supported(bs, e.right)
    && |f.env| == |f.types|
    && WellTyped(e, BoundNames(f.env), f.types)
    && Ready(bs, s, FreeVars(e), f)
    && Eval(rd, e, f.env, fuel) == Some(o)
  }

  /** The code of the two operands, up to the operation. */
  lemma OperandsRun(rd: Compiled, bs: Bases, p: Program, s: GenState, t: GenState, e: Expr, f: Frame, o: Outcome,
                    fuel: nat)
    returns (s1: GenState, s2: GenState, o1: Outcome, o2: Outcome, r1: Registers, r2: Registers)
    requires OperandsReady(rd, bs, p, s, t, e, f, o, fuel)
    ensures t == CompileOperation(s2, e.op, s1.name, s1.cls, e.left.ty, e.right.ty, e.ty)
    ensures Compile(s, e.left) == Some(s1)
    ensures Eval(rd, e.left, f.env, fuel) == Some(o1) && Eval(rd, e.right, o1.env, fuel) == Some(o2)
    ensures Apply(rd, e.op, o1.val, o2.val) == Some(o.val) && o.env == o2.env && !o1.val.Void? && !o2.val.Void?
    ensures HasType(o1.val, e.left.ty) && HasType(o2.val, e.right.ty) && s1.cls == ClassOf(e.left.ty)
    ensures BoundNames(o1.env) == BoundNames(f.env) && EnvTyped(o2.env, f.types)
    ensures ResultReady(bs, e.left, s1, f, o1.val, r1)
    ensures Preserved(bs, s1, f.(env := o1.env, regs := r1), o2.env, r2)
    ensures Get(r2, s2.name) == Encode(o2.val)
    ensures Reaches(p, State(|s.code|, f.regs), State(|s2.code|, r2))
    ensures Preserved(bs, s, f, o2.env, r2)
    ensures Placed(bs, f.rho, s2.counters) && Grown(s.counters, s2.counters)
  {
    hide Compile, Eval, Taken, Grown, WellTyped;
    s1, s2 := OperandsCompile(bs, p, s, t, e, BoundNames(f.env), f.types);
    o1, o2 := BinaryEvaluates(rd, e, f.env, o, fuel);
    r1 := Simulates(rd, bs, p, s, s1, e.left, f, o1, fuel);
    ReadyAfter(rd, bs, p, s, s1, e.left, f, o1, fuel, r1, FreeVars(e.right));
    var f1 := f.(env := o1.env, regs := r1);
    r2 := Simulates(rd, bs, p, s1, s2, e.right, f1, o2, fuel);
    ReadyAfter(rd, bs, p, s1, s2, e.right, f1, o2, fuel, r2, {}) by { AgreeNothing(f1, s1); }
    Continue(bs, p, s, s1, s2, f, r1, o2.env, r2);
    GrownTrans(s.counters, s1.counters, s2.counters);
  }

  lemma OperandsCompile(bs: Bases, p: Program, s: GenState, t: GenState, e: Expr, names: seq<string>, types: seq<Ty>)
    returns (s1: GenState, s2: GenState)
    requires e.Binary? && Compile(s, e) == Some(t) && t.code <= p && UniqueLabels(p)
    requires Supported(bs, e.left) && Supported(bs, e.right) && |names| == |types| && WellTyped(e, names, types)
    ensures Static(bs, p, s, s1, e.left, names, types) && Static(bs, p, s1, s2, e.right, names, types)
    ensures t == CompileOperation(s2, e.op, s1.name, s1.cls, e.left.ty, e.right.ty, e.ty)
  {
    hide Base;
    assert CompileBinary(s, e) == Some(t);
    s1 := Compile(s, e.left).value;
    s2 := Compile(s1, e.right).value;
  }

  /** `&` and `|` add nothing to the code of their operands, so the result register is the right operand's,
      and its class is that of a truth value. It holds the value that the language gives to the operation
      exactly when the right operand alone decides it. */
  lemma LogicalOperators(bs: Bases, p: Program, s: GenState, t: GenState, e: Expr, f: Frame, o: Outcome, fuel: nat)
    returns (after: Registers, l: bool, r: bool)
    requires OperandsReady(AsEmitted, bs, p, s, t, e, f, o, fuel) && (e.op.And? || e.op.Or?)
    ensures var s1 := Compile(s, e.left);
            && s1.Some?
            && var s2 := Compile(s1.value, e.right);
            && s2.Some? && t.code == s2.value.code && t.name == s2.value.name && t.cls == W
    ensures var o1 := Eval(AsEmitted, e.left, f.env, fuel);
            && o1.Some? && o1.value.val == Truth(l)
            && var o2 := Eval(AsEmitted, e.right, o1.value.env, fuel);
            && o2.Some? && o2.value.val == Truth(r) && o == o2.value
    ensures Conclusion(bs, p, s, t, e, f, o, after)
    ensures Get(after, t.name) == Encode(Truth(if e.op.And? then l && r else l || r)) <==>
            if e.op.And? then l || !r else !l || r
  {
    hide Base, Taken, Agree, Placed, Holds, Kept;
    var o1, o2 := BinaryEvaluates(AsEmitted, e, f.env, o, fuel);
    after := Simulates(AsEmitted, bs, p, s, t, e, f, o, fuel);
    l, r := o1.val.b, o2.val.b;
    assert CompileBinary(s, e) == Some(t);
  }

  /** What the register of the left operand holds once the right operand has run: the value, or,
      when that register is a variable's, whatever the variable holds by then. */
  function LeftAfterRight(e: Expr, names: seq<string>, l: Value, after: Env): Value
    requires e.Binary? && |names| == |after|
  {
    match ResultVariable(e.left)
    case Some(x) =>
      (match Find(names, x)
       case Some(i) => after[i].val
       case None => l)
    case None => l
  }

  /** Comparison and arithmetic with no condition on what the right operand assigns: the code
      computes the operation on the left operand as it is after the right one, so it is right
      exactly when that makes no difference. */
  lemma OperandOrder(rd: Compiled, bs: Bases, p: Program, s: GenState, t: GenState, e: Expr, f: Frame, o: Outcome,
                     fuel: nat)
    returns (after: Registers, l: Value, r: Value)
    requires OperandsReady(rd, bs, p, s, t, e, f, o, fuel) && (e.op.Compare? || e.op.Arith?)
    requires |o.env| == |f.env| && (ResultVariable(e.left).Some? ==>
               forall i | Find(BoundNames(f.env), ResultVariable(e.left).value) == Some(i) :: !o.env[i].val.Void?)
    ensures var o1 := Eval(rd, e.left, f.env, fuel);
            && o1.Some? && l == LeftAfterRight(e, BoundNames(f.env), o1.value.val, o.env)
            && var o2 := Eval(rd, e.right, o1.value.env, fuel);
            && o2.Some? && r == o2.value.val
    ensures Reaches(p, State(|s.code|, f.regs), State(|t.code|, after)) && Preserved(bs, s, f, o.env, after)
    ensures Apply(rd, e.op, l, r).Some? && Get(after, t.name) == Encode(Apply(rd, e.op, l, r).value)
    ensures Get(after, t.name) == Encode(o.val) <==> Apply(rd, e.op, l, r) == Some(o.val)
  {
    hide Compile, Eval, Taken, Grown, Placed, Base, Calculate, Related, WellTyped, Apply, Agree;
    var s1, s2, o1, o2, r1, r2 := OperandsRun(rd, bs, p, s, t, e, f, o, fuel);
    l, r := LeftAfterRight(e, BoundNames(f.env), o1.val, o.env), o2.val;
    LeftRegister(rd, bs, s, e, s1, f, o1, o2, fuel, r1, r2);
    LeftTyped(rd, bs, p, s, t, e, f, o, o1, fuel);
    SameTypeApplies(rd, e.op, o1.val, l, r, e.left.ty);
    after := OperationStep(rd, bs, p, s2, e.op, s1.name, s1.cls, l, r, e.left.ty, e.right.ty, e.ty,
                           f.(env := o2.env, regs := r2));
    Continue(bs, p, s, s2, t, f, r2, o2.env, after);
    OperationTyped(rd, e.op, l, r);
    OperationTyped(rd, e.op, o1.val, r);
    EncodeInjective(o.val, Apply(rd, e.op, l, r).value, e.ty);
  }

  lemma EncodeInjective(v: Value, w: Value, ty: Ty)
    requires !v.Void? && !w.Void? && HasType(v, ty) && HasType(w, ty)
    ensures Encode(v) == Encode(w) <==> v == w
  {
  }

  lemma SameTypeApplies(rd: Reading, op: BinaryOp, l0: Value, l: Value, r: Value, ty: Ty)
    requires (op.Compare? || op.Arith?) && Apply(rd, op, l0, r).Some? && !l0.Void? && !l.Void? && HasType(l0, ty) &&
             HasType(l, ty)
    ensures Apply(rd, op, l, r).Some? && !Apply(rd, op, l, r).value.Void? && !Apply(rd, op, l0, r).value.Void?
  {
  }

  /** The result variable has the type of the expression, whatever its value. */
  lemma LeftTyped(rd: Compiled, bs: Bases, p: Program, s: GenState, t: GenState, e: Expr, f: Frame, o: Outcome,
                  o1: Outcome, fuel: nat)
    requires OperandsReady(rd, bs, p, s, t, e, f, o, fuel) && EnvTyped(o.env, f.types) && HasType(o1.val, e.left.ty)
    requires |o.env| == |f.env| && Eval(rd, e.left, f.env, fuel) == Some(o1) && !o1.val.Void?
    ensures HasType(LeftAfterRight(e, BoundNames(f.env), o1.val, o.env), e.left.ty)
    ensures e.ty == (if e.op.Arith? then Number else Bool)
  {
    hide Compile, Eval, Taken, Grown, Placed, Base, Agree;
    if ResultVariable(e.left).Some? {
      ResultVariableTyped(rd, e.left, f.env, f.types, fuel);
    }
  }

  lemma {:induction false} ResultVariableTyped(rd: Reading, e: Expr, env: Env, types: seq<Ty>, fuel: nat)
    requires EnvTyped(env, types) && WellTyped(e, BoundNames(env), types) && ResultVariable(e).Some?
    requires Eval(rd, e, env, fuel).Some? && !Eval(rd, e, env, fuel).value.val.Void?
    ensures forall i | Find(BoundNames(env), ResultVariable(e).value) == Some(i) :: types[i] == e.ty
    decreases e
  {
    match e
    case Var(_, _) =>
    case Assign(_, source, _) => ResultVariableTyped(rd, source, env, types, fuel);
    case Binary(_, l, r, _) =>
      var o1 := Eval(rd, l, env, fuel).value;
      TypesSound(rd, l, env, types, fuel);
      TypesSound(rd, r, o1.env, types, fuel);
      ResultVariableTyped(rd, r, o1.env, types, fuel);
    case _ =>
  }

  lemma {:induction false} ResultRegister(s: GenState, e: Expr)
    requires Compile(s, e).Some? && ResultVariable(e).Some?
    ensures var info := Lookup(s.scopes, ResultVariable(e).value);
            info.Some? && info.value.register == Compile(s, e).value.name
    ensures ResultVariable(e).value in FreeVars(e)
    decreases e
  {
    match e
    case Var(_, _) =>
    case Assign(_, source, _) =>
      assert Compile(s, e) == CompileAssign(s, e);
      ResultRegister(s, source);
    case Binary(_, l, r, _) =>
      assert Compile(s, e) == CompileBinary(s, e);
      ResultRegister(Compile(s, l).value, r);
    case _ =>
  }

  lemma LeftRegister(rd: Compiled, bs: Bases, s: GenState, e: Expr, s1: GenState, f: Frame, o1: Outcome,
                     o2: Outcome, fuel: nat, r1: Registers, r2: Registers)
    requires e.Binary? && |f.env| == |f.rho| && |o2.env| == |f.env| && !o1.val.Void?
    requires Compile(s, e.left) == Some(s1) && Eval(rd, e.left, f.env, fuel) == Some(o1)
    requires Agree(FreeVars(e), BoundNames(f.env), f.rho, s.scopes)
    requires ResultReady(bs, e.left, s1, f, o1.val, r1)
    requires Preserved(bs, s1, f.(env := o1.env, regs := r1), o2.env, r2)
    requires !LeftAfterRight(e, BoundNames(f.env), o1.val, o2.env).Void?
    ensures Get(r2, s1.name) == Encode(LeftAfterRight(e, BoundNames(f.env), o1.val, o2.env))
  {
    hide Taken, Compile, Eval;
    if ResultVariable(e.left).Some? {
      ResultRegister(s, e.left);
      ResultVariableValue(rd, e.left, f.env, fuel);
    }
  }
}
