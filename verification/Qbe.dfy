/** The part of the QBE intermediate language that the generator emits for expressions, as a
    machine over registers and labels. Doubles are reals. */
module Qbe {
  import opened Wrappers
  import opened Source

  /** QBE base types: word, double, long. */
  datatype Class = W | D | L

  /** A register's content. `Junk` is what an unset register holds and what an instruction gives
      for operands outside its class. */
  datatype Content = Word(w: int) | Double(d: real) | Junk

  /** Right-hand sides of `%dst = cls ...`. */
  datatype Operation =
    | Constant(cls: Class, content: Content)
    | Copy(cls: Class, src: string)
    | Comparison(rel: Relation, cls: Class, a: string, b: string)
    | Arithmetic(cls: Class, op: ArithOp, a: string, b: string)
    | SubtractFromZero(cls: Class, a: string)
    | XorOne(cls: Class, a: string)

  datatype Instr =
    | Set(dst: string, operation: Operation)
    | Jnz(test: string, nonzero: string, zero: string)
    | Jmp(to: string)
    | Label(name: string)

  type Program = seq<Instr>
  type Registers = map<string, Content>

  datatype State = State(pc: nat, regs: Registers)

  function Get(regs: Registers, r: string): Content {
    if r in regs then regs[r] else Junk
  }

  function AsClass(cls: Class, c: Content): Content {
    match cls
    case W => if c.Word? then c else Junk
    case D => if c.Double? then c else Junk
    case L => Junk
  }

  function Flag(b: bool): Content {
    Word(if b then 1 else 0)
  }

  function CompareContents(rel: Relation, cls: Class, a: Content, b: Content): Content {
    if cls.D? && a.Double? && b.Double? then Flag(Related(rel, a.d, b.d))
    else if cls.W? && rel.Eq? && a.Word? && b.Word? then Flag(a.w == b.w)
    else Junk
  }

  function CalculateContents(cls: Class, op: ArithOp, a: Content, b: Content): Content {
    if cls.D? && a.Double? && b.Double? then
      match Calculate(op, a.d, b.d)
      case Some(x) => Double(x)
      case None => Junk
    else Junk
  }

  /** `xor 1, x` on the words 0 and 1. */
  function XorOneContent(cls: Class, a: Content): Content {
    if cls.W? && a == Word(0) then Word(1)
    else if cls.W? && a == Word(1) then Word(0)
    else Junk
  }

  /** The first position of a label at or after `from`. */
  function Target(p: Program, name: string, from: nat): Option<nat>
    requires from <= |p|
    decreases |p| - from
  {
    if from == |p| then None
    else if p[from] == Label(name) then Some(from)
    else Target(p, name, from + 1)
  }

  function Jump(p: Program, name: string, regs: Registers): Option<State> {
    match Target(p, name, 0)
    case Some(pc) => Some(State(pc, regs))
    case None => None
  }

  function Perform(operation: Operation, regs: Registers): Content {
    match operation
    case Constant(_, content) => content
    case Copy(cls, src) => AsClass(cls, Get(regs, src))
    case Comparison(rel, cls, a, b) => CompareContents(rel, cls, Get(regs, a), Get(regs, b))
    case Arithmetic(cls, op, a, b) => CalculateContents(cls, op, Get(regs, a), Get(regs, b))
    case SubtractFromZero(cls, a) => CalculateContents(cls, Sub, Double(0.0), Get(regs, a))
    case XorOne(cls, a) => XorOneContent(cls, Get(regs, a))
  }

  /** One instruction; `None` when there is none to run or a jump cannot be decided. */
  function Step(p: Program, s: State): Option<State> {
    if s.pc >= |p| then None
    else
      match p[s.pc]
      case Set(dst, operation) => Some(State(s.pc + 1, s.regs[dst := Perform(operation, s.regs)]))
      case Jnz(test, nonzero, zero) =>
        (match Get(s.regs, test)
         case Word(w) => Jump(p, if w != 0 then nonzero else zero, s.regs)
         case _ => None)
      case Jmp(to) => Jump(p, to, s.regs)
      case Label(_) => Some(State(s.pc + 1, s.regs))
  }

  function Run(p: Program, s: State, steps: nat): Option<State>
    decreases steps
  {
    if steps == 0 then Some(s)
    else
      var t :- Step(p, s);
      Run(p, t, steps - 1)
  }

  ghost predicate Reaches(p: Program, s: State, t: State) {
    exists steps: nat :: Run(p, s, steps) == Some(t)
  }

  ghost predicate UniqueLabels(p: Program) {
    forall i, j | 0 <= i < j < |p| && p[i].Label? && p[j].Label? :: p[i] != p[j]
  }

  lemma {:induction false} RunAppend(p: Program, s: State, m: nat, t: State, n: nat)
    requires Run(p, s, m) == Some(t)
    ensures Run(p, s, m + n) == Run(p, t, n)
    decreases m
  {
    if m > 0 {
      RunAppend(p, Step(p, s).value, m - 1, t, n);
    }
  }

  lemma ReachesTrans(p: Program, s: State, t: State, u: State)
    requires Reaches(p, s, t) && Reaches(p, t, u)
    ensures Reaches(p, s, u)
  {
    var m: nat :| Run(p, s, m) == Some(t);
    var n: nat :| Run(p, t, n) == Some(u);
    RunAppend(p, s, m, t, n);
  }

  lemma ReachesStep(p: Program, s: State, t: State)
    requires Step(p, s) == Some(t)
    ensures Reaches(p, s, t)
  {
    assert Run(p, t, 0) == Some(t);
    assert Run(p, s, 1) == Some(t);
  }

  lemma ReachesRefl(p: Program, s: State)
    ensures Reaches(p, s, s)
  {
    assert Run(p, s, 0) == Some(s);
  }

  lemma {:induction false} TargetIs(p: Program, name: string, from: nat, at: nat)
    requires UniqueLabels(p) && from <= at < |p| && p[at] == Label(name)
    ensures Target(p, name, from) == Some(at)
    decreases |p| - from
  {
    if from < at {
      assert p[from] != Label(name);
      TargetIs(p, name, from + 1, at);
    }
  }
}
