# HULK compiler: verified model

HULK is a small object-oriented language with a compiler in C++ and a runtime in C. This project models the
compiler's core algorithms and its runtime tables in Dafny and proves what they promise. Code that the
compiler writes as visitors, loops and updates in place is a class or a method here, proved against a
specification function; the promises are lemmas about those functions. `dafny verify dfyconfig.toml` checks
everything.

## Parts

- **Code generation** (`Names`, `ScopeTable`, `Source`, `Qbe`, `IrGenerator`, `IrCorrectness`, `IrPrograms`,
  `IrLets`, `IrNames`): structured expressions become labelled jump code over generated registers. The
  generator class is proved equal to a compilation function, and the function is proved to preserve meaning
  by a forward simulation between a fuel-indexed evaluator and a small-step machine. A register that was never set holds an
  undefined value of its type, and the value of a loop or an empty block is an unspecified content. What
  the generator gets wrong (an initialiser that mentions its own variable, a right operand that assigns
  the left one, two variables whose registers get one name) is stated with inputs and with the exact
  condition under which the code is right. The generator emits no instruction for `&` and `|`, so the code
  computes the program in which each stands for its right operand. The evaluator takes the reading of the
  two operators as a parameter: programs with them are compiled right exactly when the two readings give
  the same value.
- **Macro expansion** (`MacroSyntax`, `MacroExpander`, `MacroHygiene`, `MacroTheorems`, `MacroResults`,
  `MacroEvaluation`, `MacroClashes`, `MacroSites`, `MacroSuccess`): substitution with renamed binders, nested calls, calls
  through parameters and compile-time matches. Hygiene is stated by resolving names: trees that resolve
  alike differ only in the names of bound variables, and a second theorem turns that into equal values
  under every semantics. The intended meaning follows the expander in three points. A name is looked up
  among the macro's own binders, then among its parameters, then at the site of the call, so binders of the
  program may capture the free names of macro bodies (semantic/macro_expander.cpp:572-586). The captures of
  a match come after the binders around it (805-812). A call of a macro's name is a macro call even where
  the program binds that name. `MacroSites` says exactly when the first and the third make no difference
  to lexical lookup, and `MacroClashes` which names a program must avoid. `MacroSuccess` says when expansion
  reports no error, in terms of the program alone.
- **Lowering** (`LoweringTree`, `LoweringSemantics`, `LoweringRelation`, `LoweringCorrectness`,
  `LoweringSimulation`, `LoweringPrograms`, `LoweringExactly`, `LoweringVisitor`): operators, for-loops and
  lambdas are rewritten. The visitor that overwrites slots of parent nodes is proved equal to a
  function on trees; a simulation up to the representation of function values covers nested rewriting and closure conversion.
  It asks of names what keeps their meaning: that condition is exact for names
  (`LoweringExactly.ClosableExactly`, `LoweringExactly.IterableExactly`), but a name that changes its
  meaning may happen to have the same value or not to be reached; the exact conditions on values are
  those of `LoweringExactly.DelegateExactly` and `LoweringExactly.LoopExactly`.
- **Runtime** (`HashSlots`, `HashMap`, `Chains`, `Dispatch`, `Runtime`): the bounded-probe hash table refines
  a finite map, and the method tables built on it dispatch to the nearest class of the inheritance chain.
- **Semantic algorithms** (`DependencyGraph`, `Types`, `TypeJoins`, `Overloads`, `OverloadFits`, `Layouts`,
  `LayoutStores`): topological sort and analysis order, conformance and joins, overload resolution, object
  layout with memo tables. `TypeJoins`, `OverloadFits` and `LayoutStores` say what the answers are apart from
  how they are computed: least upper bounds, how well overloads fit, and which bytes a store reaches.
- **Front end** (`Lexer`, `TextStreams`, `FrontendCache`, `ParserCache`, `CacheCuts`, `ParserCuts`): the
  tokenizer over an arbitrary automaton, and the cache writers and readers over a model of formatted text streams,
  for whole files and for files that were cut short.

## Abstractions

- Numbers of HULK programs are real numbers; integer counters, positions and sizes are unbounded except in
  the hash table, where capacities and hashes are 32 bits wide, and in stream reading, where values that do
  not fit their type fail as the library specifies.
- The hash is an arbitrary function of the key's bytes. Keys are stored by content: the runtime allocates a
  new key for each entry and never changes it.
- Iteration over unordered containers takes any order: it is a parameter or a free choice.
- Nodes of the lowered tree are reached through slots; where the original stores a pointer to an existing
  child in a new node, the child's slot moves there.

## Where the code differs from its documentation

- REPORT.md (lines 780-797) names the variable of a lowered for-loop `it`; the code names it `iterable`
  (lowering/lowering.cpp:264-280). The model follows the code.
- Two methods of different types may register one symbol (ir_generator/ir_generator.cpp:50-56);
  `Dispatch.SameSymbolExactly` says which. The theorems on dispatch are about classes and symbols by name.
- A rehash in which an insertion fails would have drained part of the old table (runtime/hashmap.h:698-703).
  `HashSlots.NextFits` shows that this cannot happen, so a put that is refused loses nothing.

## Model

| member | source | states |
|---|---|---|
| `IrPrograms.ProgramCorrect` | `ir_generator/ir_generator.cpp:62-610` | for every closed program of supported, well-typed statements that evaluates with each `&` and the or-operator read as its right operand, in which no two variables can be given one register: code is generated with unique labels, its run from the first instruction reaches the end, the result register then holds that value of the last statement, and no run can reach the end with other registers; where at each `&` and the or-operator the right operand decides, that is the value the language gives |
| `IrPrograms.ProgramExactly` | `ir_generator/ir_generator.cpp:62-610` | for programs with any `&` and the or-operator: the result register holds the value that the language gives exactly when that equals the value with each `&` and the or-operator read as its right operand |
| `IrPrograms.DecidedAgrees` | `ir_generator/ir_generator.cpp:325-458` | where at each `&` and the or-operator that is evaluated the right operand decides, the language's reading and the emitted one give the same outcome |
| `IrPrograms.PlainAgrees` | `ir_generator/ir_generator.cpp:75-610` | without `&` and the or-operator both readings are the same, whether the program has a value or not |
| `IrNames.BasesExactly` | `ir_generator/name_generator.hpp:10-13` | the condition on names is exact, for both emitted readings of `&` and the or-operator: all such programs over a set of variable names are compiled right if and only if no two of the names can be given one register, that is, none is another followed by digits without a leading zero |
| `IrNames.RegisterShared` | `ir_generator/ir_generator.cpp:97-128` | for any two names that can: a let of the longer one around enough lets of the shorter one computes the inner value instead of the outer |
| `IrCorrectness.Simulates` | `ir_generator/ir_generator.cpp:75-610` | forward simulation, for every supported expression, program context and machine state that agrees with the environment: the emitted code runs from its first instruction to its end, the result register holds the source value, every live variable's register holds its new source value, and every other register in use is unchanged |
| `IrCorrectness.SimulatesSeq` | `ir_generator/ir_generator.cpp:75-95` | the same for a sequence of statements, the value being that of the last one |
| `IrCorrectness.SimulatesBlock` | `ir_generator/ir_generator.cpp:75-95` | a block leaves the value of its last statement in a new register and forgets its scope |
| `IrCorrectness.SimulatesLet` | `ir_generator/ir_generator.cpp:97-128` | a let runs its initialiser, then its body with one more variable in a new register, and drops that variable |
| `IrCorrectness.SimulatesIf` | `ir_generator/ir_generator.cpp:130-185` | the jumps of a conditional run exactly the branch that the source takes, and join with its value in the result register |
| `IrCorrectness.SimulatesWhile` | `ir_generator/ir_generator.cpp:572-610` | the jump code of a loop runs as many rounds as the source loop, by induction on its evaluation |
| `IrCorrectness.SimulatesAssign` | `ir_generator/ir_generator.cpp:527-570` | an assignment changes the register of the innermost variable of that name and no other, and its value is the assigned one |
| `IrCorrectness.SimulatesBinary` | `ir_generator/ir_generator.cpp:325-458` | arithmetic and comparison compute the source operation on both operands, in registers that the right operand has not disturbed; the result of `&` and the or-operator is the right operand's register, of the class of a truth value |
| `IrCorrectness.SimulatesUnary` | `ir_generator/ir_generator.cpp:505-525` | negation and logical not compute the source operation |
| `IrCorrectness.TypesSound` | `ir_generator/ir_generator.cpp:75-610` | the annotations that choose register classes are sound: evaluation of a well-typed expression yields a value of its type and keeps the types of all variables |
| `IrPrograms.CompileLabels` | `ir_generator/ir_generator.cpp:130-185` | all labels that the code of an expression introduces are new and different, so jumps have one target |
| `IrPrograms.CompileSucceeds` | `ir_generator/ir_generator.cpp:309-312` | code generation of a supported expression succeeds exactly when every free variable is in the scope table |
| `IrPrograms.OperandOrder` | `ir_generator/ir_generator.cpp:309-458` | without any condition on assignments in the right operand: the code applies the operation to the left variable as it is after the right operand, so the result is right exactly when that gives the source value |
| `IrPrograms.LogicalOperators` | `ir_generator/ir_generator.cpp:325-458` | `&` and the or-operator emit no instruction: the code, the name and the class `w` of the result are those after the right operand; enclosing code finds its value there, every variable in its register, and the register is one in use; it holds the value that the language gives exactly when the right operand alone decides it |
| `IrLets.LetRuns` | `ir_generator/ir_generator.cpp:97-128` | for any initialiser and body: the code of a let runs the initialiser with the variable already bound to the new register, whose content is undefined or stale, and then the body; the result register holds what that gives |
| `IrLets.LetExactly` | `ir_generator/ir_generator.cpp:97-128` | so the result register holds the let's source value exactly when running the initialiser there gives that value in the end, and it does when the initialiser gives the same value and assignments there |
| `IrPrograms.InitialiserMentionsItself` | `ir_generator/ir_generator.cpp:97-128` | the failing family: a let whose initialiser mentions the outer variable of the same name, where the source has a value and the register holds an undefined one |
| `IrPrograms.RightOperandAssigns` | `ir_generator/ir_generator.cpp:309-458` | `x + (x := y)` computes y + y instead of x + y, for all x and y |
| `IrGeneration.IrGenerator.Visit` | `ir_generator/ir_generator.cpp:75-610` | the visitor, which appends to its code, changes counters and scopes in place, leaves exactly the state that the compilation function describes |
| `IrGeneration.IrGenerator.VisitBinary` | `ir_generator/ir_generator.cpp:325-458` | the state after a binary operation is that of the compilation function, which the simulation pins: the class of every result, that of `&` and the or-operator too, is the one that a copy of it needs |
| `IrGeneration.IrGenerator.VisitLet` | `ir_generator/ir_generator.cpp:97-128` | the state after a let: register defined before the initialiser, its class set after it |
| `IrGeneration.IrGenerator.VisitIf` | `ir_generator/ir_generator.cpp:130-185` | the state after a conditional with its three labels |
| `IrGeneration.IrGenerator.VisitWhile` | `ir_generator/ir_generator.cpp:572-610` | the state after a loop with its three labels |
| `IrGeneration.IrGenerator.VisitAssign` | `ir_generator/ir_generator.cpp:527-570` | the state after an assignment; fails where the target is unknown |
| `Names.NameManager.GenerateName` | `ir_generator/name_generator.hpp:10-13` | the name is the base and the next number of that base, and only that counter moves |
| `Names.FreshIsUnused` | `ir_generator/name_generator.hpp:10-13` | the next name of a base that does not end in a digit differs from every earlier name of such a base |
| `Names.FreshIsNew` | `ir_generator/name_generator.hpp:10-13` | the next name of a base differs from every earlier name of a set of bases of which no two collide |
| `Names.NextGivenExactly` | `ir_generator/name_generator.hpp:10-13` | for all counters: the next name of a base was given before exactly when another base has reached the number that makes the same name, one base being the other with digits from the number |
| `Names.BasesCollideExactly` | `ir_generator/name_generator.hpp:10-13` | two bases can be given one name exactly when one is the other followed by digits that do not start with zero |
| `Names.DigitBasesCollide` | `ir_generator/name_generator.hpp:10-13` | `x` handed out eleven times and `x1` once give the same name |
| `Scoping.ScopeTable.DefineVariable` | `common/scope_table.hpp:45-51` | changes the innermost scope at one name |
| `Scoping.ScopeTable.SaveVariable` | `common/scope_table.hpp:57-71` | sets the type of a name of the innermost scope, keeping its register, or adds it with an empty register |
| `Scoping.ScopeTable.ResolveVariable` | `common/scope_table.hpp:75-85` | finds the innermost definition, fails exactly when there is none |
| `Scoping.ScopeTable.ResolveType` | `common/scope_table.hpp:89-99` | finds the type of the innermost definition, fails exactly when there is none |
| `Scoping.ScopeTable.GetAllVariables` | `common/scope_table.hpp:105-117` | lists the visible names with the types of their innermost definitions, in the order of the containers |
| `Scoping.VisibleAre` | `common/scope_table.hpp:105-117` | that list has every name of every scope exactly once |
| `Scoping.InnerFirst` | `common/scope_table.hpp:105-117` | the names of inner scopes stand before those of outer ones |
| `Scoping.LookupExactly` | `common/scope_table.hpp:75-85` | a name means its entry in the innermost scope that has it, and nothing exactly when none has |
| `Scoping.SavedMeans` | `common/scope_table.hpp:57-71` | saving a name keeps the register that the innermost scope has for it, never that of an outer scope, and changes no other name |
| `MacroTheorems.ExpansionIsHygienic` | `semantic/macro_expander.cpp:78-398` | for every program text without a name that may still be generated, and every set of macros without generated-looking names: after expansion every name refers to what it is meant to refer to, under any surrounding binders: no binder of a macro captures an argument or another name of the program, the names of a macro's own binders refer to them, and the free names of macro bodies are those of the site of the call |
| `MacroClashes.SafeExactly` | `semantic/macro_expander.cpp:459-461` | name by name: a name may occur in any program, with any macros, exactly when it is not a fresh name, for a base that is not reserved, with a number above the counter |
| `MacroClashes.FreshCaptured` | `semantic/macro_expander.cpp:459-461` | every name that may still be generated is captured by a macro's binder in some program in which no other name clashes, at every counter |
| `MacroClashes.SafeVariableExactly` | `semantic/macro_expander.cpp:723-740` | a name may be used as a variable, with any macros, exactly when it is no macro's |
| `MacroClashes.MacroVariableCalled` | `semantic/macro_expander.cpp:723-740` | a variable with a macro's name that is passed to a macro which calls its parameter: the expansion calls the macro, for every name |
| `MacroSites.ExpansionKeptExactly` | `semantic/macro_expander.cpp:572-586` | the expansion of a call means what it would mean where the macros are defined exactly when no binder in scope at the call has one of the names that the called bodies, transitively, leave free |
| `MacroSites.DefinitionKeptExactly` | `semantic/macro_expander.cpp:572-586` | the same for the meaning of a call, at every nesting |
| `MacroSites.LeftAreLoose` | `semantic/macro_expander.cpp:572-586` | those names are free names of macro bodies, and none of them comes from the arguments |
| `MacroSites.FullyHygienic` | `semantic/macro_expander.cpp:78-398` | a program that binds no free name of a macro body and no macro's name expands to its lexical meaning |
| `MacroSites.SafeBinderExactly` | `semantic/macro_expander.cpp:572-586` | name by name: a name may be bound, with any macros, exactly when it is no macro's and free in no macro body |
| `MacroSites.FreeNameCaptured` | `semantic/macro_expander.cpp:572-586` | with `m() = y`, the program `let y = 5 in m()` captures the macro's free name, for every name |
| `MacroSites.BoundMacroName` | `semantic/macro_expander.cpp:78-268` | with a macro `x() = 1`, the program `let x = 5 in x()` calls the macro and not the variable, for every name |
| `MacroEvaluation.ExpansionEvaluates` | `semantic/macro_expander.cpp:78-398` | the expanded program evaluates, in every environment and every compositional semantics, to what the program with its macro calls means |
| `MacroEvaluation.EvalIsResolved` | `semantic/macro_expander.cpp:558-925` | evaluation by names and evaluation of resolved trees agree, so trees that resolve alike cannot be told apart |
| `MacroHygiene.ExpansionMeans` | `semantic/macro_expander.cpp:271-398` | one macro call: the expansion resolves to the macro body with its own binders, its parameters standing for the arguments as they are at the call site |
| `MacroHygiene.CloneMeans` | `semantic/macro_expander.cpp:558-925` | the clone of a body under any renaming state resolves to the ideal meaning of that body |
| `MacroHygiene.CloneLambdaMeans` | `semantic/macro_expander.cpp:864-894` | renamed lambda parameters, repeated names included, mean the original ones |
| `MacroHygiene.CallMeans` | `semantic/macro_expander.cpp:723-756` | a call in a macro body means the local, the parameter, the macro or the function that the name stands for |
| `MacroHygiene.MatchMeans` | `semantic/macro_expander.cpp:799-830` | a match means the first case that fits the resolved subject, with its captures |
| `MacroHygiene.PatternResolved` | `semantic/macro_expander.cpp:513-556` | matching a tree and matching its resolved form give the same answer and captures, so matching does not see renaming |
| `MacroHygiene.ExpansionClean` | `semantic/macro_expander.cpp:271-398` | an expansion contains no free name that is a macro or could still be generated |
| `MacroHygiene.FreshNumber` | `semantic/macro_expander.cpp:459-461` | two generated names are equal only if their counters are |
| `MacroClashes.ReservedNameCaptured` | `semantic/macro_expander.cpp:459-461` | the smallest instance: `__macro_x_1` in the first program |
| `MacroResults.LinearMatch` | `semantic/macro_expander.cpp:513-556` | for patterns with distinct captures: matching succeeds exactly on instances, and filling the captures back in gives the subject |
| `MacroResults.AnyMatch` | `semantic/macro_expander.cpp:513-556` | for all patterns: the subject is an instance exactly when it matches with captures that give it back |
| `MacroResults.RepeatedCapture` | `semantic/macro_expander.cpp:513-556` | `x + x` matches `1 + 2`, which is no instance |
| `MacroResults.FirstCase` | `semantic/macro_expander.cpp:799-830` | a match expands the first case whose pattern the subject is an instance of, with exactly the captures that make it one, else the default |
| `MacroResults.CloneFree` | `semantic/macro_expander.cpp:271-398` | expanding a macro on macro-free arguments leaves no macro call |
| `MacroResults.ExpandFree` | `semantic/macro_expander.cpp:78-268` | a whole expanded text has no macro call and no compile-time match left |
| `MacroResults.ExpandTwice` | `semantic/macro_expander.cpp:78-268` | expanding again changes nothing |
| `MacroExpansion.MacroExpander.CloneNode` | `semantic/macro_expander.cpp:558-925` | the visitor with its rename scopes and counter gives the clone and the counter of the cloning function and restores the scopes; it fails exactly where `MacroSuccess.CloneHasForm` says |
| `MacroSuccess.ExpandExactly` | `semantic/macro_expander.cpp:78-398` | for all programs and macros, none named like a fresh name still to come, and every counter: expansion succeeds exactly when the text has no match outside a macro, every macro call that is reached, through parameters and the chosen cases too, has as many arguments as the macro has parameters, and at most 128 macro calls are nested |
| `MacroSuccess.CloneHasForm` | `semantic/macro_expander.cpp:558-925` | the same for any piece of a macro body at any nesting: cloning fails only at a wrong number of arguments or at the 129th nested call, never at a kind of node |
| `MacroSuccess.MatchOnForm` | `semantic/macro_expander.cpp:461-558` | whether a pattern matches depends only on literals, operators and plain nodes of the value, never on names |
| `MacroSuccess.AcyclicExpands` | `semantic/macro_expander.cpp:270-398` | so a program is expanded whenever its macros call only macros of lower ranks below 128, macros called by name get as many arguments as they have parameters, no macro is used as a variable and no match stands outside macros |
| `MacroSuccess.MadeMacroCalled` | `semantic/macro_expander.cpp:459-461` | the condition on names matters: a macro called `__macro_f_1` is called in place of a renamed local function |
| `MacroExpansion.MacroExpander.ExpandCall` | `semantic/macro_expander.cpp:271-398` | binds parameters by position and expands the body; an error for an unknown macro, a wrong count or too deep an expansion |
| `MacroExpansion.MacroExpander.ExpandNode` | `semantic/macro_expander.cpp:78-268` | expands calls by name, arguments first |
| `MacroExpansion.MatchPattern` | `semantic/macro_expander.cpp:513-556` | matches a value against a pattern, adding captures |
| `MacroExpansion.ExpansionEnv.FindLocal` | `semantic/macro_expander.cpp:483-493` | finds the innermost renaming of a name |
| `LoweringPrograms.ProgramPreserved` | `lowering/lowering.cpp:4-18` | whenever the statements of a supported program run to the end, those of the lowered program, with its lowered functions and methods and its generated types, do so with the same effects on the world and the same values, functions being represented by delegates |
| `LoweringSimulation.Simulates` | `lowering/lowering.cpp:20-439` | the same for every tree, scope stack and pair of related environments, by induction on evaluation |
| `LoweringSimulation.SimFor` | `lowering/lowering.cpp:237-284` | a for-loop and the while-loop over `iterable` have the same rounds, values and effects |
| `LoweringSimulation.SimRounds` | `lowering/lowering.cpp:263-279` | round by round: condition, current element, body |
| `LoweringSimulation.SimApply` | `lowering/lowering.cpp:348-439` | closure conversion: invoking the generated delegate on related arguments yields what applying the lambda yields |
| `LoweringSimulation.SimMethod` | `lowering/lowering.cpp:294-304` | calling a method of one of the program's types, iterables included, on related arguments runs its lowered form to a related value with the same effects |
| `LoweringPrograms.DeclsLowered` | `lowering/lowering.cpp:30-57` | every function and every method of a type has its lowered form under the same name |
| `LoweringSimulation.SimLambda` | `lowering/lowering.cpp:348-439` | building the delegate from the variables in scope represents the closure |
| `LoweringSimulation.SimFunctorCall` | `lowering/lowering.cpp:108-123` | calling a variable that holds a function and calling `invoke` on it agree |
| `LoweringSimulation.SimBinary` | `lowering/lowering.cpp:136-185` | `!=`, `@@`, `^` and `%` and what replaces them compute the same value with the same effects, operands evaluated once and in order |
| `LoweringSimulation.SimLet` | `lowering/lowering.cpp:59-73` | a let keeps its meaning when its parts are lowered in their scopes |
| `LoweringSimulation.SimIf` | `lowering/lowering.cpp:75-95` | a conditional keeps its meaning |
| `LoweringSimulation.SimWhile` | `lowering/lowering.cpp:223-235` | a loop keeps its meaning |
| `LoweringTree.LowerNormal` | `lowering/lowering.cpp:136-284` | the lowered tree and every generated type contain no `for`, `!=`, `@@`, `^`, `%`, lambda, call of a function value by name or non-inline function |
| `LoweringTree.LowerKeeps` | `lowering/lowering.cpp:25-312` | from the root down to the nodes that are replaced, every node keeps its kind and its children: in particular every declaration keeps its name and parameters, with a body and without one |
| `LoweringRelation.LowerAssigns` | `lowering/lowering.cpp:136-439` | lowering makes no new assignments: whatever the lowered tree may assign, the tree as written may |
| `LoweringRelation.Untouched` | `lowering/lowering.cpp:195-205` | evaluation changes no variable but those it assigns |
| `LoweringExactly.Builds` | `lowering/lowering.cpp:402-438` | for any lambda in any scopes: the lowered lambda builds its delegate exactly when all variables of the scope table have values |
| `LoweringExactly.DelegateOpens` | `lowering/lowering.cpp:374-391` | for any lambda, environment and arguments: invoking the delegate runs the lowered body after the captured variables have been read, in order, from whatever `self` then is |
| `LoweringExactly.DelegateRuns` | `lowering/lowering.cpp:374-391` | where `self` is left to the delegate: invoking it runs the lowered body with the captured variables laid over the parameters, whether that comes to an end or not |
| `LoweringExactly.DelegateMeans` | `lowering/lowering.cpp:348-439` | whatever its variables are called: if the body as written runs to an end on names as the delegate sees them, invoking the delegate does the same |
| `LoweringExactly.DelegateExactly` | `lowering/lowering.cpp:348-439` | so the delegate gives a lambda's plain value and effect exactly when the body as written gives them on names as the delegate sees them |
| `LoweringExactly.ClosableExactly` | `lowering/lowering.cpp:375-391` | the condition on lambdas is exact: every name of the body means in the delegate what it means in the lambda, for all environments and arguments, if and only if each is a parameter or a known variable and no parameter that is used has the name of a known variable |
| `LoweringExactly.ParameterHidden` | `lowering/lowering.cpp:377-391` | lowering `(x) => x` where a variable `x` is known: the lambda returns its argument, the delegate that variable |
| `LoweringExactly.UntrackedVariable` | `lowering/lowering.cpp:257-262` | lowering `() => x` in the body of a for-loop over `x`: the lambda returns the element, the delegate fails |
| `LoweringExactly.LoopRuns` | `lowering/lowering.cpp:237-284` | for any for-loop in any scopes: the lowered loop asks the variable `iterable` before each round, whether it comes to an end or not |
| `LoweringExactly.LoopMeans` | `lowering/lowering.cpp:237-284` | whatever its body calls its variables: if the loop as written, asking the variable `iterable`, runs to an end, the lowered loop does the same |
| `LoweringExactly.LoopExactly` | `lowering/lowering.cpp:237-284` | so the lowered loop has the loop's effect, and leaves a plain variable as the loop does, exactly when the loop as written does so while asking the variable `iterable` |
| `LoweringExactly.IterableExactly` | `lowering/lowering.cpp:264-282` | the condition on for-loops is exact: every name of the body keeps its meaning, for all environments, objects and elements, if and only if the body uses no outer variable called `iterable` |
| `LoweringExactly.IterableHidden` | `lowering/lowering.cpp:264-282` | lowering `for (x in c) y := iterable` where the loop makes one round: the loop leaves the outer variable's value in `y`, the lowered loop the object looped over |
| `LoweringPrograms.LowerUnique` | `lowering/lowering.cpp:356-357` | generated types have different names, so each delegate is found under its own |
| `LoweringPass.LoweringVisitor.Visit` | `lowering/lowering.cpp:20-439` | the visitor that overwrites the slots of parent nodes in place leaves exactly the tree, generated types, counter and scopes of the lowering function |
| `LoweringPass.LoweringVisitor.VisitKid` | `lowering/lowering.cpp:20-28` | lowering one child changes the tree at that child only |
| `LoweringPass.LoweringVisitor.VisitChildren` | `lowering/lowering.cpp:328-334` | descending into all children lowers each in turn |
| `LoweringPass.LoweringVisitor.VisitFor` | `lowering/lowering.cpp:237-284` | the for-node's slot points to the let over the while-loop |
| `LoweringPass.LoweringVisitor.VisitLambda` | `lowering/lowering.cpp:348-439` | the lambda's slot points to the construction of a new delegate, whose body is the lowered lambda body wrapped in the captured lets |
| `LoweringPass.LoweringVisitor.VisitFunctionDecl` | `lowering/lowering.cpp:30-57` | declares the parameters, lowers the body, and replaces the declaration by an inline one |
| `LoweringPass.LoweringVisitor.VisitCall` | `lowering/lowering.cpp:97-126` | a call of a function value becomes `invoke` on the variable |
| `LoweringPass.LoweringVisitor.VisitBinary` | `lowering/lowering.cpp:136-185` | replaces the four desugared operators and no other |
| `LoweringPass.LoweringVisitor.VisitProgram` | `lowering/lowering.cpp:4-18` | lowers declarations, then statements, and inserts the generated types in front, last one first |
| `LoweringPass.KidChanged` | `lowering/lowering.cpp:20-28` | replacing a node below one slot leaves the trees of all other slots as they were |
| `HashMaps.HashMap.Put` | `runtime/hashmap.h:336-364` | the table refines a finite map: status 0 means the map is updated at the key, status 1 that it is unchanged; a valid key is refused only at capacity 2^31 without a place for it |
| `HashMaps.HashMap.Get` | `runtime/hashmap.h:366-389` | the value of the abstract map at the key |
| `HashMaps.HashMap.Remove` | `runtime/hashmap.h:391-419` | removes exactly that key; status 1 exactly when it was absent |
| `HashMaps.HashMap.constructor` | `runtime/hashmap.h:306-334` | an empty table of the rounded capacity |
| `HashMaps.HashMap.HashHelper` | `runtime/hashmap.h:623-659` | finds the slot of the key, else the first free slot of its probe window; fails exactly when the table is full or the window is taken |
| `HashMaps.HashMap.Rehash` | `runtime/hashmap.h:677-711` | doubles the capacity and preserves the abstract map exactly; fails only at the largest capacity, changing nothing; with `Put` it terminates because the capacity grows |
| `HashMaps.HashMap.MoveEntries` | `runtime/hashmap.h:469-494` | every entry of the old table ends up in the new one |
| `HashMaps.RoundedIsLeast` | `runtime/hashmap.h:308-313` | the capacity is the least power of two at or above two and the requested one |
| `HashMaps.CapacityDoubles` | `runtime/hashmap.h:683-689` | twice the capacity in 32 bits is the next power of two, or zero exactly at 2^31 |
| `HashSlots.HomeBelow` | `runtime/hashmap.h:617-621` | the home index is below the capacity, so every probe is below capacity plus eight |
| `HashSlots.HomeDoubles` | `runtime/hashmap.h:617-621` | in a table twice as large the home index is twice the old one or one more |
| `HashSlots.RoomForNext` | `runtime/hashmap.h:661-711` | entries moved in slot order always find a place in their window of the doubled table |
| `HashSlots.NextFits` | `runtime/hashmap.h:661-711` | so the put inside a rehash never rehashes and never fails: a rehash cannot stop midway |
| `HashSlots.MovedAll` | `runtime/hashmap.h:661-711` | the tables before and after hold the same map |
| `HashSlots.KeyInWindow` | `runtime/hashmap.h:640-650` | a key of the map lies within eight slots of its home |
| `HashSlots.StoreOk` | `runtime/hashmap.h:351-363` | storing keeps unique keys, windows and the count of used slots, and updates the map |
| `HashSlots.RemoveOk` | `runtime/hashmap.h:405-413` | blanking a slot keeps the invariant and removes its key |
| `Runtime.RuntimeTables.RegisterInheritance` | `runtime/runtime.c:42-50` | records the parent of a class, leaving all methods alone |
| `Runtime.RuntimeTables.RegisterMethod` | `runtime/runtime.c:52-70` | records the code of a method of a class, replacing what it had, leaving everything else alone |
| `Runtime.RuntimeTables.Parent` | `runtime/runtime.c:71-80` | the recorded parent, or zero |
| `Runtime.RuntimeTables.GetVirtualMethod` | `runtime/runtime.c:81-105` | the latest code registered for the method on the nearest class of the chain, or null exactly when no ancestor has one |
| `Runtime.RuntimeTables.RegisterAll` | `runtime/runtime.c:42-70` | after any sequence of successful registrations the tables hold exactly what the sequence says |
| `Runtime.BytesInjective` | `runtime/runtime.c:45-49` | different class and method numbers are different hash keys |
| `Dispatch.AcyclicStops` | `runtime/runtime.c:84-104` | without inheritance cycles a search ends within as many steps as there are registered classes |
| `Dispatch.CycleNeverStops` | `runtime/runtime.c:84-104` | a search that runs into a cycle, after any number of steps, without meeting the method never ends |
| `Dispatch.SearchEndsExactly` | `runtime/runtime.c:84-104` | a search ends exactly when it ends within one step more than there are registered classes, which is exactly when it does not run into such a cycle |
| `Dispatch.NearestUnique` | `runtime/runtime.c:81-105` | there is only one answer |
| `Dispatch.EmittedTables` | `ir_generator/ir_generator.cpp:32-60` | the registrations that code generation emits record exactly the declared parents and methods |
| `Dispatch.SameSymbolExactly` | `ir_generator/ir_generator.cpp:50-56` | two methods register the same symbol exactly when they are the same method of the same type, or one type's name is the other's followed by an underscore and by what the other's method has before an underscore |
| `Dispatch.DispatchIsStatic` | `ir_generator/ir_generator.cpp:32-60` | for those registrations virtual lookup gives the method of the nearest declared ancestor that declares it, and null if none does |
| `Dispatch.SearchesEnd` | `ir_generator/ir_generator.cpp:32-60` | for a program with acyclic inheritance every such lookup ends |
| `Runtime.RuntimeTables.CallVirtual` | `runtime/runtime.c:81-105` | on tables that hold the emitted registrations of an acyclic program, the lookup returns the code that static resolution of the class and method gives, null if there is none |
| `DependencyGraphs.DependencyGraph.TopologicalSort` | `semantic/dependency_graph.cpp:39-76` | true exactly when the graph has no cycle, self-loops included; the order is always a permutation of all nodes, and then every node stands after all it depends on, for any order of visiting |
| `DependencyGraphs.DependencyGraph.Dfs` | `semantic/dependency_graph.cpp:49-65` | one search: marks its node, keeps what was marked, keeps the order sorted as long as no cycle was met, and reports a cycle only where there is one |
| `DependencyGraphs.DependencyGraph.AddDependency` | `semantic/dependency_graph.cpp:30-37` | adds one edge, and the reverse edge to the other node, unless the edge is there |
| `DependencyGraphs.DependencyGraph.GetOrCreateNode` | `semantic/dependency_graph.cpp:5-18` | one node per name |
| `DependencyGraphs.OrderedAcyclic` | `semantic/dependency_graph.cpp:39-76` | a sorted graph has no cycle |
| `DependencyGraphs.BuildOrderedFunctionList` | `semantic/analyzer.cpp:10-37` | the functions of the sorted graph, each once, then the pending ones that are missing |
| `DependencyGraphs.EachOnce` | `semantic/analyzer.cpp:10-37` | with pending functions listed once, every function is in the result exactly once |
| `DependencyGraphs.OrderFunctions` | `semantic/analyzer.cpp:105-114` | sorting, then building the list: with a cycle of calls the functions as declared; without one every pending function and every function of the graph exactly once, and for every call between nodes that hold functions the callee before the caller, if the caller's function stands at no other node; which function a node holds is said by its kind and its declaration |
| `DependencyGraphs.EarlierNodeFirst` | `semantic/analyzer.cpp:10-37` | a function that stands at an earlier node of the sorted order is analysed earlier, if the later one stands at no node before its own |
| `DependencyGraphs.DependencyBefore` | `semantic/dependency_graph.cpp:39-76` | in a sorted graph every dependency stands before the node that has it |
| `Types.TypeConforms` | `semantic/type.hpp:409-470` | the relation computed by the code, for absent types, all kinds and any parent links |
| `Types.WalkUp` | `semantic/type.hpp:456-468` | the walk up the chain ends even on cyclic parent links, and finds exactly the ancestors |
| `Types.ConformsReflexive` | `semantic/type.hpp:409-470` | every type conforms to itself |
| `TypeJoins.ContainersExactly` | `semantic/type.hpp:428-448` | for each pair of container kinds: vectors conform to vectors, iterables and enumerables, the others only to their own kind, exactly when the elements conform |
| `TypeJoins.OthersExactly` | `semantic/type.hpp:409-470` | for every other pair of types: exactly when one conforms to the other |
| `Types.ConformsTransitive` | `semantic/type.hpp:409-470` | if the type in the middle holds no Unknown or Any along its element types, conformance carries over, whatever the outer types |
| `Types.TransitiveExactly` | `semantic/type.hpp:409-470` | a type in the middle makes conformance transitive, for all outer types, exactly when it holds no Unknown or Any along its element types |
| `Types.ConformsAntisymmetric` | `semantic/type.hpp:409-470` | types free of Unknown and Any that conform to each other are equal, if no parent cycle is longer than one |
| `Types.AntisymmetricExactly` | `semantic/type.hpp:409-470` | conformance is antisymmetric on those types exactly when every parent cycle is a class that is its own parent |
| `Types.WildRelatesStrangers` | `semantic/type.hpp:413-418` | every type that does hold one stands between two types of which the first does not conform to the last |
| `Types.CycleBreaksAntisymmetry` | `semantic/type.hpp:456-468` | a class on a longer cycle and its parent are different types that conform to each other |
| `Types.LowestCommonAncestor` | `semantic/type.hpp:472-540` | the join computed by the code, absent and unknown types included, whenever its loops end |
| `TypeJoins.JoinExactly` | `semantic/type.hpp:472-540` | for all types without Unknown and Any whose walks end: the join is their least upper bound exactly when no two different number kinds meet in them, no Void meets another type, and they are not containers of which the join passes over a common container |
| `TypeJoins.LeastExactly` | `semantic/type.hpp:472-540` | the join is below every type without Unknown and Any that is above both exactly when they are not such containers |
| `TypeJoins.CrossingPassesOver` | `semantic/type.hpp:472-540` | and where they are, a container above both that the join, Object, is not below |
| `TypeJoins.JoinKnownExactly` | `semantic/type.hpp:472-540` | the join of types without Unknown and Any has neither exactly when no Void meets another type |
| `TypeJoins.KnownJoinCommutes` | `semantic/type.hpp:472-540` | without cycles of parents the join of all such types does not depend on their order |
| `TypeJoins.JoinIdempotent` | `semantic/type.hpp:485-487` | the join of a type with itself is the type |
| `TypeJoins.JoinOfWild` | `semantic/type.hpp:479-484` | joins with Unknown, Any and Void |
| `Types.JoinEndsExactly` | `semantic/type.hpp:519-533` | they end, for two classes, exactly when one is an ancestor of the other or both chains of parents end |
| `Types.CommonAncestor` | `semantic/type.hpp:519-533` | the first type up the right chain that is on the left one, else Object |
| `Types.JoinIsUpperBound` | `semantic/type.hpp:472-540` | the join is an upper bound of both types exactly when no two different concrete number kinds meet in them |
| `Types.MixedKindsKeepHigher` | `semantic/type.hpp:190-204` | two different concrete kinds join to the wider one, doubles before floats before longs before ints, to which the narrower one does not conform |
| `Types.JoinIsLeast` | `semantic/type.hpp:510-533` | on classes and Object the join is the least upper bound |
| `Types.JoinCommutes` | `semantic/type.hpp:472-540` | there it is commutative |
| `Types.JoinAssociates` | `semantic/type.hpp:472-540` | and associative |
| `Types.JoinAllAnyOrder` | `semantic/type.hpp:472-540` | so folding it over a list gives the same type in every order |
| `Chains.RepeatingChainNeverEnds` | `semantic/type.hpp:521-532` | a chain of parents that comes back to a class never ends |
| `Chains.ChainBounded` | `semantic/type.hpp:521-532` | a chain ends exactly when it does within one step more than there are parents |
| `Lexing.Lexer.Tokenize` | `lexer/lexer.cpp:39-106` | the tokens of the maximal pieces of the input that are not skipped, with their positions, or the error at the first place without a piece |
| `Lexing.Lexer.Scan` | `lexer/lexer.cpp:57-67` | the longest prefix of the remaining input that the automaton accepts |
| `Lexing.CutIsMaximal` | `lexer/lexer.cpp:49-103` | the pieces are non-empty, accepted, longest, and cover the input without gap up to its end or the first place where nothing is accepted |
| `Lexing.AcceptsExactly` | `lexer/lexer.cpp:54-67` | a text is accepted exactly when it is not empty and some path of states through the transition table, from the start state, reads it and ends in an accepting state |
| `Lexing.RunExactly` | `lexer/lexer.cpp:58-62` | that path is the only one |
| `Lexing.CutIsUnique` | `lexer/lexer.cpp:49-103` | there is only one way to cut an input into maximal pieces |
| `Lexing.LexemesAddUp` | `lexer/lexer.cpp:77-103` | the lexemes, skipped ones included, concatenate to the input |
| `Lexing.PositionMeans` | `lexer/lexer.cpp:80-88` | line and column are those of the consumed prefix: newlines so far, and distance from the last one |
| `Lexing.Lexer.Move` | `lexer/lexer.cpp:80-88` | the loop over the lexeme computes that position |
| `FrontendCaches.LexerCacheRoundTrip` | `compiler/frontend_cache.cpp:100-196` | reading a written lexer cache gives back the automaton and skip table exactly when the header matches; any other header is a miss |
| `FrontendCaches.WriteDfaCache` | `compiler/frontend_cache.cpp:160-196` | the text written, for any order of the containers |
| `FrontendCaches.ReadDfaCache` | `compiler/frontend_cache.cpp:100-158` | the answer for any text, well-formed or not |
| `FrontendCaches.HeaderReads` | `compiler/frontend_cache.cpp:68-98` | a header is accepted exactly when magic word, version, size, time and fingerprint are the expected ones |
| `CacheCuts.CutLexerCache` | `compiler/frontend_cache.cpp:100-158` | a written lexer cache cut after any number of characters: accepted exactly when its header is there to the newline and matches, and then read as the automaton of the fields that are left, the last one cut short, with zeros for the rest |
| `FrontendCaches.TruncatedIsAccepted` | `compiler/frontend_cache.cpp:157` | in particular a file cut after its header is accepted, as an automaton without states |
| `ParserCaches.ParserCacheRoundTrip` | `compiler/frontend_cache.cpp:209-314` | reading a written parser cache gives back ACTION, GOTO and the conflicts, quoted details included, exactly when header and grammar sizes match |
| `ParserCaches.WriteParserCache` | `compiler/frontend_cache.cpp:272-314` | the text written, for any order of the containers |
| `ParserCaches.ReadParserCache` | `compiler/frontend_cache.cpp:209-270` | the answer for any text |
| `ParserCuts.CutParserCache` | `compiler/frontend_cache.cpp:209-270` | a written parser cache cut after any number of characters: accepted exactly when its header matches and what is left of the grammar sizes reads as the expected ones, and then read as the tables of the fields that are left |
| `TextStreams.QuotedReads` | `compiler/frontend_cache.cpp:265` | quoted text with escapes reads back as it was |
| `TextStreams.IntReads` | `compiler/frontend_cache.cpp:79` | a number that fits its type reads back as it was |
| `Overloads.SemanticSymbolTable.ResolveFunction` | `semantic/symbol_table.hpp:268-360` | status, choice and candidate list for the innermost symbol of that name; what they are is `OverloadFits.ChosenExactly`, `OverloadFits.SharedExactly`, `OverloadFits.RefusedExactly` and `OverloadFits.CandidatesSay` |
| `Overloads.SemanticSymbolTable.InsertFunction` | `semantic/symbol_table.hpp:199-216` | adds an overload to the innermost scope unless an equal one or another kind of symbol is there |
| `Overloads.SemanticSymbolTable.Lookup` | `semantic/symbol_table.hpp:218-224` | the innermost symbol of that name |
| `Overloads.FindExactly` | `semantic/symbol_table.hpp:218-224` | the symbol of the innermost scope that has the name; none exactly when no scope has it |
| `Overloads.ResolvedExactly` | `semantic/symbol_table.hpp:320-360` | Resolved with an overload exactly when it matches and costs strictly less than every other match |
| `Overloads.AmbiguousExactly` | `semantic/symbol_table.hpp:320-360` | Ambiguous exactly when two entries share the least cost |
| `Overloads.OrderDoesNotMatter` | `semantic/symbol_table.hpp:286-360` | status and choice are the same for every permutation of the overloads |
| `Overloads.ExactOverloadWins` | `semantic/symbol_table.hpp:144-174` | a unique overload with exactly the argument types wins, when conformance is reflexive |
| `OverloadFits.BetterWins` | `semantic/symbol_table.hpp:144-174` | an overload that fits every argument at least as well as each other match, and one argument better, is chosen: exact before conforming before Any before Unknown |
| `OverloadFits.CostIsTotal` | `semantic/symbol_table.hpp:144-174` | the cost of a match is the number of its arguments that only conform, plus three times those for a parameter of type Any, plus four times those with Unknown |
| `OverloadFits.ChosenExactly` | `semantic/symbol_table.hpp:286-360` | an overload is chosen exactly when it is listed once, accepts the arguments and has a lower total of that kind than every other that does |
| `OverloadFits.SharedExactly` | `semantic/symbol_table.hpp:286-360` | the call is ambiguous exactly when two accepting entries share the lowest total |
| `OverloadFits.RefusedExactly` | `semantic/symbol_table.hpp:286-318` | arity mismatch exactly when no overload has as many parameters as arguments, type mismatch exactly when some has and none accepts them |
| `OverloadFits.CandidatesSay` | `semantic/symbol_table.hpp:286-318` | each overload is reported in order, matched exactly when it accepts the arguments, with its total |
| `Layouts.TypeRegister.ComputeLayout` | `ir_generator/type_register.hpp:18-58` | whatever was asked before, the memo tables hold the layout that the declarations determine, whose widths are those of `LayoutStores.WordExactly`; fails exactly when an ancestor is not declared |
| `Layouts.TypeRegister.TotalSize` | `ir_generator/type_register.hpp:59-63` | the size that the declarations determine (`LayoutStores.SizeCounted`), or the remembered one once the type has been laid out |
| `Layouts.TypeRegister.GetOffset` | `ir_generator/type_register.hpp:65-72` | the offset of an attribute of the type itself, where `LayoutStores.StoreKeepsOthers` makes it safe to store; -1 otherwise, inherited attributes included |
| `Layouts.TypeRegister.GetWordSize` | `ir_generator/type_register.hpp:75-80` | the machine type of an attribute of the type itself, empty otherwise; the entry left behind changes no later answer |
| `Layouts.TypeRegister.RegisterFromDeclaration` | `ir_generator/type_register.hpp:81-85` | on memo tables that hold the parent of every type they hold, keeps them right exactly when the type is new to them or its remembered size, offsets and words are those of the new declaration |
| `Layouts.RelaidExactly` | `ir_generator/type_register.hpp:18-58` | a layout is that of a type declared again exactly when its own attributes, laid after the parent's size without the type itself, give it |
| `Layouts.FieldsTileObject` | `ir_generator/type_register.hpp:37-53` | the attributes along the inheritance chain fill an object without gap from the end of its pointer to its total size, each type's starting at its parent's size |
| `Layouts.FieldsDisjoint` | `ir_generator/type_register.hpp:37-53` | no two attributes share a byte |
| `LayoutStores.WordExactly` | `ir_generator/type_utils.hpp:36-49` | on targets with pointers of 4 and of 8 bytes, an attribute takes exactly the bytes of its machine type: 4 for a Bool, a pointer for anything else, a floating type exactly for numbers |
| `LayoutStores.SizeCounted` | `ir_generator/type_register.hpp:37-58` | the size of an object is a pointer, 4 bytes for each Bool and a pointer for each other attribute, counted along the inheritance chain |
| `LayoutStores.FieldsAreWords` | `ir_generator/type_register.hpp:37-53` | every attribute along the chain occupies exactly the width of the machine type that its declaring type answers for it |
| `LayoutStores.StoreKeepsOthers` | `ir_generator/type_register.hpp:37-80` | storing a word of one attribute's machine type at its offset changes no byte of another attribute, of the header or outside the object, and reads back as stored |
| `Layouts.FieldsAnswered` | `ir_generator/type_register.hpp:65-72` | with distinct names per type, every attribute is found at its place by asking for the type that declares it |
| `Layouts.SizeUnique` | `ir_generator/type_register.hpp:59-63` | the size of a type is determined |
| `Layouts.AskRegisterAsk` | `ir_generator/type_register.hpp:59-85` | asking for a size, registering the type again and asking again: the second answer is the first one, right exactly when the parent's size and the new attributes add up to it |
| `Layouts.NewSizeExactly` | `ir_generator/type_register.hpp:18-58` | the size of a type declared again is the size of its parent without it and of its own attributes |

## Left out

- IrLets.LetExactly: the undefined content of a register that was never set is a parameter of its type, and the initialiser is taken to be well typed with its own variable in place; `IrLets.OuterType` shows that it is when an outer variable has the name.
- Lexing.Lexer.Tokenize: requires that every accepting state has a token with an entry in the skip table and that state -1 does not accept, as in all tables the lexer generator builds; what other tables lead to is not modelled.
- HashMaps.HashMap.constructor: requests above 2^31 shift a 32-bit word by its width, which C leaves undefined; a failing allocation is not modelled.
- Runtime.RuntimeTables.GetVirtualMethod: requires a search that ends, without which the original does not return; `Dispatch.SearchEndsExactly` says which do.
- Types.LowestCommonAncestor: requires that its loops end, which the original needs as well; `Types.JoinEndsExactly` says when they do. A nominal type's parent is a nominal type or Object.
- Layouts.TypeRegister.TotalSize: requires, for a type not yet laid out, a chain of parents that ends, without which the original does not return.
- CacheCuts.CutLexerCache: what is not read is zero here; the start state of the original's automaton has no initial value, so a file cut before it leaves that state undefined.
- DependencyGraphs.OrderFunctions: of functions that share a name only one stands at the node, and the others come with the pending ones, in no particular order.
- LoweringSimulation.Simulates: vectors, the creation of objects, their attributes and library functions are operations of the machine, on values that hold no functions, and so is the choice of the type in which an object finds a method; `return` and vector comprehensions are lowered but have no meaning here; the types that lowering copies onto new nodes are not tracked.
- LoweringPrograms.ProgramPreserved: variables are captured by value when the lambda is built, as docs/lambdas.md (line 445) lays down, before and after lowering; attribute initialisers and arguments of parent types are lowered, but run as part of the machine's creation of objects.
- LoweringExactly.DelegateRuns: for lambdas without a variable or parameter called `self`; with one, `LoweringExactly.DelegateOpens` says what the delegate computes.
- LoweringExactly.LoopMeans: where the loop that asks the variable `iterable` does not run to an end, only `LoweringExactly.LoopRuns` applies, and likewise `LoweringExactly.DelegateRuns` for delegates.
- MacroTheorems.ExpansionIsHygienic: placeholder, symbolic and body parameters, and macro calls that are a node of their own, are not modelled; the conditions are exact name by name (`MacroClashes.SafeExactly`, `MacroClashes.SafeVariableExactly`), while a single program may use a clashing name where nothing captures it.
- MacroExpansion.MacroExpander.ExpandCall: the original expands the finished expansion once more and copies default parts; `MacroResults.CloneFree` and `MacroResults.ExpandIdle` show that the extra passes find nothing to do, so they are not modelled.
- Overloads.SemanticSymbolTable.ResolveFunction: candidates carry no reason texts.
- Code generation for strings, calls, `new`, member access, vectors and printing; assignment to attributes and elements.
- Macro declarations: collecting them and checking their parameter lists.
- Rehashing when memory runs out, and `hashmap_iterate` and the key-returning removal, which the runtime does not use.
- Dependency graph: dumping it, the text of cycle messages beyond their presence, and the reverse edges beyond being kept.
- Construction of the lexer automaton and of the parser tables, their file signatures and the location of cache files.
- Type inference as a whole, protocols' structural conformance, and function types beyond equality.
- String functions and mathematical wrappers of the runtime, and its garbage collector.
