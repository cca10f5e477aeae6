/** The lowering pass itself (lowering/lowering.cpp): it walks the nodes and replaces them in place,
    through the slot of the parent that points to them. */
module LoweringPass {
  import opened Wrappers
  import opened Decimal
  import opened Scoping
  import opened LoweringTree

  /** A node of the tree. What is replaced is never a node itself but the slot that points to it. */
  class Node {
    const kind: Kind
    const kids: seq<Slot>

    constructor (kind: Kind, kids: seq<Slot>)
      ensures this.kind == kind && this.kids == kids
    {
      this.kind, this.kids := kind, kids;
    }
  }

  /** A pointer to a node, in a parent or at the root. */
  class Slot {
    var node: Node
    /** The tree below, and the slots it consists of. */
    ghost var tree: Tree
    ghost var repr: set<object>

    ghost predicate Valid()
      reads this, repr
      decreases repr, 0
    {
      this in repr && node.kind == tree.kind && |node.kids| == |tree.kids| && Forest(node.kids, tree.kids, repr - {this})
    }

    constructor (kind: Kind, kids: seq<Slot>, ghost trees: seq<Tree>, ghost below: set<object>)
      requires Forest(kids, trees, below)
      ensures Valid() && tree == Tree(kind, trees) && repr == {this} + below
    {
      node := new Node(kind, kids);
      tree := Tree(kind, trees);
      repr := {this} + below;
      new;
      assert repr - {this} == below;
      assert Forest(kids, trees, below);
    }

    /** Points the slot to a new node over slots that are not above it. */
    method SetNode(kind: Kind, kids: seq<Slot>, ghost trees: seq<Tree>, ghost below: set<object>)
      requires Forest(kids, trees, below) && this !in below
      modifies this
      ensures Valid() && tree == Tree(kind, trees) && repr == {this} + below
    {
      node := new Node(kind, kids);
      tree := Tree(kind, trees);
      repr := {this} + below;
      assert repr - {this} == below;
      assert Forest(kids, trees, below);
    }
  }

  /** Slots with separate trees, all of them in `below`. */
  ghost predicate Forest(slots: seq<Slot>, trees: seq<Tree>, below: set<object>)
    reads below
    decreases below, 1
  {
    && |slots| == |trees|
    && (forall i | 0 <= i < |slots| ::
          slots[i] in below && slots[i].repr <= below && slots[i].tree == trees[i] && slots[i].Valid())
    && (forall i, j | 0 <= i < j < |slots| :: slots[i].repr !! slots[j].repr)
  }

  /** A generated type whose method body is still a slot of the program. */
  datatype GeneratedType = GeneratedType(name: string, captured: seq<string>, params: seq<string>, body: Slot)

  /** The children of a node: the slots, and everything below them. */
  datatype Children = Children(slots: seq<Slot>, below: set<object>)

  /** After a change below one slot, the forest has the new tree there and the old ones elsewhere. */
  twostate lemma KidChanged(c: Children, new i: nat, new trees: seq<Tree>)
    requires old(Forest(c.slots, trees, c.below)) && i < |c.slots| && c.slots[i].Valid()
    requires forall o: object | o in c.below && o !in old(c.slots[i].repr) :: unchanged(o)
    requires forall o: object | o in c.slots[i].repr :: o in old(c.slots[i].repr) || fresh(o)
    ensures Forest(c.slots, trees[i := c.slots[i].tree], (c.below - old(c.slots[i].repr)) + c.slots[i].repr)
  {
    var slots, below := c.slots, c.below;
    var after := (below - old(slots[i].repr)) + slots[i].repr;
    var slot: object := slots[i];
    assert slot in slots[i].repr;
    forall j | 0 <= j < |slots| && j != i
      ensures slots[j] in after && slots[j].repr <= after && slots[j].tree == trees[j] && slots[j].Valid()
      ensures slots[j].repr == old(slots[j].repr)
    {
      var other: object := slots[j];
      assert other in old(slots[j].repr) && other !in old(slots[i].repr);
      assert unchanged(other);
    }
  }

  class LoweringVisitor {
    const order: set<string> -> seq<string>
    const scopeTable: ScopeTable<string>
    var generatedTypes: seq<GeneratedType>
    var delegateId: nat
    /** The slots that have moved into generated types. */
    ghost var owned: set<object>

    constructor (order: set<string> -> seq<string>, delegateId: nat)
      requires Enumerates(order)
      ensures this.order == order && generatedTypes == [] && this.delegateId == delegateId && owned == {}
      ensures fresh(scopeTable) && scopeTable.lexicalScopes == [map[]] && GeneratedValid() && Generated() == []
    {
      this.order := order;
      scopeTable := new ScopeTable<string>();
      generatedTypes, this.delegateId, owned := [], delegateId, {};
    }

    ghost predicate GeneratedValid()
      reads this, owned
    {
      forall i | 0 <= i < |generatedTypes| ::
        generatedTypes[i].body in owned && generatedTypes[i].body.repr <= owned && generatedTypes[i].body.Valid()
    }

    ghost function Generated(): (ds: seq<Delegate>)
      requires GeneratedValid()
      reads this, owned
      ensures |ds| == |generatedTypes|
    {
      seq(|generatedTypes|, i requires 0 <= i < |generatedTypes| && generatedTypes[i].body in owned
                              reads this, owned =>
        Delegate(generatedTypes[i].name, generatedTypes[i].captured, generatedTypes[i].params,
                 generatedTypes[i].body.tree))
    }

    /** The slot can be visited: nothing below it has been moved away. */
    ghost predicate Ready(s: Slot)
      reads this, owned, s, s.repr
    {
      && s.Valid() && GeneratedValid() && s.repr !! owned
      && this !in s.repr && this !in owned && scopeTable !in s.repr && scopeTable !in owned
    }

    /** Lowers one child where it stands. `t` is the tree as it was. */
    method VisitKid(s: Slot, i: nat, ghost t: Tree)
      requires Enumerates(order) && Ready(s) && i < |s.tree.kids|
      requires i < |t.kids| && t.kids[i] == s.tree.kids[i] && Shaped(t)
      modifies this, scopeTable, s.repr
      ensures Ready(s) && s.node == old(s.node)
      ensures forall o: object | o in s.repr :: o in old(s.repr) || fresh(o)
      ensures forall o: object | o in owned :: o in old(owned) || o in old(s.repr) || fresh(o)
      ensures scopeTable.lexicalScopes == old(scopeTable.lexicalScopes)
      ensures var r := Lower(order, t.kids[i], old(scopeTable.lexicalScopes), old(Generated()), old(delegateId));
              && s.tree == Tree(old(s.tree.kind), old(s.tree.kids)[i := r.tree])
              && Generated() == r.generated && delegateId == r.delegateId
      decreases t, 0
    {
      hide Lower, Enumerates;
      ghost var kid := s.node.kids[i];
      ghost var below := s.repr - {s};
      assert Forest(s.node.kids, s.tree.kids, below);
      assert Ready(s.node.kids[i]);
      Visit(s.node.kids[i]);
      ghost var after := (below - old(s.node.kids[i].repr)) + kid.repr;
      KidChanged(Children(s.node.kids, below), i, s.tree.kids);
      s.tree := Tree(s.tree.kind, s.tree.kids[i := kid.tree]);
      s.repr := {s} + after;
      assert s.repr - {s} == after;
      assert Forest(s.node.kids, s.tree.kids, after);
    }

    /** Lowers the tree below `s`, replacing the node that `s` points to where its kind asks for it. */
    method Visit(s: Slot)
      requires Enumerates(order) && Ready(s) && Shaped(s.tree)
      modifies this, scopeTable, s.repr
      ensures Ready(s)
      ensures forall o: object | o in s.repr :: o in old(s.repr) || fresh(o)
      ensures forall o: object | o in owned :: o in old(owned) || o in old(s.repr) || fresh(o)
      ensures scopeTable.lexicalScopes == old(scopeTable.lexicalScopes)
      ensures Lowered(s.tree, Generated(), delegateId) ==
              Lower(order, old(s.tree), old(scopeTable.lexicalScopes), old(Generated()), old(delegateId))
      decreases s.tree, 4
    {
      hide Lower, LowerKids, Rewrite, Enumerates;
      ghost var t, scopes := s.tree, scopeTable.lexicalScopes;
      var kind := s.node.kind;
      if kind.Let? {
        VisitLet(s, kind.name, t);
      } else if kind.If? {
        VisitIf(s, t);
      } else if kind.While? {
        VisitWhile(s, t);
      } else if kind.For? {
        VisitFor(s, kind.variable, t);
      } else if kind.Block? {
        VisitBlock(s, t);
      } else if kind.FunctionDecl? {
        VisitFunctionDecl(s, kind.name, kind.params, kind.inlined, t);
      } else if kind.Binary? {
        VisitBinary(s, kind.op, t);
      } else if kind.Call? {
        VisitCall(s, kind.callee, kind.functorValue, t);
      } else if kind.Lambda? {
        VisitLambda(s, kind.params, t);
      } else {
        PlainKind(order, t, scopes, Generated(), delegateId);
        VisitChildren(s, scopes, t);
      }
    }

    /** Lowers all children in the current scopes, which are those in which the visitor of this kind
        visits every child when it is itself visited in `base`. */
    method VisitChildren(s: Slot, ghost base: ScopeStack, ghost t: Tree)
      requires Enumerates(order) && Ready(s) && s.tree == t && Shaped(t)
      requires forall j: nat :: KidScopes(t.kind, j, base) == scopeTable.lexicalScopes
      modifies this, scopeTable, s.repr
      ensures Ready(s) && s.node == old(s.node)
      ensures forall o: object | o in s.repr :: o in old(s.repr) || fresh(o)
      ensures forall o: object | o in owned :: o in old(owned) || o in old(s.repr) || fresh(o)
      ensures scopeTable.lexicalScopes == old(scopeTable.lexicalScopes)
      ensures var r := LowerKids(order, t.kind, t.kids, 0, base, old(Generated()), old(delegateId));
              s.tree == Tree(t.kind, r.trees) && Generated() == r.generated && delegateId == r.delegateId
      decreases t, 1
    {
      hide Lower, LowerKids, KidScopes, Enumerates;
      assert t.kids[0..] == t.kids;
      FirstKid(order, t.kind, t.kids, base, Generated(), delegateId);
      for i := 0 to |s.node.kids|
        invariant Ready(s) && s.node == old(s.node)
        invariant forall o: object | o in s.repr :: o in old(s.repr) || fresh(o)
        invariant forall o: object | o in owned :: o in old(owned) || o in old(s.repr) || fresh(o)
        invariant scopeTable.lexicalScopes == old(scopeTable.lexicalScopes)
        invariant s.tree.kind == t.kind && |s.tree.kids| == |t.kids| && s.tree.kids[i..] == t.kids[i..]
        invariant LowerKids(order, t.kind, t.kids, 0, base, old(Generated()), old(delegateId)) ==
                  Remaining(order, t, s.tree.kids, i, base, Generated(), delegateId)
      {
        assert t.kids[i] == t.kids[i..][0] == s.tree.kids[i..][0] == s.tree.kids[i];
        NextKid(order, t, s.tree.kids, i, base, scopeTable.lexicalScopes, Generated(), delegateId);
        VisitKid(s, i, t);
      }
      LastKid(order, t, s.tree.kids, base, Generated(), delegateId);
    }

    /** Lowers one child in a scope of its own. */
    method VisitBranch(s: Slot, i: nat, ghost t: Tree)
      requires Enumerates(order) && Ready(s) && i < |s.tree.kids|
      requires i < |t.kids| && t.kids[i] == s.tree.kids[i] && Shaped(t)
      modifies this, scopeTable, s.repr
      ensures Ready(s) && s.node == old(s.node)
      ensures forall o: object | o in s.repr :: o in old(s.repr) || fresh(o)
      ensures forall o: object | o in owned :: o in old(owned) || o in old(s.repr) || fresh(o)
      ensures scopeTable.lexicalScopes == old(scopeTable.lexicalScopes)
      ensures var r := Lower(order, t.kids[i], old(scopeTable.lexicalScopes) + [map[]], old(Generated()), old(delegateId));
              && s.tree == Tree(old(s.tree.kind), old(s.tree.kids)[i := r.tree])
              && Generated() == r.generated && delegateId == r.delegateId
      decreases t, 1
    {
      hide Lower, Enumerates;
      scopeTable.EnterScope();
      VisitKid(s, i, t);
      scopeTable.ExitScope();
    }

    /** Lowers a program: its declarations and statements, then the generated types, each inserted
        before everything that is already there. */
    method VisitProgram(root: Slot) returns (types: seq<GeneratedType>)
      requires Enumerates(order) && Ready(root) && Shaped(root.tree) && root.tree.kind.Program? && generatedTypes == []
      modifies this, scopeTable, root.repr
      ensures var r := LowerKids(order, Program, old(root.tree.kids), 0, old(scopeTable.lexicalScopes), [], old(delegateId));
              && root.Valid() && root.tree == Tree(Program, r.trees)
              && |types| == |r.generated|
              && forall i | 0 <= i < |types| ::
                   types[i].body.Valid() &&
                   Delegate(types[i].name, types[i].captured, types[i].params, types[i].body.tree) ==
                   r.generated[|types| - 1 - i]
      ensures generatedTypes == []
    {
      hide LowerKids, Enumerates, Lower;
      ghost var t, scopes := root.tree, scopeTable.lexicalScopes;
      assert Generated() == [];
      PlainKind(order, t, scopes, [], delegateId);
      VisitChildren(root, scopes, t);
      ghost var generated := Generated();
      types := [];
      for i := 0 to |generatedTypes|
        invariant |types| == i
        invariant forall k | 0 <= k < i :: types[k] == generatedTypes[i - 1 - k]
      {
        types := [generatedTypes[i]] + types;
      }
      assert forall i | 0 <= i < |types| ::
        types[i].body.Valid() && types[i].body in owned && types[i].body.repr <= owned;
      generatedTypes := [];
    }

    method VisitLet(s: Slot, x: string, ghost t: Tree)
      requires Enumerates(order) && Ready(s) && s.tree == t && Shaped(t) && t.kind == Let(x)
      modifies this, scopeTable, s.repr
      ensures Ready(s)
      ensures forall o: object | o in s.repr :: o in old(s.repr) || fresh(o)
      ensures forall o: object | o in owned :: o in old(owned) || o in old(s.repr) || fresh(o)
      ensures scopeTable.lexicalScopes == old(scopeTable.lexicalScopes)
      ensures Lowered(s.tree, Generated(), delegateId) ==
              Lower(order, t, old(scopeTable.lexicalScopes), old(Generated()), old(delegateId))
      decreases t, 3
    {
      hide LowerKids, Enumerates;
      KidsTwo(order, t.kind, t.kids, scopeTable.lexicalScopes, Generated(), delegateId);
      VisitKid(s, 0, t);
      scopeTable.EnterScope();
      scopeTable.SaveVariable(x, None);
      DeclareOne(old(scopeTable.lexicalScopes) + [map[]], x);
      assert scopeTable.lexicalScopes == KidScopes(t.kind, 1, old(scopeTable.lexicalScopes));
      VisitKid(s, 1, t);
      scopeTable.ExitScope();
      assert s.tree.kids == [s.tree.kids[0], s.tree.kids[1]];
    }

    method VisitIf(s: Slot, ghost t: Tree)
      requires Enumerates(order) && Ready(s) && s.tree == t && Shaped(t) && t.kind.If?
      modifies this, scopeTable, s.repr
      ensures Ready(s)
      ensures forall o: object | o in s.repr :: o in old(s.repr) || fresh(o)
      ensures forall o: object | o in owned :: o in old(owned) || o in old(s.repr) || fresh(o)
      ensures scopeTable.lexicalScopes == old(scopeTable.lexicalScopes)
      ensures Lowered(s.tree, Generated(), delegateId) ==
              Lower(order, t, old(scopeTable.lexicalScopes), old(Generated()), old(delegateId))
      decreases t, 3
    {
      hide LowerKids, Enumerates;
      ghost var scopes := scopeTable.lexicalScopes;
      if |s.node.kids| == 2 {
        KidsTwo(order, t.kind, t.kids, scopes, Generated(), delegateId);
      } else {
        KidsThree(order, t.kind, t.kids, scopes, Generated(), delegateId);
      }
      VisitKid(s, 0, t);
      VisitBranch(s, 1, t);
      if |s.node.kids| == 3 {
        VisitBranch(s, 2, t);
        assert s.tree.kids == [s.tree.kids[0], s.tree.kids[1], s.tree.kids[2]];
      } else {
        assert s.tree.kids == [s.tree.kids[0], s.tree.kids[1]];
      }
    }

    method VisitWhile(s: Slot, ghost t: Tree)
      requires Enumerates(order) && Ready(s) && s.tree == t && Shaped(t) && t.kind.While?
      modifies this, scopeTable, s.repr
      ensures Ready(s)
      ensures forall o: object | o in s.repr :: o in old(s.repr) || fresh(o)
      ensures forall o: object | o in owned :: o in old(owned) || o in old(s.repr) || fresh(o)
      ensures scopeTable.lexicalScopes == old(scopeTable.lexicalScopes)
      ensures Lowered(s.tree, Generated(), delegateId) ==
              Lower(order, t, old(scopeTable.lexicalScopes), old(Generated()), old(delegateId))
      decreases t, 3
    {
      hide LowerKids, Enumerates;
      KidsTwo(order, t.kind, t.kids, scopeTable.lexicalScopes, Generated(), delegateId);
      VisitKid(s, 0, t);
      VisitBranch(s, 1, t);
      assert s.tree.kids == [s.tree.kids[0], s.tree.kids[1]];
    }

    method VisitBlock(s: Slot, ghost t: Tree)
      requires Enumerates(order) && Ready(s) && s.tree == t && Shaped(t) && t.kind.Block?
      modifies this, scopeTable, s.repr
      ensures Ready(s)
      ensures forall o: object | o in s.repr :: o in old(s.repr) || fresh(o)
      ensures forall o: object | o in owned :: o in old(owned) || o in old(s.repr) || fresh(o)
      ensures scopeTable.lexicalScopes == old(scopeTable.lexicalScopes)
      ensures Lowered(s.tree, Generated(), delegateId) ==
              Lower(order, t, old(scopeTable.lexicalScopes), old(Generated()), old(delegateId))
      decreases t, 3
    {
      hide LowerKids, Enumerates;
      ghost var scopes := scopeTable.lexicalScopes;
      scopeTable.EnterScope();
      VisitChildren(s, scopes, t);
      scopeTable.ExitScope();
    }

    /** Makes the parameters known to the current scope, in order. */
    method DeclareParams(params: seq<string>)
      requires scopeTable.lexicalScopes != []
      modifies scopeTable
      ensures scopeTable.lexicalScopes == Declare(old(scopeTable.lexicalScopes), params)
      ensures |scopeTable.lexicalScopes| == |old(scopeTable.lexicalScopes)|
      ensures scopeTable.lexicalScopes[..|scopeTable.lexicalScopes| - 1] ==
              old(scopeTable.lexicalScopes[..|scopeTable.lexicalScopes| - 1])
    {
      for i := 0 to |params|
        invariant Declare(old(scopeTable.lexicalScopes), params) == Declare(scopeTable.lexicalScopes, params[i..])
        invariant |scopeTable.lexicalScopes| == |old(scopeTable.lexicalScopes)|
        invariant scopeTable.lexicalScopes[..|scopeTable.lexicalScopes| - 1] ==
                  old(scopeTable.lexicalScopes[..|scopeTable.lexicalScopes| - 1])
      {
        scopeTable.SaveVariable(params[i], None);
        assert params[i..][1..] == params[i + 1..];
      }
      assert params[|params|..] == [];
    }

    method VisitFunctionDecl(s: Slot, name: string, params: seq<string>, inlined: bool, ghost t: Tree)
      requires Enumerates(order) && Ready(s) && s.tree == t && Shaped(t) && t.kind == FunctionDecl(name, params, inlined)
      modifies this, scopeTable, s.repr
      ensures Ready(s)
      ensures forall o: object | o in s.repr :: o in old(s.repr) || fresh(o)
      ensures forall o: object | o in owned :: o in old(owned) || o in old(s.repr) || fresh(o)
      ensures scopeTable.lexicalScopes == old(scopeTable.lexicalScopes)
      ensures Lowered(s.tree, Generated(), delegateId) ==
              Lower(order, t, old(scopeTable.lexicalScopes), old(Generated()), old(delegateId))
      decreases t, 3
    {
      hide LowerKids, Enumerates, Wrapped, ForLoop, RewriteBinary, Visible, DelegateName, Declare;
      ghost var scopes := scopeTable.lexicalScopes;
      scopeTable.EnterScope();
      DeclareParams(params);
      VisitChildren(s, scopes, t);
      scopeTable.ExitScope();
      if !inlined {
        Rekind(s, FunctionDecl(name, params, true));
      }
    }

    method VisitFor(s: Slot, x: string, ghost t: Tree)
      requires Enumerates(order) && Ready(s) && s.tree == t && Shaped(t) && t.kind == For(x)
      modifies this, scopeTable, s.repr
      ensures Ready(s)
      ensures forall o: object | o in s.repr :: o in old(s.repr) || fresh(o)
      ensures forall o: object | o in owned :: o in old(owned) || o in old(s.repr) || fresh(o)
      ensures scopeTable.lexicalScopes == old(scopeTable.lexicalScopes)
      ensures Lowered(s.tree, Generated(), delegateId) ==
              Lower(order, t, old(scopeTable.lexicalScopes), old(Generated()), old(delegateId))
      decreases t, 3
    {
      hide LowerKids, Enumerates, ForLoop;
      KidsTwo(order, t.kind, t.kids, scopeTable.lexicalScopes, Generated(), delegateId);
      VisitKid(s, 0, t);
      VisitBranch(s, 1, t);
      assert s.tree.kids == [s.tree.kids[0], s.tree.kids[1]];
      ReplaceFor(s, x);
    }

    method VisitBinary(s: Slot, op: string, ghost t: Tree)
      requires Enumerates(order) && Ready(s) && s.tree == t && Shaped(t) && t.kind == Binary(op)
      modifies this, scopeTable, s.repr
      ensures Ready(s)
      ensures forall o: object | o in s.repr :: o in old(s.repr) || fresh(o)
      ensures forall o: object | o in owned :: o in old(owned) || o in old(s.repr) || fresh(o)
      ensures scopeTable.lexicalScopes == old(scopeTable.lexicalScopes)
      ensures Lowered(s.tree, Generated(), delegateId) ==
              Lower(order, t, old(scopeTable.lexicalScopes), old(Generated()), old(delegateId))
      decreases t, 3
    {
      hide LowerKids, Enumerates, RewriteBinary;
      ghost var scopes := scopeTable.lexicalScopes;
      VisitChildren(s, scopes, t);
      ReplaceBinary(s, op);
    }

    method VisitCall(s: Slot, f: string, functorValue: bool, ghost t: Tree)
      requires Enumerates(order) && Ready(s) && s.tree == t && Shaped(t) && t.kind == Call(f, functorValue)
      modifies this, scopeTable, s.repr
      ensures Ready(s)
      ensures forall o: object | o in s.repr :: o in old(s.repr) || fresh(o)
      ensures forall o: object | o in owned :: o in old(owned) || o in old(s.repr) || fresh(o)
      ensures scopeTable.lexicalScopes == old(scopeTable.lexicalScopes)
      ensures Lowered(s.tree, Generated(), delegateId) ==
              Lower(order, t, old(scopeTable.lexicalScopes), old(Generated()), old(delegateId))
      decreases t, 3
    {
      hide LowerKids, Enumerates;
      ghost var scopes := scopeTable.lexicalScopes;
      VisitChildren(s, scopes, t);
      if functorValue {
        ReplaceFunctorCall(s, f);
      }
    }

    method VisitLambda(s: Slot, params: seq<string>, ghost t: Tree)
      requires Enumerates(order) && Ready(s) && s.tree == t && Shaped(t) && t.kind == Lambda(params)
      modifies this, scopeTable, s.repr
      ensures Ready(s)
      ensures forall o: object | o in s.repr :: o in old(s.repr) || fresh(o)
      ensures forall o: object | o in owned :: o in old(owned) || o in old(s.repr) || fresh(o)
      ensures scopeTable.lexicalScopes == old(scopeTable.lexicalScopes)
      ensures Lowered(s.tree, Generated(), delegateId) ==
              Lower(order, t, old(scopeTable.lexicalScopes), old(Generated()), old(delegateId))
      decreases t, 3
    {
      hide LowerKids, Enumerates, Wrapped, Visible;
      ghost var scopes := scopeTable.lexicalScopes;
      KidsOne(order, t.kind, t.kids, scopes, Generated(), delegateId);
      VisitKid(s, 0, t);
      BuildDelegate(s, params);
    }

    /** Moves the lowered body of a lambda into a new type and builds an instance in its place. */
    method BuildDelegate(s: Slot, params: seq<string>)
      requires Enumerates(order) && Ready(s) && |s.tree.kids| == 1
      modifies this, s
      ensures Ready(s)
      ensures forall o: object | o in s.repr :: o in old(s.repr) || fresh(o)
      ensures forall o: object | o in owned :: o in old(owned) || o in old(s.repr) || fresh(o)
      ensures Lowered(s.tree, Generated(), delegateId) ==
              Rewrite(order, Lambda(params), old(s.tree.kids), scopeTable.lexicalScopes, old(Generated()), old(delegateId))
    {
      hide Enumerates, Wrapped, Visible, Forest, Slot.Valid, Rewrite;
      OnlyKid(s);
      RewriteLambda(order, params, s.tree.kids, scopeTable.lexicalScopes, Generated(), delegateId);
      var name, names := EmitType(s, params);
      var args, trees, below := VariableSlots(names);
      s.SetNode(New(name), args, trees, below);
    }

    /** The type of the lambda at `s`, whose lowered body moves into it. */
    method EmitType(s: Slot, params: seq<string>) returns (name: string, names: seq<string>)
      requires Enumerates(order) && Ready(s) && |s.tree.kids| == 1
      modifies this
      ensures GeneratedValid() && s in s.repr && s !in owned && this !in owned && scopeTable !in owned
      ensures forall o: object | o in owned :: o in old(owned) || o in s.repr || fresh(o)
      ensures delegateId == old(delegateId) + 1 && name == "Delegate_" + ToText(delegateId)
      ensures names == Visible(order, scopeTable.lexicalScopes, {})
      ensures Generated() == old(Generated()) + [Delegate(name, names, params, Wrapped(names, s.tree.kids[0]))]
    {
      hide Enumerates, Wrapped, Visible, Forest, Slot.Valid;
      OnlyKid(s);
      delegateId := delegateId + 1;
      name := "Delegate_" + ToText(delegateId);
      var variables := scopeTable.GetAllVariables(order);
      names := seq(|variables|, i requires 0 <= i < |variables| => variables[i].0);
      assert names == Visible(order, scopeTable.lexicalScopes, {});
      var wrapped := WrapBody(names, s.node.kids[0]);
      AddType(name, names, params, wrapped);
    }

    lemma OnlyKid(s: Slot)
      requires s.Valid() && |s.tree.kids| == 1
      ensures |s.node.kids| == 1 && s.node.kids[0].Valid() && s.node.kids[0].tree == s.tree.kids[0]
      ensures s.node.kids[0].repr <= s.repr - {s} && s in s.repr
    {
      assert Forest(s.node.kids, s.tree.kids, s.repr - {s});
    }

    method AddType(name: string, captured: seq<string>, params: seq<string>, body: Slot)
      requires GeneratedValid() && body.Valid() && body in body.repr && this !in body.repr && this !in owned
      modifies this`generatedTypes, this`owned
      ensures GeneratedValid() && owned == old(owned) + body.repr
      ensures Generated() == old(Generated()) + [Delegate(name, captured, params, body.tree)]
    {
      ghost var before := Generated();
      generatedTypes := generatedTypes + [GeneratedType(name, captured, params, body)];
      owned := owned + body.repr;
      assert Generated() == before + [Delegate(name, captured, params, body.tree)];
    }
  }

  /** What remains to be done after the first `i` children of `t`, which have become those of `kids`. */
  ghost function Remaining(order: set<string> -> seq<string>, t: Tree, kids: seq<Tree>, i: nat, base: ScopeStack,
                           generated: seq<Delegate>, id: nat): LoweredAll
    requires |kids| == |t.kids| && i <= |kids|
  {
    var rest := LowerKids(order, t.kind, t.kids[i..], i, base, generated, id);
    LoweredAll(kids[..i] + rest.trees, rest.generated, rest.delegateId)
  }

  lemma FirstKid(order: set<string> -> seq<string>, kind: Kind, kids: seq<Tree>, base: ScopeStack,
                 generated: seq<Delegate>, id: nat)
    ensures LowerKids(order, kind, kids, 0, base, generated, id) ==
            Remaining(order, Tree(kind, kids), kids, 0, base, generated, id)
  {
    assert kids[0..] == kids && kids[..0] == [];
    var rest := LowerKids(order, kind, kids, 0, base, generated, id);
    assert [] + rest.trees == rest.trees;
  }

  lemma NextKid(order: set<string> -> seq<string>, t: Tree, kids: seq<Tree>, i: nat, base: ScopeStack,
                scopes: ScopeStack, generated: seq<Delegate>, id: nat)
    requires |kids| == |t.kids| && i < |kids| && kids[i..] == t.kids[i..] && KidScopes(t.kind, i, base) == scopes
    ensures var r := Lower(order, t.kids[i], scopes, generated, id);
            && kids[i := r.tree][i + 1..] == t.kids[i + 1..]
            && Remaining(order, t, kids, i, base, generated, id) ==
               Remaining(order, t, kids[i := r.tree], i + 1, base, r.generated, r.delegateId)
  {
    hide Lower;
    var r := Lower(order, t.kids[i], scopes, generated, id);
    assert t.kids[i..][0] == t.kids[i] && t.kids[i..][1..] == t.kids[i + 1..] == kids[i..][1..];
    assert kids[i := r.tree][..i + 1] == kids[..i] + [r.tree];
    var rest := LowerKids(order, t.kind, t.kids[i + 1..], i + 1, base, r.generated, r.delegateId);
    assert kids[..i] + ([r.tree] + rest.trees) == kids[..i] + [r.tree] + rest.trees;
  }

  lemma LastKid(order: set<string> -> seq<string>, t: Tree, kids: seq<Tree>, base: ScopeStack,
                generated: seq<Delegate>, id: nat)
    requires |kids| == |t.kids|
    ensures Remaining(order, t, kids, |kids|, base, generated, id) == LoweredAll(kids, generated, id)
  {
    assert t.kids[|kids|..] == [] && kids[..|kids|] + [] == kids;
  }

  /** The same children under a node of another kind. */
  method Rekind(s: Slot, kind: Kind)
    requires s.Valid()
    modifies s
    ensures s.Valid() && s.repr == old(s.repr) && s.tree == Tree(kind, old(s.tree.kids))
  {
    ghost var below := s.repr - {s};
    s.SetNode(kind, s.node.kids, s.tree.kids, below);
  }

  method ReplaceBinary(s: Slot, op: string)
    requires s.Valid() && |s.tree.kids| == 2 && s.tree.kind == Binary(op)
    modifies s
    ensures s.Valid() && s.tree == RewriteBinary(op, old(s.tree.kids[0]), old(s.tree.kids[1]))
    ensures forall o: object | o in s.repr :: o in old(s.repr) || fresh(o)
  {
    assert s.tree.kids == [s.tree.kids[0], s.tree.kids[1]];
    if op == "^" {
      Rekind(s, Call("pow", false));
    } else if op == "%" {
      Rekind(s, Call("mod", false));
    } else if op == "!=" {
      ReplaceUnequal(s);
    } else if op == "@@" {
      ReplaceSpaced(s);
    }
  }

  method ReplaceUnequal(s: Slot)
    requires s.Valid()
    modifies s
    ensures s.Valid() && s.tree == Tree(Unary("!"), [Tree(Binary("=="), old(s.tree.kids))])
    ensures forall o: object | o in s.repr :: o in old(s.repr) || fresh(o)
  {
    ghost var below := s.repr - {s};
    assert Forest(s.node.kids, s.tree.kids, below);
    var equals := new Slot(Binary("=="), s.node.kids, s.tree.kids, below);
    s.SetNode(Unary("!"), [equals], [equals.tree], equals.repr);
  }

  method ReplaceSpaced(s: Slot)
    requires s.Valid() && |s.tree.kids| == 2
    modifies s
    ensures s.Valid()
    ensures s.tree == Tree(Binary("@"), [Tree(Binary("@"), [old(s.tree.kids[0]), Tree(Text(" "), [])]),
                                         old(s.tree.kids[1])])
    ensures forall o: object | o in s.repr :: o in old(s.repr) || fresh(o)
  {
    ghost var below := s.repr - {s};
    assert Forest(s.node.kids, s.tree.kids, below);
    var left, right := s.node.kids[0], s.node.kids[1];
    var blank := new Slot(Text(" "), [], [], {});
    var spaced := Pair(Binary("@"), left, blank);
    SetPair(s, Binary("@"), spaced, right);
  }

  /** A new node over two separate slots. */
  method Pair(kind: Kind, a: Slot, b: Slot) returns (slot: Slot)
    requires a.Valid() && b.Valid() && a.repr !! b.repr
    ensures slot.Valid() && fresh(slot) && slot.repr == {slot} + a.repr + b.repr
    ensures slot.tree == Tree(kind, [a.tree, b.tree])
  {
    ghost var below := a.repr + b.repr;
    assert Forest([a, b], [a.tree, b.tree], below);
    slot := new Slot(kind, [a, b], [a.tree, b.tree], below);
  }

  method SetPair(s: Slot, kind: Kind, a: Slot, b: Slot)
    requires a.Valid() && b.Valid() && a.repr !! b.repr && s !in a.repr && s !in b.repr
    modifies s
    ensures s.Valid() && s.repr == {s} + a.repr + b.repr
    ensures s.tree == Tree(kind, [old(a.tree), old(b.tree)])
  {
    ghost var below := a.repr + b.repr;
    assert Forest([a, b], [a.tree, b.tree], below);
    s.SetNode(kind, [a, b], [a.tree, b.tree], below);
  }

  /** A new node over one slot. */
  method Single(kind: Kind, a: Slot) returns (slot: Slot)
    requires a.Valid()
    ensures slot.Valid() && fresh(slot) && slot.repr == {slot} + a.repr && slot.tree == Tree(kind, [a.tree])
  {
    assert Forest([a], [a.tree], a.repr);
    slot := new Slot(kind, [a], [a.tree], a.repr);
  }

  method ReplaceFunctorCall(s: Slot, f: string)
    requires s.Valid()
    modifies s
    ensures s.Valid() && s.tree == Tree(MethodCall("invoke"), [Tree(Variable(f), [])] + old(s.tree.kids))
    ensures forall o: object | o in s.repr :: o in old(s.repr) || fresh(o)
  {
    ghost var below := s.repr - {s};
    assert Forest(s.node.kids, s.tree.kids, below);
    var receiver := new Slot(Variable(f), [], [], {});
    s.SetNode(MethodCall("invoke"), [receiver] + s.node.kids, [receiver.tree] + s.tree.kids, receiver.repr + below);
  }

  method ReplaceFor(s: Slot, x: string)
    requires s.Valid() && |s.tree.kids| == 2
    modifies s
    ensures s.Valid() && s.tree == ForLoop(x, old(s.tree.kids[0]), old(s.tree.kids[1]))
    ensures forall o: object | o in s.repr :: o in old(s.repr) || fresh(o)
  {
    ghost var below := s.repr - {s};
    assert Forest(s.node.kids, s.tree.kids, below);
    var iterable, body := s.node.kids[0], s.node.kids[1];
    var loop := LoopOver(x, body);
    SetPair(s, Let("iterable"), iterable, loop);
  }

  /** `while (iterable.next()) { let x = iterable.current() in body }` */
  method LoopOver(x: string, body: Slot) returns (loop: Slot)
    requires body.Valid()
    ensures loop.Valid() && forall o: object | o in loop.repr :: o in body.repr || fresh(o)
    ensures var it := Tree(Variable("iterable"), []);
            loop.tree == Tree(While, [Tree(MethodCall("next"), [it]),
              Tree(Block, [Tree(Let(x), [Tree(MethodCall("current"), [it]), body.tree])])])
  {
    hide Slot.Valid, Forest;
    var condition := CallOnIterable("next");
    var current := CallOnIterable("current");
    var bind := Pair(Let(x), current, body);
    var block := Single(Block, bind);
    loop := Pair(While, condition, block);
  }

  method CallOnIterable(selector: string) returns (call: Slot)
    ensures call.Valid() && fresh(call.repr)
    ensures call.tree == Tree(MethodCall(selector), [Tree(Variable("iterable"), [])])
  {
    var receiver := new Slot(Variable("iterable"), [], [], {});
    call := Single(MethodCall(selector), receiver);
  }

  /** Binds every captured variable to the attribute of `self` with its name, the first outermost. */
  method WrapBody(names: seq<string>, body: Slot) returns (wrapped: Slot)
    requires body.Valid()
    ensures wrapped.Valid() && wrapped in wrapped.repr && wrapped.tree == Wrapped(names, body.tree)
    ensures forall o: object | o in wrapped.repr :: o in body.repr || fresh(o)
  {
    hide Slot.Valid, Forest;
    wrapped := body;
    var i := |names|;
    SlotInRepr(body);
    while 0 < i
      invariant 0 <= i <= |names|
      invariant wrapped.Valid() && wrapped in wrapped.repr && wrapped.tree == Wrapped(names[i..], body.tree)
      invariant forall o: object | o in wrapped.repr :: o in body.repr || fresh(o)
    {
      i := i - 1;
      wrapped := WrapOne(names[i], wrapped);
      assert names[i..][0] == names[i] && names[i..][1..] == names[i + 1..];
    }
    assert names[0..] == names;
  }

  lemma SlotInRepr(s: Slot)
    requires s.Valid()
    ensures s in s.repr
  {
  }

  /** `let x = self.x in body` */
  method WrapOne(x: string, body: Slot) returns (wrapped: Slot)
    requires body.Valid()
    ensures wrapped.Valid() && wrapped in wrapped.repr
    ensures wrapped.tree == Tree(Let(x), [Tree(Member(x), [Tree(Variable("self"), [])]), body.tree])
    ensures forall o: object | o in wrapped.repr :: o in body.repr || fresh(o)
  {
    var self := new Slot(Variable("self"), [], [], {});
    var member := Single(Member(x), self);
    wrapped := Pair(Let(x), member, body);
  }

  method VariableSlots(names: seq<string>) returns (slots: seq<Slot>, ghost trees: seq<Tree>, ghost below: set<object>)
    ensures Forest(slots, trees, below) && fresh(below)
    ensures trees == seq(|names|, i requires 0 <= i < |names| => Tree(Variable(names[i]), []))
  {
    hide Slot.Valid, Forest;
    slots, trees, below := [], [], {};
    NoSlots();
    for i := 0 to |names|
      invariant Forest(slots, trees, below) && fresh(below)
      invariant |trees| == i && forall k | 0 <= k < i :: trees[k] == Tree(Variable(names[k]), [])
    {
      var slot := VariableSlot(names[i]);
      MoreSlots(slots, trees, below, slot);
      slots, trees, below := slots + [slot], trees + [slot.tree], below + slot.repr;
    }
  }

  method VariableSlot(x: string) returns (slot: Slot)
    ensures slot.Valid() && fresh(slot.repr) && slot.tree == Tree(Variable(x), [])
  {
    slot := new Slot(Variable(x), [], [], {});
  }

  lemma NoSlots()
    ensures Forest([], [], {})
  {
  }

  lemma MoreSlots(slots: seq<Slot>, trees: seq<Tree>, below: set<object>, slot: Slot)
    requires Forest(slots, trees, below) && slot.Valid() && slot.repr !! below
    ensures Forest(slots + [slot], trees + [slot.tree], below + slot.repr)
  {
  }

  lemma RewriteLambda(order: set<string> -> seq<string>, params: seq<string>, kids: seq<Tree>, scopes: ScopeStack,
                      generated: seq<Delegate>, id: nat)
    requires |kids| == 1
    ensures var captured, name := Visible(order, scopes, {}), "Delegate_" + ToText(id + 1);
            Rewrite(order, Lambda(params), kids, scopes, generated, id) ==
            Lowered(Tree(New(name), seq(|captured|, i requires 0 <= i < |captured| => Tree(Variable(captured[i]), []))),
                    generated + [Delegate(name, captured, params, Wrapped(captured, kids[0]))], id + 1)
  {
  }

  lemma DeclareOne(scopes: ScopeStack, x: string)
    ensures Declare(scopes, [x]) == Saved(scopes, x, None)
  {
    assert [x][1..] == [];
    assert Declare(Saved(scopes, x, None), []) == Saved(scopes, x, None);
  }

  /** Kinds whose visitor only descends into the children. */
  lemma PlainKind(order: set<string> -> seq<string>, t: Tree, scopes: ScopeStack, generated: seq<Delegate>, id: nat)
    requires !t.kind.Let? && !t.kind.If? && !t.kind.While? && !t.kind.For? && !t.kind.Block? && !t.kind.FunctionDecl?
    requires !t.kind.Binary? && !t.kind.Call? && !t.kind.Lambda?
    ensures forall j: nat :: KidScopes(t.kind, j, scopes) == scopes
    ensures var r := LowerKids(order, t.kind, t.kids, 0, scopes, generated, id);
            Lower(order, t, scopes, generated, id) == Lowered(Tree(t.kind, r.trees), r.generated, r.delegateId)
  {
  }
}
