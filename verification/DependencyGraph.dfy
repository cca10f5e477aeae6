/** The graph of calls between functions and its topological sort by depth-first search
    (semantic/dependency_graph.cpp), and the order in which functions are analysed
    (semantic/analyzer.cpp). */
module DependencyGraphs {
  import opened Wrappers

  datatype DepNodeKind = FunctionNode | GlobalVariable | ClassNode

  /** A declaration in the tree, identified by its address. */
  datatype Decl = FunctionDecl(address: nat) | OtherDecl(address: nat)

  class DepNode {
    const name: string
    const kind: DepNodeKind
    var ast: Option<Decl>
    var depends: seq<DepNode>
    var dependedBy: seq<DepNode>
    var visited: bool
    var inStack: bool

    constructor (name: string, kind: DepNodeKind, ast: Option<Decl>)
      ensures this.name == name && this.kind == kind && this.ast == ast
      ensures depends == [] && dependedBy == [] && !visited && !inStack
    {
      this.name, this.kind, this.ast := name, kind, ast;
      depends, dependedBy, visited, inStack := [], [], false, false;
    }
  }

  // ---------- graphs ----------

  /** What each node depends on. */
  type Graph = map<string, seq<string>>

  ghost predicate Edge(g: Graph, a: string, b: string) {
    a in g && b in g[a]
  }

  ghost predicate Closed(g: Graph) {
    forall a, b | Edge(g, a, b) :: b in g
  }

  /** A sequence of nodes, each depending on the next. */
  ghost predicate Path(g: Graph, p: seq<string>) {
    (forall i | 0 <= i < |p| :: p[i] in g) && forall i | 0 <= i < |p| - 1 :: Edge(g, p[i], p[i + 1])
  }

  ghost predicate Cycle(g: Graph, p: seq<string>) {
    |p| >= 2 && Path(g, p) && p[0] == p[|p| - 1]
  }

  ghost predicate Cyclic(g: Graph) {
    exists p :: Cycle(g, p)
  }

  ghost predicate Distinct<T(!new)>(s: seq<T>) {
    forall i, j | 0 <= i < j < |s| :: s[i] != s[j]
  }

  function Names(ns: seq<DepNode>): (names: seq<string>)
    ensures |names| == |ns| && forall i | 0 <= i < |ns| :: names[i] == ns[i].name
  {
    seq(|ns|, i requires 0 <= i < |ns| => ns[i].name)
  }

  /** Every node in the sequence comes after all it depends on. */
  ghost predicate Ordered(g: Graph, order: seq<string>) {
    forall i, d | 0 <= i < |order| && Edge(g, order[i], d) :: d in order[..i]
  }

  lemma {:induction false} OrderedPath(g: Graph, order: seq<string>, p: seq<string>, i: nat) returns (j: nat)
    requires Distinct(order) && Ordered(g, order) && Path(g, p) && |p| >= 1
    requires i < |order| && order[i] == p[0]
    ensures j <= i && order[j] == p[|p| - 1] && (|p| > 1 ==> j < i)
    decreases |p|
  {
    if |p| == 1 {
      j := i;
    } else {
      assert Edge(g, order[i], p[1]);
      var k :| 0 <= k < i && order[..i][k] == p[1];
      assert Path(g, p[1..]) by {
        forall l | 0 <= l < |p[1..]| - 1 ensures Edge(g, p[1..][l], p[1..][l + 1]) {
          assert Edge(g, p[l + 1], p[l + 2]);
        }
      }
      j := OrderedPath(g, order, p[1..], k);
    }
  }

  /** A graph whose nodes can be put in such an order has no cycle. */
  lemma OrderedAcyclic(g: Graph, order: seq<string>)
    requires Distinct(order) && Ordered(g, order) && forall n | n in g :: n in order
    ensures !Cyclic(g)
  {
    if Cyclic(g) {
      var p :| Cycle(g, p);
      var i :| 0 <= i < |order| && order[i] == p[0];
      var j := OrderedPath(g, order, p, i);
    }
  }

  /** An edge from the end of a path back to one of its nodes closes a cycle. */
  lemma BackEdge(g: Graph, p: seq<string>, d: string)
    requires Path(g, p) && p != [] && d in p && Edge(g, p[|p| - 1], d)
    ensures Cyclic(g)
  {
    var k :| 0 <= k < |p| && p[k] == d;
    var c := p[k..] + [d];
    forall i | 0 <= i < |c| - 1 ensures Edge(g, c[i], c[i + 1]) {
      if i < |c| - 2 {
        assert Edge(g, p[k + i], p[k + i + 1]);
      }
    }
    assert Cycle(g, c);
  }

  lemma PathSnoc(g: Graph, p: seq<string>, n: string)
    requires Path(g, p) && n in g && (p != [] ==> Edge(g, p[|p| - 1], n))
    ensures Path(g, p + [n])
  {
    var q := p + [n];
    forall i | 0 <= i < |q| - 1 ensures Edge(g, q[i], q[i + 1]) {
      if i < |p| - 1 {
        assert Edge(g, p[i], p[i + 1]);
      }
    }
  }

  class DependencyGraph {
    var nodes: map<string, DepNode>
    var topologicalOrder: seq<DepNode>
    var cycleMessages: seq<string>

    ghost function Deps(): (g: Graph)
      reads this`nodes, nodes.Values`depends
      ensures g.Keys == nodes.Keys
    {
      map k | k in nodes :: Names(nodes[k].depends)
    }

    /** The nodes of a sequence are those that the graph has under their names. */
    ghost predicate Known(ns: seq<DepNode>)
      reads this`nodes
    {
      forall i | 0 <= i < |ns| :: ns[i].name in nodes && nodes[ns[i].name] == ns[i]
    }

    ghost predicate Valid()
      reads this`nodes, nodes.Values`depends
    {
      && (forall k | k in nodes :: nodes[k].name == k)
      && (forall k | k in nodes :: Known(nodes[k].depends))
      && forall k | k in nodes :: Distinct(Names(nodes[k].depends))
    }

    constructor ()
      ensures Valid() && nodes == map[] && topologicalOrder == []
    {
      nodes, topologicalOrder, cycleMessages := map[], [], [];
    }

    /** The node of a name; a declaration given later replaces the one the node has. */
    method GetOrCreateNode(name: string, kind: DepNodeKind, ast: Option<Decl>) returns (node: DepNode)
      requires Valid()
      modifies this`nodes, nodes.Values`ast
      ensures Valid() && nodes == old(nodes)[name := node] && (name in old(nodes) ==> node == old(nodes[name]))
      ensures name in old(nodes) ==> node.ast == if ast.Some? then ast else old(nodes[name].ast)
      ensures name !in old(nodes) ==> fresh(node) && node.kind == kind && node.ast == ast
      ensures Deps() == if name in old(nodes) then old(Deps()) else old(Deps())[name := []]
      ensures forall k | k in old(nodes) && k != name :: nodes[k].ast == old(nodes[k].ast)
    {
      if name in nodes {
        node := nodes[name];
        if ast.Some? {
          node.ast := ast;
        }
        assert nodes == nodes[name := node];
        return;
      }
      node := new DepNode(name, kind, ast);
      nodes := nodes[name := node];
    }

    /** Adds an edge once. */
    method AddDependency(from: DepNode, to: DepNode)
      requires Valid() && from.name in nodes && nodes[from.name] == from && to.name in nodes && nodes[to.name] == to
      modifies from`depends, to`dependedBy
      ensures Valid()
      ensures Deps() == old(Deps())[from.name := old(Deps())[from.name] +
                                                 if to.name in old(Deps())[from.name] then [] else [to.name]]
      ensures to.dependedBy == old(to.dependedBy) + if to.name in old(Deps())[from.name] then [] else [from]
    {
      ghost var g := Deps();
      var i := 0;
      while i < |from.depends|
        invariant 0 <= i <= |from.depends| && to.name !in Names(from.depends)[..i]
      {
        if from.depends[i] == to {
          assert Names(from.depends)[i] == to.name;
          assert g[from.name] + [] == g[from.name] && to.dependedBy + [] == to.dependedBy;
          return;
        }
        i := i + 1;
      }
      assert Names(from.depends)[..i] == Names(from.depends);
      from.depends := from.depends + [to];
      to.dependedBy := to.dependedBy + [from];
      assert Names(from.depends) == Names(old(from.depends)) + [to.name];
      assert Deps() == old(Deps())[from.name := old(Deps())[from.name] + [to.name]];
    }

    // ---------- the sort ----------

    ghost function Visited(): set<string>
      reads this`nodes, nodes.Values`visited
    {
      set k | k in nodes && nodes[k].visited
    }

    ghost function InStack(): set<string>
      reads this`nodes, nodes.Values`inStack
    {
      set k | k in nodes && nodes[k].inStack
    }

    /** The search in the graph `g` is where the path says. */
    ghost predicate Searching(g: Graph, path: seq<string>, hasCycle: bool)
      reads this, nodes.Values
    {
      && Valid() && g == Deps() && Known(topologicalOrder)
      && InStack() == (set k | k in path) && (hasCycle <==> cycleMessages != [])
      && State(g, path, Names(topologicalOrder), Visited(), hasCycle)
    }

    ghost predicate Has(node: DepNode)
      reads this`nodes
    {
      node.name in nodes && nodes[node.name] == node
    }

    lemma OnlyName(node: DepNode)
      requires Valid() && Has(node)
      ensures forall k | k in nodes && nodes[k] == node :: k == node.name
    {
    }

    method Enter(node: DepNode, ghost hasCycle: bool, ghost g: Graph, ghost path: seq<string>)
      requires Has(node) && Searching(g, path, hasCycle)
      requires node.name !in Visited() && (path != [] ==> Edge(g, path[|path| - 1], node.name))
      modifies node`visited, node`inStack
      ensures Searching(g, path + [node.name], hasCycle) && Visited() == old(Visited()) + {node.name}
    {
      hide State, Valid, Deps, Known;
      OnlyName(node);
      Enters(g, path, Names(topologicalOrder), Visited(), hasCycle, node.name);
      node.visited := true;
      node.inStack := true;
      assert Visited() == old(Visited()) + {node.name};
      assert InStack() == old(InStack()) + {node.name};
    }

    method Leave(node: DepNode, ghost hasCycle: bool, ghost g: Graph, ghost path: seq<string>)
      requires Has(node) && Searching(g, path + [node.name], hasCycle) && node.name !in path
      requires forall d | Edge(g, node.name, d) :: d in Visited() && (!hasCycle ==> d !in path + [node.name])
      modifies this`topologicalOrder, node`inStack
      ensures Searching(g, path, hasCycle) && Visited() == old(Visited())
    {
      hide State, Valid, Deps, Edge;
      OnlyName(node);
      Leaves(g, path, Names(topologicalOrder), Visited(), hasCycle, node.name);
      node.inStack := false;
      topologicalOrder := topologicalOrder + [node];
      assert Names(topologicalOrder) == Names(old(topologicalOrder)) + [node.name];
      assert Visited() == old(Visited());
      assert InStack() == old(InStack()) - {node.name};
      assert old(InStack()) == (set k | k in path) + {node.name} by {
        InPathSnoc(path, node.name);
      }
    }

    method NoteCycle(node: DepNode, dep: DepNode, ghost hasCycle: bool, ghost g: Graph, ghost path: seq<string>)
      requires Searching(g, path, hasCycle) && path != [] && path[|path| - 1] == node.name
      requires Edge(g, node.name, dep.name) && dep.name in path
      modifies this`cycleMessages
      ensures Searching(g, path, true)
    {
      hide Valid, Deps, Known;
      BackEdge(g, path, dep.name);
      cycleMessages := cycleMessages + ["Cycle detected involving " + node.name + " -> " + dep.name];
    }

    /** What is known of a dependency during the search. */
    lemma Dependency(node: DepNode, i: nat, hasCycle: bool, g: Graph, path: seq<string>)
      requires Searching(g, path, hasCycle) && Has(node) && i < |node.depends|
      ensures var dep := node.depends[i];
              && Has(dep) && Edge(g, node.name, dep.name)
              && (dep.inStack <==> dep.name in path) && (dep.visited <==> dep.name in Visited())
    {
      hide State;
      assert node.depends[i].name == g[node.name][i];
      assert node.depends[i].name in InStack() <==> node.depends[i].inStack;
    }

    lemma AllDependencies(node: DepNode, g: Graph)
      requires Valid() && g == Deps() && Has(node)
      ensures forall d | Edge(g, node.name, d) :: exists i | 0 <= i < |node.depends| :: node.depends[i].name == d
    {
      forall d | Edge(g, node.name, d) ensures exists i | 0 <= i < |node.depends| :: node.depends[i].name == d {
        var i :| 0 <= i < |g[node.name]| && g[node.name][i] == d;
        assert node.depends[i].name == d;
      }
    }

    /** One step of the loop over the dependencies of a node. */
    method Follow(node: DepNode, i: nat, hasCycle: bool, ghost g: Graph, ghost path: seq<string>)
      returns (cycle: bool)
      requires Has(node) && i < |node.depends|
      requires Searching(g, path, hasCycle) && path != [] && path[|path| - 1] == node.name
      modifies this`topologicalOrder, this`cycleMessages, nodes.Values`visited, nodes.Values`inStack
      ensures Searching(g, path, cycle) && old(Visited()) <= Visited()
      ensures hasCycle ==> cycle
      ensures Names(node.depends)[i] in Visited() && (!cycle ==> Names(node.depends)[i] !in InPath(path))
      decreases |nodes.Keys - Visited()|, 1
    {
      hide Searching, Edge, Visited, Deps, Valid, InStack, Known;
      cycle := hasCycle;
      var dep := node.depends[i];
      Dependency(node, i, cycle, g, path);
      if !dep.visited {
        NotInPath(dep, cycle, g, path);
        cycle := Dfs(dep, cycle, g, path);
      } else if dep.inStack {
        NoteCycle(node, dep, cycle, g, path);
        cycle := true;
      }
    }

    lemma NotInPath(dep: DepNode, hasCycle: bool, g: Graph, path: seq<string>)
      requires Searching(g, path, hasCycle) && dep.name !in Visited()
      ensures dep.name !in path
    {
    }

    method Dfs(node: DepNode, hasCycle: bool, ghost g: Graph, ghost path: seq<string>) returns (cycle: bool)
      requires Has(node) && Searching(g, path, hasCycle)
      requires node.name !in Visited() && node.name !in path && (path != [] ==> Edge(g, path[|path| - 1], node.name))
      modifies this`topologicalOrder, this`cycleMessages, nodes.Values`visited, nodes.Values`inStack
      ensures Searching(g, path, cycle) && old(Visited()) + {node.name} <= Visited()
      ensures hasCycle ==> cycle
      decreases |nodes.Keys - Visited()|, 0
    {
      hide Searching, Edge, First, InPath, Names, Visited, Deps, Valid, InStack, Known;
      cycle := hasCycle;
      Enter(node, cycle, g, path);
      ghost var inner, names := path + [node.name], Names(node.depends);
      var i := 0;
      FirstNone(names);
      while i < |node.depends|
        invariant 0 <= i <= |node.depends| == |names| && Names(node.depends) == names
        invariant Searching(g, inner, cycle)
        invariant old(Visited()) + {node.name} <= Visited()
        invariant hasCycle ==> cycle
        invariant First(names, i) <= Visited()
        invariant !cycle ==> First(names, i) !! InPath(inner)
      {
        FirstNext(names, i);
        Fewer(old(Visited()), Visited(), node.name, nodes.Keys);
        cycle := Follow(node, i, cycle, g, inner);
        i := i + 1;
      }
      DependenciesDone(node, cycle, g, inner);
      Leave(node, cycle, g, path);
    }

    /** Sorts the nodes so that each comes after all it depends on, and says whether that was possible:
        it is exactly when there is no cycle. The order in which the nodes are tried does not matter. */
    method TopologicalSort() returns (acyclic: bool)
      requires Valid()
      modifies this`topologicalOrder, this`cycleMessages, nodes.Values`visited, nodes.Values`inStack
      ensures Valid() && Deps() == old(Deps())
      ensures Known(topologicalOrder) && Distinct(Names(topologicalOrder))
      ensures forall k :: k in Names(topologicalOrder) <==> k in nodes
      ensures acyclic <==> !Cyclic(Deps())
      ensures acyclic ==> Ordered(Deps(), Names(topologicalOrder))
      ensures acyclic <==> cycleMessages == []
    {
      hide Cyclic, Ordered, Searching, Visited, Known, Distinct, Names;
      ghost var g := Deps();
      Reset();
      var hasCycle := false;
      var rest := nodes.Keys;
      while rest != {}
        invariant Searching(g, [], hasCycle) && rest <= nodes.Keys && nodes.Keys - rest <= Visited()
        invariant Valid() && Deps() == g
        decreases rest
      {
        var k :| k in rest;
        rest := rest - {k};
        NamedItself(k);
        if !nodes[k].visited {
          hasCycle := Dfs(nodes[k], hasCycle, g, []);
          Holds(hasCycle, g, []);
        }
      }
      Finished(hasCycle, g);
      acyclic := !hasCycle;
    }

    method Reset()
      requires Valid()
      modifies this`topologicalOrder, this`cycleMessages, nodes.Values`visited, nodes.Values`inStack
      ensures Valid() && Deps() == old(Deps()) && Searching(Deps(), [], false)
    {
      hide Cyclic, Ordered, Valid, Deps;
      NothingOrdered(Deps());
      topologicalOrder, cycleMessages := [], [];
      var rest := nodes.Keys;
      while rest != {}
        invariant rest <= nodes.Keys && topologicalOrder == [] && cycleMessages == []
        invariant Visited() <= rest && InStack() <= rest
        decreases rest
      {
        var k :| k in rest;
        rest := rest - {k};
        nodes[k].visited := false;
        nodes[k].inStack := false;
      }
      assert Names(topologicalOrder) == [];
    }

    lemma Holds(hasCycle: bool, g: Graph, path: seq<string>)
      requires Searching(g, path, hasCycle)
      ensures Valid() && Deps() == g
    {
    }

    lemma Finished(hasCycle: bool, g: Graph)
      requires Searching(g, [], hasCycle) && nodes.Keys <= Visited()
      ensures Known(topologicalOrder) && Distinct(Names(topologicalOrder))
      ensures forall k :: k in Names(topologicalOrder) <==> k in nodes
      ensures hasCycle <==> Cyclic(g)
      ensures !hasCycle ==> Ordered(g, Names(topologicalOrder))
      ensures hasCycle <==> cycleMessages != []
    {
      hide Cyclic, Ordered;
      if !hasCycle {
        OrderedAcyclic(g, Names(topologicalOrder));
      }
    }

    lemma NamedItself(k: string)
      requires Valid() && k in nodes
      ensures Has(nodes[k]) && nodes[k].name == k
      ensures nodes[k].visited <==> k in Visited()
    {
    }

    lemma DependenciesDone(node: DepNode, hasCycle: bool, g: Graph, path: seq<string>)
      requires Searching(g, path, hasCycle) && Has(node)
      requires First(Names(node.depends), |node.depends|) <= Visited()
      requires !hasCycle ==> First(Names(node.depends), |node.depends|) !! InPath(path)
      ensures forall d | Edge(g, node.name, d) :: d in Visited() && (!hasCycle ==> d !in path)
    {
      hide State, Edge;
      AllDependencies(node, g);
      var names := Names(node.depends);
      assert names[..|names|] == names;
      forall i | 0 <= i < |node.depends| ensures node.depends[i].name in First(names, |names|) {
        assert names[i] in names;
      }
    }
  }

  function InPath(path: seq<string>): set<string> {
    set k | k in path
  }

  /** The first `n` names. */
  function First(names: seq<string>, n: nat): set<string>
    requires n <= |names|
  {
    set k | k in names[..n]
  }

  lemma FirstNone(names: seq<string>)
    ensures First(names, 0) == {}
  {
  }

  lemma FirstNext(names: seq<string>, n: nat)
    requires n < |names|
    ensures First(names, n + 1) == First(names, n) + {names[n]}
  {
    assert names[..n + 1] == names[..n] + [names[n]];
  }

  lemma NothingOrdered(g: Graph)
    ensures State(g, [], [], {}, false)
  {
  }

  /** A state of the search: `path` holds the nodes in progress, `order` those that are finished. */
  ghost predicate State(g: Graph, path: seq<string>, order: seq<string>, visited: set<string>, hasCycle: bool) {
    && Path(g, path) && (forall k | k in path :: k in visited) && visited <= g.Keys
    && Distinct(order) && (forall k :: k in order <==> k in visited && k !in path)
    && (if hasCycle then Cyclic(g) else Ordered(g, order))
  }

  lemma Enters(g: Graph, path: seq<string>, order: seq<string>, visited: set<string>, hasCycle: bool, n: string)
    requires State(g, path, order, visited, hasCycle) && n in g && n !in visited
    requires path != [] ==> Edge(g, path[|path| - 1], n)
    ensures State(g, path + [n], order, visited + {n}, hasCycle)
    ensures (set k | k in path + [n]) == (set k | k in path) + {n}
  {
    hide Edge, Ordered, Cyclic;
    PathSnoc(g, path, n);
    InPathSnoc(path, n);
  }

  lemma InPathSnoc(path: seq<string>, n: string)
    ensures (set k | k in path + [n]) == (set k | k in path) + {n}
    ensures forall k :: k in path + [n] <==> k in path || k == n
  {
  }

  lemma Leaves(g: Graph, path: seq<string>, order: seq<string>, visited: set<string>, hasCycle: bool, n: string)
    requires State(g, path + [n], order, visited, hasCycle) && n !in path
    requires forall d | Edge(g, n, d) :: d in visited && (!hasCycle ==> d !in path + [n])
    ensures State(g, path, order + [n], visited, hasCycle)
  {
    hide Edge, Cyclic;
    InPathSnoc(path, n);
    InPathSnoc(order, n);
    assert (path + [n])[..|path|] == path;
    PathPrefix(g, path + [n], |path|);
    DistinctSnoc(order, n);
    if !hasCycle {
      OrderedSnoc(g, order, n);
    }
  }

  lemma PathPrefix(g: Graph, p: seq<string>, n: nat)
    requires Path(g, p) && n <= |p|
    ensures Path(g, p[..n])
  {
    forall i | 0 <= i < n - 1 ensures Edge(g, p[..n][i], p[..n][i + 1]) {
      assert Edge(g, p[i], p[i + 1]);
    }
  }

  lemma DistinctSnoc(s: seq<string>, x: string)
    requires Distinct(s) && x !in s
    ensures Distinct(s + [x])
  {
  }

  lemma OrderedSnoc(g: Graph, order: seq<string>, n: string)
    requires Ordered(g, order) && forall d | Edge(g, n, d) :: d in order
    ensures Ordered(g, order + [n])
  {
    var after := order + [n];
    forall i, d | 0 <= i < |after| && Edge(g, after[i], d) ensures d in after[..i] {
      if i < |order| {
        assert after[..i] == order[..i] && Edge(g, order[i], d);
      } else {
        assert after[..i] == order;
      }
    }
  }

  lemma Fewer(before: set<string>, now: set<string>, node: string, all: set<string>)
    requires node in all && node !in before && before + {node} <= now
    ensures |all - now| < |all - before|
  {
    var rest := all - before;
    assert all - now <= rest - {node};
    Smaller(all - now, rest - {node});
  }

  lemma Smaller(a: set<string>, b: set<string>)
    requires a <= b
    ensures |a| <= |b|
  {
    assert b == a + (b - a);
  }

  // ---------- the order of analysis ----------

  /** The function a node stands for, if its declaration is known. */
  function FunctionOf(n: DepNode): Option<Decl>
    reads n`ast
  {
    if n.kind == FunctionNode && n.ast.Some? && n.ast.value.FunctionDecl? then n.ast else None
  }

  function Functions(ns: seq<DepNode>): (fs: seq<Option<Decl>>)
    reads (set i | 0 <= i < |ns| :: ns[i])`ast
    ensures |fs| == |ns| && forall i | 0 <= i < |ns| :: fs[i] == FunctionOf(ns[i])
  {
    if ns == [] then [] else Functions(ns[..|ns| - 1]) + [FunctionOf(ns[|ns| - 1])]
  }

  /** The functions of a list, each where it first occurs. */
  function Once(fs: seq<Option<Decl>>): seq<Decl> {
    if fs == [] then []
    else
      var before := Once(fs[..|fs| - 1]);
      var last := fs[|fs| - 1];
      if last.None? || last.value in before then before else before + [last.value]
  }

  /** The functions of a list that are not in `done`. */
  function Missing(fs: seq<Option<Decl>>, done: seq<Decl>): seq<Decl> {
    if fs == [] then []
    else
      var before := Missing(fs[..|fs| - 1], done);
      var last := fs[|fs| - 1];
      if last.None? || last.value in done then before else before + [last.value]
  }

  /** The order in which functions are analysed: those of the graph in its order, then the others. */
  method BuildOrderedFunctionList(graph: DependencyGraph, pending: seq<Option<Decl>>) returns (ordered: seq<Decl>)
    ensures var first := Once(Functions(graph.topologicalOrder)); ordered == first + Missing(pending, first)
  {
    var order := graph.topologicalOrder;
    var added: set<Decl> := {};
    ordered := [];
    for i := 0 to |order|
      invariant ordered == Once(Functions(order)[..i]) && added == set d | d in ordered
    {
      assert Functions(order)[..i + 1][..i] == Functions(order)[..i];
      var node := order[i];
      if node.kind == FunctionNode && node.ast.Some? {
        var ast := node.ast.value;
        if ast.FunctionDecl? && ast !in added {
          ordered := ordered + [ast];
          added := added + {ast};
        }
      }
    }
    assert Functions(order)[..|order|] == Functions(order);
    ghost var first := ordered;
    for i := 0 to |pending|
      invariant ordered == first + Missing(pending[..i], first)
    {
      assert pending[..i + 1][..i] == pending[..i];
      if pending[i].Some? && pending[i].value !in added {
        ordered := ordered + [pending[i].value];
      }
    }
    assert pending[..|pending|] == pending;
  }

  lemma {:induction false} OnceHas(fs: seq<Option<Decl>>)
    ensures Distinct(Once(fs)) && forall d :: d in Once(fs) <==> Some(d) in fs
  {
    if fs != [] {
      var n := |fs| - 1;
      OnceHas(fs[..n]);
      assert fs == fs[..n] + [fs[n]];
    }
  }

  lemma {:induction false} MissingHas(fs: seq<Option<Decl>>, done: seq<Decl>)
    ensures forall d :: d in Missing(fs, done) <==> Some(d) in fs && d !in done
    ensures (forall i, j | 0 <= i < j < |fs| && fs[i].Some? :: fs[i] != fs[j]) ==> Distinct(Missing(fs, done))
  {
    if fs != [] {
      var n := |fs| - 1;
      MissingHas(fs[..n], done);
      assert fs == fs[..n] + [fs[n]];
      if forall i, j | 0 <= i < j < |fs| && fs[i].Some? :: fs[i] != fs[j] {
        assert fs[n].Some? ==> fs[n] !in fs[..n];
      }
    }
  }

  /** Every pending function and every function of the graph is analysed, each once. */
  lemma EachOnce(order: seq<Option<Decl>>, pending: seq<Option<Decl>>)
    requires forall i, j | 0 <= i < j < |pending| && pending[i].Some? :: pending[i] != pending[j]
    ensures var all := Once(order) + Missing(pending, Once(order));
            Distinct(all) && forall d :: d in all <==> Some(d) in order || Some(d) in pending
  {
    OnceHas(order);
    MissingHas(pending, Once(order));
    var first, last := Once(order), Missing(pending, Once(order));
    forall i, j | 0 <= i < j < |first + last| ensures (first + last)[i] != (first + last)[j] {
      if i < |first| <= j {
        assert last[j - |first|] in last && first[i] in first;
      }
    }
  }

  lemma {:induction false} OncePosition(fs: seq<Option<Decl>>, i: nat) returns (k: nat)
    requires i < |fs| && fs[i].Some? && Some(fs[i].value) !in fs[..i]
    ensures k == |Once(fs[..i])| && k < |Once(fs)| && Once(fs)[k] == fs[i].value && Once(fs[..i]) <= Once(fs)
    decreases |fs|
  {
    var n := |fs| - 1;
    if i == n {
      OnceHas(fs[..n]);
      k := |Once(fs[..n])|;
    } else {
      assert fs[..n][..i] == fs[..i];
      k := OncePosition(fs[..n], i);
    }
  }

  /** Every occurrence of `x` is before every occurrence of `y`. */
  ghost predicate Precedes(s: seq<Option<Decl>>, x: Option<Decl>, y: Option<Decl>) {
    forall i, j | 0 <= i < |s| && 0 <= j < |s| && s[i] == x && s[j] == y :: i < j
  }

  function Present(ds: seq<Decl>): (fs: seq<Option<Decl>>)
    ensures |fs| == |ds| && forall i | 0 <= i < |ds| :: fs[i] == Some(ds[i])
  {
    seq(|ds|, i requires 0 <= i < |ds| => Some(ds[i]))
  }

  /** A function that stands at an earlier node than another is analysed earlier, if the later node is
      the first with its function. */
  lemma EarlierNodeFirst(order: seq<Option<Decl>>, pending: seq<Option<Decl>>, callee: nat, caller: nat)
    requires callee < caller < |order| && order[caller].Some? && order[callee].Some?
    requires order[caller] !in order[..caller]
    ensures Precedes(Present(Once(order) + Missing(pending, Once(order))), order[callee], order[caller])
  {
    var first := Once(order);
    var all := first + Missing(pending, first);
    var k := OncePosition(order, caller);
    OnceHas(order[..caller]);
    OnceHas(order);
    MissingHas(pending, first);
    assert order[callee] in order[..caller];
    var c :| 0 <= c < |Once(order[..caller])| && Once(order[..caller])[c] == order[callee].value;
    assert first[c] == order[callee].value && first[k] == order[caller].value && c < k;
    var rest := Missing(pending, first);
    forall l | 0 <= l < |rest| ensures rest[l] !in first {
      assert rest[l] in rest;
    }
    assert first[c] in first && first[k] in first;
  }

  lemma PresentHas(ds: seq<Decl>)
    ensures forall d :: Some(d) in Present(ds) <==> d in ds
  {
    forall d | d in ds ensures Some(d) in Present(ds) {
      var i :| 0 <= i < |ds| && ds[i] == d;
      assert Present(ds)[i] == Some(d);
    }
  }

  /** The node is one of a function, and `d` is its declaration. */
  predicate Stands(n: DepNode, d: Decl)
    reads n`ast
  {
    n.kind == FunctionNode && n.ast == Some(d) && d.FunctionDecl?
  }

  lemma FunctionOfExactly(n: DepNode, d: Decl)
    ensures FunctionOf(n) == Some(d) <==> Stands(n, d)
  {
  }

  /** Every pending function and every function of the graph is there, once if the pending ones are
      listed once, and every callee stands before its caller. */
  ghost predicate WellOrdered(graph: DependencyGraph, pending: seq<Option<Decl>>, ordered: seq<Option<Decl>>)
    reads graph`nodes, graph.nodes.Values`depends, graph.nodes.Values`ast
  {
    && (forall d :: Some(d) in ordered <==>
                    Some(d) in pending || exists k | k in graph.nodes :: Stands(graph.nodes[k], d))
    && (ListedOnce(pending) ==> Distinct(ordered))
    && forall a, b, f, g | Edge(graph.Deps(), a, b) && CallsFirst(graph, a, b, f, g) ::
         Precedes(ordered, Some(g), Some(f))
  }

  ghost predicate ListedOnce(pending: seq<Option<Decl>>) {
    forall i, j | 0 <= i < j < |pending| && pending[i].Some? :: pending[i] != pending[j]
  }

  /** The functions whose bodies are analysed, in order: sorted by the calls between them if there is no
      cycle of calls, and as they were declared otherwise. */
  method OrderFunctions(graph: DependencyGraph, pending: seq<Option<Decl>>) returns (ordered: seq<Option<Decl>>)
    requires graph.Valid()
    modifies graph`topologicalOrder, graph`cycleMessages, graph.nodes.Values`visited, graph.nodes.Values`inStack
    ensures graph.Valid() && graph.Deps() == old(graph.Deps())
    ensures if Cyclic(graph.Deps()) then ordered == pending else WellOrdered(graph, pending, ordered)
  {
    hide Once, Missing, Cyclic, Ordered, WellOrdered, Distinct;
    var acyclic := graph.TopologicalSort();
    if !acyclic {
      return pending;
    }
    var built := BuildOrderedFunctionList(graph, pending);
    ordered := Present(built);
    BuiltIsOrdered(graph, pending, built);
  }

  lemma BuiltIsOrdered(graph: DependencyGraph, pending: seq<Option<Decl>>, built: seq<Decl>)
    requires graph.Valid() && graph.Known(graph.topologicalOrder)
    requires Distinct(Names(graph.topologicalOrder)) && Ordered(graph.Deps(), Names(graph.topologicalOrder))
    requires forall k :: k in Names(graph.topologicalOrder) <==> k in graph.nodes
    requires var first := Once(Functions(graph.topologicalOrder)); built == first + Missing(pending, first)
    ensures WellOrdered(graph, pending, Present(built))
  {
    hide Once, Missing, Ordered, Precedes, Names, Distinct, CallsFirst, ListedOnce;
    var order := Functions(graph.topologicalOrder);
    AllFunctions(graph, order);
    BuiltHas(order, pending);
    forall a, b, f, g | Edge(graph.Deps(), a, b) && CallsFirst(graph, a, b, f, g)
      ensures Precedes(Present(built), Some(g), Some(f))
    {
      EdgeInOrder(graph, pending, built, a, b, f, g);
    }
  }

  lemma BuiltHas(order: seq<Option<Decl>>, pending: seq<Option<Decl>>)
    ensures var ordered := Present(Once(order) + Missing(pending, Once(order)));
            && (forall d :: Some(d) in ordered <==> Some(d) in pending || Some(d) in order)
            && (ListedOnce(pending) ==> Distinct(ordered))
  {
    hide Once, Missing;
    if ListedOnce(pending) {
      EachOnce(order, pending);
    }
    OnceHas(order);
    MissingHas(pending, Once(order));
    PresentHas(Once(order) + Missing(pending, Once(order)));
  }

  lemma EdgeInOrder(graph: DependencyGraph, pending: seq<Option<Decl>>, built: seq<Decl>, a: string, b: string,
                    f: Decl, g: Decl)
    requires graph.Valid() && graph.Known(graph.topologicalOrder)
    requires Distinct(Names(graph.topologicalOrder)) && Ordered(graph.Deps(), Names(graph.topologicalOrder))
    requires forall k :: k in Names(graph.topologicalOrder) <==> k in graph.nodes
    requires var first := Once(Functions(graph.topologicalOrder)); built == first + Missing(pending, first)
    requires Edge(graph.Deps(), a, b) && CallsFirst(graph, a, b, f, g)
    ensures Precedes(Present(built), Some(g), Some(f))
  {
    hide Once, Missing, Ordered, Precedes, Names, Distinct;
    var order := Functions(graph.topologicalOrder);
    var i, j := NodesInOrder(graph, order, a, b, f, g);
    EarlierNodeFirst(order, pending, i, j);
  }

  /** Both nodes hold functions, and the caller's function stands at no other node. */
  ghost predicate CallsFirst(graph: DependencyGraph, caller: string, callee: string, f: Decl, g: Decl)
    reads graph`nodes, graph.nodes.Values`ast
  {
    && caller in graph.nodes && callee in graph.nodes
    && Stands(graph.nodes[caller], f) && Stands(graph.nodes[callee], g)
    && forall k | k in graph.nodes && k != caller :: !Stands(graph.nodes[k], f)
  }

  lemma AllFunctions(graph: DependencyGraph, order: seq<Option<Decl>>)
    requires graph.Valid() && graph.Known(graph.topologicalOrder) && order == Functions(graph.topologicalOrder)
    requires forall k :: k in Names(graph.topologicalOrder) <==> k in graph.nodes
    ensures forall d :: Some(d) in order <==> exists k | k in graph.nodes :: Stands(graph.nodes[k], d)
  {
    var ns := graph.topologicalOrder;
    forall d | Some(d) in order ensures exists k | k in graph.nodes :: Stands(graph.nodes[k], d) {
      var i :| 0 <= i < |order| && order[i] == Some(d);
      FunctionOfExactly(ns[i], d);
      assert graph.nodes[ns[i].name] == ns[i];
    }
    forall d, k | k in graph.nodes && Stands(graph.nodes[k], d) ensures Some(d) in order {
      assert k in Names(ns);
      var i :| 0 <= i < |ns| && Names(ns)[i] == k;
      FunctionOfExactly(ns[i], d);
    }
  }

  lemma NodesInOrder(graph: DependencyGraph, order: seq<Option<Decl>>, a: string, b: string, f: Decl, g: Decl)
    returns (i: nat, j: nat)
    requires graph.Valid() && graph.Known(graph.topologicalOrder) && order == Functions(graph.topologicalOrder)
    requires Distinct(Names(graph.topologicalOrder)) && Ordered(graph.Deps(), Names(graph.topologicalOrder))
    requires forall k :: k in Names(graph.topologicalOrder) <==> k in graph.nodes
    requires Edge(graph.Deps(), a, b) && CallsFirst(graph, a, b, f, g)
    ensures i < j < |order| && order[i] == Some(g) && order[j] == Some(f)
    ensures order[j] !in order[..j]
  {
    var names := Names(graph.topologicalOrder);
    DependencyBefore(graph.Deps(), names, a, b);
    i, j :| 0 <= i < j < |names| && names[i] == b && names[j] == a;
    FunctionOfExactly(graph.nodes[a], f);
    FunctionOfExactly(graph.nodes[b], g);
    forall l | 0 <= l < j ensures order[l] != order[j] {
      assert names[l] != names[j];
      FunctionOfExactly(graph.nodes[names[l]], f);
    }
  }

  /** In a sorted graph every dependency stands before the node that has it. */
  lemma DependencyBefore(g: Graph, order: seq<string>, a: string, b: string)
    requires Ordered(g, order) && Edge(g, a, b) && a in order
    ensures exists i, j :: 0 <= i < j < |order| && order[i] == b && order[j] == a
  {
    var j :| 0 <= j < |order| && order[j] == a;
    assert b in order[..j];
    var i :| 0 <= i < j && order[..j][i] == b;
    assert order[i] == b;
  }
}
