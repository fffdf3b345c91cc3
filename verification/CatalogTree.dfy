/** The printed tree: a depth-first walk guarded by the path it stands on, and
    the forest of trees printed when no root is given. */
module CatalogTree {
  import opened Walks
  import opened Sorting
  import opened CatalogGraph

  datatype Line =
    | NodeLine(indent: string, key: string, text: string, cycle: bool)
    | EdgeLine(indent: string, typ: string, optional: bool)

  /** What one edge adds to a key's adjacency list. */
  function Added(e: GraphEdge, k: string, dir: Dir): seq<GraphEdge>
  {
    (if dir != In && e.from == k then [e] else []) + (if dir != Out && e.to == k then [e] else [])
  }

  /** The edges a key's adjacency list holds, in the graph's order; a self
      loop is listed twice when both directions are followed. */
  function Touching(edges: seq<GraphEdge>, k: string, dir: Dir): (r: seq<GraphEdge>)
    ensures forall e :: e in r ==> e in edges && (e.from == k || e.to == k)
    ensures forall e :: e in edges && NeighborOf(e, k, dir) != "" ==> e in r
  {
    if edges == [] then []
    else
      var n := |edges| - 1;
      assert edges == edges[..n] + [edges[n]];
      Touching(edges[..n], k, dir) + Added(edges[n], k, dir)
  }

  /** By neighbor, then by type, as seen from one key. */
  function ChildLess(k: string, dir: Dir): ((GraphEdge, GraphEdge) -> bool)
  {
    (a, b) =>
      if NeighborOf(a, k, dir) != NeighborOf(b, k, dir) then StrLess(NeighborOf(a, k, dir), NeighborOf(b, k, dir))
      else StrLess(a.typ, b.typ)
  }

  lemma ChildWeakOrder(k: string, dir: Dir)
    ensures WeakOrder(ChildLess(k, dir))
  {
    var less := ChildLess(k, dir);
    forall a, b ensures less(a, b) ==> !less(b, a) {
      StrLessTotal(NeighborOf(a, k, dir), NeighborOf(b, k, dir));
      StrLessTotal(a.typ, b.typ);
    }
    forall a, b, c | !less(a, b) && !less(b, c) ensures !less(a, c) {
      var x, y, z := NeighborOf(a, k, dir), NeighborOf(b, k, dir), NeighborOf(c, k, dir);
      StrLessTotal(x, y);
      StrLessTotal(y, z);
      StrLessTotal(x, z);
      if x != z {
        assert !StrLess(x, y) && !StrLess(y, z);
        StrLessTransitive(x, y, z);
      } else if x == y {
        StrLessTransitive(a.typ, b.typ, c.typ);
      }
    }
  }

  function Label(names: map<string, string>, k: string): string
  {
    if k in names && names[k] != "" then names[k] else k
  }

  /** What one printing reads: the names, the edges and the direction. */
  datatype Source = Source(names: map<string, string>, edges: seq<GraphEdge>, dir: Dir)
  {
    ghost function Ends(): set<string>
    {
      (set e | e in edges :: e.from) + (set e | e in edges :: e.to)
    }

    function Children(k: string): seq<GraphEdge>
    {
      SortBy(Touching(edges, k, dir), ChildLess(k, dir))
    }
  }

  lemma ChildrenOf(s: Source, k: string)
    ensures forall e :: e in s.Children(k) ==> e in s.edges && k in s.Ends()
    ensures forall e :: e in s.edges && NeighborOf(e, k, s.dir) != "" ==> e in s.Children(k)
  {
    ChildWeakOrder(k, s.dir);
    SortByMembers(Touching(s.edges, k, s.dir), ChildLess(k, s.dir));
  }

  /** Children in order of neighbor and type; parallel edges of one type stay in
      the graph's order. */
  lemma ChildrenAreStable(s: Source, k: string)
    ensures StableSort(Touching(s.edges, k, s.dir), s.Children(k), ChildLess(k, s.dir))
  {
    ChildWeakOrder(k, s.dir);
    SortByIsStable(Touching(s.edges, k, s.dir), ChildLess(k, s.dir));
  }

  /** Of two children the earlier has the smaller neighbor, or the same one and
      no greater a type. */
  lemma ChildrenInOrder(s: Source, k: string, i: nat, j: nat)
    requires i < j < |s.Children(k)|
    ensures var a, b := s.Children(k)[i], s.Children(k)[j];
      var x, y := NeighborOf(a, k, s.dir), NeighborOf(b, k, s.dir);
      StrLess(x, y) || (x == y && (a.typ == b.typ || StrLess(a.typ, b.typ)))
  {
    var a, b := s.Children(k)[i], s.Children(k)[j];
    ChildrenAreStable(s, k);
    assert !ChildLess(k, s.dir)(b, a);
    StrLessTotal(NeighborOf(a, k, s.dir), NeighborOf(b, k, s.dir));
    StrLessTotal(a.typ, b.typ);
  }

  /** The lines under a key: itself, marked when it is on the path already, else followed by its children. */
  ghost function Tree(s: Source, k: string, indent: string, onPath: set<string>): seq<Line>
    decreases s.Ends() - onPath, 0
  {
    if k in onPath then [NodeLine(indent, k, Label(s.names, k), true)]
    else
      ChildrenOf(s, k);
      var es := s.Children(k);
      assert es != [] ==> es[0] in es && k in s.Ends();
      [NodeLine(indent, k, Label(s.names, k), false)]
      + (if es == [] then [] else Branches(s, k, es, indent, onPath + {k}))
  }

  /** The line for an edge and the tree at its far side. */
  ghost function Branch(s: Source, k: string, e: GraphEdge, indent: string, path: set<string>): seq<Line>
    decreases s.Ends() - path, 1
  {
    var nb := NeighborOf(e, k, s.dir);
    if nb == "" then []
    else [EdgeLine(indent + "  ", e.typ, e.optional)] + Tree(s, nb, indent + "    ", path)
  }

  ghost function Branches(s: Source, k: string, es: seq<GraphEdge>, indent: string, path: set<string>): seq<Line>
    decreases s.Ends() - path, 1 + |es|
  {
    if es == [] then [] else Branch(s, k, es[0], indent, path) + Branches(s, k, es[1..], indent, path)
  }

  // ---- the printing itself ----

  class TreePrinter {
    const source: Source
    var onPath: set<string>
    var lines: seq<Line>

    constructor (source: Source)
      ensures this.source == source && onPath == {} && lines == []
    {
      this.source := source;
      onPath, lines := {}, [];
    }

    /** Ends on every graph, prints the tree, and leaves the path as it found it. */
    method PrintTreeNode(k: string, adj: map<string, seq<GraphEdge>>, indent: string)
      requires Adjacency(source, adj)
      modifies this
      ensures onPath == old(onPath)
      ensures lines == old(lines) + Tree(source, k, indent, old(onPath))
      decreases source.Ends() - onPath, 0
    {
      var name := if k in source.names then source.names[k] else "";
      if name == "" {
        name := k;
      }
      if k in onPath {
        lines := lines + [NodeLine(indent, k, name, true)];
        return;
      }
      lines := lines + [NodeLine(indent, k, name, false)];
      onPath := onPath + {k};
      var es := SortBy(Listing(adj, k), ChildLess(k, source.dir));
      ghost var path, done := onPath, old(lines) + Tree(source, k, indent, old(onPath));
      TreeUnfolds(source, k, indent, old(onPath), old(lines));
      ChildrenOf(source, k);
      assert es[0..] == es;
      for i := 0 to |es|
        invariant onPath == path
        invariant lines + Branches(source, k, es[i..], indent, path) == done
      {
        assert es[i] in es;
        BranchesUnfold(source, k, es, i, indent, path, lines);
        PrintBranch(k, es[i], adj, indent);
      }
      assert es[|es|..] == [];
      onPath := onPath - {k};
    }

    method PrintBranch(k: string, e: GraphEdge, adj: map<string, seq<GraphEdge>>, indent: string)
      requires Adjacency(source, adj)
      modifies this
      ensures onPath == old(onPath)
      ensures lines == old(lines) + Branch(source, k, e, indent, old(onPath))
      decreases source.Ends() - onPath, 1
    {
      var nb := NeighborOf(e, k, source.dir);
      BranchUnfolds(source, k, e, indent, onPath, lines);
      if nb != "" {
        lines := lines + [EdgeLine(indent + "  ", e.typ, e.optional)];
        PrintTreeNode(nb, adj, indent + "    ");
      }
    }
  }

  lemma TreeUnfolds(s: Source, k: string, indent: string, onPath: set<string>, before: seq<Line>)
    requires k !in onPath
    ensures before + Tree(s, k, indent, onPath)
         == before + [NodeLine(indent, k, Label(s.names, k), false)] + Branches(s, k, s.Children(k), indent, onPath + {k})
  {
  }

  lemma BranchUnfolds(s: Source, k: string, e: GraphEdge, indent: string, path: set<string>, before: seq<Line>)
    ensures var nb := NeighborOf(e, k, s.dir);
      before + Branch(s, k, e, indent, path)
      == if nb == "" then before
         else before + [EdgeLine(indent + "  ", e.typ, e.optional)] + Tree(s, nb, indent + "    ", path)
  {
  }

  lemma BranchesUnfold(s: Source, k: string, es: seq<GraphEdge>, i: nat, indent: string, path: set<string>, before: seq<Line>)
    requires i < |es|
    ensures before + Branches(s, k, es[i..], indent, path)
         == before + Branch(s, k, es[i], indent, path) + Branches(s, k, es[i + 1..], indent, path)
  {
  }

  function Listing(adj: map<string, seq<GraphEdge>>, k: string): seq<GraphEdge>
  {
    if k in adj then adj[k] else []
  }

  ghost predicate Adjacency(s: Source, adj: map<string, seq<GraphEdge>>)
  {
    forall k :: Listing(adj, k) == Touching(s.edges, k, s.dir)
  }

  // ---- what a tree mentions ----

  /** The keys printed with their own subtree. */
  ghost function Expanded(lines: seq<Line>): set<string>
  {
    set l | l in lines && l.NodeLine? && !l.cycle :: l.key
  }

  /** The keys printed at all. */
  ghost function Printed(lines: seq<Line>): set<string>
  {
    set l | l in lines && l.NodeLine? :: l.key
  }

  lemma PrintedConcat(a: seq<Line>, b: seq<Line>)
    ensures Expanded(a + b) == Expanded(a) + Expanded(b) && Printed(a + b) == Printed(a) + Printed(b)
  {
  }

  lemma {:induction false} BranchesHold(s: Source, k: string, es: seq<GraphEdge>, indent: string, path: set<string>, e: GraphEdge)
    requires e in es && NeighborOf(e, k, s.dir) != ""
    ensures Expanded(Tree(s, NeighborOf(e, k, s.dir), indent + "    ", path)) <= Expanded(Branches(s, k, es, indent, path))
  {
    PrintedConcat(Branch(s, k, es[0], indent, path), Branches(s, k, es[1..], indent, path));
    if es[0] == e {
      PrintedConcat([EdgeLine(indent + "  ", e.typ, e.optional)], Tree(s, NeighborOf(e, k, s.dir), indent + "    ", path));
    } else {
      BranchesHold(s, k, es[1..], indent, path, e);
    }
  }

  lemma KeyExpanded(s: Source, k: string, indent: string, onPath: set<string>)
    requires k !in onPath
    ensures k in Expanded(Tree(s, k, indent, onPath))
  {
    assert Tree(s, k, indent, onPath)[0] == NodeLine(indent, k, Label(s.names, k), false);
  }

  lemma ChildExpanded(s: Source, k: string, indent: string, onPath: set<string>, e: GraphEdge)
    requires k !in onPath && e in s.edges && NeighborOf(e, k, s.dir) != ""
    ensures Expanded(Tree(s, NeighborOf(e, k, s.dir), indent + "    ", onPath + {k})) <= Expanded(Tree(s, k, indent, onPath))
  {
    ChildrenOf(s, k);
    var es := s.Children(k);
    var head, rest := [NodeLine(indent, k, Label(s.names, k), false)], Branches(s, k, es, indent, onPath + {k});
    PrintedConcat(head, rest);
    BranchesHold(s, k, es, indent, onPath + {k}, e);
    assert Tree(s, k, indent, onPath) == head + rest;
  }

  lemma WalkOn(s: Source, w: seq<string>, path: set<string>) returns (e: GraphEdge)
    requires IsWalk(Steps(s.edges, s.dir), w) && Simple(w) && |w| > 1
    requires forall x :: x in w ==> x !in path
    ensures IsWalk(Steps(s.edges, s.dir), w[1..]) && Simple(w[1..])
    ensures forall x :: x in w[1..] ==> x !in path + {w[0]}
    ensures w[0] !in path && e in s.edges && NeighborOf(e, w[0], s.dir) == w[1] && w[1] != ""
  {
    assert w[0] in w && (w[0], w[1]) in Steps(s.edges, s.dir);
    Step(s.edges, s.dir, w[0], w[1]);
    e :| e in s.edges && NeighborOf(e, w[0], s.dir) == w[1];
    forall x | x in w[1..] ensures x !in path + {w[0]} {
      var i :| 0 <= i < |w[1..]| && w[1..][i] == x;
      assert w[i + 1] == x && w[0] != w[i + 1];
    }
  }

  /** The end of a simple walk that keeps off the path is printed. */
  lemma {:induction false} SimpleWalkPrinted(s: Source, w: seq<string>, indent: string, onPath: set<string>)
    requires IsWalk(Steps(s.edges, s.dir), w) && Simple(w)
    requires forall x :: x in w ==> x !in onPath
    ensures w[|w| - 1] in Expanded(Tree(s, w[0], indent, onPath))
    decreases |w|
  {
    if |w| == 1 {
      assert w[0] in w;
      KeyExpanded(s, w[0], indent, onPath);
    } else {
      var e := WalkOn(s, w, onPath);
      SimpleWalkPrinted(s, w[1..], indent + "    ", onPath + {w[0]});
      ChildExpanded(s, w[0], indent, onPath, e);
    }
  }

  lemma {:induction false} TreeWithin(s: Source, k: string, indent: string, onPath: set<string>, n: string)
    requires n in Printed(Tree(s, k, indent, onPath))
    ensures Reaches(Steps(s.edges, s.dir), k, n)
    decreases s.Ends() - onPath, 0
  {
    ReachesSelf(Steps(s.edges, s.dir), k);
    if k !in onPath {
      var es := s.Children(k);
      ChildrenOf(s, k);
      var head := [NodeLine(indent, k, Label(s.names, k), false)];
      if es != [] {
        assert es[0] in es;
        PrintedConcat(head, Branches(s, k, es, indent, onPath + {k}));
        if n != k {
          BranchesWithin(s, k, es, indent, onPath + {k}, n);
        }
      }
    }
  }

  lemma {:induction false} BranchesWithin(s: Source, k: string, es: seq<GraphEdge>, indent: string, path: set<string>, n: string)
    requires forall e :: e in es ==> e in s.edges
    requires n in Printed(Branches(s, k, es, indent, path))
    ensures Reaches(Steps(s.edges, s.dir), k, n)
    decreases s.Ends() - path, 1 + |es|
  {
    PrintedConcat(Branch(s, k, es[0], indent, path), Branches(s, k, es[1..], indent, path));
    if n in Printed(Branches(s, k, es[1..], indent, path)) {
      BranchesWithin(s, k, es[1..], indent, path, n);
    } else {
      var steps, nb := Steps(s.edges, s.dir), NeighborOf(es[0], k, s.dir);
      PrintedConcat([EdgeLine(indent + "  ", es[0].typ, es[0].optional)], Tree(s, nb, indent + "    ", path));
      TreeWithin(s, nb, indent + "    ", path, n);
      assert es[0] in s.edges;
      Step(s.edges, s.dir, k, nb);
      EdgeReaches(steps, k, nb);
      ReachesTransitive(steps, k, nb, n);
    }
  }

  /** On any graph, cyclic or not, the tree from a root prints exactly what the
      root reaches, each at least once with its own subtree. */
  lemma PrintedIffReachable(s: Source, root: string, n: string)
    ensures n in Printed(Tree(s, root, "", {})) <==> Reaches(Steps(s.edges, s.dir), root, n)
    ensures n in Expanded(Tree(s, root, "", {})) <==> Reaches(Steps(s.edges, s.dir), root, n)
  {
    var lines := Tree(s, root, "", {});
    if n in Printed(lines) {
      TreeWithin(s, root, "", {}, n);
    }
    if w :| Joins(Steps(s.edges, s.dir), w, root, n) {
      var simple := SimpleWalk(Steps(s.edges, s.dir), w, root, n);
      SimpleWalkPrinted(s, simple, "", {});
    }
    assert Expanded(lines) <= Printed(lines);
  }

  // ---- the forest ----

  ghost predicate HasParent(edges: seq<GraphEdge>, dir: Dir, k: string)
  {
    exists e :: e in edges && ((dir != In && e.to == k) || (dir != Out && e.from == k))
  }

  ghost predicate HasKey(nodes: seq<GraphNode>, k: string)
  {
    exists n :: n in nodes && n.key == k
  }

  /** A key has a parent exactly when a step of the direction leads to it. */
  lemma ParentIsStep(edges: seq<GraphEdge>, dir: Dir, k: string)
    requires k != ""
    ensures HasParent(edges, dir, k) <==> exists a :: (a, k) in Steps(edges, dir)
  {
    if e :| e in edges && ((dir != In && e.to == k) || (dir != Out && e.from == k)) {
      var a := if dir != In && e.to == k then e.from else e.to;
      assert NeighborOf(e, a, dir) == k;
      Step(edges, dir, a, k);
    }
    if a :| (a, k) in Steps(edges, dir) {
      Step(edges, dir, a, k);
    }
  }

  /** A root is a parentless node; when there is none, every node is one. */
  ghost predicate IsRoot(g: Graph, dir: Dir, k: string)
  {
    HasKey(g.nodes, k) && (!HasParent(g.edges, dir, k) || NoRoot(g, dir))
  }

  ghost predicate NoRoot(g: Graph, dir: Dir)
  {
    forall n :: n in g.nodes ==> HasParent(g.edges, dir, n.key)
  }

  /** How many nodes have the key. */
  ghost function Count(nodes: seq<GraphNode>, k: string): nat
  {
    if nodes == [] then 0
    else
      var n := |nodes| - 1;
      Count(nodes[..n], k) + if nodes[n].key == k then 1 else 0
  }

  lemma {:induction false} HasKeyCounts(nodes: seq<GraphNode>, k: string)
    ensures HasKey(nodes, k) <==> Count(nodes, k) > 0
  {
    if nodes != [] {
      var n := |nodes| - 1;
      assert nodes == nodes[..n] + [nodes[n]];
      HasKeyCounts(nodes[..n], k);
    }
  }

  /** The roots in order, each as often as nodes have its key. */
  ghost predicate RootsOf(g: Graph, dir: Dir, roots: seq<string>)
  {
    Sorted(roots, StrLess) && forall k :: multiset(roots)[k] == if IsRoot(g, dir, k) then Count(g.nodes, k) else 0
  }

  method Parented(edges: seq<GraphEdge>, dir: Dir) returns (hasParent: set<string>)
    ensures forall k :: k in hasParent <==> HasParent(edges, dir, k)
  {
    hasParent := {};
    for i := 0 to |edges|
      invariant forall k :: k in hasParent <==> HasParent(edges[..i], dir, k)
    {
      assert forall e :: e in edges[..i + 1] <==> e in edges[..i] || e == edges[i];
      match dir {
        case Out => hasParent := hasParent + {edges[i].to};
        case In => hasParent := hasParent + {edges[i].from};
        case Both => hasParent := hasParent + {edges[i].to} + {edges[i].from};
      }
    }
    assert edges[..|edges|] == edges;
  }

  method KeysOutside(nodes: seq<GraphNode>, hasParent: set<string>) returns (keys: seq<string>)
    ensures forall k :: multiset(keys)[k] == if k in hasParent then 0 else Count(nodes, k)
  {
    keys := [];
    for i := 0 to |nodes|
      invariant forall k :: multiset(keys)[k] == if k in hasParent then 0 else Count(nodes[..i], k)
    {
      assert nodes[..i + 1][..i] == nodes[..i];
      if nodes[i].key !in hasParent {
        keys := keys + [nodes[i].key];
      }
    }
    assert nodes[..|nodes|] == nodes;
  }

  method ForestRoots(g: Graph, dir: Dir) returns (roots: seq<string>)
    ensures RootsOf(g, dir, roots)
  {
    var hasParent := Parented(g.edges, dir);
    roots := KeysOutside(g.nodes, hasParent);
    if |roots| == 0 {
      forall n | n in g.nodes
        ensures HasParent(g.edges, dir, n.key)
      {
        HasKeyCounts(g.nodes, n.key);
      }
      roots := KeysOutside(g.nodes, {});
    } else {
      assert multiset(roots)[roots[0]] > 0;
      HasKeyCounts(g.nodes, roots[0]);
      ghost var n :| n in g.nodes && n.key == roots[0];
      assert !HasParent(g.edges, dir, n.key);
    }
    forall k {
      HasKeyCounts(g.nodes, k);
    }
    StrWeakOrder();
    SortBySorts(roots, StrLess);
    roots := SortBy(roots, StrLess);
  }

  lemma RootsAreRoots(g: Graph, dir: Dir, roots: seq<string>)
    requires RootsOf(g, dir, roots)
    ensures forall k :: k in roots <==> IsRoot(g, dir, k)
  {
    forall k ensures k in roots <==> IsRoot(g, dir, k) {
      HasKeyCounts(g.nodes, k);
      assert k in roots <==> multiset(roots)[k] > 0;
    }
  }

  /** Names by key; of two nodes with one key the later wins. */
  function NameByKey(nodes: seq<GraphNode>): map<string, string>
  {
    if nodes == [] then map[]
    else
      var n := |nodes| - 1;
      NameByKey(nodes[..n])[nodes[n].key := nodes[n].name]
  }

  ghost function Trees(s: Source, roots: seq<string>): seq<Line>
  {
    if roots == [] then []
    else
      var n := |roots| - 1;
      Trees(s, roots[..n]) + Tree(s, roots[n], "", {})
  }

  lemma LastTree(s: Source, roots: seq<string>)
    requires roots != []
    ensures Trees(s, roots[..|roots| - 1]) <= Trees(s, roots)
  {
  }

  lemma {:induction false} EarlierTreesFirst(s: Source, roots: seq<string>, k: nat)
    requires k <= |roots|
    ensures Trees(s, roots[..k]) <= Trees(s, roots)
  {
    if k == |roots| {
      assert roots[..k] == roots;
    } else {
      var rest := roots[..|roots| - 1];
      EarlierTreesFirst(s, rest, k);
      assert rest[..k] == roots[..k];
      LastTree(s, roots);
    }
  }

  /** The trees stand in the order of their roots: each right after those of the
      roots before it. */
  lemma TreesInOrder(s: Source, roots: seq<string>, k: nat)
    requires k < |roots|
    ensures Trees(s, roots[..k]) + Tree(s, roots[k], "", {}) <= Trees(s, roots)
  {
    TreesNext(s, roots, k);
    EarlierTreesFirst(s, roots, k + 1);
  }

  datatype Rendered = NotFound | EmptyGraph | Forest(lines: seq<Line>)

  method Names(nodes: seq<GraphNode>) returns (names: map<string, string>)
    ensures names == NameByKey(nodes)
  {
    names := map[];
    for i := 0 to |nodes|
      invariant names == NameByKey(nodes[..i])
    {
      assert nodes[..i + 1][..i] == nodes[..i];
      names := names[nodes[i].key := nodes[i].name];
    }
    assert nodes[..|nodes|] == nodes;
  }

  method Append(adj: map<string, seq<GraphEdge>>, k: string, e: GraphEdge) returns (r: map<string, seq<GraphEdge>>)
    ensures forall x :: Listing(r, x) == if x == k then Listing(adj, x) + [e] else Listing(adj, x)
  {
    r := adj[k := Listing(adj, k) + [e]];
  }

  method AddEdge(adj0: map<string, seq<GraphEdge>>, e: GraphEdge, dir: Dir) returns (adj: map<string, seq<GraphEdge>>)
    ensures forall k :: Listing(adj, k) == Listing(adj0, k) + Added(e, k, dir)
  {
    match dir {
      case Out => adj := Append(adj0, e.from, e);
      case In => adj := Append(adj0, e.to, e);
      case Both =>
        adj := Append(adj0, e.from, e);
        adj := Append(adj, e.to, e);
    }
  }

  lemma AdjacencyNext(s: Source, i: nat, adj0: map<string, seq<GraphEdge>>, adj: map<string, seq<GraphEdge>>)
    requires i < |s.edges| && Adjacency(s.(edges := s.edges[..i]), adj0)
    requires forall k :: Listing(adj, k) == Listing(adj0, k) + Added(s.edges[i], k, s.dir)
    ensures Adjacency(s.(edges := s.edges[..i + 1]), adj)
  {
    assert s.edges[..i + 1][..i] == s.edges[..i];
  }

  method BuildAdjacency(s: Source) returns (adj: map<string, seq<GraphEdge>>)
    ensures Adjacency(s, adj)
  {
    adj := map[];
    var i := 0;
    while i < |s.edges|
      invariant 0 <= i <= |s.edges| && Adjacency(s.(edges := s.edges[..i]), adj)
    {
      ghost var adj0 := adj;
      adj := AddEdge(adj, s.edges[i], s.dir);
      AdjacencyNext(s, i, adj0, adj);
      i := i + 1;
    }
    assert s.edges[..i] == s.edges;
  }

  /** Each root's tree is walked with a path of its own. */
  method PrintRoot(s: Source, adj: map<string, seq<GraphEdge>>, root: string) returns (lines: seq<Line>)
    requires Adjacency(s, adj)
    ensures lines == Tree(s, root, "", {})
  {
    var printer := new TreePrinter(s);
    printer.PrintTreeNode(root, adj, "");
    lines := printer.lines;
  }

  lemma TreesNext(s: Source, roots: seq<string>, i: nat)
    requires i < |roots|
    ensures Trees(s, roots[..i + 1]) == Trees(s, roots[..i]) + Tree(s, roots[i], "", {})
  {
    assert roots[..i + 1][..i] == roots[..i];
  }

  method PrintForest(s: Source, adj: map<string, seq<GraphEdge>>, roots: seq<string>) returns (lines: seq<Line>)
    requires Adjacency(s, adj)
    ensures lines == Trees(s, roots)
  {
    lines := [];
    for i := 0 to |roots|
      invariant lines == Trees(s, roots[..i])
    {
      TreesNext(s, roots, i);
      var tree := PrintRoot(s, adj, roots[i]);
      lines := lines + tree;
    }
    assert roots[..|roots|] == roots;
  }

  /** One tree under the root asked for, else one under each forest root. */
  method RenderCatalogTree(g: Graph, root: string, dir: Dir) returns (r: Rendered, ghost roots: seq<string>)
    ensures r.NotFound? <==> root != "" && ResolveGraphNodeKey(g.nodes, root) == ""
    ensures r.EmptyGraph? <==> !r.NotFound? && g.nodes == []
    ensures r.Forest? ==> r.lines == Trees(Source(NameByKey(g.nodes), g.edges, dir), roots)
    ensures r.Forest? && root != "" ==> roots == [ResolveGraphNodeKey(g.nodes, root)]
    ensures r.Forest? && root == "" ==> RootsOf(g, dir, roots)
  {
    var names := Names(g.nodes);
    var s := Source(names, g.edges, dir);
    var adj := BuildAdjacency(s);
    var rs;
    if root != "" {
      var k := ResolveGraphNodeKey(g.nodes, root);
      if k == "" {
        return NotFound, [];
      }
      rs := [k];
    } else {
      rs := ForestRoots(g, dir);
    }
    roots := rs;
    if |g.nodes| == 0 {
      return EmptyGraph, roots;
    }
    var lines := PrintForest(s, adj, rs);
    r := Forest(lines);
  }

  lemma OneMoreTree(s: Source, roots: seq<string>, r: string, n: string)
    ensures n in Expanded(Trees(s, roots + [r])) <==> n in Expanded(Trees(s, roots)) || Reaches(Steps(s.edges, s.dir), r, n)
    ensures n in Printed(Trees(s, roots + [r])) <==> n in Printed(Trees(s, roots)) || Reaches(Steps(s.edges, s.dir), r, n)
  {
    assert (roots + [r])[..|roots|] == roots;
    PrintedIffReachable(s, r, n);
    PrintedConcat(Trees(s, roots), Tree(s, r, "", {}));
  }

  lemma {:induction false} TreesPrint(s: Source, roots: seq<string>, n: string)
    ensures n in Expanded(Trees(s, roots)) <==> exists r :: r in roots && Reaches(Steps(s.edges, s.dir), r, n)
    ensures n in Printed(Trees(s, roots)) <==> exists r :: r in roots && Reaches(Steps(s.edges, s.dir), r, n)
  {
    if roots != [] {
      var rest, last := roots[..|roots| - 1], roots[|roots| - 1];
      assert roots == rest + [last];
      TreesPrint(s, rest, n);
      OneMoreTree(s, rest, last, n);
    }
  }

  /** A listed, parentless node that k is reached from. */
  ghost predicate HasListedSource(g: Graph, dir: Dir, k: string)
  {
    exists r :: HasKey(g.nodes, r) && !HasParent(g.edges, dir, r) && Reaches(Steps(g.edges, dir), r, k)
  }

  /** The forest prints a node exactly when the graph has no parentless node
      at all, or the node lies under a listed one. */
  lemma ForestPrintsExactly(g: Graph, dir: Dir, names: map<string, string>, roots: seq<string>, k: string)
    requires RootsOf(g, dir, roots)
    requires HasKey(g.nodes, k)
    ensures k in Expanded(Trees(Source(names, g.edges, dir), roots)) <==> NoRoot(g, dir) || HasListedSource(g, dir, k)
  {
    RootsAreRoots(g, dir, roots);
    TreesPrint(Source(names, g.edges, dir), roots, k);
    ReachesSelf(Steps(g.edges, dir), k);
    if NoRoot(g, dir) {
      assert k in roots;
    } else {
      forall r ensures r in roots <==> HasKey(g.nodes, r) && !HasParent(g.edges, dir, r) {
      }
    }
  }

  /** Every edge ends at listed nodes with a key. */
  ghost predicate Closed(g: Graph)
  {
    forall e :: e in g.edges ==> e.from != "" && e.to != "" && HasKey(g.nodes, e.from) && HasKey(g.nodes, e.to)
  }

  /** On a closed acyclic graph the forest prints every node: each has an
      ancestor with no parent, and that ancestor is listed. */
  lemma ForestPrintsEverything(g: Graph, dir: Dir, names: map<string, string>, roots: seq<string>, k: string)
    requires dir != Both && Closed(g) && Acyclic(Steps(g.edges, dir))
    requires RootsOf(g, dir, roots)
    requires HasKey(g.nodes, k)
    ensures k in Expanded(Trees(Source(names, g.edges, dir), roots))
  {
    var steps := Steps(g.edges, dir);
    var r := HasSource(steps, k);
    if e :| e in g.edges && ((dir != In && e.to == r) || (dir != Out && e.from == r)) {
      var from := if dir == Out then e.from else e.to;
      Step(g.edges, dir, from, r);
      assert false;
    }
    assert HasKey(g.nodes, r) by {
      var w :| Joins(steps, w, r, k);
      if |w| > 1 {
        assert (w[0], w[1]) in steps;
        Step(g.edges, dir, w[0], w[1]);
      }
    }
    ForestPrintsExactly(g, dir, names, roots, k);
  }

  /** An acyclic graph in which "hidden" has one parent, which is not listed. */
  const PARENT_UNLISTED := Graph(
    [GraphNode("hidden", "Component", "hidden"), GraphNode("root", "Component", "root")],
    [GraphEdge("unlisted", "hidden", "calls", false)])

  lemma UnlistedSteps()
    ensures Steps(PARENT_UNLISTED.edges, Out) == {("unlisted", "hidden")}
  {
    assert PARENT_UNLISTED.edges[0] in PARENT_UNLISTED.edges;
    forall a, b ensures (a, b) in Steps(PARENT_UNLISTED.edges, Out) <==> (a, b) == ("unlisted", "hidden") {
      Step(PARENT_UNLISTED.edges, Out, a, b);
    }
  }

  lemma UnlistedRoots(r: string)
    requires IsRoot(PARENT_UNLISTED, Out, r)
    ensures r == "root"
  {
    var g := PARENT_UNLISTED;
    assert g.nodes[1] in g.nodes && !HasParent(g.edges, Out, "root");
    assert g.edges[0] in g.edges && HasParent(g.edges, Out, "hidden");
  }

  /** Without closure it need not: a node whose only parent is not listed is
      left out as soon as the graph has a root of its own. */
  lemma UnlistedParentHides(names: map<string, string>, roots: seq<string>)
    requires RootsOf(PARENT_UNLISTED, Out, roots)
    ensures Acyclic(Steps(PARENT_UNLISTED.edges, Out)) && HasKey(PARENT_UNLISTED.nodes, "hidden")
    ensures "hidden" !in Printed(Trees(Source(names, PARENT_UNLISTED.edges, Out), roots))
  {
    var steps := Steps(PARENT_UNLISTED.edges, Out);
    UnlistedSteps();
    OneEdgeIsAcyclic("unlisted", "hidden");
    assert PARENT_UNLISTED.nodes[0] in PARENT_UNLISTED.nodes;
    RootsAreRoots(PARENT_UNLISTED, Out, roots);
    TreesPrint(Source(names, PARENT_UNLISTED.edges, Out), roots, "hidden");
    forall r | r in roots ensures r == "root" {
      UnlistedRoots(r);
    }
    forall w ensures !Joins(steps, w, "root", "hidden") {
      if IsWalk(steps, w) && |w| > 1 {
        assert (w[0], w[1]) in steps;
      }
    }
  }

  /** Two components that call each other, beside one that nothing calls. */
  const CYCLE_BESIDE_ROOT := Graph(
    [GraphNode("a", "Component", "a"), GraphNode("b", "Component", "b"), GraphNode("c", "Component", "c")],
    [GraphEdge("a", "b", "calls", false), GraphEdge("b", "a", "calls", false)])

  lemma CycleRoots(dir: Dir, r: string)
    ensures IsRoot(CYCLE_BESIDE_ROOT, dir, r) ==> r == "c"
  {
    var g := CYCLE_BESIDE_ROOT;
    assert g.edges[0] in g.edges && g.edges[1] in g.edges;
    assert HasParent(g.edges, dir, "a") && HasParent(g.edges, dir, "b");
    assert g.nodes[0] in g.nodes && g.nodes[1] in g.nodes && g.nodes[2] in g.nodes;
    assert !HasParent(g.edges, dir, "c");
  }

  lemma OnlyTheRoot(dir: Dir, roots: seq<string>, r: string)
    requires RootsOf(CYCLE_BESIDE_ROOT, dir, roots) && r in roots
    ensures r == "c"
  {
    RootsAreRoots(CYCLE_BESIDE_ROOT, dir, roots);
    CycleRoots(dir, r);
  }

  lemma NothingUnderRoot(dir: Dir, k: string)
    requires Reaches(Steps(CYCLE_BESIDE_ROOT.edges, dir), "c", k)
    ensures k == "c"
  {
    var steps := Steps(CYCLE_BESIDE_ROOT.edges, dir);
    forall s | s in steps ensures s.0 != "c" {
      Step(CYCLE_BESIDE_ROOT.edges, dir, s.0, s.1);
    }
    var w :| Joins(steps, w, "c", k);
    StaysInside(steps, {"c"}, w, "c", k);
  }

  lemma CycleIsClosed()
    ensures Closed(CYCLE_BESIDE_ROOT) && HasKey(CYCLE_BESIDE_ROOT.nodes, "a") && HasKey(CYCLE_BESIDE_ROOT.nodes, "b")
  {
    var g := CYCLE_BESIDE_ROOT;
    assert g.nodes[0] in g.nodes && g.nodes[1] in g.nodes;
  }

  /** Nor when a cycle stands beside a root: every edge joins listed nodes, yet
      in no direction is any node of the cycle printed. */
  lemma CycleBesideRootHides(dir: Dir, names: map<string, string>, roots: seq<string>, k: string)
    requires RootsOf(CYCLE_BESIDE_ROOT, dir, roots)
    ensures Closed(CYCLE_BESIDE_ROOT) && HasKey(CYCLE_BESIDE_ROOT.nodes, "a") && HasKey(CYCLE_BESIDE_ROOT.nodes, "b")
    ensures k in Printed(Trees(Source(names, CYCLE_BESIDE_ROOT.edges, dir), roots)) ==> k == "c"
  {
    CycleIsClosed();
    TreesPrint(Source(names, CYCLE_BESIDE_ROOT.edges, dir), roots, k);
    if r :| r in roots && Reaches(Steps(CYCLE_BESIDE_ROOT.edges, dir), r, k) {
      OnlyTheRoot(dir, roots, r);
      NothingUnderRoot(dir, k);
    }
  }
}
