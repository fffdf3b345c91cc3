/** The reachable part of the graph, found breadth first, for the JSON payload. */
module CatalogFilter {
  import opened Walks
  import opened Sorting
  import opened CatalogGraph

  predicate NodeLess(a: GraphNode, b: GraphNode)
  {
    StrLess(a.key, b.key)
  }

  predicate EdgeLess(a: GraphEdge, b: GraphEdge)
  {
    if a.from != b.from then StrLess(a.from, b.from)
    else if a.to != b.to then StrLess(a.to, b.to)
    else StrLess(a.typ, b.typ)
  }

  predicate SameTriple(a: GraphEdge, b: GraphEdge)
  {
    a.from == b.from && a.to == b.to && a.typ == b.typ
  }

  lemma NodeWeakOrder()
    ensures WeakOrder(NodeLess)
  {
    StrWeakOrder();
    assert forall a, b :: NodeLess(a, b) ==> !StrLess(b.key, a.key);
    forall a, b, c | !NodeLess(a, b) && !NodeLess(b, c) ensures !NodeLess(a, c) {
      StrLessTransitive(a.key, b.key, c.key);
    }
  }

  lemma EdgeLessTotal(a: GraphEdge, b: GraphEdge)
    ensures !(EdgeLess(a, b) && EdgeLess(b, a))
    ensures SameTriple(a, b) <==> !EdgeLess(a, b) && !EdgeLess(b, a)
  {
    StrLessTotal(a.from, b.from);
    StrLessTotal(a.to, b.to);
    StrLessTotal(a.typ, b.typ);
  }

  lemma EdgeLessTransitive(a: GraphEdge, b: GraphEdge, c: GraphEdge)
    requires !EdgeLess(a, b) && !EdgeLess(b, c)
    ensures !EdgeLess(a, c)
  {
    StrLessTotal(a.from, b.from);
    StrLessTotal(b.from, c.from);
    StrLessTotal(a.from, c.from);
    StrLessTotal(a.to, b.to);
    StrLessTotal(b.to, c.to);
    StrLessTotal(a.to, c.to);
    if a.from != c.from {
      StrLessTransitive(a.from, b.from, c.from);
    } else if a.to != c.to {
      if a.from == b.from {
        StrLessTransitive(a.to, b.to, c.to);
      } else {
        StrLessTransitive(b.from, c.from, b.from);
      }
    } else {
      if a.from == b.from && a.to == b.to {
        StrLessTransitive(a.typ, b.typ, c.typ);
      }
    }
  }

  lemma EdgeWeakOrder()
    ensures WeakOrder(EdgeLess)
  {
    forall a, b ensures EdgeLess(a, b) ==> !EdgeLess(b, a) { EdgeLessTotal(a, b); }
    forall a, b, c | !EdgeLess(a, b) && !EdgeLess(b, c) ensures !EdgeLess(a, c) { EdgeLessTransitive(a, b, c); }
  }

  // ---- the key that drops repeated edges ----

  function EdgeKey(e: GraphEdge): string
  {
    e.from + "\0" + e.to + "\0" + e.typ
  }

  ghost predicate NulFree(edges: seq<GraphEdge>)
  {
    forall e :: e in edges ==> '\0' !in e.from && '\0' !in e.to && '\0' !in e.typ
  }

  lemma {:induction false} CutAtNul(a: string, u: string, b: string, v: string)
    requires '\0' !in a && '\0' !in b && a + "\0" + u == b + "\0" + v
    ensures a == b && u == v
  {
    var s, t := a + "\0" + u, b + "\0" + v;
    assert s[0] == (if a == "" then '\0' else a[0]) && t[0] == (if b == "" then '\0' else b[0]);
    if a == "" || b == "" {
      assert u == s[1..] && v == t[1..];
    } else {
      assert s[1..] == a[1..] + "\0" + u && t[1..] == b[1..] + "\0" + v;
      CutAtNul(a[1..], u, b[1..], v);
      assert a == [a[0]] + a[1..] && b == [b[0]] + b[1..];
    }
  }

  /** Without NUL characters the key tells edges apart by their triple. */
  lemma EdgeKeyIsTriple(e: GraphEdge, f: GraphEdge)
    requires NulFree([e, f])
    ensures EdgeKey(e) == EdgeKey(f) <==> SameTriple(e, f)
  {
    assert e in [e, f] && f in [e, f];
    if EdgeKey(e) == EdgeKey(f) {
      assert EdgeKey(e) == e.from + "\0" + (e.to + "\0" + e.typ);
      assert EdgeKey(f) == f.from + "\0" + (f.to + "\0" + f.typ);
      CutAtNul(e.from, e.to + "\0" + e.typ, f.from, f.to + "\0" + f.typ);
      CutAtNul(e.to, e.typ, f.to, f.typ);
    }
  }

  // ---- the search ----

  ghost function Neighbors(edges: seq<GraphEdge>, k: string, dir: Dir): set<string>
  {
    set e | e in edges && NeighborOf(e, k, dir) != "" :: NeighborOf(e, k, dir)
  }

  ghost predicate Leaves(e: GraphEdge, from: set<string>, dir: Dir)
  {
    exists k :: k in from && NeighborOf(e, k, dir) != ""
  }

  /** The kept edges have distinct keys, which are exactly the seen ones. */
  ghost predicate OncePerKey(kept: seq<GraphEdge>, seen: set<string>)
  {
    && (forall i, j :: 0 <= i < j < |kept| ==> EdgeKey(kept[i]) != EdgeKey(kept[j]))
    && (forall x :: x in seen <==> exists e :: e in kept && EdgeKey(e) == x)
  }

  /** The kept edges so far: edges of the graph that leave `from`, and every
      such edge of the graph by its key. */
  ghost predicate KeptFor(edges: seq<GraphEdge>, from: set<string>, dir: Dir, kept: seq<GraphEdge>, seen: set<string>)
  {
    && OncePerKey(kept, seen)
    && (forall e :: e in kept ==> e in edges && Leaves(e, from, dir))
    && (forall e :: e in edges && Leaves(e, from, dir) ==> EdgeKey(e) in seen)
  }

  lemma KeepOne(kept: seq<GraphEdge>, seen: set<string>, e: GraphEdge)
    requires OncePerKey(kept, seen) && EdgeKey(e) !in seen
    ensures OncePerKey(kept + [e], seen + {EdgeKey(e)})
  {
  }

  /** The queue grew by exactly what became reachable. */
  ghost predicate Queued(reachable0: set<string>, queue0: seq<string>, reachable: set<string>, queue: seq<string>)
  {
    && reachable0 <= reachable
    && (forall k :: k in queue <==> k in queue0 || k in reachable - reachable0)
    && (reachable == reachable0 ==> queue == queue0)
  }

  /** The kept edges grew by edges that leave cur, and cover those up to the i-th. */
  ghost predicate KeptUpTo(edges: seq<GraphEdge>, i: nat, cur: string, dir: Dir, kept0: seq<GraphEdge>, seen0: set<string>,
                           kept: seq<GraphEdge>, seen: set<string>)
    requires i <= |edges|
  {
    && OncePerKey(kept, seen) && seen0 <= seen
    && (forall e :: e in kept ==> e in kept0 || (e in edges && NeighborOf(e, cur, dir) != ""))
    && (forall k :: 0 <= k < i && NeighborOf(edges[k], cur, dir) != "" ==> EdgeKey(edges[k]) in seen)
  }

  method NextOf(e: GraphEdge, cur: string, dir: Dir) returns (next: string)
    ensures next == NeighborOf(e, cur, dir)
  {
    next := "";
    match dir {
      case Out =>
        if e.from == cur {
          next := e.to;
        }
      case In =>
        if e.to == cur {
          next := e.from;
        }
      case Both =>
        if e.from == cur {
          next := e.to;
        } else if e.to == cur {
          next := e.from;
        }
    }
  }

  method KeepEdge(edges: seq<GraphEdge>, i: nat, cur: string, dir: Dir, ghost kept0: seq<GraphEdge>, ghost seen0: set<string>,
                  kept1: seq<GraphEdge>, seen1: set<string>)
    returns (kept: seq<GraphEdge>, seen: set<string>)
    requires i < |edges| && KeptUpTo(edges, i, cur, dir, kept0, seen0, kept1, seen1)
    requires NeighborOf(edges[i], cur, dir) != ""
    ensures KeptUpTo(edges, i + 1, cur, dir, kept0, seen0, kept, seen)
  {
    kept, seen := kept1, seen1;
    if EdgeKey(edges[i]) !in seen {
      KeepOne(kept, seen, edges[i]);
      seen := seen + {EdgeKey(edges[i])};
      kept := kept + [edges[i]];
    }
  }

  lemma NeighborsNext(edges: seq<GraphEdge>, i: nat, cur: string, dir: Dir)
    requires i < |edges|
    ensures Neighbors(edges[..i + 1], cur, dir)
         == Neighbors(edges[..i], cur, dir) + (var n := NeighborOf(edges[i], cur, dir); if n == "" then {} else {n})
  {
  }

  method Enqueue(next: string, ghost reachable0: set<string>, ghost queue0: seq<string>, reachable1: set<string>, queue1: seq<string>)
    returns (reachable: set<string>, queue: seq<string>)
    requires Queued(reachable0, queue0, reachable1, queue1)
    ensures reachable == reachable1 + {next} && Queued(reachable0, queue0, reachable, queue)
  {
    reachable, queue := reachable1, queue1;
    if next !in reachable {
      reachable := reachable + {next};
      queue := queue + [next];
    }
  }

  lemma SkipEdge(edges: seq<GraphEdge>, i: nat, cur: string, dir: Dir, kept0: seq<GraphEdge>, seen0: set<string>,
                 kept: seq<GraphEdge>, seen: set<string>)
    requires i < |edges| && NeighborOf(edges[i], cur, dir) == ""
    requires KeptUpTo(edges, i, cur, dir, kept0, seen0, kept, seen)
    ensures KeptUpTo(edges, i + 1, cur, dir, kept0, seen0, kept, seen)
  {
  }

  lemma AllKept(edges: seq<GraphEdge>, cur: string, dir: Dir, kept0: seq<GraphEdge>, seen0: set<string>,
                kept: seq<GraphEdge>, seen: set<string>)
    requires KeptUpTo(edges, |edges|, cur, dir, kept0, seen0, kept, seen)
    ensures forall e :: e in edges && NeighborOf(e, cur, dir) != "" ==> EdgeKey(e) in seen
  {
  }

  /** What visiting cur has done after its first i edges. */
  datatype Visiting = Visiting(reachable: set<string>, queue: seq<string>, seen: set<string>, kept: seq<GraphEdge>)
  {
    ghost predicate At(edges: seq<GraphEdge>, i: nat, cur: string, dir: Dir, start: Visiting)
      requires i <= |edges|
    {
      && reachable == start.reachable + Neighbors(edges[..i], cur, dir)
      && Queued(start.reachable, start.queue, reachable, queue)
      && KeptUpTo(edges, i, cur, dir, start.kept, start.seen, kept, seen)
    }
  }

  method VisitEdge(edges: seq<GraphEdge>, i: nat, cur: string, dir: Dir, ghost start: Visiting, v: Visiting) returns (r: Visiting)
    requires i < |edges| && v.At(edges, i, cur, dir, start)
    ensures r.At(edges, i + 1, cur, dir, start)
  {
    var next := NextOf(edges[i], cur, dir);
    NeighborsNext(edges, i, cur, dir);
    if next == "" {
      SkipEdge(edges, i, cur, dir, start.kept, start.seen, v.kept, v.seen);
      return v;
    }
    var kept, seen := KeepEdge(edges, i, cur, dir, start.kept, start.seen, v.kept, v.seen);
    var reachable, queue := Enqueue(next, start.reachable, start.queue, v.reachable, v.queue);
    r := Visiting(reachable, queue, seen, kept);
  }

  /** One node taken off the queue: its edges are kept, its new neighbors queued. */
  method Visit(edges: seq<GraphEdge>, cur: string, dir: Dir, start: Visiting) returns (v: Visiting)
    requires OncePerKey(start.kept, start.seen)
    ensures v.At(edges, |edges|, cur, dir, start)
  {
    v := start;
    var i := 0;
    while i < |edges|
      invariant 0 <= i <= |edges| && v.At(edges, i, cur, dir, start)
    {
      v := VisitEdge(edges, i, cur, dir, start, v);
      i := i + 1;
    }
  }

  /** What the search has established once the nodes in `done` were visited. */
  ghost predicate Searching(edges: seq<GraphEdge>, rootKey: string, dir: Dir, done: set<string>,
                            reachable: set<string>, queue: seq<string>)
  {
    && rootKey in reachable && done <= reachable && reachable <= ReachSet(Steps(edges, dir), rootKey)
    && (forall k :: k in reachable <==> k in done || k in queue)
    && (forall k :: k in done ==> Neighbors(edges, k, dir) <= reachable)
  }

  lemma VisitedOne(edges: seq<GraphEdge>, cur: string, dir: Dir, done: set<string>, kept0: seq<GraphEdge>, seen0: set<string>,
                   kept: seq<GraphEdge>, seen: set<string>)
    requires KeptFor(edges, done, dir, kept0, seen0) && KeptUpTo(edges, |edges|, cur, dir, kept0, seen0, kept, seen)
    ensures KeptFor(edges, done + {cur}, dir, kept, seen)
  {
    AllKept(edges, cur, dir, kept0, seen0, kept, seen);
    forall e ensures Leaves(e, done + {cur}, dir) <==> Leaves(e, done, dir) || NeighborOf(e, cur, dir) != "" {
      if NeighborOf(e, cur, dir) != "" {
        assert cur in done + {cur};
      }
      if k :| k in done && NeighborOf(e, k, dir) != "" {
        assert k in done + {cur};
      }
    }
  }

  lemma SearchedOne(edges: seq<GraphEdge>, rootKey: string, dir: Dir, done: set<string>, reachable0: set<string>,
                    cur: string, rest: seq<string>, reachable: set<string>, queue: seq<string>)
    requires Searching(edges, rootKey, dir, done, reachable0, [cur] + rest)
    requires reachable == reachable0 + Neighbors(edges, cur, dir) && Queued(reachable0, rest, reachable, queue)
    ensures Searching(edges, rootKey, dir, done + {cur}, reachable, queue)
    ensures cur in ReachSet(Steps(edges, dir), rootKey)
    ensures cur in done ==> queue == rest
  {
    assert cur in [cur] + rest;
    NeighborsReached(edges, dir, rootKey, cur);
    assert cur in done ==> reachable == reachable0;
    forall k ensures k in reachable <==> k in done + {cur} || k in queue {
      assert k in [cur] + rest <==> k == cur || k in rest;
    }
  }

  lemma SearchEnds(edges: seq<GraphEdge>, rootKey: string, dir: Dir, done: set<string>, reachable: set<string>)
    requires Searching(edges, rootKey, dir, done, reachable, [])
    ensures done == reachable == ReachSet(Steps(edges, dir), rootKey)
  {
    ClosedReach(edges, dir, rootKey, reachable);
  }

  lemma SearchStarts(edges: seq<GraphEdge>, rootKey: string, dir: Dir)
    ensures Searching(edges, rootKey, dir, {}, {rootKey}, [rootKey])
    ensures KeptFor(edges, {}, dir, [], {})
  {
  }

  /** Breadth first from rootKey: exactly what it reaches, and every edge that
      leaves it, once per key. */
  method Search(edges: seq<GraphEdge>, rootKey: string, dir: Dir)
    returns (reachable: set<string>, kept: seq<GraphEdge>, ghost seen: set<string>)
    ensures reachable == ReachSet(Steps(edges, dir), rootKey)
    ensures KeptFor(edges, reachable, dir, kept, seen)
  {
    var s := Visiting({rootKey}, [rootKey], {}, []);
    ghost var done := {};
    SearchStarts(edges, rootKey, dir);
    while |s.queue| > 0
      invariant Searching(edges, rootKey, dir, done, s.reachable, s.queue)
      invariant KeptFor(edges, done, dir, s.kept, s.seen)
      decreases ReachSet(Steps(edges, dir), rootKey) - done, |s.queue|
    {
      var cur, rest := s.queue[0], s.queue[1..];
      assert s.queue == [cur] + rest;
      ghost var before := s;
      s := Visit(edges, cur, dir, s.(queue := rest));
      assert edges[..|edges|] == edges;
      SearchedOne(edges, rootKey, dir, done, before.reachable, cur, rest, s.reachable, s.queue);
      VisitedOne(edges, cur, dir, done, before.kept, before.seen, s.kept, s.seen);
      done := done + {cur};
    }
    SearchEnds(edges, rootKey, dir, done, s.reachable);
    reachable, kept, seen := s.reachable, s.kept, s.seen;
  }

  lemma NeighborsReached(edges: seq<GraphEdge>, dir: Dir, root: string, k: string)
    requires k in ReachSet(Steps(edges, dir), root)
    ensures Neighbors(edges, k, dir) <= ReachSet(Steps(edges, dir), root)
  {
    var steps := Steps(edges, dir);
    forall n | n in Neighbors(edges, k, dir)
      ensures Reaches(steps, root, n)
    {
      Step(edges, dir, k, n);
      EdgeReaches(steps, k, n);
      ReachesTransitive(steps, root, k, n);
    }
  }

  lemma ClosedReach(edges: seq<GraphEdge>, dir: Dir, root: string, inside: set<string>)
    requires root in inside && inside <= ReachSet(Steps(edges, dir), root)
    requires forall k :: k in inside ==> Neighbors(edges, k, dir) <= inside
    ensures inside == ReachSet(Steps(edges, dir), root)
  {
    var steps := Steps(edges, dir);
    forall n | Reaches(steps, root, n)
      ensures n in inside
    {
      var w :| Joins(steps, w, root, n);
      forall s | s in steps && s.0 in inside ensures s.1 in inside {
        Step(edges, dir, s.0, s.1);
        assert s.1 in Neighbors(edges, s.0, dir);
      }
      StaysInside(steps, inside, w, root, n);
    }
  }

  // ---- filterGraph ----

  function Listed(nodes: seq<GraphNode>, keys: set<string>): seq<GraphNode>
  {
    if nodes == [] then []
    else
      var n := |nodes| - 1;
      Listed(nodes[..n], keys) + (if nodes[n].key in keys then [nodes[n]] else [])
  }

  ghost predicate DistinctTriples(edges: seq<GraphEdge>)
  {
    forall i, j :: 0 <= i < j < |edges| ==> !SameTriple(edges[i], edges[j])
  }

  ghost predicate HasTriple(edges: seq<GraphEdge>, e: GraphEdge)
  {
    exists f :: f in edges && SameTriple(e, f)
  }

  /** Sorted edges of the graph that leave `from`, one for each triple that does. */
  ghost predicate OncePerTriple(edges: seq<GraphEdge>, from: set<string>, dir: Dir, kept: seq<GraphEdge>)
  {
    && Sorted(kept, EdgeLess)
    && DistinctTriples(kept)
    && (forall e :: e in kept ==> e in edges && Leaves(e, from, dir))
    && (forall e {:trigger HasTriple(kept, e)} :: e in edges && Leaves(e, from, dir) ==> HasTriple(kept, e))
  }

  /** What the JSON payload shows for a root that names a node. */
  ghost predicate Filtered(g: Graph, rootKey: string, dir: Dir, nodes: seq<GraphNode>, edges: seq<GraphEdge>)
  {
    var from := ReachSet(Steps(g.edges, dir), rootKey);
    && StableSort(Listed(g.nodes, from), nodes, NodeLess)
    && (NulFree(g.edges) ==> OncePerTriple(g.edges, from, dir, edges))
  }

  lemma {:induction false} SortKeepsDistinct(s: seq<GraphEdge>, t: seq<GraphEdge>)
    requires multiset(s) == multiset(t)
    requires DistinctTriples(s)
    ensures DistinctTriples(t)
  {
    forall i, j | 0 <= i < j < |t| ensures !SameTriple(t[i], t[j]) {
      if SameTriple(t[i], t[j]) {
        assert t[i] in multiset(s) && t[j] in multiset(s);
        var a :| 0 <= a < |s| && s[a] == t[i];
        var b :| 0 <= b < |s| && s[b] == t[j];
        assert a == b;
        Twice(t, i, j);
        OnceOnly(s, a);
        assert false;
      }
    }
  }

  lemma Twice(t: seq<GraphEdge>, i: nat, j: nat)
    requires i < j < |t| && t[i] == t[j]
    ensures multiset(t)[t[i]] >= 2
  {
    assert t == t[..j] + [t[j]] + t[j + 1..];
    assert t[i] == t[..j][i];
    assert multiset(t) == multiset(t[..j]) + multiset{t[j]} + multiset(t[j + 1..]);
    assert t[i] in t[..j];
  }

  lemma OnceOnly(s: seq<GraphEdge>, a: nat)
    requires a < |s| && DistinctTriples(s)
    ensures multiset(s)[s[a]] == 1
  {
    assert s == s[..a] + [s[a]] + s[a + 1..];
    assert multiset(s) == multiset(s[..a]) + multiset{s[a]} + multiset(s[a + 1..]);
    assert s[a] !in s[..a] && s[a] !in s[a + 1..];
  }

  lemma KeptOncePerTriple(edges: seq<GraphEdge>, from: set<string>, dir: Dir, kept: seq<GraphEdge>, seen: set<string>)
    requires KeptFor(edges, from, dir, kept, seen) && NulFree(edges)
    ensures OncePerTriple(edges, from, dir, SortBy(kept, EdgeLess))
  {
    EdgeWeakOrder();
    SortBySorts(kept, EdgeLess);
    SortByMembers(kept, EdgeLess);
    forall i, j | 0 <= i < j < |kept| ensures !SameTriple(kept[i], kept[j]) {
      assert kept[i] in kept && kept[j] in kept;
      EdgeKeyIsTriple(kept[i], kept[j]);
    }
    SortKeepsDistinct(kept, SortBy(kept, EdgeLess));
    forall e | e in edges && Leaves(e, from, dir)
      ensures HasTriple(SortBy(kept, EdgeLess), e)
    {
      var f :| f in kept && EdgeKey(f) == EdgeKey(e);
      EdgeKeyIsTriple(e, f);
    }
  }

  method KeepListed(nodes: seq<GraphNode>, keys: set<string>) returns (kept: seq<GraphNode>)
    ensures kept == Listed(nodes, keys)
  {
    kept := [];
    for i := 0 to |nodes|
      invariant kept == Listed(nodes[..i], keys)
    {
      assert nodes[..i + 1][..i] == nodes[..i];
      if nodes[i].key in keys {
        kept := kept + [nodes[i]];
      }
    }
    assert nodes[..|nodes|] == nodes;
  }

  lemma {:induction false} NoneListed(nodes: seq<GraphNode>)
    ensures Listed(nodes, {}) == []
  {
    if nodes != [] {
      NoneListed(nodes[..|nodes| - 1]);
    }
  }

  /** What filterGraph returns for a root as the user gave it: without one the
      whole graph, stably sorted; for an unknown one nothing. */
  ghost predicate FilteredBy(g: Graph, root: string, dir: Dir, nodes: seq<GraphNode>, edges: seq<GraphEdge>)
  {
    var rootKey := ResolveGraphNodeKey(g.nodes, root);
    if root == "" then StableSort(g.nodes, nodes, NodeLess) && StableSort(g.edges, edges, EdgeLess)
    else if rootKey == "" then nodes == [] && edges == []
    else Filtered(g, rootKey, dir, nodes, edges)
  }

  method FilterGraph(g: Graph, root: string, dir: Dir) returns (nodes: seq<GraphNode>, edges: seq<GraphEdge>)
    ensures FilteredBy(g, root, dir, nodes, edges)
  {
    if root == "" {
      NodeWeakOrder();
      EdgeWeakOrder();
      SortByIsStable(g.nodes, NodeLess);
      SortByIsStable(g.edges, EdgeLess);
      return SortBy(g.nodes, NodeLess), SortBy(g.edges, EdgeLess);
    }
    var rootKey := ResolveGraphNodeKey(g.nodes, root);
    var reachable, kept := {}, [];
    ghost var seen := {};
    if rootKey != "" {
      reachable, kept, seen := Search(g.edges, rootKey, dir);
      if NulFree(g.edges) {
        KeptOncePerTriple(g.edges, reachable, dir, kept, seen);
      }
    } else {
      NoneListed(g.nodes);
    }
    var found := KeepListed(g.nodes, reachable);
    NodeWeakOrder();
    SortByIsStable(found, NodeLess);
    nodes := SortBy(found, NodeLess);
    edges := SortBy(kept, EdgeLess);
  }

  /** An edge leaves a set of keys: by its start outwards, by its end inwards, by
      either when both directions are followed, if the far end has a key. */
  lemma LeavesMeans(e: GraphEdge, keys: set<string>)
    ensures Leaves(e, keys, Out) <==> e.from in keys && e.to != ""
    ensures Leaves(e, keys, In) <==> e.to in keys && e.from != ""
    ensures Leaves(e, keys, Both) <==> (e.from in keys && e.to != "") || (e.to in keys && e.from != "")
  {
    assert e.from in keys && e.to != "" ==> NeighborOf(e, e.from, Out) != "" && NeighborOf(e, e.from, Both) != "";
    assert e.to in keys && e.from != "" ==> NeighborOf(e, e.to, In) != "";
    assert e.to in keys && e.from != "" && e.from != e.to ==> NeighborOf(e, e.to, Both) != "";
  }

  /** In plain terms, for a root that names a node: which nodes and which edges
      of the graph the payload shows. */
  lemma PayloadMeans(g: Graph, root: string, dir: Dir, nodes: seq<GraphNode>, edges: seq<GraphEdge>, n: GraphNode, e: GraphEdge)
    requires FilteredBy(g, root, dir, nodes, edges) && root != "" && ResolveGraphNodeKey(g.nodes, root) != ""
    ensures var rootKey := ResolveGraphNodeKey(g.nodes, root);
      n in nodes <==> n in g.nodes && Reaches(Steps(g.edges, dir), rootKey, n.key)
    ensures NulFree(g.edges) && e in edges ==> e in g.edges
    ensures NulFree(g.edges) && e in g.edges ==>
      var reached := ReachSet(Steps(g.edges, dir), ResolveGraphNodeKey(g.nodes, root));
      var out, inward := e.from in reached && e.to != "", e.to in reached && e.from != "";
      HasTriple(edges, e) <==> (dir.Out? && out) || (dir.In? && inward) || (dir.Both? && (out || inward))
  {
    var reached := ReachSet(Steps(g.edges, dir), ResolveGraphNodeKey(g.nodes, root));
    ListedCount(g.nodes, reached, n);
    assert n in nodes <==> n in multiset(nodes);
    assert n in g.nodes <==> n in multiset(g.nodes);
    LeavesMeans(e, reached);
    if NulFree(g.edges) && e in g.edges && HasTriple(edges, e) {
      var f :| f in edges && SameTriple(e, f);
      LeavesMeans(f, reached);
    }
  }

  /** Without a root the payload is fixed, repeated keys and triples included:
      these keep the order they came in. */
  lemma RootlessIsFixed(g: Graph, dir: Dir, nodes: seq<GraphNode>, edges: seq<GraphEdge>,
                        nodes': seq<GraphNode>, edges': seq<GraphEdge>)
    requires FilteredBy(g, "", dir, nodes, edges) && FilteredBy(g, "", dir, nodes', edges')
    ensures nodes == nodes' && edges == edges'
  {
    NodeWeakOrder();
    EdgeWeakOrder();
    StableSortUnique(nodes, nodes', NodeLess);
    StableSortUnique(edges, edges', EdgeLess);
  }

  // ---- the order of the input is no matter ----

  ghost predicate DistinctKeys(nodes: seq<GraphNode>)
  {
    forall i, j :: 0 <= i < j < |nodes| ==> nodes[i].key != nodes[j].key
  }

  lemma {:induction false} ListedCount(nodes: seq<GraphNode>, keys: set<string>, n: GraphNode)
    ensures multiset(Listed(nodes, keys))[n] == if n.key in keys then multiset(nodes)[n] else 0
  {
    if nodes != [] {
      var last := |nodes| - 1;
      ListedCount(nodes[..last], keys, n);
      assert nodes == nodes[..last] + [nodes[last]];
    }
  }

  /** Nodes with distinct keys have one sorted order. */
  lemma SameNodes(a: seq<GraphNode>, b: seq<GraphNode>, all: seq<GraphNode>, s: seq<GraphNode>, t: seq<GraphNode>)
    requires multiset(a) == multiset(b) && StableSort(a, s, NodeLess) && StableSort(b, t, NodeLess)
    requires DistinctKeys(all) && forall n :: n in a ==> n in all
    ensures s == t
  {
    forall x, y | x in s && y in s && !NodeLess(x, y) && !NodeLess(y, x)
      ensures x == y
    {
      StrLessTotal(x.key, y.key);
      assert x in multiset(a) && y in multiset(a);
      assert x in a && y in a;
    }
    SortedUnique(s, t, NodeLess);
  }

  lemma SameListed(g: Graph, h: Graph, keys: set<string>)
    requires multiset(g.nodes) == multiset(h.nodes)
    ensures multiset(Listed(g.nodes, keys)) == multiset(Listed(h.nodes, keys))
    ensures forall n :: n in Listed(g.nodes, keys) ==> n in g.nodes
  {
    forall n ensures multiset(Listed(g.nodes, keys))[n] == multiset(Listed(h.nodes, keys))[n]
      ensures n in Listed(g.nodes, keys) ==> n in g.nodes
    {
      ListedCount(g.nodes, keys, n);
      ListedCount(h.nodes, keys, n);
      assert n in Listed(g.nodes, keys) <==> n in multiset(Listed(g.nodes, keys));
      assert n in g.nodes <==> n in multiset(g.nodes);
    }
  }

  lemma TripleUnique(edges: seq<GraphEdge>, e: GraphEdge, f: GraphEdge)
    requires DistinctTriples(edges) && e in edges && f in edges && SameTriple(e, f)
    ensures e == f
  {
  }

  lemma KeptMember(edges: seq<GraphEdge>, from: set<string>, dir: Dir, kept: seq<GraphEdge>, e: GraphEdge)
    requires DistinctTriples(edges) && OncePerTriple(edges, from, dir, kept)
    ensures e in kept <==> e in edges && Leaves(e, from, dir)
  {
    if e in edges && Leaves(e, from, dir) {
      assert HasTriple(kept, e);
      var f :| f in kept && SameTriple(e, f);
      TripleUnique(edges, e, f);
    }
  }

  lemma SameMembersOnce(s: seq<GraphEdge>, t: seq<GraphEdge>)
    requires forall e :: e in s <==> e in t
    requires DistinctTriples(s) && DistinctTriples(t)
    ensures multiset(s) == multiset(t)
  {
    forall e ensures multiset(s)[e] == multiset(t)[e] {
      if e in s {
        var i :| 0 <= i < |s| && s[i] == e;
        var j :| 0 <= j < |t| && t[j] == e;
        OnceOnly(s, i);
        OnceOnly(t, j);
      } else {
        assert e !in multiset(s) && e !in multiset(t);
      }
    }
  }

  lemma SameEdges(edges: seq<GraphEdge>, others: seq<GraphEdge>, from: set<string>, dir: Dir, kept: seq<GraphEdge>, kept': seq<GraphEdge>)
    requires multiset(edges) == multiset(others)
    requires DistinctTriples(edges)
    requires OncePerTriple(edges, from, dir, kept) && OncePerTriple(others, from, dir, kept')
    ensures kept == kept'
  {
    SortKeepsDistinct(edges, others);
    forall e ensures e in kept <==> e in kept' {
      KeptMember(edges, from, dir, kept, e);
      KeptMember(others, from, dir, kept', e);
      assert e in edges <==> e in multiset(edges);
      assert e in others <==> e in multiset(others);
    }
    SameMembersOnce(kept, kept');
    forall x, y | x in kept && y in kept && !EdgeLess(x, y) && !EdgeLess(y, x) ensures x == y {
      EdgeLessTotal(x, y);
    }
    SortedUnique(kept, kept', EdgeLess);
  }

  lemma SameReach(g: Graph, h: Graph, rootKey: string, dir: Dir,
                  nodes: seq<GraphNode>, edges: seq<GraphEdge>, nodes': seq<GraphNode>, edges': seq<GraphEdge>)
    requires multiset(g.nodes) == multiset(h.nodes) && multiset(g.edges) == multiset(h.edges)
    requires DistinctKeys(g.nodes) && DistinctTriples(g.edges) && NulFree(g.edges)
    requires Filtered(g, rootKey, dir, nodes, edges) && Filtered(h, rootKey, dir, nodes', edges')
    ensures nodes == nodes' && edges == edges'
  {
    forall e ensures e in g.edges <==> e in h.edges {
      assert e in multiset(g.edges) <==> e in multiset(h.edges);
    }
    assert Steps(g.edges, dir) == Steps(h.edges, dir);
    var from := ReachSet(Steps(g.edges, dir), rootKey);
    SameListed(g, h, from);
    SameNodes(Listed(g.nodes, from), Listed(h.nodes, from), g.nodes, nodes, nodes');
    SameEdges(g.edges, h.edges, from, dir, edges, edges');
  }

  lemma SameWhole(g: Graph, h: Graph,
                  nodes: seq<GraphNode>, edges: seq<GraphEdge>, nodes': seq<GraphNode>, edges': seq<GraphEdge>)
    requires multiset(g.nodes) == multiset(h.nodes) && multiset(g.edges) == multiset(h.edges)
    requires DistinctKeys(g.nodes) && DistinctTriples(g.edges)
    requires StableSort(g.nodes, nodes, NodeLess) && StableSort(h.nodes, nodes', NodeLess)
    requires StableSort(g.edges, edges, EdgeLess) && StableSort(h.edges, edges', EdgeLess)
    ensures nodes == nodes' && edges == edges'
  {
    SameNodes(g.nodes, h.nodes, g.nodes, nodes, nodes');
    forall x, y | x in edges && y in edges && !EdgeLess(x, y) && !EdgeLess(y, x) ensures x == y {
      EdgeLessTotal(x, y);
      assert x in multiset(g.edges) && y in multiset(g.edges);
      TripleUnique(g.edges, x, y);
    }
    SortedUnique(edges, edges', EdgeLess);
  }

  /** The root names a node by its key, or at most one node by its name. */
  ghost predicate Unambiguous(nodes: seq<GraphNode>, root: string)
  {
    (exists n :: n in nodes && n.key == root) || forall n, m :: n in nodes && m in nodes && n.name == root == m.name ==> n.key == m.key
  }

  lemma SameRoot(g: Graph, h: Graph, root: string)
    requires multiset(g.nodes) == multiset(h.nodes) && Unambiguous(g.nodes, root)
    requires forall n :: n in g.nodes ==> n.key != ""
    ensures ResolveGraphNodeKey(g.nodes, root) == ResolveGraphNodeKey(h.nodes, root)
  {
    forall n ensures n in g.nodes <==> n in h.nodes {
      assert n in multiset(g.nodes) <==> n in multiset(h.nodes);
    }
    NamedIsFound(g.nodes, root);
    NamedIsFound(h.nodes, root);
  }

  lemma {:induction false} NamedIsFound(nodes: seq<GraphNode>, name: string)
    requires forall n :: n in nodes ==> n.key != ""
    ensures (exists n :: n in nodes && n.name == name) ==> FirstNamed(nodes, name) != ""
  {
    if nodes != [] && nodes[0].name != name {
      NamedIsFound(nodes[1..], name);
    }
  }

  /** With distinct keys and triples, and a root that is not ambiguous, two
      readings of one graph in any order give the same payload, without a root
      as with one. */
  lemma FilterIgnoresOrder(g: Graph, h: Graph, root: string, dir: Dir,
                           nodes: seq<GraphNode>, edges: seq<GraphEdge>, nodes': seq<GraphNode>, edges': seq<GraphEdge>)
    requires multiset(g.nodes) == multiset(h.nodes) && multiset(g.edges) == multiset(h.edges)
    requires DistinctKeys(g.nodes) && DistinctTriples(g.edges) && NulFree(g.edges)
    requires root != "" ==> Unambiguous(g.nodes, root) && forall n :: n in g.nodes ==> n.key != ""
    requires FilteredBy(g, root, dir, nodes, edges) && FilteredBy(h, root, dir, nodes', edges')
    ensures nodes == nodes' && edges == edges'
  {
    if root == "" {
      SameWhole(g, h, nodes, edges, nodes', edges');
    } else {
      SameRoot(g, h, root);
      if ResolveGraphNodeKey(g.nodes, root) != "" {
        SameReach(g, h, ResolveGraphNodeKey(g.nodes, root), dir, nodes, edges, nodes', edges');
      }
    }
  }
}
