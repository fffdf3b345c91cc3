/** What the lines of a printed tree say: which of them stand above another,
    where the cycle mark is, and what stands under a key. */
module TreeLines {
  import opened CatalogGraph
  import opened CatalogTree

  /** Line j is a key's, and line i stands in the block under it: every line
      from there to i is indented further. */
  ghost predicate Above(lines: seq<Line>, j: nat, i: nat)
  {
    j < i < |lines| && lines[j].NodeLine? && forall m :: j < m <= i ==> |lines[j].indent| < |lines[m].indent|
  }

  /** One of the keys above line i, or of `path`, is the same again. */
  ghost predicate Repeats(lines: seq<Line>, i: nat, path: set<string>)
    requires i < |lines| && lines[i].NodeLine?
  {
    lines[i].key in path || exists j: nat :: Above(lines, j, i) && lines[j].key == lines[i].key
  }

  ghost predicate Marked(lines: seq<Line>, path: set<string>)
  {
    forall i {:trigger Repeats(lines, i, path)} ::
      0 <= i < |lines| && lines[i].NodeLine? ==> (lines[i].cycle <==> Repeats(lines, i, path))
  }

  /** All lines are indented by at least n. */
  ghost predicate Indented(lines: seq<Line>, n: nat)
  {
    forall i :: 0 <= i < |lines| ==> |lines[i].indent| >= n
  }

  lemma AboveInFirst(a: seq<Line>, b: seq<Line>, j: nat, i: nat)
    requires i < |a|
    ensures Above(a + b, j, i) <==> Above(a, j, i)
  {
    var all := a + b;
    assert forall m :: 0 <= m < |a| ==> all[m] == a[m];
  }

  lemma AboveInSecond(a: seq<Line>, b: seq<Line>, j: nat, i: nat)
    requires i < |b|
    ensures Above(a + b, |a| + j, |a| + i) <==> Above(b, j, i)
  {
    var all := a + b;
    assert forall m :: 0 <= m < |b| ==> all[|a| + m] == b[m];
    if Above(b, j, i) {
      forall m | |a| + j < m <= |a| + i
        ensures |all[|a| + j].indent| < |all[m].indent|
      {
        assert all[m] == b[m - |a|];
      }
    }
    if Above(all, |a| + j, |a| + i) {
      forall m | j < m <= i
        ensures |b[j].indent| < |b[m].indent|
      {
        assert all[|a| + m] == b[m];
      }
    }
  }

  lemma RepeatsInFirst(a: seq<Line>, b: seq<Line>, i: nat, path: set<string>)
    requires i < |a| && a[i].NodeLine?
    ensures Repeats(a + b, i, path) <==> Repeats(a, i, path)
  {
    forall j: nat ensures Above(a + b, j, i) <==> Above(a, j, i) {
      AboveInFirst(a, b, j, i);
    }
  }

  /** A line of the first block stands above this one of the second, and has its key. */
  ghost predicate RepeatsAcross(a: seq<Line>, b: seq<Line>, i: nat)
    requires i < |b| && b[i].NodeLine?
  {
    exists j: nat :: j < |a| && Above(a + b, j, |a| + i) && a[j].key == b[i].key
  }

  lemma RepeatsInSecond(a: seq<Line>, b: seq<Line>, i: nat, path: set<string>)
    requires i < |b| && b[i].NodeLine?
    ensures Repeats(a + b, |a| + i, path) <==>
      Repeats(b, i, path) || RepeatsAcross(a, b, i)
  {
    var all := a + b;
    if j: nat :| Above(all, j, |a| + i) && all[j].key == b[i].key && j >= |a| {
      AboveInSecond(a, b, j - |a|, i);
      assert all[j] == b[j - |a|];
    }
    if j: nat :| Above(b, j, i) && b[j].key == b[i].key {
      AboveInSecond(a, b, j, i);
      assert all[|a| + j] == b[j];
    }
  }

  /** Nothing in a block stands above the next block. */
  lemma NothingAcross(a: seq<Line>, b: seq<Line>, i: nat)
    requires i < |b| && b[i].NodeLine? && Indented(a, |b[0].indent|)
    ensures !RepeatsAcross(a, b, i)
  {
    var all, at := a + b, |a| + i;
    forall j: nat | j < |a| ensures !Above(all, j, at) {
      assert all[|a|] == b[0] && all[j] == a[j];
    }
  }

  lemma NodeLineOf(a: seq<Line>, b: seq<Line>, i: nat, path: set<string>)
    requires Marked(b, path) && |a| <= i < |a + b| && (a + b)[i].NodeLine?
    ensures (a + b)[i] == b[i - |a|] && ((a + b)[i].cycle <==> Repeats(b, i - |a|, path))
  {
  }

  lemma MarkInSecond(a: seq<Line>, b: seq<Line>, i: nat, path: set<string>)
    requires Marked(b, path) && i < |b| && b[i].NodeLine? && Indented(a, |b[0].indent|)
    ensures (a + b)[|a| + i] == b[i] && (b[i].cycle <==> Repeats(a + b, |a| + i, path))
  {
    NodeLineOf(a, b, |a| + i, path);
    RepeatsInSecond(a, b, i, path);
    NothingAcross(a, b, i);
  }

  /** Two blocks one after the other. */
  lemma MarkedJoin(a: seq<Line>, b: seq<Line>, path: set<string>)
    requires Marked(a, path) && Marked(b, path) && (b != [] ==> Indented(a, |b[0].indent|))
    ensures Marked(a + b, path)
  {
    var all := a + b;
    forall i | 0 <= i < |all| && all[i].NodeLine?
      ensures all[i].cycle <==> Repeats(all, i, path)
    {
      if i < |a| {
        assert all[i] == a[i];
        RepeatsInFirst(a, b, i, path);
      } else {
        assert all[i] == b[i - |a|];
        MarkInSecond(a, b, i - |a|, path);
      }
    }
  }

  /** An edge's line before the tree at its far side. */
  lemma MarkedUnderEdge(edge: Line, t: seq<Line>, path: set<string>)
    requires edge.EdgeLine? && Marked(t, path)
    ensures Marked([edge] + t, path)
  {
    var all := [edge] + t;
    forall i | 0 <= i < |all| && all[i].NodeLine?
      ensures all[i].cycle <==> Repeats(all, i, path)
    {
      NodeLineOf([edge], t, i, path);
      RepeatsInSecond([edge], t, i - 1, path);
    }
  }

  lemma MarkUnderKey(head: Line, t: seq<Line>, path: set<string>, i: nat)
    requires head.NodeLine? && i < |t| && t[i].NodeLine? && Indented(t, |head.indent| + 1)
    requires Marked(t, path + {head.key})
    ensures ([head] + t)[1 + i] == t[i] && (t[i].cycle <==> Repeats([head] + t, 1 + i, path))
  {
    UnderKey(head, t, i);
    RepeatsInSecond([head], t, i, path);
    assert Repeats(t, i, path + {head.key}) <==> t[i].key == head.key || Repeats(t, i, path);
    assert RepeatsAcross([head], t, i) <==> t[i].key == head.key by {
      assert [head][0] == head;
    }
  }

  /** A key's own line before everything under it. */
  lemma MarkedUnderKey(head: Line, t: seq<Line>, path: set<string>)
    requires head.NodeLine? && !head.cycle && head.key !in path
    requires Marked(t, path + {head.key}) && Indented(t, |head.indent| + 1)
    ensures Marked([head] + t, path)
  {
    var all := [head] + t;
    forall i | 0 <= i < |all| && all[i].NodeLine?
      ensures all[i].cycle <==> Repeats(all, i, path)
    {
      if i > 0 {
        assert all[i] == t[i - 1];
        MarkUnderKey(head, t, path, i - 1);
      }
    }
  }

  lemma UnderKey(head: Line, t: seq<Line>, i: nat)
    requires head.NodeLine? && i < |t| && Indented(t, |head.indent| + 1)
    ensures Above([head] + t, 0, 1 + i)
  {
  }

  lemma {:induction false} TreeMarked(s: Source, k: string, indent: string, path: set<string>)
    ensures Marked(Tree(s, k, indent, path), path) && Indented(Tree(s, k, indent, path), |indent|)
    decreases s.Ends() - path, 0
  {
    if k !in path {
      var es := s.Children(k);
      ChildrenOf(s, k);
      var head := NodeLine(indent, k, Label(s.names, k), false);
      if es != [] {
        assert es[0] in es;
        BranchesMarked(s, k, es, indent, path + {k});
        MarkedUnderKey(head, Branches(s, k, es, indent, path + {k}), path);
      } else {
        MarkedUnderKey(head, [], path);
        assert [head] + [] == [head];
      }
    }
  }

  /** The lines under a key that is indented by n. */
  ghost predicate Block(t: seq<Line>, n: nat, path: set<string>)
  {
    Marked(t, path) && Indented(t, n + 2) && (t != [] ==> |t[0].indent| == n + 2)
  }

  lemma BlockJoin(a: seq<Line>, b: seq<Line>, n: nat, path: set<string>)
    requires Block(a, n, path) && Block(b, n, path)
    ensures Block(a + b, n, path)
  {
    MarkedJoin(a, b, path);
  }

  lemma {:induction false} BranchesMarked(s: Source, k: string, es: seq<GraphEdge>, indent: string, path: set<string>)
    ensures Block(Branches(s, k, es, indent, path), |indent|, path)
    decreases s.Ends() - path, 1 + |es|
  {
    if es != [] {
      BranchMarked(s, k, es[0], indent, path);
      BranchesMarked(s, k, es[1..], indent, path);
      BlockJoin(Branch(s, k, es[0], indent, path), Branches(s, k, es[1..], indent, path), |indent|, path);
    }
  }

  lemma BranchMarked(s: Source, k: string, e: GraphEdge, indent: string, path: set<string>)
    ensures Block(Branch(s, k, e, indent, path), |indent|, path)
    decreases s.Ends() - path, 1
  {
    var nb := NeighborOf(e, k, s.dir);
    if nb != "" {
      TreeMarked(s, nb, indent + "    ", path);
      MarkedUnderEdge(EdgeLine(indent + "  ", e.typ, e.optional), Tree(s, nb, indent + "    ", path), path);
    }
  }

  /** In the tree of a root, a key's line is marked as a cycle exactly when the
      same key stands above it. */
  lemma CycleMarks(s: Source, root: string, i: nat)
    requires var lines := Tree(s, root, "", {});
      i < |lines| && lines[i].NodeLine?
    ensures var lines := Tree(s, root, "", {});
      lines[i].cycle <==> exists j: nat :: Above(lines, j, i) && lines[j].key == lines[i].key
  {
    TreeMarked(s, root, "", {});
    assert Repeats(Tree(s, root, "", {}), i, {}) <==> Tree(s, root, "", {})[i].cycle;
  }

  // ---- names and edges ----

  /** A later node takes the name of a key from an earlier one. */
  lemma {:induction false} NamedByLast(nodes: seq<GraphNode>, i: nat)
    requires i < |nodes| && forall j :: i < j < |nodes| ==> nodes[j].key != nodes[i].key
    ensures nodes[i].key in NameByKey(nodes) && NameByKey(nodes)[nodes[i].key] == nodes[i].name
  {
    var n := |nodes| - 1;
    if i < n {
      NamedByLast(nodes[..n], i);
    }
  }

  /** Each edge is listed at a key once for each of its ends there that the
      direction leaves by, so parallel edges are all kept. */
  lemma {:induction false} ListedForEachEnd(edges: seq<GraphEdge>, k: string, dir: Dir, e: GraphEdge)
    ensures multiset(Touching(edges, k, dir))[e] == multiset(edges)[e] *
      ((if dir != In && e.from == k then 1 else 0) + (if dir != Out && e.to == k then 1 else 0))
  {
    if edges != [] {
      var n := |edges| - 1;
      assert edges == edges[..n] + [edges[n]];
      ListedForEachEnd(edges[..n], k, dir, e);
      AddedForEachEnd(edges[n], k, dir, e);
      assert Touching(edges, k, dir) == Touching(edges[..n], k, dir) + Added(edges[n], k, dir);
    }
  }

  lemma AddedForEachEnd(f: GraphEdge, k: string, dir: Dir, e: GraphEdge)
    ensures multiset(Added(f, k, dir))[e] == if f != e then 0 else
      (if dir != In && e.from == k then 1 else 0) + (if dir != Out && e.to == k then 1 else 0)
  {
  }

  /** `part` stands in the lines from line `at` on. */
  ghost predicate At(lines: seq<Line>, at: nat, part: seq<Line>)
  {
    at + |part| <= |lines| && lines[at..at + |part|] == part
  }

  /** A key's line begins a whole tree of that key, below some path. */
  ghost predicate Begins(s: Source, lines: seq<Line>, i: nat, path: set<string>)
    requires i < |lines| && lines[i].NodeLine?
  {
    At(lines, i, Tree(s, lines[i].key, lines[i].indent, path))
  }

  lemma BeginsInSecond(s: Source, a: seq<Line>, b: seq<Line>, i: nat, path: set<string>)
    requires i < |b| && b[i].NodeLine? && Begins(s, b, i, path)
    ensures (a + b)[|a| + i] == b[i] && Begins(s, a + b, |a| + i, path)
  {
    var n := |Tree(s, b[i].key, b[i].indent, path)|;
    assert (a + b)[|a| + i..|a| + i + n] == b[i..i + n];
  }

  lemma BeginsInFirst(s: Source, a: seq<Line>, b: seq<Line>, i: nat, path: set<string>)
    requires i < |a| && a[i].NodeLine? && Begins(s, a, i, path)
    ensures (a + b)[i] == a[i] && Begins(s, a + b, i, path)
  {
    var n := |Tree(s, a[i].key, a[i].indent, path)|;
    assert (a + b)[i..i + n] == a[i..i + n];
  }

  lemma TreeParts(s: Source, k: string, indent: string, path: set<string>)
    requires k !in path
    ensures Tree(s, k, indent, path) == [NodeLine(indent, k, Label(s.names, k), false)] + Branches(s, k, s.Children(k), indent, path + {k})
    ensures s.Children(k) != [] ==> k in s.Ends()
  {
    ChildrenOf(s, k);
    var es := s.Children(k);
    assert es != [] ==> es[0] in es;
  }

  lemma BeginsItself(s: Source, k: string, indent: string, path: set<string>)
    ensures var t := Tree(s, k, indent, path);
      t[0] == NodeLine(indent, k, Label(s.names, k), k in path) && Begins(s, t, 0, path)
  {
    var t := Tree(s, k, indent, path);
    assert t[0..|t|] == t;
  }

  ghost predicate Rooted(s: Source, lines: seq<Line>, i: nat)
    requires i < |lines| && lines[i].NodeLine?
  {
    exists path :: Begins(s, lines, i, path)
  }

  ghost predicate AllRooted(s: Source, lines: seq<Line>)
  {
    forall i {:trigger Rooted(s, lines, i)} :: 0 <= i < |lines| && lines[i].NodeLine? ==> Rooted(s, lines, i)
  }

  lemma RootedInFirst(s: Source, a: seq<Line>, b: seq<Line>, i: nat)
    requires i < |a| && a[i].NodeLine? && Rooted(s, a, i)
    ensures (a + b)[i] == a[i] && Rooted(s, a + b, i)
  {
    var path :| Begins(s, a, i, path);
    BeginsInFirst(s, a, b, i, path);
  }

  lemma RootedInSecond(s: Source, a: seq<Line>, b: seq<Line>, i: nat)
    requires i < |b| && b[i].NodeLine? && Rooted(s, b, i)
    ensures (a + b)[|a| + i] == b[i] && Rooted(s, a + b, |a| + i)
  {
    var path :| Begins(s, b, i, path);
    BeginsInSecond(s, a, b, i, path);
  }

  lemma RootedAfter(s: Source, a: seq<Line>, b: seq<Line>)
    requires AllRooted(s, b)
    requires forall i {:trigger Rooted(s, a + b, i)} :: 0 <= i < |a| && (a + b)[i].NodeLine? ==> Rooted(s, a + b, i)
    ensures AllRooted(s, a + b)
  {
    forall i | |a| <= i < |a + b| && (a + b)[i].NodeLine?
      ensures Rooted(s, a + b, i)
    {
      assert Rooted(s, b, i - |a|);
      RootedInSecond(s, a, b, i - |a|);
    }
  }

  lemma RootedJoin(s: Source, a: seq<Line>, b: seq<Line>)
    requires AllRooted(s, a) && AllRooted(s, b)
    ensures AllRooted(s, a + b)
  {
    forall i | 0 <= i < |a| && (a + b)[i].NodeLine?
      ensures Rooted(s, a + b, i)
    {
      assert Rooted(s, a, i);
      RootedInFirst(s, a, b, i);
    }
    RootedAfter(s, a, b);
  }

  lemma {:induction false} TreeRooted(s: Source, k: string, indent: string, path: set<string>)
    ensures AllRooted(s, Tree(s, k, indent, path))
    decreases s.Ends() - path, 0
  {
    BeginsItself(s, k, indent, path);
    var t := Tree(s, k, indent, path);
    assert Rooted(s, t, 0);
    if k !in path {
      TreeParts(s, k, indent, path);
      var head, under := [NodeLine(indent, k, Label(s.names, k), false)], Branches(s, k, s.Children(k), indent, path + {k});
      if s.Children(k) != [] {
        BranchesRooted(s, k, s.Children(k), indent, path + {k});
      }
      RootedAfter(s, head, under);
    }
  }

  lemma {:induction false} BranchesRooted(s: Source, k: string, es: seq<GraphEdge>, indent: string, path: set<string>)
    ensures AllRooted(s, Branches(s, k, es, indent, path))
    decreases s.Ends() - path, 1 + |es|
  {
    if es != [] {
      BranchRooted(s, k, es[0], indent, path);
      BranchesRooted(s, k, es[1..], indent, path);
      RootedJoin(s, Branch(s, k, es[0], indent, path), Branches(s, k, es[1..], indent, path));
    }
  }

  lemma BranchRooted(s: Source, k: string, e: GraphEdge, indent: string, path: set<string>)
    ensures AllRooted(s, Branch(s, k, e, indent, path))
    decreases s.Ends() - path, 1
  {
    var nb := NeighborOf(e, k, s.dir);
    if nb != "" {
      TreeRooted(s, nb, indent + "    ", path);
      RootedAfter(s, [EdgeLine(indent + "  ", e.typ, e.optional)], Tree(s, nb, indent + "    ", path));
    }
  }

  lemma BeginsInTree(s: Source, root: string, i: nat) returns (path: set<string>)
    requires var t := Tree(s, root, "", {});
      i < |t| && t[i].NodeLine?
    ensures Begins(s, Tree(s, root, "", {}), i, path)
  {
    TreeRooted(s, root, "", {});
    assert Rooted(s, Tree(s, root, "", {}), i);
    path :| Begins(s, Tree(s, root, "", {}), i, path);
  }

  lemma HeadOf(s: Source, lines: seq<Line>, i: nat, path: set<string>)
    requires i < |lines| && lines[i].NodeLine? && Begins(s, lines, i, path)
    ensures (lines[i].cycle <==> lines[i].key in path) && lines[i].text == Label(s.names, lines[i].key)
  {
    var t := Tree(s, lines[i].key, lines[i].indent, path);
    BeginsItself(s, lines[i].key, lines[i].indent, path);
    assert lines[i..i + |t|][0] == lines[i];
  }

  /** A line shows the name of its key, or the key when it has none. */
  lemma LinesShowNames(s: Source, root: string, i: nat)
    requires var lines := Tree(s, root, "", {});
      i < |lines| && lines[i].NodeLine?
    ensures var l := Tree(s, root, "", {})[i];
      l.text == if l.key in s.names && s.names[l.key] != "" then s.names[l.key] else l.key
  {
    var p := BeginsInTree(s, root, i);
    HeadOf(s, Tree(s, root, "", {}), i, p);
  }

  /** The edge's own line, and the key at its far side on the next. */
  ghost predicate EdgeAt(s: Source, lines: seq<Line>, m: nat, k: string, e: GraphEdge, indent: string)
  {
    && m + 1 < |lines|
    && lines[m] == EdgeLine(indent + "  ", e.typ, e.optional)
    && lines[m + 1].NodeLine? && lines[m + 1].key == NeighborOf(e, k, s.dir) && lines[m + 1].indent == indent + "    "
  }

  lemma {:induction false} EdgeInBranches(s: Source, k: string, es: seq<GraphEdge>, indent: string, path: set<string>, e: GraphEdge)
    returns (m: nat)
    requires e in es && NeighborOf(e, k, s.dir) != ""
    ensures EdgeAt(s, Branches(s, k, es, indent, path), m, k, e, indent)
    decreases |es|
  {
    var a, b := Branch(s, k, es[0], indent, path), Branches(s, k, es[1..], indent, path);
    assert Branches(s, k, es, indent, path) == a + b;
    if es[0] == e {
      var edge := [EdgeLine(indent + "  ", e.typ, e.optional)];
      assert a == edge + Tree(s, NeighborOf(e, k, s.dir), indent + "    ", path);
      m := 0;
    } else {
      m := EdgeInBranches(s, k, es[1..], indent, path, e);
      assert (a + b)[|a| + m] == b[m] && (a + b)[|a| + m + 1] == b[m + 1];
      m := |a| + m;
    }
  }

  lemma EdgeBelow(s: Source, k: string, indent: string, path: set<string>, e: GraphEdge) returns (n: nat)
    requires e in s.edges && NeighborOf(e, k, s.dir) != ""
    ensures var under := Branches(s, k, s.Children(k), indent, path);
      EdgeAt(s, under, n, k, e, indent) && Indented(under, |indent| + 2)
  {
    ChildrenOf(s, k);
    n := EdgeInBranches(s, k, s.Children(k), indent, path, e);
    BranchesMarked(s, k, s.Children(k), indent, path);
  }

  lemma EdgeUnderKey(s: Source, k: string, indent: string, path: set<string>, e: GraphEdge) returns (m: nat)
    requires k !in path && e in s.edges && NeighborOf(e, k, s.dir) != ""
    ensures EdgeAt(s, Tree(s, k, indent, path), m, k, e, indent) && Above(Tree(s, k, indent, path), 0, m)
  {
    var n := EdgeBelow(s, k, indent, path + {k}, e);
    EdgeUnderHead(s, NodeLine(indent, k, Label(s.names, k), false), Branches(s, k, s.Children(k), indent, path + {k}), n, e);
    TreeParts(s, k, indent, path);
    m := 1 + n;
  }

  lemma EdgeUnderHead(s: Source, head: Line, under: seq<Line>, n: nat, e: GraphEdge)
    requires head.NodeLine? && Indented(under, |head.indent| + 2) && EdgeAt(s, under, n, head.key, e, head.indent)
    ensures EdgeAt(s, [head] + under, 1 + n, head.key, e, head.indent) && Above([head] + under, 0, 1 + n)
  {
    UnderKey(head, under, n);
    var all, m := [head] + under, 1 + n;
    assert all[m] == under[n] && all[m + 1] == under[n + 1];
  }

  /** Under every key that is not marked, each edge that leaves it in the
      direction is printed with its type and whether it is optional, and the
      node at the edge's far side right after it. */
  lemma EveryEdgeIsPrinted(s: Source, root: string, i: nat, e: GraphEdge) returns (m: nat)
    requires var lines := Tree(s, root, "", {});
      i < |lines| && lines[i].NodeLine? && !lines[i].cycle
      && e in s.edges && NeighborOf(e, lines[i].key, s.dir) != ""
    ensures var lines := Tree(s, root, "", {});
      Above(lines, i, m) && EdgeAt(s, lines, m, lines[i].key, e, lines[i].indent)
  {
    var lines := Tree(s, root, "", {});
    var p := BeginsInTree(s, root, i);
    HeadOf(s, lines, i, p);
    m := EdgeAtPart(s, lines, i, p, e);
  }

  lemma EdgeAtPart(s: Source, lines: seq<Line>, i: nat, path: set<string>, e: GraphEdge) returns (m: nat)
    requires i < |lines| && lines[i].NodeLine? && Begins(s, lines, i, path) && lines[i].key !in path
    requires e in s.edges && NeighborOf(e, lines[i].key, s.dir) != ""
    ensures Above(lines, i, m) && EdgeAt(s, lines, m, lines[i].key, e, lines[i].indent)
  {
    var k, indent := lines[i].key, lines[i].indent;
    var n := EdgeUnderKey(s, k, indent, path, e);
    AboveAt(s, lines, i, Tree(s, k, indent, path), n, k, e, indent);
    m := i + n;
  }

  lemma AboveAt(s: Source, lines: seq<Line>, at: nat, part: seq<Line>, n: nat, k: string, e: GraphEdge, indent: string)
    requires At(lines, at, part) && Above(part, 0, n) && EdgeAt(s, part, n, k, e, indent)
    ensures Above(lines, at, at + n) && EdgeAt(s, lines, at + n, k, e, indent)
  {
    forall x | 0 <= x < |part| ensures lines[at + x] == part[x] {
      assert lines[at..at + |part|][x] == lines[at + x];
    }
    forall m | at < m <= at + n ensures lines[m] == part[m - at] {
      assert lines[at + (m - at)] == part[m - at];
    }
  }
}
