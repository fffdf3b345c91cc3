/** The catalog's dependency graph and what a direction makes reachable in it. */
module CatalogGraph {
  import opened Walks

  datatype Dir = Out | In | Both

  datatype GraphNode = GraphNode(key: string, kind: string, name: string)

  datatype GraphEdge = GraphEdge(from: string, to: string, typ: string, optional: bool)

  datatype Graph = Graph(nodes: seq<GraphNode>, edges: seq<GraphEdge>)

  /** The node on the far side of e from key, or "" when e does not leave key in the direction. */
  function NeighborOf(e: GraphEdge, key: string, dir: Dir): string
  {
    match dir
    case Out => if e.from == key then e.to else ""
    case In => if e.to == key then e.from else ""
    case Both => if e.from == key then e.to else if e.to == key then e.from else ""
  }

  ghost function Steps(edges: seq<GraphEdge>, dir: Dir): set<(string, string)>
  {
    set e, k | e in edges && k in {e.from, e.to} && NeighborOf(e, k, dir) != "" :: (k, NeighborOf(e, k, dir))
  }

  lemma Step(edges: seq<GraphEdge>, dir: Dir, k: string, n: string)
    ensures (k, n) in Steps(edges, dir) <==> n != "" && exists e :: e in edges && NeighborOf(e, k, dir) == n
  {
  }

  /** What k reaches, k included. */
  ghost function ReachSet(steps: set<(string, string)>, k: string): (r: set<string>)
    ensures forall n :: n in r <==> Reaches(steps, k, n)
  {
    var r := {k} + set e | e in steps && Reaches(steps, k, e.1) :: e.1;
    assert forall n :: n in r <==> Reaches(steps, k, n) by {
      ReachesSelf(steps, k);
      forall n | Reaches(steps, k, n)
        ensures n in r
      {
        var w :| Joins(steps, w, k, n);
        if |w| > 1 {
          var last := |w| - 2;
          var e := (w[last], w[last + 1]);
          assert e in steps && Reaches(steps, k, e.1);
        }
      }
    }
    r
  }

  /** The first node with the key, else the first with the name, else "". */
  function ResolveGraphNodeKey(nodes: seq<GraphNode>, root: string): (key: string)
    ensures (exists n :: n in nodes && n.key == root) ==> key == root
    ensures key != "" ==> exists n :: n in nodes && n.key == key && (n.key == root || n.name == root)
    ensures (forall n :: n in nodes ==> n.key != root && n.name != root) ==> key == ""
  {
    if exists n :: n in nodes && n.key == root then root else FirstNamed(nodes, root)
  }

  function FirstNamed(nodes: seq<GraphNode>, name: string): (key: string)
    ensures key != "" ==> exists n :: n in nodes && n.key == key && n.name == name
    ensures (forall n :: n in nodes ==> n.name != name) ==> key == ""
  {
    if nodes == [] then "" else if nodes[0].name == name then nodes[0].key else FirstNamed(nodes[1..], name)
  }

  /** Among nodes that share a name the first is meant. */
  lemma {:induction false} FirstNameWins(nodes: seq<GraphNode>, name: string, i: nat)
    requires i < |nodes| && nodes[i].name == name && forall j :: 0 <= j < i ==> nodes[j].name != name
    requires forall n :: n in nodes ==> n.key != name
    ensures ResolveGraphNodeKey(nodes, name) == nodes[i].key
  {
    if i > 0 {
      FirstNameWins(nodes[1..], name, i - 1);
    }
  }

  // ---- reading the graph backwards ----

  /** A walk that starts at a named node only leaves named nodes. */
  ghost function Named(steps: set<(string, string)>): set<(string, string)>
  {
    set s | s in steps && s.0 != "" && s.1 != ""
  }

  lemma NamedReaches(edges: seq<GraphEdge>, dir: Dir, a: string, b: string)
    requires a != ""
    ensures Reaches(Steps(edges, dir), a, b) <==> Reaches(Named(Steps(edges, dir)), a, b)
  {
    var steps := Steps(edges, dir);
    forall w | Joins(steps, w, a, b)
      ensures Joins(Named(steps), w, a, b)
    {
      forall i | 0 <= i < |w| - 1
        ensures (w[i], w[i + 1]) in Named(steps)
      {
        assert i > 0 ==> (w[i - 1], w[i]) in steps;
      }
    }
    forall w | Joins(Named(steps), w, a, b)
      ensures Joins(steps, w, a, b)
    {
    }
  }

  lemma OppositeSteps(edges: seq<GraphEdge>)
    ensures Named(Steps(edges, In)) == Reversed(Named(Steps(edges, Out)))
  {
    forall a, b | a != "" && b != ""
      ensures (a, b) in Steps(edges, In) <==> (b, a) in Steps(edges, Out)
    {
      Step(edges, In, a, b);
      Step(edges, Out, b, a);
      assert forall e :: e in edges ==> (NeighborOf(e, a, In) == b <==> NeighborOf(e, b, Out) == a);
    }
    assert forall s :: s in Named(Steps(edges, In)) ==> (s.1, s.0) in Named(Steps(edges, Out));
    forall s | s in Reversed(Named(Steps(edges, Out)))
      ensures s in Named(Steps(edges, In))
    {
      assert (s.1, s.0) in Named(Steps(edges, Out));
      assert (s.0, s.1) in Steps(edges, In);
    }
  }

  /** What a depends on, read backwards, is what depends on a. */
  lemma OutIsInBackwards(edges: seq<GraphEdge>, a: string, b: string)
    requires a != "" && b != ""
    ensures Reaches(Steps(edges, Out), a, b) <==> Reaches(Steps(edges, In), b, a)
  {
    NamedReaches(edges, Out, a, b);
    NamedReaches(edges, In, b, a);
    OppositeSteps(edges);
    ReversedReaches(Named(Steps(edges, Out)), a, b);
  }

  // ---- what each direction follows ----

  lemma OutSteps(edges: seq<GraphEdge>, a: string, b: string)
    ensures (a, b) in Steps(edges, Out) <==> b != "" && exists e :: e in edges && e.from == a && e.to == b
  {
    Step(edges, Out, a, b);
  }

  lemma InSteps(edges: seq<GraphEdge>, a: string, b: string)
    ensures (a, b) in Steps(edges, In) <==> b != "" && exists e :: e in edges && e.to == a && e.from == b
  {
    Step(edges, In, a, b);
  }

  lemma BothSteps(edges: seq<GraphEdge>, a: string, b: string)
    requires a != "" && b != ""
    ensures (a, b) in Steps(edges, Both) <==>
      exists e :: e in edges && ((e.from == a && e.to == b) || (e.to == a && e.from == b))
  {
    Step(edges, Both, a, b);
  }

  /** Both directions are the two taken together. */
  lemma BothIsUnion(edges: seq<GraphEdge>)
    ensures Named(Steps(edges, Both)) == Named(Steps(edges, Out)) + Named(Steps(edges, In))
  {
    forall a, b
      ensures (a, b) in Named(Steps(edges, Both)) <==> (a, b) in Named(Steps(edges, Out)) + Named(Steps(edges, In))
    {
      if a != "" && b != "" {
        BothSteps(edges, a, b);
        OutSteps(edges, a, b);
        InSteps(edges, a, b);
      }
    }
  }

  /** Following both directions, what reaches also is reached. */
  lemma BothIsSymmetric(edges: seq<GraphEdge>, a: string, b: string)
    requires a != "" && b != ""
    ensures Reaches(Steps(edges, Both), a, b) <==> Reaches(Steps(edges, Both), b, a)
  {
    var named := Named(Steps(edges, Both));
    NamedReaches(edges, Both, a, b);
    NamedReaches(edges, Both, b, a);
    ReversedReaches(named, a, b);
    assert Reversed(named) == named by {
      forall x, y ensures (x, y) in named <==> (y, x) in named {
        if x != "" && y != "" {
          BothSteps(edges, x, y);
          BothSteps(edges, y, x);
        }
      }
      forall e | e in named ensures e in Reversed(named) {
        assert (e.1, e.0) in named;
      }
    }
  }
}
