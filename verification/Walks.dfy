/** Walks over a finite relation, given as its set of pairs. The plan's
    dependency graph and the catalog graph are both read through it. */
module Walks {

  ghost predicate IsWalk<T>(edges: set<(T, T)>, w: seq<T>)
  {
    |w| > 0 && forall i, j :: 0 <= i && j == i + 1 < |w| ==> (w[i], w[j]) in edges
  }

  ghost predicate Joins<T>(edges: set<(T, T)>, w: seq<T>, a: T, b: T)
  {
    IsWalk(edges, w) && w[0] == a && w[|w| - 1] == b
  }

  ghost predicate Reaches<T(!new)>(edges: set<(T, T)>, a: T, b: T)
  {
    exists w :: Joins(edges, w, a, b)
  }

  /** Reaches by a walk of at least one edge. */
  ghost predicate ReachesPlus<T(!new)>(edges: set<(T, T)>, a: T, b: T)
  {
    exists w :: Joins(edges, w, a, b) && |w| > 1
  }

  ghost predicate Acyclic<T(!new)>(edges: set<(T, T)>)
  {
    forall x :: !ReachesPlus(edges, x, x)
  }

  ghost predicate Simple<T>(w: seq<T>)
  {
    forall i, j :: 0 <= i < j < |w| ==> w[i] != w[j]
  }

  /** The relation read backwards. */
  ghost function Reversed<T>(edges: set<(T, T)>): set<(T, T)>
  {
    set e | e in edges :: (e.1, e.0)
  }

  /** What x reaches by at least one edge; it shrinks along the edges of an
      acyclic relation, so recursion along them terminates. */
  ghost function Below<T(!new)>(edges: set<(T, T)>, x: T): set<T>
  {
    set e | e in edges && ReachesPlus(edges, x, e.1) :: e.1
  }

  lemma Concat<T>(edges: set<(T, T)>, u: seq<T>, v: seq<T>, a: T, b: T, c: T)
    requires Joins(edges, u, a, b) && Joins(edges, v, b, c)
    ensures Joins(edges, u + v[1..], a, c)
  {
  }

  lemma ReachesTransitive<T(!new)>(edges: set<(T, T)>, a: T, b: T, c: T)
    requires Reaches(edges, a, b) && Reaches(edges, b, c)
    ensures Reaches(edges, a, c)
    ensures ReachesPlus(edges, a, b) || ReachesPlus(edges, b, c) ==> ReachesPlus(edges, a, c)
  {
    var u :| Joins(edges, u, a, b) && (ReachesPlus(edges, a, b) ==> |u| > 1);
    var v :| Joins(edges, v, b, c) && (ReachesPlus(edges, b, c) ==> |v| > 1);
    Concat(edges, u, v, a, b, c);
  }

  lemma EdgeReaches<T(!new)>(edges: set<(T, T)>, a: T, b: T)
    requires (a, b) in edges
    ensures ReachesPlus(edges, a, b) && Reaches(edges, a, b)
  {
    assert Joins(edges, [a, b], a, b);
  }

  lemma ReachesSelf<T(!new)>(edges: set<(T, T)>, a: T)
    ensures Reaches(edges, a, a)
  {
    assert Joins(edges, [a], a, a);
  }

  lemma PlusReaches<T(!new)>(edges: set<(T, T)>, a: T, b: T)
    ensures ReachesPlus(edges, a, b) ==> Reaches(edges, a, b)
  {
  }

  /** A set that holds a and is closed under the relation holds all a reaches. */
  lemma {:induction false} StaysInside<T>(edges: set<(T, T)>, inside: set<T>, w: seq<T>, a: T, b: T)
    requires a in inside && Joins(edges, w, a, b)
    requires forall e :: e in edges && e.0 in inside ==> e.1 in inside
    ensures b in inside
    decreases |w|
  {
    if |w| > 1 {
      var e := (w[0], w[1]);
      assert e in edges && e.0 in inside;
      StaysInside(edges, inside, w[1..], w[1], b);
    }
  }

  /** Every walk can be cut down to a simple one with the same ends. */
  lemma {:induction false} SimpleWalk<T>(edges: set<(T, T)>, w: seq<T>, a: T, b: T) returns (s: seq<T>)
    requires Joins(edges, w, a, b)
    ensures Joins(edges, s, a, b) && Simple(s)
    decreases |w|
  {
    if Simple(w) {
      return w;
    }
    var i, j :| 0 <= i < j < |w| && w[i] == w[j];
    assert Joins(edges, w[..i + 1], a, w[i]);
    assert Joins(edges, w[j..], w[i], b);
    Concat(edges, w[..i + 1], w[j..], a, w[i], b);
    s := SimpleWalk(edges, w[..i + 1] + w[j..][1..], a, b);
  }

  lemma {:induction false} ReverseWalk<T>(edges: set<(T, T)>, w: seq<T>, a: T, b: T) returns (r: seq<T>)
    requires Joins(edges, w, a, b)
    ensures Joins(Reversed(edges), r, b, a) && |r| == |w|
    decreases |w|
  {
    if |w| == 1 {
      return w;
    }
    var t := ReverseWalk(edges, w[1..], w[1], b);
    assert (w[0], w[1]) in edges;
    assert (w[1], w[0]) in Reversed(edges);
    r := t + [a];
    forall i | 0 <= i < |r| - 1
      ensures (r[i], r[i + 1]) in Reversed(edges)
    {
      assert i < |t| - 1 || (r[i], r[i + 1]) == (w[1], w[0]);
    }
  }

  lemma ReversedReaches<T(!new)>(edges: set<(T, T)>, a: T, b: T)
    ensures Reaches(edges, a, b) <==> Reaches(Reversed(edges), b, a)
    ensures ReachesPlus(edges, a, b) <==> ReachesPlus(Reversed(edges), b, a)
  {
    assert Reversed(Reversed(edges)) == edges by {
      forall e | e in edges
        ensures e in Reversed(Reversed(edges))
      {
        assert (e.1, e.0) in Reversed(edges);
      }
    }
    forall w | Joins(edges, w, a, b)
      ensures Reaches(Reversed(edges), b, a)
      ensures |w| > 1 ==> ReachesPlus(Reversed(edges), b, a)
    {
      var r := ReverseWalk(edges, w, a, b);
    }
    forall w | Joins(Reversed(edges), w, b, a)
      ensures Reaches(edges, a, b)
      ensures |w| > 1 ==> ReachesPlus(edges, a, b)
    {
      var r := ReverseWalk(Reversed(edges), w, b, a);
    }
  }

  lemma BelowShrinks<T(!new)>(edges: set<(T, T)>, a: T, b: T)
    requires Acyclic(edges) && (a, b) in edges
    ensures Below(edges, b) < Below(edges, a)
  {
    EdgeReaches(edges, a, b);
    assert b in Below(edges, a) by {
      var e := (a, b);
      assert e in edges && ReachesPlus(edges, a, e.1);
    }
    assert b !in Below(edges, b);
    forall y | y in Below(edges, b)
      ensures y in Below(edges, a)
    {
      var e :| e in edges && ReachesPlus(edges, b, e.1) && e.1 == y;
      PlusReaches(edges, b, y);
      ReachesTransitive(edges, a, b, y);
    }
  }

  /** In a finite acyclic relation every element is reached from one that
      nothing points to. */
  lemma {:induction false} HasSource<T(!new)>(edges: set<(T, T)>, x: T) returns (r: T)
    requires Acyclic(edges)
    ensures Reaches(edges, r, x)
    ensures forall e :: e in edges ==> e.1 != r
    decreases Below(Reversed(edges), x)
  {
    if e :| e in edges && e.1 == x {
      assert Acyclic(Reversed(edges)) by {
        forall y ensures !ReachesPlus(Reversed(edges), y, y) { ReversedReaches(edges, y, y); }
      }
      assert (x, e.0) in Reversed(edges);
      BelowShrinks(Reversed(edges), x, e.0);
      r := HasSource(edges, e.0);
      EdgeReaches(edges, e.0, x);
      ReachesTransitive(edges, r, e.0, x);
    } else {
      r := x;
      ReachesSelf(edges, x);
    }
  }

  lemma OneEdgeIsAcyclic<T(!new)>(a: T, b: T)
    requires a != b
    ensures Acyclic({(a, b)})
  {
    // every walk of an edge or more starts at a and ends at b
    forall w: seq<T>, x | |w| > 1 ensures !Joins({(a, b)}, w, x, x) {
      if IsWalk({(a, b)}, w) {
        var last := |w| - 2;
        assert (w[0], w[1]) in {(a, b)} && (w[last], w[last + 1]) in {(a, b)};
      }
    }
  }
}
