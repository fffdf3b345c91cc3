/** What the library's stable sort promises, for a caller's less-than. */
module Sorting {

  /** String order: code point by code point, a proper prefix first. */
  predicate StrLess(a: string, b: string)
  {
    b != "" && (a == "" || a[0] < b[0] || (a[0] == b[0] && StrLess(a[1..], b[1..])))
  }

  /** Asymmetric and negatively transitive: what a sort may be given. */
  ghost predicate WeakOrder<T(!new)>(less: (T, T) -> bool)
  {
    && (forall a, b :: less(a, b) ==> !less(b, a))
    && (forall a, b, c :: !less(a, b) && !less(b, c) ==> !less(a, c))
  }

  ghost predicate Sorted<T>(s: seq<T>, less: (T, T) -> bool)
  {
    forall i, j :: 0 <= i < j < |s| ==> !less(s[j], s[i])
  }

  function Insert<T>(x: T, s: seq<T>, less: (T, T) -> bool): seq<T>
  {
    if s == [] || !less(s[0], x) then [x] + s else [s[0]] + Insert(x, s[1..], less)
  }

  function SortBy<T>(s: seq<T>, less: (T, T) -> bool): seq<T>
  {
    if s == [] then [] else Insert(s[0], SortBy(s[1..], less), less)
  }

  ghost predicate Tied<T>(x: T, k: T, less: (T, T) -> bool)
  {
    !less(x, k) && !less(k, x)
  }

  /** The elements of s that tie with k, in their order. */
  ghost function Ties<T>(s: seq<T>, k: T, less: (T, T) -> bool): seq<T>
  {
    if s == [] then []
    else (if Tied(s[0], k, less) then [s[0]] else []) + Ties(s[1..], k, less)
  }

  lemma {:induction false} StrLessTotal(a: string, b: string)
    ensures a == b <==> !StrLess(a, b) && !StrLess(b, a)
    ensures !(StrLess(a, b) && StrLess(b, a))
  {
    if a != "" && b != "" && a[0] == b[0] {
      StrLessTotal(a[1..], b[1..]);
      assert a == [a[0]] + a[1..] && b == [b[0]] + b[1..];
    }
  }

  lemma {:induction false} StrLessTransitive(a: string, b: string, c: string)
    requires !StrLess(a, b) && !StrLess(b, c)
    ensures !StrLess(a, c)
    decreases |c|
  {
    if a != "" && b != "" && c != "" && a[0] == b[0] == c[0] {
      StrLessTransitive(a[1..], b[1..], c[1..]);
    }
  }

  /** The first place where two strings differ decides, or the shorter comes first. */
  lemma {:induction false} FirstDifferenceDecides(p: string, a: string, b: string)
    requires a == "" || b == "" || a[0] != b[0]
    ensures StrLess(p + a, p + b) <==> b != "" && (a == "" || a[0] < b[0])
  {
    if p == "" {
      assert p + a == a && p + b == b;
    } else {
      assert (p + a)[1..] == p[1..] + a && (p + b)[1..] == p[1..] + b;
      FirstDifferenceDecides(p[1..], a, b);
    }
  }

  lemma StrWeakOrder()
    ensures WeakOrder(StrLess)
  {
    forall a, b ensures StrLess(a, b) ==> !StrLess(b, a) { StrLessTotal(a, b); }
    forall a, b, c | !StrLess(a, b) && !StrLess(b, c) ensures !StrLess(a, c) { StrLessTransitive(a, b, c); }
  }

  lemma {:induction false} InsertKeeps<T>(x: T, s: seq<T>, less: (T, T) -> bool)
    ensures multiset(Insert(x, s, less)) == multiset{x} + multiset(s)
  {
    if s != [] && less(s[0], x) {
      InsertKeeps(x, s[1..], less);
      assert s == [s[0]] + s[1..];
    }
  }

  lemma SortedCons<T>(x: T, s: seq<T>, less: (T, T) -> bool)
    requires Sorted(s, less) && forall y :: y in s ==> !less(y, x)
    ensures Sorted([x] + s, less)
  {
  }

  lemma {:induction false} InsertSorted<T(!new)>(x: T, s: seq<T>, less: (T, T) -> bool)
    requires WeakOrder(less) && Sorted(s, less)
    ensures Sorted(Insert(x, s, less), less)
  {
    if s == [] {
    } else if !less(s[0], x) {
      forall y | y in s ensures !less(y, x) {
        var i :| 0 <= i < |s| && s[i] == y;
        assert !less(s[i], s[0]) || i == 0;
      }
      SortedCons(x, s, less);
    } else {
      InsertSorted(x, s[1..], less);
      InsertKeeps(x, s[1..], less);
      forall y | y in Insert(x, s[1..], less) ensures !less(y, s[0]) {
        assert y in multiset(Insert(x, s[1..], less));
        assert y == x || y in multiset(s[1..]);
      }
      SortedCons(s[0], Insert(x, s[1..], less), less);
    }
  }

  lemma TiesCons<T>(x: T, s: seq<T>, k: T, less: (T, T) -> bool)
    ensures Ties([x] + s, k, less) == (if Tied(x, k, less) then [x] else []) + Ties(s, k, less)
  {
  }

  lemma NotBothTied<T(!new)>(x: T, y: T, k: T, less: (T, T) -> bool)
    requires WeakOrder(less) && less(x, y)
    ensures !Tied(x, k, less) || !Tied(y, k, less)
  {
  }

  lemma {:induction false} InsertTies<T(!new)>(x: T, s: seq<T>, k: T, less: (T, T) -> bool)
    requires WeakOrder(less)
    ensures Ties(Insert(x, s, less), k, less) == Ties([x] + s, k, less)
  {
    if s != [] && less(s[0], x) {
      var y, rest := s[0], s[1..];
      InsertTies(x, rest, k, less);
      TiesCons(y, Insert(x, rest, less), k, less);
      TiesCons(x, rest, k, less);
      TiesCons(x, s, k, less);
      NotBothTied(y, x, k, less);
    }
  }

  /** A sort returns a sorted rearrangement of its input. */
  lemma {:induction false} SortBySorts<T(!new)>(s: seq<T>, less: (T, T) -> bool)
    requires WeakOrder(less)
    ensures Sorted(SortBy(s, less), less)
    ensures multiset(SortBy(s, less)) == multiset(s)
  {
    if s != [] {
      SortBySorts(s[1..], less);
      InsertSorted(s[0], SortBy(s[1..], less), less);
      InsertKeeps(s[0], SortBy(s[1..], less), less);
      assert s == [s[0]] + s[1..];
    }
  }

  lemma {:induction false} SortByKeepsTies<T(!new)>(s: seq<T>, k: T, less: (T, T) -> bool)
    requires WeakOrder(less)
    ensures Ties(SortBy(s, less), k, less) == Ties(s, k, less)
  {
    if s != [] {
      SortByKeepsTies(s[1..], k, less);
      InsertTies(s[0], SortBy(s[1..], less), k, less);
      TiesCons(s[0], SortBy(s[1..], less), k, less);
    }
  }

  /** What a stable sort promises: t is s sorted, ties in the order they came in. */
  ghost predicate StableSort<T(!new)>(s: seq<T>, t: seq<T>, less: (T, T) -> bool)
  {
    Sorted(t, less) && multiset(t) == multiset(s) && forall k :: Ties(t, k, less) == Ties(s, k, less)
  }

  lemma SortByIsStable<T(!new)>(s: seq<T>, less: (T, T) -> bool)
    requires WeakOrder(less)
    ensures StableSort(s, SortBy(s, less), less)
  {
    SortBySorts(s, less);
    forall k ensures Ties(SortBy(s, less), k, less) == Ties(s, k, less) {
      SortByKeepsTies(s, k, less);
    }
  }

  lemma StableHeads<T(!new)>(t: seq<T>, u: seq<T>, less: (T, T) -> bool)
    requires WeakOrder(less) && t != [] && u != []
    requires Sorted(t, less) && Sorted(u, less) && multiset(t) == multiset(u)
    requires Ties(t, t[0], less) == Ties(u, t[0], less)
    ensures t[0] == u[0]
  {
    SortedHeads(t, u, less);
    assert !less(t[0], t[0]) && Tied(u[0], t[0], less);
    assert Ties(t, t[0], less)[0] == t[0] && Ties(u, t[0], less)[0] == u[0];
  }

  lemma TiesOfRest<T(!new)>(t: seq<T>, u: seq<T>, k: T, less: (T, T) -> bool)
    requires t != [] && u != [] && t[0] == u[0] && Ties(t, k, less) == Ties(u, k, less)
    ensures Ties(t[1..], k, less) == Ties(u[1..], k, less)
  {
    var a, b := Ties(t[1..], k, less), Ties(u[1..], k, less);
    if Tied(t[0], k, less) {
      assert ([t[0]] + a)[1..] == a && ([u[0]] + b)[1..] == b;
    } else {
      assert [] + a == a && [] + b == b;
    }
  }

  /** The promise leaves one result only, so every stable sort is SortBy. */
  lemma {:induction false} StableSortUnique<T(!new)>(t: seq<T>, u: seq<T>, less: (T, T) -> bool)
    requires WeakOrder(less) && Sorted(t, less) && Sorted(u, less) && multiset(t) == multiset(u)
    requires forall k :: Ties(t, k, less) == Ties(u, k, less)
    ensures t == u
  {
    assert |t| == |multiset(t)| && |u| == |multiset(u)|;
    if t != [] {
      StableHeads(t, u, less);
      DropHead(t);
      DropHead(u);
      forall k ensures Ties(t[1..], k, less) == Ties(u[1..], k, less) {
        TiesOfRest(t, u, k, less);
      }
      StableSortUnique(t[1..], u[1..], less);
      assert t == [t[0]] + t[1..] && u == [u[0]] + u[1..];
    }
  }

  lemma SortByMembers<T(!new)>(s: seq<T>, less: (T, T) -> bool)
    requires WeakOrder(less)
    ensures forall x :: x in SortBy(s, less) <==> x in s
  {
    SortBySorts(s, less);
    assert forall x :: x in s <==> x in multiset(s);
    assert forall x :: x in SortBy(s, less) <==> x in multiset(SortBy(s, less));
  }

  lemma SortedHeads<T(!new)>(s: seq<T>, t: seq<T>, less: (T, T) -> bool)
    requires s != [] && t != []
    requires Sorted(s, less) && Sorted(t, less) && multiset(s) == multiset(t)
    ensures s[0] in t && t[0] in s
    ensures s[0] == t[0] || (!less(s[0], t[0]) && !less(t[0], s[0]))
  {
    assert s[0] in multiset(t) && t[0] in multiset(s);
    var i :| 0 <= i < |t| && t[i] == s[0];
    var j :| 0 <= j < |s| && s[j] == t[0];
  }

  lemma DropHead<T>(s: seq<T>)
    requires s != []
    ensures multiset(s[1..]) == multiset(s) - multiset{s[0]}
  {
    assert s == [s[0]] + s[1..];
  }

  /** Without ties there is only one sorted arrangement. */
  lemma {:induction false} SortedUnique<T(!new)>(s: seq<T>, t: seq<T>, less: (T, T) -> bool)
    requires Sorted(s, less) && Sorted(t, less) && multiset(s) == multiset(t)
    requires forall x, y :: x in s && y in s && !less(x, y) && !less(y, x) ==> x == y
    ensures s == t
  {
    assert |s| == |multiset(s)| && |t| == |multiset(t)|;
    if s != [] {
      SortedHeads(s, t, less);
      assert s[0] == t[0];
      DropHead(s);
      DropHead(t);
      SortedUnique(s[1..], t[1..], less);
      assert s == [s[0]] + s[1..] && t == [t[0]] + t[1..];
    }
  }
}
