/** The graph the converter works on: integer vertex identifiers and an edge list. */
module Graphs {

  /** One `e u v` line: the edge between vertices u and v. */
  datatype Edge = Edge(u: int, v: int)

  /** What the reader hands to the encoder: the vertex list and the edges in input order. */
  datatype Graph = Graph(vertices: seq<int>, edges: seq<Edge>)

  predicate StrictlyAscending(s: seq<int>) {
    forall i, j | 0 <= i < j < |s| :: s[i] < s[j]
  }

  predicate Distinct(s: seq<int>) {
    forall i, j | 0 <= i < j < |s| :: s[i] != s[j]
  }

  function Elements(s: seq<int>): set<int> {
    set x | x in s
  }

  /** Both ends of e are among the listed vertices. */
  predicate EdgeIn(vs: seq<int>, e: Edge) {
    e.u in vs && e.v in vs
  }

  /** Every edge's ends are among the listed vertices. */
  predicate WellFormed(vs: seq<int>, es: seq<Edge>) {
    forall i | 0 <= i < |es| :: EdgeIn(vs, es[i])
  }

  /** The set of all edge ends, grown edge by edge. */
  function Endpoints(es: seq<Edge>): set<int> {
    if es == [] then {} else Endpoints(es[..|es| - 1]) + {es[|es| - 1].u, es[|es| - 1].v}
  }

  /** x is an edge end exactly when some edge starts or ends at x. */
  lemma {:induction false} EndpointsMembers(es: seq<Edge>, x: int)
    ensures x in Endpoints(es) <==> exists i | 0 <= i < |es| :: es[i].u == x || es[i].v == x
    decreases |es|
  {
    if es != [] {
      var init := es[..|es| - 1];
      EndpointsMembers(init, x);
      if x in Endpoints(init) {
        var i :| 0 <= i < |init| && (init[i].u == x || init[i].v == x);
        assert es[i] == init[i];
      }
      if exists i | 0 <= i < |es| :: es[i].u == x || es[i].v == x {
        var i :| 0 <= i < |es| && (es[i].u == x || es[i].v == x);
        if i < |init| {
          assert init[i] == es[i];
        }
      }
    }
  }

  lemma StrictlyAscendingIsDistinct(s: seq<int>)
    requires StrictlyAscending(s)
    ensures Distinct(s)
  {
  }

  /** A strictly ascending list is determined by its elements: sorting a set has one answer. */
  lemma {:induction false} AscendingUnique(a: seq<int>, b: seq<int>)
    requires StrictlyAscending(a) && StrictlyAscending(b)
    requires Elements(a) == Elements(b)
    ensures a == b
    decreases |a|
  {
    if a != [] {
      assert a[0] in Elements(b);
      assert b != [];
      assert b[0] in Elements(a);
      assert a[0] == b[0] by {
        var i :| 0 <= i < |b| && b[i] == a[0];
        var j :| 0 <= j < |a| && a[j] == b[0];
        assert b[0] <= a[0] && a[0] <= b[0];
      }
      assert Elements(a[1..]) == Elements(b[1..]) by {
        forall x ensures x in Elements(a[1..]) <==> x in Elements(b[1..]) {
          if x in a[1..] {
            var i :| 1 <= i < |a| && a[i] == x;
            assert x in Elements(a);
            assert x in b && x != b[0];
            var j :| 0 <= j < |b| && b[j] == x;
            assert j != 0 && b[1..][j - 1] == x;
          }
          if x in b[1..] {
            var j :| 1 <= j < |b| && b[j] == x;
            assert x in Elements(b);
            assert x in a && x != a[0];
            var i :| 0 <= i < |a| && a[i] == x;
            assert i != 0 && a[1..][i - 1] == x;
          }
        }
      }
      AscendingUnique(a[1..], b[1..]);
      assert a == [a[0]] + a[1..] && b == [b[0]] + b[1..];
    } else {
      ElementsEmpty(a);
      ElementsEmpty(b);
    }
  }

  lemma ElementsEmpty(s: seq<int>)
    ensures Elements(s) == {} <==> s == []
  {
    if s != [] {
      assert s[0] in Elements(s);
    }
  }

  /** Some member of a non-empty set. */
  lemma SomeMember(s: set<int>) returns (x: int)
    requires s != {}
    ensures x in s
  {
    if forall y :: y !in s {
      assert false;
    }
    x :| x in s;
  }

  /** Every non-empty finite set of integers has a least element. */
  lemma {:induction false} LeastOf(s: set<int>) returns (m: int)
    requires s != {}
    ensures m in s && forall y | y in s :: m <= y
    decreases |s|
  {
    var x := SomeMember(s);
    if s == {x} {
      m := x;
    } else {
      var m' := LeastOf(s - {x});
      m := if x < m' then x else m';
      forall y | y in s ensures m <= y {
        if y != x {
          assert y in s - {x};
        }
      }
    }
  }

  /** Every finite set of integers has an ascending listing. */
  lemma {:induction false} AscendingExists(s: set<int>)
    ensures exists r :: StrictlyAscending(r) && Elements(r) == s
    decreases |s|
  {
    if s == {} {
      assert StrictlyAscending([]) && Elements([]) == s;
    } else {
      var m := LeastOf(s);
      AscendingExists(s - {m});
      var r :| StrictlyAscending(r) && Elements(r) == s - {m};
      var r' := [m] + r;
      assert StrictlyAscending(r') by {
        forall i, j | 0 <= i < j < |r'| ensures r'[i] < r'[j] {
          if i > 0 {
            assert r'[i] == r[i - 1] && r'[j] == r[j - 1];
          } else {
            assert r'[j] == r[j - 1] && r[j - 1] in Elements(r);
          }
        }
      }
      assert Elements(r') == s by {
        forall y ensures y in Elements(r') <==> y in s {
          if y in s && y != m {
            assert y in Elements(r);
            var i :| 0 <= i < |r| && r[i] == y;
            assert r'[i + 1] == y;
          }
          if y in Elements(r') {
            var i :| 0 <= i < |r'| && r'[i] == y;
            if i > 0 { assert r[i - 1] == y; assert y in Elements(r); }
          }
        }
      }
    }
  }

  lemma ElementsSnoc(r: seq<int>, m: int)
    ensures Elements(r + [m]) == Elements(r) + {m}
  {
    assert forall y | y in r + [m] :: y in r || y == m;
  }

  lemma AscendingSnoc(r: seq<int>, m: int)
    requires StrictlyAscending(r)
    requires forall i | 0 <= i < |r| :: r[i] < m
    ensures StrictlyAscending(r + [m])
  {
  }

  /** `sorted(s)` for a set of integers, as a value. */
  ghost function SortedOf(s: set<int>): (r: seq<int>)
    ensures StrictlyAscending(r) && Elements(r) == s
  {
    AscendingExists(s);
    var r :| StrictlyAscending(r) && Elements(r) == s;
    r
  }

  /** What the sorting loop keeps: r lists, in ascending order, the part of s already taken,
      and every element still to take is above all of r. */
  predicate SortProgress(s: set<int>, r: seq<int>, rest: set<int>) {
    && rest <= s
    && StrictlyAscending(r)
    && Elements(r) == s - rest
    && forall i, y | 0 <= i < |r| && y in rest :: r[i] < y
  }

  /** Taking the least remaining element keeps the loop's invariant. */
  lemma SortStep(s: set<int>, r: seq<int>, rest: set<int>, m: int)
    requires SortProgress(s, r, rest)
    requires m in rest && forall y | y in rest :: m <= y
    ensures SortProgress(s, r + [m], rest - {m})
  {
    ElementsSnoc(r, m);
    AscendingSnoc(r, m);
    var r', rest' := r + [m], rest - {m};
    forall i, y | 0 <= i < |r'| && y in rest' ensures r'[i] < y {
      if i < |r| {
        assert r'[i] == r[i];
      }
    }
  }

  /** `sorted(s)`: the elements of s in strictly ascending order. */
  method SortVertices(s: set<int>) returns (r: seq<int>)
    ensures StrictlyAscending(r) && Elements(r) == s
    ensures r == SortedOf(s)
  {
    r := [];
    var rest := s;
    while rest != {}
      invariant SortProgress(s, r, rest)
      decreases |rest|
    {
      ghost var least := LeastOf(rest);
      var m :| m in rest && forall y | y in rest :: m <= y;
      SortStep(s, r, rest, m);
      r := r + [m];
      rest := rest - {m};
    }
    AscendingUnique(r, SortedOf(s));
  }
}
