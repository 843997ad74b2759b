/**
 * Pure facts about adjacency maps, the representation behind the peak-traffic
 * graph: every vertex is a key mapped to the set of its neighbours, so each
 * undirected edge is recorded twice.
 */
module Adjacency {

  /** A sequence in which no element occurs twice. */
  ghost predicate NoDuplicates<T>(s: seq<T>)
  {
    forall i, j :: 0 <= i < j < |s| ==> s[i] != s[j]
  }

  /** `order` lists every element of `s` exactly once. */
  ghost predicate IsOrderingOf<T>(order: seq<T>, s: set<T>)
  {
    && NoDuplicates(order)
    && (forall i :: 0 <= i < |order| ==> order[i] in s)
    && (forall x :: x in s ==> x in order)
  }

  /** Concatenating two duplicate-free sequences with no common element gives a duplicate-free sequence. */
  lemma NoDuplicatesAppend<T>(a: seq<T>, b: seq<T>)
    requires NoDuplicates(a) && NoDuplicates(b)
    requires forall x :: x in a ==> x !in b
    ensures NoDuplicates(a + b)
  {
    forall i, j | 0 <= i < j < |a + b|
      ensures (a + b)[i] != (a + b)[j]
    {
      if j < |a| {
      } else if i >= |a| {
        assert (a + b)[i] == b[i - |a|] && (a + b)[j] == b[j - |a|];
      } else {
        assert (a + b)[i] == a[i] && a[i] in a;
        assert (a + b)[j] == b[j - |a|] && b[j - |a|] in b;
      }
    }
  }

  /** Concatenation is associative. */
  lemma ConcatAssociative<T>(a: seq<T>, b: seq<T>, c: seq<T>)
    ensures (a + b) + c == a + (b + c)
  {
  }

  /** Dropping a prefix from a concatenation leaves the rest. */
  lemma DropPrefix<T>(a: seq<T>, b: seq<T>)
    ensures |a| <= |a + b| && (a + b)[|a|..] == b
  {
  }

  /** A subset is no larger than its superset. */
  lemma {:induction false} SubsetCardinality<T>(a: set<T>, b: set<T>)
    requires a <= b
    ensures |a| <= |b|
    decreases b
  {
    if a != {} {
      var x :| x in a;
      SubsetCardinality(a - {x}, b - {x});
    }
  }

  /**
   * Symmetric and irreflexive: no vertex is its own neighbour, every neighbour is
   * itself a key, and adjacency holds in both directions.
   */
  ghost predicate Undirected<V>(m: map<V, set<V>>)
  {
    forall u, w :: u in m && w in m[u] ==> w != u && w in m && u in m[w]
  }

  /** Every key has at least one neighbour: the map only learns of a vertex through an edge. */
  ghost predicate NoIsolated<V>(m: map<V, set<V>>)
  {
    forall u :: u in m ==> m[u] != {}
  }

  /** The invariant of every map built by adding edges between distinct vertices. */
  ghost predicate WellFormed<V>(m: map<V, set<V>>)
  {
    Undirected(m) && NoIsolated(m)
  }

  /** The neighbours currently recorded for `u`, empty if `u` is not a key. */
  function Recorded<V>(m: map<V, set<V>>, u: V): set<V>
  {
    if u in m then m[u] else {}
  }

  /**
   * Records the edge u--v: `v` joins the neighbours of `u` (which becomes a key if it
   * was not one) and then `u` joins the neighbours of `v`.
   */
  function AddEdge<V>(m: map<V, set<V>>, u: V, v: V): (r: map<V, set<V>>)
    ensures r.Keys == m.Keys + {u, v}
    ensures v in r[u] && u in r[v]
    ensures forall w :: w in r ==>
      r[w] == Recorded(m, w) + (if w == u then {v} else {}) + (if w == v then {u} else {})
  {
    var m1 := m[u := Recorded(m, u) + {v}];
    m1[v := Recorded(m1, v) + {u}]
  }

  /** Adding an edge that is already present changes nothing. */
  lemma AddEdgeIdempotent<V>(m: map<V, set<V>>, u: V, v: V)
    ensures AddEdge(AddEdge(m, u, v), u, v) == AddEdge(m, u, v)
  {
    var once := AddEdge(m, u, v);
    var twice := AddEdge(once, u, v);
    forall w | w in twice
      ensures twice[w] == once[w]
    {
      assert Recorded(once, w) == once[w];
    }
  }

  /** The edge u--v and the edge v--u are the same edge. */
  lemma AddEdgeSymmetric<V>(m: map<V, set<V>>, u: V, v: V)
    ensures AddEdge(m, u, v) == AddEdge(m, v, u)
  {
    var a, b := AddEdge(m, u, v), AddEdge(m, v, u);
    forall w | w in a
      ensures a[w] == b[w]
    {
    }
  }

  /** Adding an edge between two distinct vertices keeps a map well formed. */
  lemma AddEdgeWellFormed<V>(m: map<V, set<V>>, u: V, v: V)
    requires WellFormed(m) && u != v
    ensures WellFormed(AddEdge(m, u, v))
  {
    var r := AddEdge(m, u, v);
    forall x, w | x in r && w in r[x]
      ensures w != x && w in r && x in r[w]
    {
      if w !in Recorded(m, x) {
        assert (x == u && w == v) || (x == v && w == u);
      }
    }
  }

  /** In a well-formed map every vertex has at least one and fewer than |keys| neighbours. */
  lemma DegreeBounds<V>(m: map<V, set<V>>, u: V)
    requires WellFormed(m) && u in m
    ensures 1 <= |m[u]| < |m|
  {
    assert m[u] != {};
    assert m[u] <= m.Keys - {u};
    SubsetCardinality(m[u], m.Keys - {u});
  }

  /** Among finitely many keys there is one of least degree. */
  lemma {:induction false} MinimumDegreeExists<V>(m: map<V, set<V>>, s: set<V>)
    requires s != {} && s <= m.Keys
    ensures exists v :: v in s && forall w :: w in s ==> |m[v]| <= |m[w]|
    decreases s
  {
    var x :| x in s;
    if s == {x} {
      assert forall w :: w in s ==> w == x;
    } else {
      MinimumDegreeExists(m, s - {x});
      var y :| y in s - {x} && forall w :: w in s - {x} ==> |m[y]| <= |m[w]|;
      if |m[x]| < |m[y]| {
        assert forall w :: w in s ==> |m[x]| <= |m[w]|;
      } else {
        assert forall w :: w in s ==> |m[y]| <= |m[w]|;
      }
    }
  }
}
