/**
 * The peak-traffic graph and its maximal-clique enumerator: Bron-Kerbosch
 * without pivoting, with the top level visiting vertices in order of degree.
 */
module PeakTraffic {
  import opened Adjacency
  import opened CliqueTheory

  /** A lookup either succeeds or fails the way a missing dictionary key does. */
  datatype Result<T> = Ok(value: T) | KeyError

  /** An undirected graph held as an adjacency map; each edge is recorded at both ends. */
  class Graph<V(==,!new)> {
    var adj: map<V, set<V>>

    /** Symmetric, irreflexive, and every vertex has a neighbour. */
    ghost predicate Valid()
      reads this
    {
      WellFormed(adj)
    }

    /** A graph with no vertices. */
    constructor ()
      ensures Valid() && adj == map[]
    {
      adj := map[];
    }

    /** Records the edge u--v at both endpoints and returns the pair. */
    method AddPair(u: V, v: V) returns (pair: (V, V))
      requires Valid() && u != v
      modifies this
      ensures Valid()
      ensures adj == AddEdge(old(adj), u, v)
      ensures pair == (u, v)
    {
      ghost var m0 := adj;
      if u in adj {
        adj := adj[u := adj[u] + {v}];
      } else {
        assert Recorded(m0, u) + {v} == {v};
        adj := adj[u := {v}];
      }
      ghost var m1 := adj;
      if v in adj {
        adj := adj[v := adj[v] + {u}];
      } else {
        assert Recorded(m1, v) + {u} == {u};
        adj := adj[v := {u}];
      }
      pair := (u, v);
      AddEdgeWellFormed(old(adj), u, v);
    }

    /** The neighbour set of `key`, or KeyError when `key` is not a vertex. */
    function Neighbors(key: V): (r: Result<set<V>>)
      reads this
      ensures r.Ok? <==> key in adj
      ensures r.Ok? ==> r.value == adj[key]
    {
      if key in adj then Ok(adj[key]) else KeyError
    }

    /** Adjacency seen through Neighbors is symmetric and irreflexive. */
    lemma NeighborsSymmetric(u: V, w: V)
      requires Valid() && Neighbors(u).Ok?
      ensures w in Neighbors(u).value <==> Neighbors(w).Ok? && u in Neighbors(w).value
      ensures u !in Neighbors(u).value
    {
    }

    /** The number of neighbours of `key`, or KeyError when `key` is not a vertex. */
    function Degree(key: V): (r: Result<nat>)
      reads this
      ensures r.Ok? <==> Neighbors(key).Ok?
      ensures r.Ok? ==> r.value == |Neighbors(key).value|
    {
      match Neighbors(key)
      case Ok(n) => Ok(|n|)
      case KeyError => KeyError
    }

    /** Every vertex has at least one and at most |vertices| - 1 neighbours. */
    lemma DegreeRange(key: V)
      requires Valid() && key in Vertices()
      ensures 1 <= Degree(key).value < |Vertices()|
    {
      DegreeBounds(adj, key);
    }

    /** The vertices: exactly the keys that Neighbors accepts. */
    function Vertices(): (r: set<V>)
      reads this
      ensures forall k :: k in r <==> Neighbors(k).Ok?
    {
      adj.Keys
    }

    /**
     * Every vertex once, in non-decreasing order of degree (the degree in the whole
     * graph, not in what remains); vertices of equal degree come in no fixed order.
     */
    method DegeneracyOrdering() returns (order: seq<V>)
      ensures IsOrderingOf(order, Vertices())
      ensures forall i, j :: 0 <= i < j < |order| ==> Degree(order[i]).value <= Degree(order[j]).value
    {
      order := [];
      var rest := Vertices();
      while rest != {}
        invariant rest <= adj.Keys
        invariant NoDuplicates(order)
        invariant forall i :: 0 <= i < |order| ==> order[i] in adj && order[i] !in rest
        invariant forall x :: x in adj ==> x in rest || x in order
        invariant forall i, j :: 0 <= i < j < |order| ==> |adj[order[i]]| <= |adj[order[j]]|
        invariant forall i, w :: 0 <= i < |order| && w in rest ==> |adj[order[i]]| <= |adj[w]|
        decreases rest
      {
        MinimumDegreeExists(adj, rest);
        var v :| v in rest && forall w :: w in rest ==> |adj[v]| <= |adj[w]|;
        order := order + [v];
        rest := rest - {v};
      }
    }

    /**
     * All maximal cliques, each exactly once; nothing else. The empty set is never
     * reported, so an empty graph yields no cliques.
     */
    method MaxCliques() returns (cliques: seq<set<V>>)
      requires Valid()
      ensures NoDuplicates(cliques)
      ensures forall c :: c in cliques <==> IsMaximalClique(adj, c) && c != {}
      ensures Vertices() == {} ==> cliques == []
    {
      var order := DegeneracyOrdering();
      cliques := MaxCliquesInOrder(order);
    }

    /**
     * The top level of the search, branching on the vertices in the given order.
     * Whatever the order, the cliques found are all maximal cliques, each exactly
     * once; only their order in the list depends on it.
     */
    method MaxCliquesInOrder(order: seq<V>) returns (cliques: seq<set<V>>)
      requires Valid() && IsOrderingOf(order, Vertices())
      ensures NoDuplicates(cliques)
      ensures forall c :: c in cliques <==> IsMaximalClique(adj, c) && c != {}
      ensures Vertices() == {} ==> cliques == []
    {
      var possible := Vertices();
      var acc: set<V> := {};
      var excluded: set<V> := {};
      cliques := [];
      assert CommonNeighbors(adj, acc) == adj.Keys;
      for i := 0 to |order|
        invariant SearchFrame(adj, acc, possible, excluded)
        invariant forall j :: i <= j < |order| ==> order[j] in possible
        invariant forall j :: 0 <= j < i ==> order[j] in excluded
        invariant i == 0 ==> cliques == []
        invariant ReportedExcept(adj, cliques, acc, adj.Keys, possible)
      {
        var v := order[i];
        ChildFrame(adj, acc, possible, excluded, v);
        var neighborsOfV := Neighbors(v).value;
        ghost var before := cliques;
        cliques := BronKerbosch(acc + {v}, possible * neighborsOfV, excluded * neighborsOfV, cliques);
        AppendBranch(adj, acc, adj.Keys, possible, excluded, v, before, cliques[|before|..]);
        possible := possible - {v};
        excluded := excluded + {v};
        forall j | i + 1 <= j < |order|
          ensures order[j] in possible
        {
          assert order[j] != order[i];
        }
      }
      forall w | w in adj
        ensures w in excluded
      {
        var j :| 0 <= j < |order| && order[j] == w;
      }
      assert acc + possible == {};
      assert Vertices() == {} ==> order == [] by {
        if order != [] {
          assert order[0] in Vertices();
        }
      }
    }

    /**
     * The recursive step on the frame (acc, possible, excluded): appends to `cliques`
     * every maximal clique lying between acc and acc + possible, each exactly once, and
     * nothing else. acc itself is appended exactly when possible and excluded are empty.
     */
    method BronKerbosch(acc: set<V>, possible: set<V>, excluded: set<V>, cliques: seq<set<V>>)
      returns (result: seq<set<V>>)
      requires SearchFrame(adj, acc, possible, excluded)
      ensures |cliques| <= |result| && result == cliques + result[|cliques|..]
      ensures Enumerates(adj, result[|cliques|..], acc, possible)
      decreases possible
    {
      result := cliques;
      // acc is reported when nothing can extend it and nothing was excluded
      ghost var ownReport: seq<set<V>> := [];
      if |possible| == 0 && |excluded| == 0 {
        result := result + [acc];
        ownReport := [acc];
      }
      ghost var head := result;
      ghost var found: seq<set<V>> := [];
      var p, x := possible, excluded;
      // The loop visits the candidates as they were on entry; removing each tried
      // vertex from p keeps p equal to the part not yet visited.
      while p != {}
        invariant p <= possible
        invariant SearchFrame(adj, acc, p, x)
        invariant result == head + found
        invariant possible == {} ==> found == []
        invariant ReportedExcept(adj, found, acc, possible, p)
        decreases p
      {
        var v :| v in p;
        ChildFrame(adj, acc, p, x, v);
        var neighborsOfV := Neighbors(v).value;
        ghost var before := result;
        result := BronKerbosch(acc + {v}, p * neighborsOfV, x * neighborsOfV, result);
        ghost var branch := result[|before|..];
        ConcatAssociative(head, found, branch);
        AppendBranch(adj, acc, possible, p, x, v, found, branch);
        found := found + branch;
        p := p - {v};
        x := x + {v};
      }
      ConcatAssociative(cliques, ownReport, found);
      DropPrefix(cliques, ownReport + found);
      FinishFrame(adj, acc, possible, excluded, ownReport, found);
    }
  }
}
