/**
 * Cliques of an undirected adjacency map and the facts the Bron-Kerbosch search
 * rests on. A search frame is the triple (R, P, X): R the clique being grown,
 * P the candidates that may still extend it, X the vertices already tried.
 */
module CliqueTheory {
  import opened Adjacency

  /** Every two distinct members of `c` are neighbours. */
  ghost predicate IsClique<V>(m: map<V, set<V>>, c: set<V>)
  {
    c <= m.Keys && forall u, w :: u in c && w in c && u != w ==> w in m[u]
  }

  /** A clique that cannot be grown by any further vertex. */
  ghost predicate IsMaximalClique<V>(m: map<V, set<V>>, c: set<V>)
  {
    IsClique(m, c) && forall w :: w in m && w !in c ==> !IsClique(m, c + {w})
  }

  /** Every subset of a clique is a clique. */
  lemma SubClique<V>(m: map<V, set<V>>, d: set<V>, e: set<V>)
    requires IsClique(m, d) && e <= d
    ensures IsClique(m, e)
  {
  }

  /** Maximality in the usual sense: a clique is maximal iff no strictly larger clique contains it. */
  lemma MaximalIffNoLargerClique<V>(m: map<V, set<V>>, c: set<V>)
    requires IsClique(m, c)
    ensures IsMaximalClique(m, c) <==> forall d :: IsClique(m, d) && c <= d ==> d == c
  {
    if IsMaximalClique(m, c) {
      forall d | IsClique(m, d) && c <= d
        ensures d == c
      {
        forall w | w in d
          ensures w in c
        {
          SubClique(m, d, c + {w});
        }
      }
    } else {
      var w :| w in m && w !in c && IsClique(m, c + {w});
      assert c + {w} != c;
    }
  }

  /** The vertices adjacent to every member of `r` (all vertices when `r` is empty). */
  ghost function CommonNeighbors<V>(m: map<V, set<V>>, r: set<V>): set<V>
  {
    set w | w in m.Keys && forall u :: u in r ==> u in m && w in m[u]
  }

  /** The frame invariant: P and X split the common neighbours of the clique R. */
  ghost predicate SearchFrame<V>(m: map<V, set<V>>, r: set<V>, p: set<V>, x: set<V>)
  {
    Undirected(m) && IsClique(m, r) && p !! x && p + x == CommonNeighbors(m, r)
  }

  /** The maximal cliques that the frame (R, P, X) is responsible for reporting. */
  ghost predicate Extends<V>(m: map<V, set<V>>, r: set<V>, p: set<V>, c: set<V>)
  {
    IsMaximalClique(m, c) && r <= c && c <= r + p
  }

  /** `found` lists, once each, exactly the maximal cliques c with r <= c <= r + p. */
  ghost predicate Enumerates<V(!new)>(m: map<V, set<V>>, found: seq<set<V>>, r: set<V>, p: set<V>)
  {
    NoDuplicates(found) && forall c :: c in found <==> Extends(m, r, p, c)
  }

  /**
   * `found` lists, once each, the maximal cliques the frame (R, pAll, _) reports that
   * are not inside R + p: those already reported by the branches on pAll - p.
   */
  ghost predicate ReportedExcept<V(!new)>(m: map<V, set<V>>, found: seq<set<V>>, r: set<V>, pAll: set<V>, p: set<V>)
  {
    NoDuplicates(found) && forall c :: c in found <==> Extends(m, r, pAll, c) && !(c <= r + p)
  }

  /** A common neighbour of a clique is outside it. */
  lemma CommonNeighborOutside<V>(m: map<V, set<V>>, r: set<V>, w: V)
    requires Undirected(m) && w in CommonNeighbors(m, r)
    ensures w !in r
  {
    forall u | u in r
      ensures u != w
    {
      assert w in m[u];
    }
  }

  /** Adding a common neighbour to a clique gives a clique, whose common neighbours are the old ones adjacent to it. */
  lemma ExtendFrame<V>(m: map<V, set<V>>, r: set<V>, v: V)
    requires Undirected(m) && IsClique(m, r) && v in CommonNeighbors(m, r)
    ensures v !in r
    ensures IsClique(m, r + {v})
    ensures CommonNeighbors(m, r + {v}) == CommonNeighbors(m, r) * m[v]
  {
    CommonNeighborOutside(m, r, v);
    var r' := r + {v};
    forall a, b | a in r' && b in r' && a != b
      ensures b in m[a]
    {
      if a == v {
        assert a in m[b];
      }
    }
  }

  /** An outside vertex extends a clique to a clique exactly when it is a common neighbour. */
  lemma ExtensionIffCommonNeighbor<V>(m: map<V, set<V>>, r: set<V>, w: V)
    requires Undirected(m) && IsClique(m, r) && w in m && w !in r
    ensures IsClique(m, r + {w}) <==> w in CommonNeighbors(m, r)
  {
    if w in CommonNeighbors(m, r) {
      ExtendFrame(m, r, w);
    }
  }

  /**
   * Branching on a candidate v of the frame (R, p, x) gives the child frame
   * (R + {v}, p * N(v), x * N(v)), and moving v from p to x keeps (R, p, x) a frame.
   */
  lemma ChildFrame<V>(m: map<V, set<V>>, r: set<V>, p: set<V>, x: set<V>, v: V)
    requires SearchFrame(m, r, p, x) && v in p
    ensures v !in r && v in m
    ensures SearchFrame(m, r + {v}, p * m[v], x * m[v])
    ensures SearchFrame(m, r, p - {v}, x + {v})
  {
    ExtendFrame(m, r, v);
  }

  /** A clique is maximal exactly when no vertex is adjacent to all of it. */
  lemma MaximalIffNoCommonNeighbor<V>(m: map<V, set<V>>, r: set<V>)
    requires Undirected(m) && IsClique(m, r)
    ensures IsMaximalClique(m, r) <==> CommonNeighbors(m, r) == {}
  {
    if CommonNeighbors(m, r) != {} {
      var w :| w in CommonNeighbors(m, r);
      ExtendFrame(m, r, w);
      assert r + {w} != r;
    } else {
      forall w | w in m && w !in r
        ensures !IsClique(m, r + {w})
      {
        ExtensionIffCommonNeighbor(m, r, w);
      }
    }
  }

  /** A frame with nothing left to try or exclude reports exactly its own clique. */
  lemma ClosedFrameReportsItself<V>(m: map<V, set<V>>, r: set<V>)
    requires SearchFrame(m, r, {}, {})
    ensures forall c :: Extends(m, r, {}, c) <==> c == r
  {
    MaximalIffNoCommonNeighbor(m, r);
    assert r + {} == r;
  }

  /** A frame with a candidate or an excluded vertex left never reports its own clique. */
  lemma OpenFrameSkipsItself<V>(m: map<V, set<V>>, r: set<V>, p: set<V>, x: set<V>)
    requires SearchFrame(m, r, p, x) && (p != {} || x != {})
    ensures forall c :: Extends(m, r, p, c) ==> !(c <= r)
  {
    MaximalIffNoCommonNeighbor(m, r);
  }

  /**
   * After every candidate of the frame (R, P, X) has been branched on: the frame's
   * own report (R when P and X are empty, nothing otherwise) followed by what the
   * branches found lists exactly the maximal cliques the frame is responsible for.
   */
  lemma FinishFrame<V(!new)>(m: map<V, set<V>>, r: set<V>, p: set<V>, x: set<V>,
                             self: seq<set<V>>, found: seq<set<V>>)
    requires SearchFrame(m, r, p, x)
    requires self == if p == {} && x == {} then [r] else []
    requires ReportedExcept(m, found, r, p, {})
    requires p == {} ==> found == []
    ensures Enumerates(m, self + found, r, p)
  {
    assert r + {} == r;
    if p == {} && x == {} {
      ClosedFrameReportsItself(m, r);
    } else {
      OpenFrameSkipsItself(m, r, p, x);
    }
  }

  /**
   * What the child frame (R + {v}, p * N(v), _) reports: precisely the maximal
   * cliques between R and R + p that contain v.
   */
  lemma BranchReports<V>(m: map<V, set<V>>, r: set<V>, p: set<V>, v: V, c: set<V>)
    requires Undirected(m) && IsClique(m, r) && v in p && p <= CommonNeighbors(m, r)
    ensures Extends(m, r + {v}, p * m[v], c) <==> Extends(m, r, p, c) && v in c
  {
    if Extends(m, r, p, c) && v in c {
      forall w | w in c && w !in r + {v}
        ensures w in p * m[v]
      {
        assert w in m[v];
      }
    }
  }

  /**
   * One iteration of the candidate loop: appending what the branch on v reports
   * to what the earlier branches reported keeps the list duplicate-free and
   * moves v from the "still to report" side to the "reported" side.
   */
  lemma AppendBranch<V(!new)>(m: map<V, set<V>>, r: set<V>, pAll: set<V>, p: set<V>, x: set<V>, v: V,
                        found: seq<set<V>>, branch: seq<set<V>>)
    requires SearchFrame(m, r, p, x) && p <= pAll && v in p
    requires ReportedExcept(m, found, r, pAll, p)
    requires Enumerates(m, branch, r + {v}, p * m[v])
    ensures ReportedExcept(m, found + branch, r, pAll, p - {v})
  {
    CommonNeighborOutside(m, r, v);
    forall c | c in branch
      ensures c !in found
    {
      BranchReports(m, r, p, v, c);
    }
    NoDuplicatesAppend(found, branch);
    forall c
      ensures c in found + branch <==> Extends(m, r, pAll, c) && !(c <= r + (p - {v}))
    {
      BranchReports(m, r, p, v, c);
      if c <= r + p && !(c <= r + (p - {v})) {
        var w :| w in c && w !in r + (p - {v});
        assert w == v;
      }
    }
  }

  /** Every clique lies inside some maximal clique. */
  lemma {:induction false} ExtendToMaximal<V>(m: map<V, set<V>>, c: set<V>)
    requires Undirected(m) && IsClique(m, c)
    ensures exists d :: c <= d && IsMaximalClique(m, d)
    decreases |m.Keys - c|
  {
    if !IsMaximalClique(m, c) {
      MaximalIffNoCommonNeighbor(m, c);
      var w :| w in CommonNeighbors(m, c);
      ExtendFrame(m, c, w);
      assert m.Keys - (c + {w}) < m.Keys - c;
      ExtendToMaximal(m, c + {w});
      var d :| c + {w} <= d && IsMaximalClique(m, d);
      assert c <= d;
    }
  }

  /** Every vertex belongs to some maximal clique; an isolated one forms the singleton clique. */
  lemma VertexInMaximalClique<V>(m: map<V, set<V>>, v: V)
    requires Undirected(m) && v in m
    ensures exists d :: v in d && IsMaximalClique(m, d)
  {
    assert IsClique(m, {v});
    ExtendToMaximal(m, {v});
  }
}
