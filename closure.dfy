/**
 * Connected components under a "friends" relation given by a generator: `friends(w)`
 * lists the candidate friends of w, and only candidates inside the corpus count.
 * The component of a start word is every word a chain of friends reaches from it.
 */
module Closure {

  /** One step of a chain: `v` is a corpus word among the friends generated from `w`. */
  ghost predicate Step(friends: string -> seq<string>, corpus: set<string>, w: string, v: string)
  {
    v in corpus && v in friends(w)
  }

  /** Each word of `path` after the first is a step from the one before it. */
  ghost predicate IsChain(friends: string -> seq<string>, corpus: set<string>, path: seq<string>)
  {
    |path| > 0 &&
    forall k :: 0 < k < |path| ==> Step(friends, corpus, path[k - 1], path[k])
  }

  /** Some chain leads from `start` to `w`. */
  ghost predicate Reachable(friends: string -> seq<string>, corpus: set<string>, start: string, w: string)
  {
    exists path :: IsChain(friends, corpus, path) && path[0] == start && path[|path| - 1] == w
  }

  /** `s` holds every word one step away from one of its members. */
  ghost predicate ClosedIn(friends: string -> seq<string>, corpus: set<string>, s: set<string>)
  {
    forall w, v :: w in s && Step(friends, corpus, w, v) ==> v in s
  }

  /** The component of `start`: every word some chain reaches from it. */
  ghost function Component(friends: string -> seq<string>, corpus: set<string>, start: string): (r: set<string>)
    ensures start in r && r <= corpus + {start}
  {
    assert IsChain(friends, corpus, [start]);
    set w | w in corpus + {start} && Reachable(friends, corpus, start, w)
  }

  /** A chain followed by one more step is a chain with the same start. */
  lemma ExtendChain(friends: string -> seq<string>, corpus: set<string>, path: seq<string>, v: string)
    requires IsChain(friends, corpus, path) && Step(friends, corpus, path[|path| - 1], v)
    ensures IsChain(friends, corpus, path + [v])
  {
    var longer := path + [v];
    forall k | 0 < k < |longer|
      ensures Step(friends, corpus, longer[k - 1], longer[k])
    {
      if k < |path| {
        assert longer[k] == path[k] && longer[k - 1] == path[k - 1];
      }
    }
  }

  /** One more step from a reachable word reaches a word again. */
  lemma ReachableStep(friends: string -> seq<string>, corpus: set<string>, start: string, w: string, v: string)
    requires Reachable(friends, corpus, start, w) && Step(friends, corpus, w, v)
    ensures Reachable(friends, corpus, start, v)
  {
    var path :| IsChain(friends, corpus, path) && path[0] == start && path[|path| - 1] == w;
    ExtendChain(friends, corpus, path, v);
    var longer := path + [v];
    assert longer[0] == start && longer[|longer| - 1] == v;
  }

  /** A component is closed: a step from a member lands in the component. */
  lemma ComponentClosed(friends: string -> seq<string>, corpus: set<string>, start: string)
    ensures ClosedIn(friends, corpus, Component(friends, corpus, start))
  {
    var component := Component(friends, corpus, start);
    forall w, v | w in component && Step(friends, corpus, w, v)
      ensures v in component
    {
      ReachableStep(friends, corpus, start, w, v);
    }
  }

  /** Every chain from a member of a closed set stays inside it. */
  lemma {:induction false} ChainStaysInside(friends: string -> seq<string>, corpus: set<string>,
                                            s: set<string>, path: seq<string>)
    requires IsChain(friends, corpus, path) && path[0] in s && ClosedIn(friends, corpus, s)
    ensures path[|path| - 1] in s
    decreases |path|
  {
    if |path| > 1 {
      var prefix := path[..|path| - 1];
      assert IsChain(friends, corpus, prefix);
      ChainStaysInside(friends, corpus, s, prefix);
      assert Step(friends, corpus, path[|path| - 2], path[|path| - 1]);
    }
  }

  /** A component is the least closed set containing its start word. */
  lemma ComponentLeast(friends: string -> seq<string>, corpus: set<string>, start: string, s: set<string>)
    requires start in s && ClosedIn(friends, corpus, s)
    ensures Component(friends, corpus, start) <= s
  {
    forall w | w in Component(friends, corpus, start)
      ensures w in s
    {
      var path :| IsChain(friends, corpus, path) && path[0] == start && path[|path| - 1] == w;
      ChainStaysInside(friends, corpus, s, path);
    }
  }

  /** Removing a subset splits a set's size between the part removed and the part kept. */
  lemma RemoveSubsetCardinality<T>(a: set<T>, b: set<T>)
    requires b <= a
    ensures |a - b| + |b| == |a|
  {
    assert (a - b) + b == a;
    assert (a - b) !! b;
  }
}
