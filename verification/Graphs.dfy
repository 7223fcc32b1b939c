/** Reachability in a finite graph of keys. */
module Graphs {
  import opened Keys

  /** Adjacency lists; a key outside the map has no successors. */
  type Graph = map<Key, seq<Key>>

  function Next(g: Graph, k: Key): seq<Key> {
    if k in g then g[k] else []
  }

  ghost predicate Path(g: Graph, p: seq<Key>) {
    |p| > 0 && forall i :: 0 <= i < |p| - 1 ==> p[i + 1] in Next(g, p[i])
  }

  ghost predicate PathFrom(g: Graph, a: Key, p: seq<Key>, b: Key) {
    Path(g, p) && p[0] == a && p[|p| - 1] == b
  }

  /** `b` is `a` or is named, through any chain of bodies, from `a`. */
  ghost predicate Reaches(g: Graph, a: Key, b: Key) {
    exists p :: PathFrom(g, a, p, b)
  }

  ghost predicate Closed(g: Graph, s: set<Key>) {
    forall k, c :: k in s && c in Next(g, k) ==> c in s
  }

  lemma ReachesSelf(g: Graph, a: Key)
    ensures Reaches(g, a, a)
  {
    assert PathFrom(g, a, [a], a);
  }

  lemma ReachesStep(g: Graph, a: Key, b: Key, c: Key)
    requires Reaches(g, a, b) && c in Next(g, b)
    ensures Reaches(g, a, c)
  {
    var p :| PathFrom(g, a, p, b);
    assert PathFrom(g, a, p + [c], c);
  }

  lemma {:induction false} PathStaysIn(g: Graph, s: set<Key>, p: seq<Key>)
    requires Closed(g, s) && Path(g, p) && p[0] in s
    ensures p[|p| - 1] in s
    decreases |p|
  {
    if |p| > 1 {
      var q := p[..|p| - 1];
      PathStaysIn(g, s, q);
      assert p[|p| - 2 + 1] in Next(g, p[|p| - 2]);
      assert q[|q| - 1] == p[|p| - 2];
    }
  }

  /** A closed set holds everything reachable from its members: the induction
      principle behind every walk. */
  lemma ClosedHoldsReachable(g: Graph, s: set<Key>, a: Key)
    requires Closed(g, s) && a in s
    ensures forall b :: Reaches(g, a, b) ==> b in s
  {
    forall b | Reaches(g, a, b) ensures b in s {
      var p :| PathFrom(g, a, p, b);
      PathStaysIn(g, s, p);
    }
  }
}
