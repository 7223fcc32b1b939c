/** Walks over the object graph (fstree/reachable.go, fstree/checkcomplete.go,
    remotesync/pull.go): each lists what a root reaches, each key once. */
module Walks {
  import opened Base
  import opened Keys
  import opened Graphs
  import opened ObjectGraph

  /** Everything a walk from `root` can meet; finite, so walks end. */
  ghost function Universe(g: Graph, root: Key): set<Key> {
    {root} + set k, i | k in g && 0 <= i < |g[k]| :: g[k][i]
  }

  lemma ChildInUniverse(g: Graph, root: Key, k: Key, c: Key)
    requires c in Next(g, k)
    ensures c in Universe(g, root)
  {
    var i :| 0 <= i < |g[k]| && g[k][i] == c;
  }

  ghost predicate Distinct(ks: seq<Key>) {
    forall i, j :: 0 <= i < j < |ks| ==> ks[i] != ks[j]
  }

  /** The walk can go on past the key: its body is stored and decodes, or it is a
      leaf and leaves are not looked up. */
  ghost predicate Readable(objs: Objects, lookUpLeaves: bool, k: Key) {
    k in Edges(objs) || (!lookUpLeaves && IsLeafType(k))
  }

  /** A stored, decodable interior object's children. */
  method ReadChildren(objs: Objects, k: Key) returns (r: Result<seq<Key>>)
    ensures r.Success? <==> k in Edges(objs)
    ensures r.Success? ==> r.value == Next(Edges(objs), k)
  {
    hide ChildKeys;
    if k !in objs { return Failure(Missing); }
    r := ListChildren(k, objs[k]);
  }

  /** A leaf has no children whether or not it is stored. */
  lemma LeafHasNoEdges(objs: Objects, k: Key)
    requires IsLeafType(k)
    ensures Next(Edges(objs), k) == [] && (k in Edges(objs) <==> k in objs)
  {
  }

  /** The children of each frontier key, by position. */
  method Expand(objs: Objects, frontier: seq<Key>, lookUpLeaves: bool) returns (r: Result<seq<seq<Key>>>)
    ensures r.Success? <==> forall i :: 0 <= i < |frontier| ==> Readable(objs, lookUpLeaves, frontier[i])
    ensures r.Success? ==>
              && |r.value| == |frontier|
              && forall i :: 0 <= i < |frontier| ==> r.value[i] == Next(Edges(objs), frontier[i])
  {
    hide Edges, ChildKeys, Next;
    var lists: seq<seq<Key>> := [];
    for i := 0 to |frontier|
      invariant |lists| == i && forall j :: 0 <= j < i ==> Readable(objs, lookUpLeaves, frontier[j])
      invariant forall j :: 0 <= j < i ==> lists[j] == Next(Edges(objs), frontier[j])
    {
      var k := frontier[i];
      if IsLeafType(k) {
        LeafHasNoEdges(objs, k);
        if lookUpLeaves && k !in objs { return Failure(Missing); }
        lists := lists + [[]];
      } else {
        var kids := ReadChildren(objs, k);
        if kids.Failure? { return Failure(kids.error); }
        lists := lists + [kids.value];
      }
    }
    return Success(lists);
  }

  // ----------------------------------------------------------- breadth first

  /** Appends the unseen children, each once. */
  method Collect(lists: seq<seq<Key>>, out: seq<Key>, seen: set<Key>) returns (next: seq<Key>, all: set<Key>)
    requires Distinct(out) && forall k :: k in seen <==> k in out
    ensures Distinct(out + next) && forall k :: k in all <==> k in out + next
    ensures forall i, c :: 0 <= i < |lists| && c in lists[i] ==> c in all
    ensures forall c :: c in next ==> c !in seen && exists i :: 0 <= i < |lists| && c in lists[i]
  {
    next, all := [], seen;
    for i := 0 to |lists|
      invariant Distinct(out + next) && forall k :: k in all <==> k in out + next
      invariant forall j, c :: 0 <= j < i && c in lists[j] ==> c in all
      invariant forall c :: c in next ==> c !in seen && exists j :: 0 <= j < i && c in lists[j]
    {
      next, all := CollectOne(lists[i], out, next, all);
    }
  }

  method CollectOne(list: seq<Key>, out: seq<Key>, soFar: seq<Key>, seen: set<Key>)
    returns (next: seq<Key>, all: set<Key>)
    requires Distinct(out + soFar) && forall k :: k in seen <==> k in out + soFar
    ensures Distinct(out + next) && soFar <= next && forall k :: k in all <==> k in out + next
    ensures seen <= all && forall c :: c in list ==> c in all
    ensures forall c :: c in next ==> c in soFar || (c in list && c !in out)
  {
    next, all := soFar, seen;
    for i := 0 to |list|
      invariant Distinct(out + next) && soFar <= next && forall k :: k in all <==> k in out + next
      invariant seen <= all && forall j :: 0 <= j < i ==> list[j] in all
      invariant forall c :: c in next ==> c in soFar || (c in list && c !in out)
    {
      var c := list[i];
      if c !in all {
        DistinctSnoc(out, next, c);
        next, all := next + [c], all + {c};
      }
    }
  }

  lemma DistinctSnoc(out: seq<Key>, next: seq<Key>, c: Key)
    requires Distinct(out + next) && c !in out + next
    ensures Distinct(out + (next + [c])) && forall k :: k in out + (next + [c]) <==> k in out + next || k == c
  {
    assert out + (next + [c]) == (out + next) + [c];
  }

  /** The listing of a walk: the root first, then every other key it reaches, each
      once. */
  ghost predicate Lists(g: Graph, root: Key, out: seq<Key>) {
    out != [] && out[0] == root && Distinct(out) && forall k :: k in out <==> Reaches(g, root, k)
  }

  ghost predicate AllReadable(objs: Objects, root: Key, lookUpLeaves: bool) {
    forall k :: Reaches(Edges(objs), root, k) ==> Readable(objs, lookUpLeaves, k)
  }

  /** The walk so far: `out` is reachable and distinct, and the first `done` keys
      are readable with all their children in it. */
  ghost predicate Walking(objs: Objects, root: Key, lookUpLeaves: bool, out: seq<Key>, done: nat) {
    var g := Edges(objs);
    && out != [] && out[0] == root && Distinct(out) && done <= |out|
    && (forall k :: k in out ==> Reaches(g, root, k) && k in Universe(g, root))
    && (forall i :: 0 <= i < done ==>
          Readable(objs, lookUpLeaves, out[i]) && forall c :: c in Next(g, out[i]) ==> c in out)
  }

  lemma WalkStarts(objs: Objects, root: Key, lookUpLeaves: bool)
    ensures Walking(objs, root, lookUpLeaves, [root], 0)
  {
    hide Edges;
    ReachesSelf(Edges(objs), root);
  }

  lemma WalkGrows(objs: Objects, root: Key, lookUpLeaves: bool, out: seq<Key>, done: nat,
                  lists: seq<seq<Key>>, next: seq<Key>)
    requires Walking(objs, root, lookUpLeaves, out, done) && |lists| == |out| - done && Distinct(out + next)
    requires forall i :: done <= i < |out| ==>
               Readable(objs, lookUpLeaves, out[i]) && lists[i - done] == Next(Edges(objs), out[i])
    requires forall i, c :: 0 <= i < |lists| && c in lists[i] ==> c in out + next
    requires forall c :: c in next ==> exists i :: 0 <= i < |lists| && c in lists[i]
    ensures Walking(objs, root, lookUpLeaves, out + next, |out|)
  {
    hide Edges, Next, Reaches, Universe;
    var g := Edges(objs);
    forall c | c in next ensures Reaches(g, root, c) && c in Universe(g, root) {
      var i :| 0 <= i < |lists| && c in lists[i];
      assert lists[done + i - done] == Next(g, out[done + i]);
      ReachesStep(g, root, out[done + i], c);
      ChildInUniverse(g, root, out[done + i], c);
    }
    forall i | 0 <= i < |out|
      ensures Readable(objs, lookUpLeaves, out[i]) && forall c :: c in Next(g, out[i]) ==> c in out + next
    {
      if i >= done { assert lists[i - done] == Next(g, out[i]); }
    }
  }

  lemma WalkEnds(objs: Objects, root: Key, lookUpLeaves: bool, out: seq<Key>)
    requires Walking(objs, root, lookUpLeaves, out, |out|)
    ensures Lists(Edges(objs), root, out) && AllReadable(objs, root, lookUpLeaves)
  {
    hide Edges, Next, Reaches, Universe, Readable;
    var seen := set k | k in out;
    forall k, c | k in seen && c in Next(Edges(objs), k) ensures c in seen { var i :| 0 <= i < |out| && out[i] == k; }
    ClosedHoldsReachable(Edges(objs), seen, root);
  }

  lemma DistinctBound(out: seq<Key>, u: set<Key>)
    requires Distinct(out) && forall k :: k in out ==> k in u
    ensures |out| <= |u|
  {
    if out != [] {
      var n := |out| - 1;
      forall k | k in out[..n] ensures k in u - {out[n]} { var i :| 0 <= i < n && out[i] == k; }
      DistinctBound(out[..n], u - {out[n]});
    }
  }

  /** Lists what the root reaches, level by level. It succeeds exactly when every
      reachable key can be read, and terminates on any finite store. */
  method BreadthFirst(objs: Objects, root: Key, lookUpLeaves: bool) returns (r: Result<seq<Key>>)
    ensures r.Success? <==> AllReadable(objs, root, lookUpLeaves)
    ensures r.Success? ==> Lists(Edges(objs), root, r.value)
  {
    hide Edges, Next, Reaches, Universe, Readable;
    var out: seq<Key>, done: nat := [root], 0;
    var seen := {root};
    WalkStarts(objs, root, lookUpLeaves);
    while done < |out|
      invariant Walking(objs, root, lookUpLeaves, out, done) && forall k :: k in seen <==> k in out
      invariant |out| <= |Universe(Edges(objs), root)|
      decreases |Universe(Edges(objs), root)| - |out|, |out| - done
    {
      var frontier := out[done..];
      var lists := Expand(objs, frontier, lookUpLeaves);
      if lists.Failure? {
        ghost var i :| 0 <= i < |frontier| && !Readable(objs, lookUpLeaves, frontier[i]);
        assert frontier[i] in out;
        return Failure(lists.error);
      }
      var next;
      next, seen := Collect(lists.value, out, seen);
      WalkGrows(objs, root, lookUpLeaves, out, done, lists.value, next);
      DistinctBound(out + next, Universe(Edges(objs), root));
      out, done := out + next, |out|;
    }
    WalkEnds(objs, root, lookUpLeaves, out);
    return Success(out);
  }

  /** Lists the keys reachable from the root; it fails exactly when an interior one
      cannot be read. */
  method ReachableKeys(objs: Objects, root: Key) returns (r: Result<seq<Key>>)
    ensures r.Success? <==> forall k :: Reaches(Edges(objs), root, k) && !IsLeafType(k) ==> k in Edges(objs)
    ensures r.Success? ==> Lists(Edges(objs), root, r.value)
  {
    hide Edges, Reaches;
    r := BreadthFirst(objs, root, false);
  }

  /** Succeeds exactly when everything reachable is stored and decodes. */
  method CheckComplete(objs: Objects, root: Key) returns (r: Result<seq<Key>>)
    ensures r.Success? <==> Complete(objs, root)
    ensures r.Success? ==> Lists(Edges(objs), root, r.value)
  {
    hide Reaches;
    r := BreadthFirst(objs, root, true);
  }

  // ------------------------------------------------------------ what is missing

  /** The local walk so far: seen keys are reachable and, when stored, decode with
      their children seen or still to come; `missing` lists the others. */
  ghost predicate Probing(objs: Objects, root: Key, seen: set<Key>, missing: seq<Key>, todo: seq<Key>) {
    var g := Edges(objs);
    && (root in seen || root in todo) && Distinct(missing)
    && (forall k :: k in seen || k in todo ==> Reaches(g, root, k) && k in Universe(g, root))
    && (forall k :: k in missing <==> k in seen && k !in objs)
    && (forall k :: k in seen && k in objs ==> k in g && forall c :: c in g[k] ==> c in seen || c in todo)
  }

  /** What happens to the walk when the key at the head of the work is handled. */
  lemma ProbeSkips(objs: Objects, root: Key, seen: set<Key>, missing: seq<Key>, k: Key, todo: seq<Key>)
    requires Probing(objs, root, seen, missing, [k] + todo) && k in seen
    ensures Probing(objs, root, seen, missing, todo)
  {
    hide Edges, Reaches, Universe;
  }

  lemma ProbeMisses(objs: Objects, root: Key, seen: set<Key>, missing: seq<Key>, k: Key, todo: seq<Key>)
    requires Probing(objs, root, seen, missing, [k] + todo) && k !in seen && k !in objs
    ensures Probing(objs, root, seen + {k}, missing + [k], todo)
  {
    hide Edges, Reaches, Universe;
    assert k in [k] + todo;
    assert k !in missing;
  }

  lemma ProbeDescends(objs: Objects, root: Key, seen: set<Key>, missing: seq<Key>, k: Key,
                      todo: seq<Key>, kids: seq<Key>)
    requires Probing(objs, root, seen, missing, [k] + todo) && k !in seen && k in Edges(objs) && k in objs
    requires kids == Next(Edges(objs), k)
    ensures Probing(objs, root, seen + {k}, missing, todo + kids)
  {
    hide Edges, Reaches, Universe;
    assert k in [k] + todo;
    forall c | c in kids ensures Reaches(Edges(objs), root, c) && c in Universe(Edges(objs), root) {
      ReachesStep(Edges(objs), root, k, c);
      ChildInUniverse(Edges(objs), root, k, c);
    }
  }

  lemma ProbeEnds(objs: Objects, root: Key, seen: set<Key>, missing: seq<Key>)
    requires Probing(objs, root, seen, missing, [])
    ensures forall k :: k in missing <==> Reaches(Edges(objs), root, k) && k !in objs
    ensures forall k :: Reaches(Edges(objs), root, k) && k in objs ==> k in Edges(objs)
  {
    hide Edges, Reaches, Universe;
    forall k, c | k in seen && c in Next(Edges(objs), k) ensures c in seen { StoredEdge(objs, k); }
    ClosedHoldsReachable(Edges(objs), seen, root);
  }

  lemma StoredEdge(objs: Objects, k: Key)
    ensures k in Edges(objs) ==> k in objs
  {
  }

  lemma ProbeStarts(objs: Objects, root: Key)
    ensures Probing(objs, root, {}, [], [root])
  {
    hide Edges, Reaches;
    ReachesSelf(Edges(objs), root);
  }

  /** Nothing is missing exactly for a complete tree, once all stored bodies decode. */
  lemma NothingMissingIffComplete(objs: Objects, root: Key, missing: seq<Key>)
    requires forall k :: Reaches(Edges(objs), root, k) && k in objs ==> k in Edges(objs)
    requires forall k :: k in missing <==> Reaches(Edges(objs), root, k) && k !in objs
    ensures missing == [] <==> Complete(objs, root)
  {
    hide Edges, Reaches;
    if missing != [] { assert missing[0] in missing; }
  }
}
