/** The collector's mark (gc/collector.go): a depth-first walk from each root into a
    mark set over a snapshot of the store, pruned at keys already marked. */
module Marking {
  import opened Base
  import opened Keys
  import opened Graphs
  import opened ObjectGraph
  import opened Walks
  import opened PackStore
  import opened MarkSets

  type Decoder = (Key, Bytes) -> Payload

  /** The stored bytes as the decoders see them. */
  ghost function Decoded(m: map<Key, Bytes>, decode: Decoder): Objects {
    map k | k in m :: decode(k, m[k])
  }

  /** Marked keys are stored and decode, with every child marked too. */
  ghost predicate Settled(g: Graph, marks: set<Key>) {
    forall k :: k in marks ==> k in g && forall c :: c in g[k] ==> c in marks
  }

  /** The walk so far: as settled, but children may still be on the stack. */
  ghost predicate Descending(g: Graph, root: Key, start: set<Key>, marks: set<Key>, stack: seq<Key>) {
    && start <= marks && (root in marks || root in stack)
    && (forall k :: k in stack ==> Reaches(g, root, k) && k in Universe(g, root))
    && (forall k :: k in marks ==> k in start || Reaches(g, root, k))
    && (forall k :: k in marks ==> k in g && forall c :: c in g[k] ==> c in marks || c in stack)
  }

  lemma DescentStarts(g: Graph, root: Key, start: set<Key>)
    requires Settled(g, start)
    ensures Descending(g, root, start, start, [root])
  {
    hide Reaches;
    ReachesSelf(g, root);
  }

  lemma DescentSkips(g: Graph, root: Key, start: set<Key>, marks: set<Key>, stack: seq<Key>, k: Key)
    requires Descending(g, root, start, marks, stack + [k]) && k in marks
    ensures Descending(g, root, start, marks, stack)
  {
    hide Reaches, Universe;
    forall c | c in stack ensures c in stack + [k] {}
  }

  lemma DescentMarks(g: Graph, root: Key, start: set<Key>, marks: set<Key>, stack: seq<Key>, k: Key)
    requires Descending(g, root, start, marks, stack + [k]) && k in g
    ensures Reaches(g, root, k) && Descending(g, root, start, marks + {k}, stack + g[k])
  {
    hide Reaches, Universe;
    assert k in stack + [k];
    forall c | c in stack ensures c in stack + [k] {}
    forall c | c in g[k] ensures Reaches(g, root, c) && c in Universe(g, root) {
      assert c in Next(g, k);
      ReachesStep(g, root, k, c);
      ChildInUniverse(g, root, k, c);
    }
  }

  lemma DescentEnds(g: Graph, root: Key, start: set<Key>, marks: set<Key>)
    requires Descending(g, root, start, marks, [])
    ensures Settled(g, marks) && forall k :: k in marks <==> k in start || Reaches(g, root, k)
  {
    hide Reaches, Universe;
    forall k, c | k in marks && c in Next(g, k) ensures c in marks {}
    ClosedHoldsReachable(g, marks, root);
  }

  lemma PopStep(stack: seq<Key>)
    requires stack != []
    ensures stack == stack[..|stack| - 1] + [stack[|stack| - 1]]
  {
  }

  /** Reads and decodes one interior object of the store. */
  method ReadNode(s: Store, decode: Decoder, k: Key) returns (r: Result<seq<Key>>)
    requires s.Valid()
    ensures r.Success? <==> !s.closed && k in Edges(Decoded(s.Map(), decode))
    ensures r.Success? ==> r.value == Next(Edges(Decoded(s.Map(), decode)), k)
  {
    hide ChildKeys, SealedOk, ActiveOk, IdsOk, Coherent, Merge;
    var data := s.Get(k);
    if data.Failure? { return Failure(data.error); }
    r := ListChildren(k, decode(k, data.value));
  }

  /** Marks everything the root reaches and nothing else, on top of what earlier
      roots marked. Unless cancelled or closed, it fails only when something
      reachable is absent or does not decode. */
  method MarkFrom(s: Store, live: MarkSet, decode: Decoder, root: Key, cancelled: nat -> bool)
    returns (err: Option<Error>)
    requires s.Valid() && live.Valid() && (forall k :: live.Present(k) <==> k in s.Map())
    requires Settled(Edges(Decoded(s.Map(), decode)), live.marks)
    modifies live
    ensures live.Valid() && (forall k :: live.Present(k) <==> k in s.Map()) && old(live.marks) <= live.marks
    ensures err.None? ==> Settled(Edges(Decoded(s.Map(), decode)), live.marks)
    ensures err.None? ==> forall k :: k in live.marks <==>
                            k in old(live.marks) || Reaches(Edges(Decoded(s.Map(), decode)), root, k)
    ensures err.Some? && !s.closed && (forall n :: !cancelled(n)) ==> !Complete(Decoded(s.Map(), decode), root)
  {
    hide Edges, Decoded, Reaches, Universe, Descending, Settled, Store.Map, Store.Valid, MarkSet.Valid, MarkSet.Present;
    ghost var objs := Decoded(s.Map(), decode);
    ghost var g, start := Edges(objs), live.marks;
    ghost var u := Universe(g, root);
    var stack, n := [root], 0;
    DescentStarts(g, root, start);
    while stack != []
      invariant live.Valid() && (forall k :: live.Present(k) <==> k in s.Map()) && start <= live.marks
      invariant Descending(g, root, start, live.marks, stack)
      decreases u - live.marks, |stack|
    {
      if n % 1024 == 0 && cancelled(n) { return Some(Cancelled); }
      n := n + 1;
      PopStep(stack);
      var k := stack[|stack| - 1];
      stack := stack[..|stack| - 1];
      StackReaches(g, root, start, live.marks, stack, k);
      ghost var marks := live.marks;
      var newly, present := live.Mark(k);
      DecodedKeys(s.Map(), decode, k);
      if !present { return Some(Missing); }
      if !newly {
        DescentSkips(g, root, start, marks, stack, k);
        assert live.marks == marks;
        continue;
      }
      if IsLeafType(k) {
        LeafHasNoEdges(objs, k);
        DescentMarks(g, root, start, marks, stack, k);
        NoKids(g, stack, k);
        continue;
      }
      var kids := ReadNode(s, decode, k);
      if kids.Failure? { return Some(kids.error); }
      NextIs(s, decode, k);
      DescentMarks(g, root, start, marks, stack, k);
      stack := stack + kids.value;
    }
    DescentEnds(g, root, start, live.marks);
    return None;
  }

  lemma StackReaches(g: Graph, root: Key, start: set<Key>, marks: set<Key>, stack: seq<Key>, k: Key)
    requires Descending(g, root, start, marks, stack + [k])
    ensures Reaches(g, root, k) && k in Universe(g, root)
  {
    assert k in stack + [k];
  }

  lemma DecodedKeys(m: map<Key, Bytes>, decode: Decoder, k: Key)
    ensures k in Decoded(m, decode) <==> k in m
  {
  }

  lemma NoKids(g: Graph, stack: seq<Key>, k: Key)
    requires Next(g, k) == [] && k in g
    ensures stack + g[k] == stack
  {
  }

  lemma NextIs(s: Store, decode: Decoder, k: Key)
    requires k in Edges(Decoded(s.Map(), decode))
    ensures Next(Edges(Decoded(s.Map(), decode)), k) == Edges(Decoded(s.Map(), decode))[k]
  {
    hide Edges, Decoded;
  }

  /** Reached from one of the roots. */
  ghost predicate FromRoots(g: Graph, roots: seq<Key>, k: Key) {
    exists i :: 0 <= i < |roots| && Reaches(g, roots[i], k)
  }

  /** Marks from every root into a fresh mark set: exactly the union of what the
      roots reach. Unless cancelled or closed, it fails only when some root's tree
      is incomplete. */
  method MarkLive(s: Store, decode: Decoder, roots: seq<Key>, cancelled: nat -> bool)
    returns (live: MarkSet, err: Option<Error>)
    requires s.Valid()
    ensures fresh(live) && live.Valid()
    ensures err.None? ==> forall k :: k in live.marks <==> FromRoots(Edges(Decoded(s.Map(), decode)), roots, k)
    ensures err.Some? && !s.closed && (forall n :: !cancelled(n)) ==>
              exists i :: 0 <= i < |roots| && !Complete(Decoded(s.Map(), decode), roots[i])
  {
    hide Edges, Decoded, Reaches, Complete, Store.Map, Store.Valid, MarkSet.Valid, MarkSet.Present;
    live := new MarkSet(s);
    ghost var g := Edges(Decoded(s.Map(), decode));
    for i := 0 to |roots|
      invariant live.Valid() && (forall k :: live.Present(k) <==> k in s.Map()) && Settled(g, live.marks) && fresh(live)
      invariant forall k :: k in live.marks <==> FromRoots(g, roots[..i], k)
    {
      err := MarkFrom(s, live, decode, roots[i], cancelled);
      if err.Some? { return; }
      forall k ensures FromRoots(g, roots[..i + 1], k) <==> FromRoots(g, roots[..i], k) || Reaches(g, roots[i], k) {
        OneMoreRoot(g, roots, i, k);
      }
    }
    assert roots[..|roots|] == roots;
    return live, None;
  }

  lemma OneMoreRoot(g: Graph, roots: seq<Key>, i: nat, k: Key)
    requires i < |roots|
    ensures FromRoots(g, roots[..i + 1], k) <==> FromRoots(g, roots[..i], k) || Reaches(g, roots[i], k)
  {
    hide Reaches;
    var shorter, longer := roots[..i], roots[..i + 1];
    if j :| 0 <= j < |shorter| && Reaches(g, shorter[j], k) { assert longer[j] == shorter[j]; }
    if Reaches(g, roots[i], k) { assert longer[i] == roots[i]; }
    if j :| 0 <= j < |longer| && Reaches(g, longer[j], k) { if j < i { assert shorter[j] == longer[j]; } }
  }

  /** The mark from one root, the reachable-key listing and the completeness check
      agree on the set. */
  lemma WalksAgree(g: Graph, root: Key, listed: seq<Key>, marks: set<Key>)
    requires Lists(g, root, listed) && forall k :: k in marks <==> FromRoots(g, [root], k)
    ensures (set k | k in listed) == marks && |listed| == |marks|
  {
    hide Reaches;
    forall k ensures k in marks <==> k in listed { assert FromRoots(g, [root], k) <==> Reaches(g, [root][0], k); }
    DistinctCount(listed);
  }

  lemma {:induction false} DistinctCount(ks: seq<Key>)
    requires Walks.Distinct(ks)
    ensures |set k | k in ks| == |ks|
  {
    if ks != [] {
      var n := |ks| - 1;
      DistinctCount(ks[..n]);
      assert ks == ks[..n] + [ks[n]];
      assert (set k | k in ks) == (set k | k in ks[..n]) + {ks[n]};
      assert ks[n] !in ks[..n];
    }
  }
}
