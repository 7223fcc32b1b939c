/** The tree readers (fstree/content.go, collect.go, lookup.go, list.go). They are
    stated over any store; what they return on a built tree is stated through the
    tree the store represents. */
module TreeReaders {
  import opened Base
  import opened Keys
  import opened ObjectGraph
  import opened Trees
  import opened IndexBuilding

  // ------------------------------------------------------ stores and trees

  /** A key is a digest of what it names, so an object never names itself, however
      indirectly: some rank decreases along every index reference. */
  ghost predicate Acyclic(store: Objects, rank: Key -> nat) {
    forall k, c: Key :: k in store && c in IndexRefs(store[k]) ==> rank(c) < rank(k)
  }

  function LeafType(isDir: bool): nat { if isDir then DIR_LEAF else BLOB }
  function NodeType(isDir: bool): nat { if isDir then DIR_NODE else FILE_NODE }

  predicate LeafShape(isDir: bool, p: Payload) { if isDir then p.EntryList? else p.Raw? }

  /** The store answers each key of the tree with the body it was built with. */
  ghost predicate Represents(store: Objects, isDir: bool, t: Tree) {
    t.key in store &&
    match t
    case Leaf(k, _, body) => Type(k) == LeafType(isDir) && store[k] == body && LeafShape(isDir, body)
    case Node(k, _, kids) =>
      && Type(k) == NodeType(isDir) && store[k] == NodeBody(isDir, kids)
      && (forall i :: 0 <= i < |kids| ==> Valid(kids[i].key))
      && forall i :: 0 <= i < |kids| ==> Represents(store, isDir, kids[i])
  }

  ghost predicate AllRepresent(store: Objects, isDir: bool, ts: seq<Tree>) {
    forall i :: 0 <= i < |ts| ==> Represents(store, isDir, ts[i])
  }

  /** The store holds every emitted object under its key. */
  ghost predicate Holds(store: Objects, log: seq<Object>) {
    forall o :: o in log ==> o.key in store && store[o.key] == o.payload
  }

  lemma LeavesOfKid(kids: seq<Tree>, i: nat)
    requires i < |kids|
    ensures forall l :: l in Leaves([kids[i]]) ==> l in Leaves(kids)
  {
    LeavesAppend(kids[..i], kids[i..]);
    LeavesAppend([kids[i]], kids[i + 1..]);
    assert kids[..i] + kids[i..] == kids && [kids[i]] + kids[i + 1..] == kids[i..];
  }

  lemma {:induction false} BuiltIsRepresented(store: Objects, log: seq<Object>, enc: Encoding,
                                              isDir: bool, maxRun: int, t: Tree)
    requires Proper(enc, isDir, maxRun, t) && Emitted(log, isDir, t) && Holds(store, log)
    requires forall l :: l in Leaves([t]) ==> Represents(store, isDir, l) && Valid(l.key)
    ensures Represents(store, isDir, t) && Valid(t.key)
  {
    LeavesOfOne(t);
    match t
    case Leaf(_, _, _) => assert t in Leaves([t]);
    case Node(k, sep, kids) =>
      forall i | 0 <= i < |kids| ensures Represents(store, isDir, kids[i]) && Valid(kids[i].key) {
        LeavesOfKid(kids, i);
        BuiltIsRepresented(store, log, enc, isDir, maxRun, kids[i]);
      }
      NodeIsRepresented(store, log, enc, isDir, t);
  }

  lemma NodeIsRepresented(store: Objects, log: seq<Object>, enc: Encoding, isDir: bool, t: Tree)
    requires t.Node? && Holds(store, log)
    requires EncodeNode(enc, isDir, t.kids) == Success(Object(t.key, NodeBody(isDir, t.kids)))
    requires Object(t.key, NodeBody(isDir, t.kids)) in log
    requires forall i :: 0 <= i < |t.kids| ==> Represents(store, isDir, t.kids[i]) && Valid(t.kids[i].key)
    ensures Represents(store, isDir, t) && Valid(t.key)
  {
    NodeEncodes(enc, isDir, t.kids);
  }

  lemma NodeKids(store: Objects, isDir: bool, t: Tree)
    requires Represents(store, isDir, t) && t.Node?
    ensures ChildKeys(t.key, store[t.key]) == Success(KeysOf(t.kids))
  {
    var refs := RawRefs(t.key, store[t.key]).value;
    assert refs == KeysOf(t.kids);
    ParseAllKeeps(refs);
  }

  lemma KidsRankLower(store: Objects, rank: Key -> nat, k: Key)
    requires Acyclic(store, rank) && k in store && !IsLeafType(k) && Type(k) != DIR_LEAF
    requires ChildKeys(k, store[k]).Success?
    ensures forall i :: 0 <= i < |ChildKeys(k, store[k]).value| ==> rank(ChildKeys(k, store[k]).value[i]) < rank(k)
  {
    var refs := RawRefs(k, store[k]).value;
    ParseAllKeeps(refs);
    assert refs == IndexRefs(store[k]);
    assert forall i :: 0 <= i < |refs| ==> refs[i] in IndexRefs(store[k]);
  }

  // ----------------------------------------------- leaf bodies below a key

  /** The bodies of the leaves below `k`, in order, or a failure when anything on
      the way is absent or does not decode. */
  ghost function BodiesAt(store: Objects, rank: Key -> nat, isDir: bool, k: Key): Result<seq<Payload>>
    requires Acyclic(store, rank)
    decreases rank(k) + 1, 0
  {
    if k !in store then Failure(Missing)
    else if Type(k) == LeafType(isDir) then
      if LeafShape(isDir, store[k]) then Success([store[k]]) else Failure(Malformed)
    else if Type(k) == NodeType(isDir) && ChildKeys(k, store[k]).Success? then
      KidsRankLower(store, rank, k);
      BodiesBelow(store, rank, isDir, rank(k), ChildKeys(k, store[k]).value)
    else Failure(Malformed)
  }

  ghost function BodiesBelow(store: Objects, rank: Key -> nat, isDir: bool, bound: nat, ks: seq<Key>)
    : Result<seq<Payload>>
    requires Acyclic(store, rank) && forall i :: 0 <= i < |ks| ==> rank(ks[i]) < bound
    decreases bound, |ks|
  {
    if ks == [] then Success([])
    else
      match BodiesBelow(store, rank, isDir, bound, ks[..|ks| - 1])
      case Failure(e) => Failure(e)
      case Success(before) =>
        match BodiesAt(store, rank, isDir, ks[|ks| - 1])
        case Failure(e) => Failure(e)
        case Success(last) => Success(before + last)
  }

  function BodiesOf(leaves: seq<Tree>): (ps: seq<Payload>)
    requires forall i :: 0 <= i < |leaves| ==> leaves[i].Leaf?
    ensures |ps| == |leaves| && forall i :: 0 <= i < |ps| ==> ps[i] == leaves[i].body
  {
    seq(|leaves|, i requires 0 <= i < |leaves| => leaves[i].body)
  }

  lemma {:induction false} LeavesAreLeaves(ts: seq<Tree>)
    ensures forall i :: 0 <= i < |Leaves(ts)| ==> Leaves(ts)[i].Leaf?
  {
    if ts != [] {
      LeavesAreLeaves(ts[1..]);
      if ts[0].Node? { LeavesAreLeaves(ts[0].kids); }
    }
  }

  lemma BodiesOfSum(a: seq<Tree>, b: seq<Tree>)
    ensures forall i :: 0 <= i < |Leaves(a)| ==> Leaves(a)[i].Leaf?
    ensures forall i :: 0 <= i < |Leaves(b)| ==> Leaves(b)[i].Leaf?
    ensures forall i :: 0 <= i < |Leaves(a + b)| ==> Leaves(a + b)[i].Leaf?
    ensures BodiesOf(Leaves(a + b)) == BodiesOf(Leaves(a)) + BodiesOf(Leaves(b))
  {
    LeavesAreLeaves(a);
    LeavesAreLeaves(b);
    LeavesAreLeaves(a + b);
    LeavesAppend(a, b);
  }

  lemma BodiesBelowSnoc(store: Objects, rank: Key -> nat, isDir: bool, bound: nat, ks: seq<Key>, k: Key)
    requires Acyclic(store, rank) && rank(k) < bound && forall i :: 0 <= i < |ks| ==> rank(ks[i]) < bound
    ensures BodiesBelow(store, rank, isDir, bound, ks + [k]) ==
            match BodiesBelow(store, rank, isDir, bound, ks)
            case Failure(e) => Failure(e)
            case Success(before) =>
              match BodiesAt(store, rank, isDir, k)
              case Failure(e) => Failure(e)
              case Success(last) => Success(before + last)
  {
    assert (ks + [k])[..|ks + [k]| - 1] == ks;
  }

  /** Reading a represented tree yields exactly the bodies of its leaves. */
  lemma {:induction false} BodiesOfTree(store: Objects, rank: Key -> nat, isDir: bool, t: Tree)
    requires Acyclic(store, rank) && Represents(store, isDir, t)
    ensures forall i :: 0 <= i < |Leaves([t])| ==> Leaves([t])[i].Leaf?
    ensures BodiesAt(store, rank, isDir, t.key) == Success(BodiesOf(Leaves([t])))
    decreases t
  {
    LeavesOfOne(t);
    LeavesAreLeaves([t]);
    match t
    case Leaf(_, _, body) => assert BodiesOf([t]) == [body];
    case Node(k, _, kids) =>
      NodeKids(store, isDir, t);
      KidsRankLower(store, rank, t.key);
      BodiesOfForest(store, rank, isDir, kids, rank(k));
  }

  lemma {:induction false} BodiesOfForest(store: Objects, rank: Key -> nat, isDir: bool,
                                          ts: seq<Tree>, bound: nat)
    requires Acyclic(store, rank) && AllRepresent(store, isDir, ts)
    requires forall i :: 0 <= i < |KeysOf(ts)| ==> rank(KeysOf(ts)[i]) < bound
    ensures forall i :: 0 <= i < |Leaves(ts)| ==> Leaves(ts)[i].Leaf?
    ensures BodiesBelow(store, rank, isDir, bound, KeysOf(ts)) == Success(BodiesOf(Leaves(ts)))
    decreases ts
  {
    LeavesAreLeaves(ts);
    if ts != [] {
      var front, last := ts[..|ts| - 1], ts[|ts| - 1];
      assert ts == front + [last] && KeysOf(ts) == KeysOf(front) + [last.key];
      assert forall i :: 0 <= i < |front| ==> rank(KeysOf(front)[i]) == rank(KeysOf(ts)[i]);
      BodiesOfForest(store, rank, isDir, front, bound);
      BodiesOfTree(store, rank, isDir, last);
      BodiesOfSum(front, [last]);
      BodiesBelowSnoc(store, rank, isDir, bound, KeysOf(front), last.key);
    }
  }

  lemma {:induction false} BodiesBelowPrefix(store: Objects, rank: Key -> nat, isDir: bool, bound: nat,
                                             ks: seq<Key>, n: nat)
    requires Acyclic(store, rank) && n <= |ks| && forall i :: 0 <= i < |ks| ==> rank(ks[i]) < bound
    ensures BodiesBelow(store, rank, isDir, bound, ks[..n]).Failure? ==>
              BodiesBelow(store, rank, isDir, bound, ks).Failure?
    decreases |ks|
  {
    if n < |ks| {
      assert ks[..|ks| - 1][..n] == ks[..n];
      BodiesBelowPrefix(store, rank, isDir, bound, ks[..|ks| - 1], n);
    } else {
      assert ks[..n] == ks;
    }
  }

  /** One more child in a run: its bodies follow, or the whole run fails. */
  lemma BodiesBelowNext(store: Objects, rank: Key -> nat, isDir: bool, bound: nat,
                        ks: seq<Key>, i: nat, done: seq<Payload>)
    requires Acyclic(store, rank) && i < |ks| && forall j :: 0 <= j < |ks| ==> rank(ks[j]) < bound
    requires BodiesBelow(store, rank, isDir, bound, ks[..i]) == Success(done)
    ensures match BodiesAt(store, rank, isDir, ks[i])
            case Success(last) => BodiesBelow(store, rank, isDir, bound, ks[..i + 1]) == Success(done + last)
            case Failure(_) => BodiesBelow(store, rank, isDir, bound, ks).Failure?
  {
    assert ks[..i + 1] == ks[..i] + [ks[i]];
    BodiesBelowSnoc(store, rank, isDir, bound, ks[..i], ks[i]);
    BodiesBelowPrefix(store, rank, isDir, bound, ks, i + 1);
  }

  // ------------------------------------------------ emission order is a rank

  ghost function FirstIndex(log: seq<Object>, k: Key): nat {
    if log == [] || log[0].key == k then 0 else 1 + FirstIndex(log[1..], k)
  }

  lemma {:induction false} FirstIndexBefore(log: seq<Object>, n: nat, k: Key)
    requires n <= |log| && Before(log, n, k)
    ensures FirstIndex(log, k) < n && log[FirstIndex(log, k)].key == k
  {
    var j :| 0 <= j < n && log[j].key == k;
    if log[0].key != k {
      assert log[1..][j - 1].key == k;
      FirstIndexBefore(log[1..], n - 1, k);
    }
  }

  /** Children-first emission orders the objects: a store of emitted objects, each
      under its own key, is acyclic. */
  lemma EmittedIsAcyclic(store: Objects, log: seq<Object>)
    requires Holds(store, log) && ChildrenFirst(log, {})
    requires forall k :: k in store ==> Before(log, |log|, k)
    ensures Acyclic(store, k => FirstIndex(log, k))
  {
    forall k, c: Key | k in store && c in IndexRefs(store[k])
      ensures FirstIndex(log, c) < FirstIndex(log, k)
    {
      FirstIndexBefore(log, |log|, k);
      var i := FirstIndex(log, k);
      assert log[i] in log && c in IndexRefs(log[i].payload);
      assert Before(log, i, c);
      FirstIndexBefore(log, i, c);
    }
  }
}
