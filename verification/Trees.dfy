/** The objects of a file or directory tree (fstree/encode.go) and the shape of
    the index tree above a sequence of leaves. */
module Trees {
  import opened Base
  import opened Keys
  import opened ObjectGraph

  datatype Object = Object(key: Key, payload: Payload)

  /** What the tree code takes from its libraries: the digest and serialized size
      of a body, and the chunking hash of one index item or entry. */
  datatype Encoding = Encoding(
    digest: Payload -> Digest,
    size: Payload -> nat,
    keySum: Key -> nat,
    pairSum: DirPair -> nat,
    entrySum: Entry -> nat)

  // ----------------------------------------------------------- encoders

  function SumLengths(ks: seq<Key>): nat {
    if ks == [] then 0 else SumLengths(ks[..|ks| - 1]) + Length(ks[|ks| - 1])
  }

  /** Lengths are 64-bit sums and wrap. */
  function NewObject(enc: Encoding, t: nat, length: nat, p: Payload): Result<Object> {
    match NewFromHash(t, Low64(length), enc.digest(p))
    case Failure(e) => Failure(e)
    case Success(k) => Success(Object(k, p))
  }

  function EncodeBlob(enc: Encoding, data: Bytes): Result<Object> {
    NewObject(enc, BLOB, |data|, Raw(data))
  }

  function EncodeFileNode(enc: Encoding, children: seq<Key>): Result<Object> {
    NewObject(enc, FILE_NODE, SumLengths(children), KeyList(children))
  }

  function EncodeDirNode(enc: Encoding, pairs: seq<DirPair>): Result<Object> {
    match ParseAll(PairRefs(pairs))
    case Failure(e) => Failure(e)
    case Success(ks) =>
      NewObject(enc, DIR_NODE, enc.size(PairList(pairs)) + SumLengths(ks), PairList(pairs))
  }

  /** Only key fields of full length are parsed and counted. */
  function CountedRefs(es: seq<Entry>): seq<Bytes> {
    if es == [] then []
    else
      var e := es[|es| - 1];
      CountedRefs(es[..|es| - 1])
      + (if |e.contentKey| == SIZE then [e.contentKey] else [])
      + (if |e.xattrsKey| == SIZE then [e.xattrsKey] else [])
  }

  function EncodeDirLeaf(enc: Encoding, es: seq<Entry>): Result<Object> {
    match ParseAll(CountedRefs(es))
    case Failure(e) => Failure(e)
    case Success(ks) =>
      NewObject(enc, DIR_LEAF, enc.size(EntryList(es)) + SumLengths(ks), EntryList(es))
  }

  // -------------------------------------------------------- index trees

  /** A subtree as it was built: a leaf-level object with its greatest name, or an
      index node over a run of subtrees. */
  datatype Tree =
    | Leaf(key: Key, sep: Bytes, body: Payload)
    | Node(key: Key, sep: Bytes, kids: seq<Tree>)

  function KeysOf(ts: seq<Tree>): (ks: seq<Key>)
    ensures |ks| == |ts| && forall i :: 0 <= i < |ts| ==> ks[i] == ts[i].key
  {
    seq(|ts|, i requires 0 <= i < |ts| => ts[i].key)
  }

  function SepsOf(ts: seq<Tree>): (ss: seq<Bytes>)
    ensures |ss| == |ts| && forall i :: 0 <= i < |ts| ==> ss[i] == ts[i].sep
  {
    seq(|ts|, i requires 0 <= i < |ts| => ts[i].sep)
  }

  function PairsOf(ts: seq<Tree>): (ps: seq<DirPair>)
    ensures |ps| == |ts| && forall i :: 0 <= i < |ts| ==> ps[i] == DirPair(ts[i].sep, ts[i].key)
  {
    seq(|ts|, i requires 0 <= i < |ts| => DirPair(ts[i].sep, ts[i].key))
  }

  function NodeBody(isDir: bool, kids: seq<Tree>): Payload {
    if isDir then PairList(PairsOf(kids)) else KeyList(KeysOf(kids))
  }

  function EncodeNode(enc: Encoding, isDir: bool, kids: seq<Tree>): Result<Object> {
    if isDir then EncodeDirNode(enc, PairsOf(kids)) else EncodeFileNode(enc, KeysOf(kids))
  }

  /** The leaves below a run of subtrees, in order. */
  function Leaves(ts: seq<Tree>): seq<Tree> {
    if ts == [] then []
    else (match ts[0] case Leaf(_, _, _) => [ts[0]] case Node(_, _, kids) => Leaves(kids))
         + Leaves(ts[1..])
  }

  /** The index nodes below a run of subtrees. */
  function NodeCount(ts: seq<Tree>): nat {
    if ts == [] then 0
    else (match ts[0] case Leaf(_, _, _) => 0 case Node(_, _, kids) => 1 + NodeCount(kids))
         + NodeCount(ts[1..])
  }

  /** Every index node encodes its run of 2 to `maxRun` subtrees and carries the
      separator of the last. */
  ghost predicate Proper(enc: Encoding, isDir: bool, maxRun: int, t: Tree) {
    match t
    case Leaf(k, _, _) => isDir ==> Valid(k)
    case Node(k, sep, kids) =>
      && 2 <= |kids| <= maxRun
      && EncodeNode(enc, isDir, kids) == Success(Object(k, NodeBody(isDir, kids)))
      && (isDir ==> sep == kids[|kids| - 1].sep)
      && forall i :: 0 <= i < |kids| ==> Proper(enc, isDir, maxRun, kids[i])
  }

  /** Every index node was handed to the sink. */
  ghost predicate Emitted(log: seq<Object>, isDir: bool, t: Tree) {
    match t
    case Leaf(_, _, _) => true
    case Node(k, _, kids) =>
      && Object(k, NodeBody(isDir, kids)) in log
      && forall i :: 0 <= i < |kids| ==> Emitted(log, isDir, kids[i])
  }

  // -------------------------------------------------------------- lemmas

  lemma {:induction false} LeavesAppend(a: seq<Tree>, b: seq<Tree>)
    ensures Leaves(a + b) == Leaves(a) + Leaves(b)
    decreases |a|
  {
    if a == [] {
      assert a + b == b;
    } else {
      assert (a + b)[1..] == a[1..] + b;
      LeavesAppend(a[1..], b);
    }
  }

  lemma LeavesOfOne(t: Tree)
    ensures Leaves([t]) == if t.Leaf? then [t] else Leaves(t.kids)
  {
    assert [t][1..] == [];
  }

  lemma {:induction false} NodeCountAppend(a: seq<Tree>, b: seq<Tree>)
    ensures NodeCount(a + b) == NodeCount(a) + NodeCount(b)
    decreases |a|
  {
    if a == [] {
      assert a + b == b;
    } else {
      assert (a + b)[1..] == a[1..] + b;
      NodeCountAppend(a[1..], b);
    }
  }

  lemma NodeCountOfOne(t: Tree)
    ensures NodeCount([t]) == if t.Leaf? then 0 else 1 + NodeCount(t.kids)
  {
    assert [t][1..] == [];
  }

  /** Nodes of at least two children: a tree has fewer index nodes than leaves. */
  lemma {:induction false} FewerNodesThanLeaves(enc: Encoding, isDir: bool, maxRun: int, ts: seq<Tree>)
    requires forall i :: 0 <= i < |ts| ==> Proper(enc, isDir, maxRun, ts[i])
    ensures NodeCount(ts) + |ts| <= |Leaves(ts)|
  {
    if ts != [] {
      FewerNodesThanLeaves(enc, isDir, maxRun, ts[1..]);
      match ts[0]
      case Leaf(_, _, _) =>
      case Node(_, _, kids) =>
        assert Proper(enc, isDir, maxRun, ts[0]);
        FewerNodesThanLeaves(enc, isDir, maxRun, kids);
    }
  }

  lemma KeysOfSnoc(a: seq<Tree>, t: Tree)
    ensures KeysOf(a + [t]) == KeysOf(a) + [t.key]
  {
  }

  lemma SumLengthsSnoc(a: seq<Tree>, t: Tree)
    ensures SumLengths(KeysOf(a + [t])) == SumLengths(KeysOf(a)) + Length(t.key)
  {
    KeysOfSnoc(a, t);
    assert (KeysOf(a) + [t.key])[..|a|] == KeysOf(a);
  }

  lemma {:induction false} EmittedGrows(log: seq<Object>, more: seq<Object>, isDir: bool, t: Tree)
    requires Emitted(log, isDir, t)
    ensures Emitted(log + more, isDir, t)
  {
    match t
    case Leaf(_, _, _) =>
    case Node(k, _, kids) =>
      forall i | 0 <= i < |kids| ensures Emitted(log + more, isDir, kids[i]) {
        EmittedGrows(log, more, isDir, kids[i]);
      }
  }

  /** An index node always encodes, to a canonical key of its own type. */
  lemma NodeEncodes(enc: Encoding, isDir: bool, kids: seq<Tree>)
    requires isDir ==> forall i :: 0 <= i < |kids| ==> Valid(kids[i].key)
    ensures EncodeNode(enc, isDir, kids).Success?
    ensures var o := EncodeNode(enc, isDir, kids).value;
            && o.payload == NodeBody(isDir, kids) && Valid(o.key)
            && Type(o.key) == (if isDir then DIR_NODE else FILE_NODE)
            && (!isDir ==> Length(o.key) == Low64(SumLengths(KeysOf(kids))))
  {
    hide NewObject, SumLengths, Low64, Valid, Type, Length, ParseAll;
    var body := NodeBody(isDir, kids);
    if isDir {
      PairsParse(kids);
      MakesObject(enc, DIR_NODE, enc.size(body) + SumLengths(ParseAll(PairRefs(PairsOf(kids))).value), body);
    } else {
      MakesObject(enc, FILE_NODE, SumLengths(KeysOf(kids)), body);
    }
  }

  /** Every object of a known type is made, under a canonical key with its wrapped
      length. */
  lemma MakesObject(enc: Encoding, t: nat, length: nat, p: Payload)
    requires t <= XATTR_SET
    ensures NewObject(enc, t, length, p).Success?
    ensures var o := NewObject(enc, t, length, p).value;
            o.payload == p && Valid(o.key) && Type(o.key) == t && Length(o.key) == Low64(length)
  {
    hide Valid, Type, Length;
    NewKeyReadsBack(t, Low64(length), enc.digest(p));
  }

  lemma PairsParse(kids: seq<Tree>)
    requires forall i :: 0 <= i < |kids| ==> Valid(kids[i].key)
    ensures ParseAll(PairRefs(PairsOf(kids))).Success?
  {
    hide Valid;
    var refs := PairRefs(PairsOf(kids));
    ParseAllKeeps(refs);
    assert forall i :: 0 <= i < |refs| ==> Parse(refs[i]).Success?;
  }

  lemma ProperKeyValid(enc: Encoding, maxRun: int, t: Tree)
    requires Proper(enc, true, maxRun, t)
    ensures Valid(t.key)
  {
    if t.Node? {
      forall i | 0 <= i < |t.kids| ensures Valid(t.kids[i].key) { ProperKeyValid(enc, maxRun, t.kids[i]); }
      NodeEncodes(enc, true, t.kids);
    }
  }
}
