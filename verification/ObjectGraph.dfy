/** Stored object bodies, the keys they name (fstree/children.go) and
    the graph they form. A body is modelled by what its decoder sees. */
module ObjectGraph {
  import opened Base
  import opened Keys
  import opened Graphs

  datatype Entry = Entry(
    name: Bytes, mode: nat, uid: nat, gid: nat, mtime: int,
    contentKey: Bytes, linkTarget: Bytes, rdev: seq<nat>, xattrsIn: Bytes, xattrsKey: Bytes)

  datatype DirPair = DirPair(sepName: Bytes, childKey: Bytes)

  datatype Payload =
    | Raw(bytes: Bytes)
    | KeyList(children: seq<Bytes>)
    | EntryList(entries: seq<Entry>)
    | PairList(pairs: seq<DirPair>)

  type Objects = map<Key, Payload>

  // ---------------------------------------------------------- child keys

  /** Parses every reference; one malformed reference spoils the list. */
  function ParseAll(refs: seq<Bytes>): Result<seq<Key>> {
    if refs == [] then Success([])
    else match Parse(refs[0])
      case Failure(e) => Failure(e)
      case Success(k) =>
        match ParseAll(refs[1..])
        case Failure(e) => Failure(e)
        case Success(ks) => Success([k] + ks)
  }

  function PairRefs(pairs: seq<DirPair>): seq<Bytes> {
    seq(|pairs|, i requires 0 <= i < |pairs| => pairs[i].childKey)
  }

  /** The non-empty key fields of one entry, content before attributes. */
  function EntryRefs(e: Entry): seq<Bytes> {
    (if |e.contentKey| > 0 then [e.contentKey] else [])
    + (if |e.xattrsKey| > 0 then [e.xattrsKey] else [])
  }

  function AllEntryRefs(es: seq<Entry>): seq<Bytes> {
    if es == [] then [] else AllEntryRefs(es[..|es| - 1]) + EntryRefs(es[|es| - 1])
  }

  /** The references an object of the key's type holds; a body of another shape
      does not decode. */
  function RawRefs(k: Key, p: Payload): Option<seq<Bytes>> {
    if IsLeafType(k) then Some([])
    else if Type(k) == FILE_NODE && p.KeyList? then Some(p.children)
    else if Type(k) == DIR_NODE && p.PairList? then Some(PairRefs(p.pairs))
    else if Type(k) == DIR_LEAF && p.EntryList? then Some(AllEntryRefs(p.entries))
    else None
  }

  function ChildKeys(k: Key, p: Payload): Result<seq<Key>> {
    match RawRefs(k, p)
    case None => Failure(Malformed)
    case Some(refs) => ParseAll(refs)
  }

  lemma {:induction false} ParseAllAppend(a: seq<Bytes>, b: seq<Bytes>)
    ensures ParseAll(a + b) ==
            (match ParseAll(a)
             case Failure(e) => Failure(e)
             case Success(ks) =>
               match ParseAll(b)
               case Failure(e) => Failure(e)
               case Success(ls) => Success(ks + ls))
  {
    if a == [] {
      assert a + b == b;
      if ParseAll(b).Success? { assert [] + ParseAll(b).value == ParseAll(b).value; }
    } else {
      assert (a + b)[1..] == a[1..] + b;
      ParseAllAppend(a[1..], b);
      if ParseAll(a).Success? && ParseAll(b).Success? {
        var k, ks, ls := Parse(a[0]).value, ParseAll(a[1..]).value, ParseAll(b).value;
        assert [k] + ks + ls == [k] + (ks + ls);
      }
    }
  }

  /** Parsing keeps every reference as it is, in order. */
  lemma {:induction false} ParseAllKeeps(refs: seq<Bytes>)
    ensures ParseAll(refs).Success? ==> ParseAll(refs).value == refs
    ensures ParseAll(refs).Success? <==> forall i :: 0 <= i < |refs| ==> Parse(refs[i]).Success?
  {
    if refs != [] {
      ParseAllKeeps(refs[1..]);
      assert forall i :: 1 <= i < |refs| ==> refs[i] == refs[1..][i - 1];
      assert forall i :: 0 <= i < |refs[1..]| ==> refs[1..][i] == refs[i + 1];
    }
  }

  lemma ParseOne(ref: Bytes)
    ensures ParseAll([ref]) ==
            match Parse(ref) case Success(k) => Success([k]) case Failure(e) => Failure(e)
  {
    assert [ref][1..] == [];
    if Parse(ref).Success? { assert [Parse(ref).value] + [] == [Parse(ref).value]; }
  }

  /** The scan of a FileNode or DirNode: one key at a time, stopping at the first
      that does not parse. */
  method ParseRefs(refs: seq<Bytes>) returns (r: Result<seq<Key>>)
    ensures r == ParseAll(refs)
  {
    var out: seq<Key> := [];
    for i := 0 to |refs|
      invariant ParseAll(refs[..i]) == Success(out)
    {
      ParseOne(refs[i]);
      ParseAllAppend(refs[..i], [refs[i]]);
      ParseAllAppend(refs[..i + 1], refs[i + 1..]);
      assert refs[..i] + [refs[i]] == refs[..i + 1];
      assert refs[..i + 1] + refs[i + 1..] == refs;
      match Parse(refs[i])
      case Success(ck) => out := out + [ck];
      case Failure(err) => return Failure(err);
    }
    assert refs[..|refs|] == refs;
    return Success(out);
  }

  method ParseEntry(out: seq<Key>, e: Entry) returns (r: Result<seq<Key>>)
    ensures r == match ParseAll(EntryRefs(e))
                 case Success(ks) => Success(out + ks)
                 case Failure(err) => Failure(err)
  {
    var ks: seq<Key> := [];
    ParseOne(e.contentKey);
    ParseOne(e.xattrsKey);
    ghost var content := if |e.contentKey| > 0 then [e.contentKey] else [];
    ghost var xattrs := if |e.xattrsKey| > 0 then [e.xattrsKey] else [];
    ParseAllAppend(content, xattrs);
    if |e.contentKey| > 0 {
      match Parse(e.contentKey)
      case Success(ck) => ks := [ck];
      case Failure(err) => return Failure(err);
    }
    assert ParseAll(content) == Success(ks);
    if |e.xattrsKey| > 0 {
      match Parse(e.xattrsKey)
      case Success(xk) => ks := ks + [xk];
      case Failure(err) => return Failure(err);
    }
    assert EntryRefs(e) == content + xattrs;
    assert ks == ParseAll(content).value + ParseAll(xattrs).value;
    return Success(out + ks);
  }

  /** The scan of a DirLeaf. */
  method ParseEntries(es: seq<Entry>) returns (r: Result<seq<Key>>)
    ensures r == ParseAll(AllEntryRefs(es))
  {
    var out: seq<Key> := [];
    for i := 0 to |es|
      invariant ParseAll(AllEntryRefs(es[..i])) == Success(out)
    {
      assert es[..i + 1][..i] == es[..i];
      ParseAllAppend(AllEntryRefs(es[..i]), EntryRefs(es[i]));
      EntryRefsSpoil(es, i);
      var next := ParseEntry(out, es[i]);
      match next
      case Success(ks) => out := ks;
      case Failure(err) => return Failure(err);
    }
    assert es[..|es|] == es;
    return Success(out);
  }

  /** The child scan answers exactly the references of the decoded body, in
      encounter order, or the error of the first malformed one. */
  method ListChildren(k: Key, p: Payload) returns (r: Result<seq<Key>>)
    ensures r == ChildKeys(k, p)
    ensures r.Success? ==> RawRefs(k, p) == Some(r.value)
  {
    if IsLeafType(k) { return Success([]); }
    if RawRefs(k, p).None? { return Failure(Malformed); }
    ParseAllKeeps(RawRefs(k, p).value);
    match p
    case EntryList(es) => r := ParseEntries(es);
    case KeyList(children) => r := ParseRefs(children);
    case PairList(pairs) => r := ParseRefs(PairRefs(pairs));
  }

  /** A malformed reference among the first entries spoils the whole leaf with
      the same error. */
  lemma {:induction false} EntryRefsSpoil(es: seq<Entry>, i: nat)
    requires i < |es|
    ensures ParseAll(AllEntryRefs(es[..i + 1])).Failure? ==>
              ParseAll(AllEntryRefs(es)) == ParseAll(AllEntryRefs(es[..i + 1]))
    decreases |es|
  {
    if i + 1 < |es| {
      var front := es[..|es| - 1];
      assert front[..i + 1] == es[..i + 1];
      EntryRefsSpoil(front, i);
      ParseAllAppend(AllEntryRefs(front), EntryRefs(es[|es| - 1]));
    } else {
      assert es[..i + 1] == es;
    }
  }

  // --------------------------------------------------------- the graph

  /** The edges between stored objects: a key is a vertex when its body decodes. */
  function Edges(objs: Objects): Graph {
    map k | k in objs && ChildKeys(k, objs[k]).Success? :: ChildKeys(k, objs[k]).value
  }

  /** Everything below `root`, including it, is stored and decodes. */
  ghost predicate Complete(objs: Objects, root: Key) {
    forall k :: Reaches(Edges(objs), root, k) ==> k in objs && k in Edges(objs)
  }
}
