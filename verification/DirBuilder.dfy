/** The directory builder (fstree/dir_builder.go): entries are cut into leaves and
    the leaves indexed with their greatest names. */
module DirBuilding {
  import opened Base
  import opened Keys
  import opened ObjectGraph
  import opened Trees
  import opened Chunker
  import opened IndexBuilding
  import opened TreeReaders
  import opened Directories
  import opened DirectoryTrees
  import opened DirectoryReaders

  lemma LeafEncodes(enc: Encoding, es: seq<Entry>)
    requires EncodeDirLeaf(enc, es).Success?
    ensures var o := EncodeDirLeaf(enc, es).value;
            o.payload == EntryList(es) && Type(o.key) == DIR_LEAF && Valid(o.key)
  {
    var n := enc.size(EntryList(es)) + SumLengths(ParseAll(CountedRefs(es)).value);
    NewKeyReadsBack(DIR_LEAF, Low64(n), enc.digest(EntryList(es)));
  }

  /** An entry's key fields, where they have a key's length, are keys. */
  predicate WellFormed(e: Entry) {
    && (|e.contentKey| == SIZE ==> Parse(e.contentKey).Success?)
    && (|e.xattrsKey| == SIZE ==> Parse(e.xattrsKey).Success?)
  }

  ghost predicate AllWellFormed(es: seq<Entry>) { forall i :: 0 <= i < |es| ==> WellFormed(es[i]) }

  lemma {:induction false} RefsParseIff(es: seq<Entry>)
    ensures ParseAll(CountedRefs(es)).Success? <==> AllWellFormed(es)
  {
    if es != [] {
      var front, e := es[..|es| - 1], es[|es| - 1];
      var content := if |e.contentKey| == SIZE then [e.contentKey] else [];
      var xattrs := if |e.xattrsKey| == SIZE then [e.xattrsKey] else [];
      RefsParseIff(front);
      ParseAllAppend(CountedRefs(front), content);
      ParseAllAppend(CountedRefs(front) + content, xattrs);
      ParseAllKeeps(content);
      ParseAllKeeps(xattrs);
      assert es == front + [e];
      WellFormedAppend(front, [e]);
    }
  }

  lemma WellFormedAppend(a: seq<Entry>, b: seq<Entry>)
    ensures AllWellFormed(a + b) <==> AllWellFormed(a) && AllWellFormed(b)
  {
    hide WellFormed;
    if AllWellFormed(a + b) {
      forall i | 0 <= i < |a| ensures WellFormed(a[i]) { assert (a + b)[i] == a[i]; }
      forall i | 0 <= i < |b| ensures WellFormed(b[i]) { assert (a + b)[|a| + i] == b[i]; }
    }
  }

  /** A leaf encodes exactly when all its entries are well-formed. */
  lemma LeafEncodesIff(enc: Encoding, es: seq<Entry>)
    ensures EncodeDirLeaf(enc, es).Success? <==> AllWellFormed(es)
  {
    RefsParseIff(es);
    if ParseAll(CountedRefs(es)).Success? {
      var n := enc.size(EntryList(es)) + SumLengths(ParseAll(CountedRefs(es)).value);
      NewKeyReadsBack(DIR_LEAF, Low64(n), enc.digest(EntryList(es)));
    }
  }

  /** A leaf tree whose object was emitted. */
  ghost predicate LeafIn(log: seq<Object>, t: Tree) {
    t.Leaf? && Type(t.key) == DIR_LEAF && Valid(t.key) && t.body.EntryList? && Object(t.key, t.body) in log
  }

  ghost predicate LeavesIn(log: seq<Object>, ts: seq<Tree>) {
    forall i :: 0 <= i < |ts| ==> LeafIn(log, ts[i])
  }

  /** The leaves of the empty directory, or a run of non-empty ones, each under
      its greatest name. */
  ghost predicate LeafRun(ts: seq<Tree>) {
    AllSeparated(ts) || (|ts| == 1 && ts[0].Leaf? && ts[0].body == EntryList([]))
  }

  lemma LeavesInGrow(log: seq<Object>, more: seq<Object>, ts: seq<Tree>)
    requires LeavesIn(log, ts) && log <= more
    ensures LeavesIn(more, ts)
  {
  }

  lemma LeavesInSnoc(log: seq<Object>, o: Object, ts: seq<Tree>, t: Tree)
    requires LeavesIn(log, ts) && t.Leaf? && Type(t.key) == DIR_LEAF && Valid(t.key) && t.body.EntryList?
    requires o == Object(t.key, t.body)
    ensures LeavesIn(log + [o], ts + [t])
  {
    LeavesInGrow(log, log + [o], ts);
    assert (log + [o])[|log|] == o;
  }

  lemma {:induction false} EntriesOfTheLeaves(ts: seq<Tree>)
    ensures EntriesOf(Leaves(ts)) == EntriesOf(ts)
  {
    if ts != [] {
      var head := match ts[0] case Leaf(_, _, _) => [ts[0]] case Node(_, _, kids) => Leaves(kids);
      EntriesOfAppend(head, Leaves(ts[1..]));
      EntriesOfTheLeaves(ts[1..]);
      EntriesOfOne(ts[0]);
      if ts[0].Node? { EntriesOfTheLeaves(ts[0].kids); }
    }
  }

  /** Separators carry over from the leaves to every node above them. */
  lemma {:induction false} NodesSeparate(enc: Encoding, maxRun: int, t: Tree)
    requires Proper(enc, true, maxRun, t) && forall l :: l in Leaves([t]) ==> Separated(l)
    ensures Separated(t)
    decreases t
  {
    LeavesOfOne(t);
    match t
    case Leaf(_, _, _) => assert t in Leaves([t]);
    case Node(_, _, kids) =>
      forall i | 0 <= i < |kids| ensures Separated(kids[i]) {
        LeavesOfKid(kids, i);
        NodesSeparate(enc, maxRun, kids[i]);
      }
  }

  class DirBuilder {
    const idx: IndexBuilder
    var leaf: seq<Entry>
    var leafMax: Bytes
    var runLen: nat

    /** Everything added so far, in order. */
    ghost function Added(): seq<Entry>
      reads this, idx
    {
      EntriesOf(Spine(idx.trees)) + leaf
    }

    ghost predicate Valid(log: seq<Object>)
      reads this, idx
    {
      && idx.Valid(log) && idx.cf.isDir && idx.external == {}
      && runLen == |leaf| && leafMax == (if leaf == [] then [] else LastName(leaf))
      && LeavesIn(log, Spine(idx.trees)) && AllSeparated(Spine(idx.trees))
      && (idx.levels == [] <==> Spine(idx.trees) == []) && AllWellFormed(EntriesOf(Spine(idx.trees)))
    }

    constructor (enc: Encoding, ic: ItemChunker, ghost log: seq<Object>)
      requires ic.Usable() && ChildrenFirst(log, {})
      ensures Valid(log) && Added() == [] && fresh(idx) && idx.cf == Config(enc, ic, true)
    {
      idx := new IndexBuilder(Config(enc, ic, true), log);
      leaf, leafMax, runLen := [], [], 0;
    }

    /** Emits the current leaf and indexes it under its greatest name. It fails on
        a malformed key field among the leaf's entries, or a refused object. */
    method CloseLeaf(sink: Sink) returns (err: Option<Error>)
      requires Valid(sink.log) && (leaf == [] ==> Spine(idx.trees) == [])
      modifies this, idx, sink`log
      ensures old(sink.log) <= sink.log
      ensures err == Some(Malformed) <==> !AllWellFormed(old(leaf))
      ensures err.None? ==> AllWellFormed(Added())
      ensures err.None? || err == Some(Malformed) || (err == Some(Rejected) && !sink.accepts(|sink.log|))
      ensures err.None? ==> idx.Valid(sink.log) && idx.external == {} && |idx.levels| > 0
      ensures err.None? ==> LeavesIn(sink.log, Spine(idx.trees)) && LeafRun(Spine(idx.trees))
      ensures err.None? ==> Spine(idx.trees) != []
      ensures err.None? ==> leaf == [] && leafMax == [] && runLen == 0 && Added() == old(Added())
      ensures err.None? && old(leaf) != [] ==> Valid(sink.log)
    {
      hide EncodeDirLeaf, IndexBuilder.Valid, LeavesIn, Spine, WellFormed;
      LeafEncodesIff(idx.cf.enc, leaf);
      WellFormedAppend(EntriesOf(Spine(idx.trees)), leaf);
      var encoded := EncodeDirLeaf(idx.cf.enc, leaf);
      if encoded.Failure? { return Some(Malformed); }
      var sep := leafMax;
      ghost var es, spine := leaf, Spine(idx.trees);
      leaf, leafMax, runLen := [], [], 0;
      var ok := IndexLeaf(sink, encoded.value, sep, es);
      if !ok { return Some(Rejected); }
      ghost var t := Leaf(encoded.value.key, sep, EntryList(es));
      EntriesOfAppend(spine, [t]);
      EntriesOfOne(t);
      return None;
    }

    /** Hands a leaf to the sink and its key to the index. */
    method IndexLeaf(sink: Sink, obj: Object, sep: Bytes, ghost es: seq<Entry>) returns (ok: bool)
      requires idx.Valid(sink.log) && idx.cf.isDir && idx.external == {}
      requires LeavesIn(sink.log, Spine(idx.trees)) && EncodeDirLeaf(idx.cf.enc, es) == Success(obj)
      modifies idx, sink`log
      ensures old(sink.log) <= sink.log && (!ok ==> !sink.accepts(|sink.log|))
      ensures ok ==> idx.Valid(sink.log) && idx.external == {} && |idx.levels| > 0
      ensures ok ==> Spine(idx.trees) == old(Spine(idx.trees)) + [Leaf(obj.key, sep, EntryList(es))]
      ensures ok ==> LeavesIn(sink.log, Spine(idx.trees))
    {
      LeafEncodes(idx.cf.enc, es);
      ghost var spine, log := Spine(idx.trees), sink.log;
      idx.ValidGrows(sink.log, obj);
      ok := sink.Emit(obj);
      if ok {
        ghost var t := Leaf(obj.key, sep, EntryList(es));
        LeavesInSnoc(log, obj, spine, t);
        assert sink.log[|sink.log| - 1] == obj;
        ghost var mid := sink.log;
        ok := idx.AddChild(sink, obj.key, sep, EntryList(es));
        LeavesInGrow(mid, sink.log, spine + [t]);
      }
    }

    /** Appends one entry, closing the leaf when the chunker says so. */
    method AddEntry(sink: Sink, e: Entry) returns (err: Option<Error>)
      requires Valid(sink.log)
      modifies this, idx, sink`log
      ensures old(sink.log) <= sink.log
      ensures err.None? || err == Some(Malformed) || (err == Some(Rejected) && !sink.accepts(|sink.log|))
      ensures err == Some(Malformed) ==> !AllWellFormed(old(Added()) + [e])
      ensures err.None? ==> Valid(sink.log) && Added() == old(Added()) + [e]
    {
      leaf := leaf + [e];
      leafMax := e.name;
      runLen := runLen + 1;
      assert Added() == old(Added()) + [e];
      WellFormedAppend(EntriesOf(Spine(idx.trees)), leaf);
      err := None;
      if idx.cf.ic.IsBoundary(idx.cf.enc.entrySum(e), runLen) { err := CloseLeaf(sink); }
    }

    /** Closes the trailing leaf (an empty one for an empty directory) and the
        index. The root heads a well-separated tree of exactly the entries added,
        every object of it emitted, children first. */
    method Finish(sink: Sink) returns (r: Result<Key>, ghost t: Tree)
      requires Valid(sink.log)
      modifies this, idx, sink`log
      ensures old(sink.log) <= sink.log
      ensures r.Failure? ==> r.error == Malformed || (r.error == Rejected && !sink.accepts(|sink.log|))
      ensures r.Failure? && r.error == Malformed ==> !AllWellFormed(old(Added()))
      ensures r.Success? ==> AllWellFormed(old(Added()))
      ensures r.Success? ==>
                && t.key == r.value && EntriesOf([t]) == old(Added())
                && Proper(idx.cf.enc, true, idx.cf.ic.maxRun, t) && Emitted(sink.log, true, t)
                && LeavesIn(sink.log, Leaves([t])) && LeafRun(Leaves([t]))
                && ChildrenFirst(sink.log, {})
    {
      hide IndexBuilder.Valid, LeavesIn, Spine, Proper, Emitted, ChildrenFirst, WellFormed;
      t := Leaf(seq(SIZE, _ => 0), [], Raw([]));
      WellFormedAppend(EntriesOf(Spine(idx.trees)), leaf);
      if runLen > 0 || |idx.levels| == 0 {
        var err := CloseLeaf(sink);
        if err.Some? { return Failure(err.value), t; }
      } else {
        assert Added() == EntriesOf(Spine(idx.trees));
      }
      ghost var spine, log := Spine(idx.trees), sink.log;
      assert EntriesOf(spine) == old(Added());
      assert LeavesIn(log, spine) && LeafRun(spine);
      r, t := idx.Finish(sink);
      if r.Success? {
        LeavesInGrow(log, sink.log, spine);
        EntriesOfTheLeaves([t]);
      }
    }
  }

  method AddEntries(db: DirBuilder, sink: Sink, es: seq<Entry>) returns (err: Option<Error>)
    requires db.Valid(sink.log) && db.Added() == []
    modifies db, db.idx, sink`log
    ensures old(sink.log) <= sink.log
    ensures err.None? || err == Some(Malformed) || (err == Some(Rejected) && !sink.accepts(|sink.log|))
    ensures err == Some(Malformed) ==> !AllWellFormed(es)
    ensures err.None? ==> db.Valid(sink.log) && db.Added() == es
  {
    hide DirBuilder.Valid, DirBuilder.Added, AllWellFormed;
    for i := 0 to |es|
      invariant db.Valid(sink.log) && old(sink.log) <= sink.log && db.Added() == es[..i]
    {
      assert es[..i + 1] == es[..i] + [es[i]];
      WellFormedAppend(es[..i + 1], es[i + 1..]);
      assert es[..i + 1] + es[i + 1..] == es;
      err := db.AddEntry(sink, es[i]);
      if err.Some? { return; }
    }
    assert es[..|es|] == es;
    err := None;
  }

  /** Streams a directory's entries through the builder, as the ingest driver does. */
  method BuildDirectory(enc: Encoding, ic: ItemChunker, es: seq<Entry>, sink: Sink)
    returns (r: Result<Key>, ghost t: Tree)
    requires ic.Usable() && ChildrenFirst(sink.log, {})
    modifies sink`log
    ensures old(sink.log) <= sink.log
    ensures r.Failure? ==> r.error == Malformed || (r.error == Rejected && !sink.accepts(|sink.log|))
    ensures r.Failure? && r.error == Malformed ==> !AllWellFormed(es)
    ensures r.Success? ==> AllWellFormed(es)
    ensures r.Success? ==>
              && t.key == r.value && EntriesOf([t]) == es
              && Proper(enc, true, ic.maxRun, t) && Emitted(sink.log, true, t)
              && LeavesIn(sink.log, Leaves([t])) && LeafRun(Leaves([t]))
              && ChildrenFirst(sink.log, {})
  {
    t := Leaf(seq(SIZE, _ => 0), [], Raw([]));
    var db := new DirBuilder(enc, ic, sink.log);
    var err := AddEntries(db, sink, es);
    if err.Some? { return Failure(err.value), t; }
    r, t := db.Finish(sink);
  }

  /** Build, then read back: in any store holding the emitted objects under their
      keys, the listing below the root is the entries added. Collecting it
      succeeds exactly when their names strictly increase, and then the store
      holds a directory, on which lookup and paging are exact. */
  lemma DirectoryReadsBack(enc: Encoding, maxRun: int, es: seq<Entry>, log: seq<Object>, t: Tree,
                           store: Objects, rank: Key -> nat)
    requires EntriesOf([t]) == es && Proper(enc, true, maxRun, t) && Emitted(log, true, t)
    requires LeavesIn(log, Leaves([t])) && LeafRun(Leaves([t]))
    requires Holds(store, log) && Acyclic(store, rank)
    ensures BodiesAt(store, rank, true, t.key).Success?
    ensures Entries(BodiesAt(store, rank, true, t.key).value) == es
    ensures Increasing(es) <==> Stores(store, t.key, t)
  {
    forall l | l in Leaves([t]) ensures Represents(store, true, l) && Valid(l.key) {
      var i :| 0 <= i < |Leaves([t])| && l == Leaves([t])[i];
      assert LeafIn(log, l);
    }
    BuiltIsRepresented(store, log, enc, true, maxRun, t);
    BodiesOfTree(store, rank, true, t);
    EntriesOfLeaves([t]);
    TreeSeparated(enc, maxRun, t);
  }

  lemma TreeSeparated(enc: Encoding, maxRun: int, t: Tree)
    requires Proper(enc, true, maxRun, t) && LeafRun(Leaves([t]))
    ensures Separated(t) || (t.Leaf? && t.body == EntryList([]))
  {
    LeavesOfOne(t);
    if AllSeparated(Leaves([t])) {
      NodesSeparate(enc, maxRun, t);
    } else if t.Node? {
      FewerNodesThanLeaves(enc, true, maxRun, t.kids);
    }
  }

  /** Paging a stored directory from the empty cursor, each page from the last name of
      the one before, lists every entry with a non-empty name once, in order. */
  lemma PagingListsDirectory(store: Objects, k: Key, t: Tree, limit: nat)
    requires Stores(store, k, t) && limit > 0
    ensures var es := EntriesOf([t]);
            Pages(es, [], limit) == if es != [] && es[0].name == [] then es[1..] else es
  {
    var es := EntriesOf([t]);
    PagesEnumerate(es, [], limit);
    AllNonEmptyNames(es);
  }
}
