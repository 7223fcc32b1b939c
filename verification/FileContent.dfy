/** Building a regular file (buildFile in cmd/amber-store/driver.go over the index
    builder) and writing its content back out (fstree/content.go). */
module FileContent {
  import opened Base
  import opened Keys
  import opened ObjectGraph
  import opened Trees
  import opened Chunker
  import opened IndexBuilding
  import opened TreeReaders

  /** The bytes of a run of blobs. */
  function Content(ps: seq<Payload>): Bytes {
    if ps == [] then []
    else Content(ps[..|ps| - 1]) + (if ps[|ps| - 1].Raw? then ps[|ps| - 1].bytes else [])
  }

  lemma {:induction false} ContentAppend(a: seq<Payload>, b: seq<Payload>)
    ensures Content(a + b) == Content(a) + Content(b)
    decreases |b|
  {
    if b == [] {
      assert a + b == a;
    } else {
      ContentAppend(a, b[..|b| - 1]);
      assert (a + b)[..|a + b| - 1] == a + b[..|b| - 1] && (a + b)[|a + b| - 1] == b[|b| - 1];
    }
  }

  /** Writes the content below `k` after `w`: it succeeds exactly when every object
      on the way is present and decodes, and then writes the leaves' bytes in
      order; a failure leaves a longer or equal output behind. */
  method WriteContent(store: Objects, k: Key, w: Bytes, ghost rank: Key -> nat)
    returns (err: Option<Error>, out: Bytes)
    requires Acyclic(store, rank)
    ensures w <= out
    ensures err.None? <==> BodiesAt(store, rank, false, k).Success?
    ensures err.None? ==> out == w + Content(BodiesAt(store, rank, false, k).value)
    decreases rank(k), 1
  {
    out := w;
    if k !in store { return Some(Missing), out; }
    if Type(k) == BLOB {
      if !store[k].Raw? { return Some(Malformed), out; }
      assert Content([store[k]]) == store[k].bytes by { assert [store[k]][..0] == []; }
      return None, out + store[k].bytes;
    }
    if Type(k) != FILE_NODE { return Some(Malformed), out; }
    var kids := ListChildren(k, store[k]);
    if kids.Failure? { return Some(Malformed), out; }
    KidsRankLower(store, rank, k);
    err, out := WriteAll(store, kids.value, w, rank, rank(k));
  }

  method WriteAll(store: Objects, ks: seq<Key>, w: Bytes, ghost rank: Key -> nat, ghost bound: nat)
    returns (err: Option<Error>, out: Bytes)
    requires Acyclic(store, rank) && forall i :: 0 <= i < |ks| ==> rank(ks[i]) < bound
    ensures w <= out
    ensures err.None? <==> BodiesBelow(store, rank, false, bound, ks).Success?
    ensures err.None? ==> out == w + Content(BodiesBelow(store, rank, false, bound, ks).value)
    decreases bound, 0
  {
    hide BodiesAt;
    out := w;
    ghost var done: seq<Payload> := [];
    for i := 0 to |ks|
      invariant w <= out
      invariant BodiesBelow(store, rank, false, bound, ks[..i]) == Success(done)
      invariant out == w + Content(done)
    {
      BodiesBelowNext(store, rank, false, bound, ks, i, done);
      err, out := WriteContent(store, ks[i], out, rank);
      if err.Some? { return err, out; }
      ghost var last := BodiesAt(store, rank, false, ks[i]).value;
      ContentAppend(done, last);
      done := done + last;
    }
    assert ks[..|ks|] == ks;
    return None, out;
  }

  // ------------------------------------------------------- length fields

  ghost predicate BlobLeaf(t: Tree) {
    t.Leaf? && t.body.Raw? && Length(t.key) == Low64(|t.body.bytes|)
  }

  ghost predicate BlobLeaves(ts: seq<Tree>) {
    forall l :: l in ts ==> BlobLeaf(l)
  }

  function LeafBytes(ts: seq<Tree>): Bytes {
    if ts == [] then []
    else LeafBytes(ts[..|ts| - 1])
         + (if ts[|ts| - 1].Leaf? && ts[|ts| - 1].body.Raw? then ts[|ts| - 1].body.bytes else [])
  }

  lemma {:induction false} LeafBytesAppend(a: seq<Tree>, b: seq<Tree>)
    ensures LeafBytes(a + b) == LeafBytes(a) + LeafBytes(b)
    decreases |b|
  {
    if b == [] {
      assert a + b == a;
    } else {
      LeafBytesAppend(a, b[..|b| - 1]);
      assert (a + b)[..|a + b| - 1] == a + b[..|b| - 1];
    }
  }

  /** A file node's length field is its byte count modulo 2^64, however deep. */
  lemma {:induction false} FileLength(enc: Encoding, maxRun: int, t: Tree)
    requires Proper(enc, false, maxRun, t) && BlobLeaves(Leaves([t]))
    ensures Length(t.key) == Low64(|LeafBytes(Leaves([t]))|)
    decreases t
  {
    LeavesOfOne(t);
    match t
    case Leaf(_, _, _) => assert t in Leaves([t]); assert LeafBytes([t]) == t.body.bytes by { assert [t][..0] == []; }
    case Node(_, _, kids) =>
      NodeEncodes(enc, false, kids);
      RunLength(enc, maxRun, kids);
  }

  lemma {:induction false} RunLength(enc: Encoding, maxRun: int, ts: seq<Tree>)
    requires (forall i :: 0 <= i < |ts| ==> Proper(enc, false, maxRun, ts[i])) && BlobLeaves(Leaves(ts))
    ensures Low64(SumLengths(KeysOf(ts))) == Low64(|LeafBytes(Leaves(ts))|)
    decreases ts
  {
    if ts == [] {
      assert SumLengths(KeysOf(ts)) == 0;
    } else {
      var front, last := ts[..|ts| - 1], ts[|ts| - 1];
      assert ts == front + [last];
      LeavesAppend(front, [last]);
      LeafBytesAppend(Leaves(front), Leaves([last]));
      RunLength(enc, maxRun, front);
      FileLength(enc, maxRun, last);
      SumLengthsSnoc(front, last);
      Low64Step(SumLengths(KeysOf(front)), Length(last.key),
                |LeafBytes(Leaves(front))|, |LeafBytes(Leaves([last]))|,
                SumLengths(KeysOf(ts)), |LeafBytes(Leaves(ts))|);
    }
  }

  // ------------------------------------------------------- building a file

  lemma BlobEncodes(enc: Encoding, data: Bytes)
    ensures EncodeBlob(enc, data).Success?
    ensures var o := EncodeBlob(enc, data).value;
            o.payload == Raw(data) && Type(o.key) == BLOB && Valid(o.key) && Length(o.key) == Low64(|data|)
  {
    NewKeyReadsBack(BLOB, Low64(|data|), enc.digest(Raw(data)));
  }

  function BlobTree(enc: Encoding, data: Bytes): Tree {
    BlobEncodes(enc, data);
    Leaf(EncodeBlob(enc, data).value.key, [], Raw(data))
  }

  function BlobTrees(enc: Encoding, chunks: seq<Bytes>): (ts: seq<Tree>)
    ensures |ts| == |chunks| && forall i :: 0 <= i < |ts| ==> ts[i] == BlobTree(enc, chunks[i])
  {
    seq(|chunks|, i requires 0 <= i < |chunks| => BlobTree(enc, chunks[i]))
  }

  function Flatten(chunks: seq<Bytes>): Bytes {
    if chunks == [] then [] else Flatten(chunks[..|chunks| - 1]) + chunks[|chunks| - 1]
  }

  lemma {:induction false} BlobBytes(enc: Encoding, chunks: seq<Bytes>)
    ensures LeafBytes(BlobTrees(enc, chunks)) == Flatten(chunks)
    ensures (forall i :: 0 <= i < |chunks| ==> BlobTrees(enc, chunks)[i].Leaf?)
    ensures Content(BodiesOf(BlobTrees(enc, chunks))) == Flatten(chunks)
    ensures BlobLeaves(BlobTrees(enc, chunks))
  {
    var ts := BlobTrees(enc, chunks);
    forall i | 0 <= i < |chunks| ensures BlobLeaf(ts[i]) { BlobEncodes(enc, chunks[i]); }
    if chunks != [] {
      var n := |chunks| - 1;
      BlobBytes(enc, chunks[..n]);
      assert ts[..n] == BlobTrees(enc, chunks[..n]);
      assert BodiesOf(ts)[..n] == BodiesOf(BlobTrees(enc, chunks[..n]));
    }
  }

  /** The blobs of a file: its chunks, or one empty blob for an empty file. */
  function FileChunks(chunks: seq<Bytes>): seq<Bytes> {
    if chunks == [] then [[]] else chunks
  }

  /** Emits one chunk as a blob and adds it to the index. */
  method AddChunk(ib: IndexBuilder, sink: Sink, chunk: Bytes) returns (ok: bool)
    requires ib.Valid(sink.log) && !ib.cf.isDir && ib.external == {}
    modifies ib, sink`log
    ensures old(sink.log) <= sink.log && (!ok ==> !sink.accepts(|sink.log|))
    ensures ok ==> ib.Valid(sink.log) && ib.external == {}
    ensures ok ==> Spine(ib.trees) == old(Spine(ib.trees)) + [BlobTree(ib.cf.enc, chunk)]
    ensures ok ==> EncodeBlob(ib.cf.enc, chunk).value in sink.log
  {
    BlobEncodes(ib.cf.enc, chunk);
    var obj := EncodeBlob(ib.cf.enc, chunk).value;
    ib.ValidGrows(sink.log, obj);
    ok := sink.Emit(obj);
    if ok {
      assert sink.log[|sink.log| - 1] == obj;
      ok := ib.AddChild(sink, obj.key, [], Raw(chunk));
    }
  }

  /** Every chunk was emitted as a blob. */
  ghost predicate BlobsIn(log: seq<Object>, enc: Encoding, chunks: seq<Bytes>) {
    forall i :: 0 <= i < |chunks| ==> EncodeBlob(enc, chunks[i]).Success? && EncodeBlob(enc, chunks[i]).value in log
  }

  lemma BlobsInGrow(log: seq<Object>, more: seq<Object>, enc: Encoding, chunks: seq<Bytes>)
    requires BlobsIn(log, enc, chunks) && log <= more
    ensures BlobsIn(more, enc, chunks)
  {
  }

  lemma ChunkAdded(before: seq<Object>, log: seq<Object>, enc: Encoding, blobs: seq<Bytes>, i: nat)
    requires i < |blobs| && BlobsIn(before, enc, blobs[..i]) && before <= log
    requires EncodeBlob(enc, blobs[i]).value in log
    ensures BlobsIn(log, enc, blobs[..i + 1])
    ensures BlobTrees(enc, blobs[..i + 1]) == BlobTrees(enc, blobs[..i]) + [BlobTree(enc, blobs[i])]
  {
    hide EncodeBlob, BlobTree, Type, Valid, Length;
    BlobEncodes(enc, blobs[i]);
    BlobsInGrow(before, log, enc, blobs[..i]);
    assert blobs[..i + 1] == blobs[..i] + [blobs[i]];
  }

  method AddChunks(ib: IndexBuilder, sink: Sink, blobs: seq<Bytes>) returns (ok: bool)
    requires ib.Valid(sink.log) && !ib.cf.isDir && ib.external == {} && Spine(ib.trees) == []
    modifies ib, sink`log
    ensures old(sink.log) <= sink.log && (!ok ==> !sink.accepts(|sink.log|))
    ensures ok ==> ib.Valid(sink.log) && ib.external == {}
    ensures ok ==> Spine(ib.trees) == BlobTrees(ib.cf.enc, blobs) && BlobsIn(sink.log, ib.cf.enc, blobs)
  {
    for i := 0 to |blobs|
      invariant ib.Valid(sink.log) && ib.external == {}
      invariant old(sink.log) <= sink.log
      invariant Spine(ib.trees) == BlobTrees(ib.cf.enc, blobs[..i])
      invariant BlobsIn(sink.log, ib.cf.enc, blobs[..i])
    {
      ghost var before := sink.log;
      ok := AddChunk(ib, sink, blobs[i]);
      if !ok { return; }
      ChunkAdded(before, sink.log, ib.cf.enc, blobs, i);
    }
    assert blobs[..|blobs|] == blobs;
    ok := true;
  }

  /** Builds a file from its chunks. On success the root heads a tree over exactly
      those blobs, everything emitted before what names it; it fails only on a
      refused object. */
  method BuildFile(enc: Encoding, ic: ItemChunker, chunks: seq<Bytes>, sink: Sink)
    returns (r: Result<Key>, ghost t: Tree)
    requires ic.Usable() && ChildrenFirst(sink.log, {})
    modifies sink`log
    ensures old(sink.log) <= sink.log
    ensures r.Failure? ==> !sink.accepts(|sink.log|)
    ensures r.Success? ==>
              && t.key == r.value && ChildrenFirst(sink.log, {})
              && Leaves([t]) == BlobTrees(enc, FileChunks(chunks))
              && Proper(enc, false, ic.maxRun, t) && Emitted(sink.log, false, t)
              && BlobsIn(sink.log, enc, FileChunks(chunks))
  {
    t := BlobTree(enc, []);
    var ib := new IndexBuilder(Config(enc, ic, false), sink.log);
    var blobs := FileChunks(chunks);
    var ok := AddChunks(ib, sink, blobs);
    if !ok { return Failure(Rejected), t; }
    ghost var before := sink.log;
    r, t := ib.Finish(sink);
    BlobsInGrow(before, sink.log, enc, blobs);
  }

  lemma BlobsRepresented(enc: Encoding, blobs: seq<Bytes>, log: seq<Object>, leaves: seq<Tree>, store: Objects)
    requires leaves == BlobTrees(enc, blobs) && BlobsIn(log, enc, blobs) && Holds(store, log)
    ensures forall l :: l in leaves ==> Represents(store, false, l) && Valid(l.key)
  {
    forall l | l in leaves ensures Represents(store, false, l) && Valid(l.key) {
      var i :| 0 <= i < |blobs| && l == BlobTrees(enc, blobs)[i];
      BlobEncodes(enc, blobs[i]);
    }
  }

  /** Build, then read back: in any store holding the emitted objects under their
      keys, the content below the root is the chunks, concatenated, and the root
      key's length field is the byte count (modulo 2^64). */
  lemma FileReadsBack(enc: Encoding, maxRun: int, chunks: seq<Bytes>, log: seq<Object>, t: Tree,
                      store: Objects, rank: Key -> nat)
    requires Proper(enc, false, maxRun, t) && Emitted(log, false, t)
    requires Leaves([t]) == BlobTrees(enc, FileChunks(chunks))
    requires BlobsIn(log, enc, FileChunks(chunks))
    requires Holds(store, log) && Acyclic(store, rank)
    ensures BodiesAt(store, rank, false, t.key).Success?
    ensures Content(BodiesAt(store, rank, false, t.key).value) == Flatten(chunks)
    ensures Length(t.key) == Low64(|Flatten(chunks)|)
  {
    hide BodiesAt, Proper, Emitted, Holds, Represents, BlobsIn, BlobTrees;
    var blobs := FileChunks(chunks);
    assert Flatten([[]]) == [];
    BlobBytes(enc, blobs);
    BlobsRepresented(enc, blobs, log, Leaves([t]), store);
    BuiltIsRepresented(store, log, enc, false, maxRun, t);
    BodiesOfTree(store, rank, false, t);
    FileLength(enc, maxRun, t);
  }
}
