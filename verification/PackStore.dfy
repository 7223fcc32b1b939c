/** The segment store (packstore/packstore.go): one append-only active segment and
    immutable sealed ones that together behave as one finite map. */
module PackStore {
  import opened Base
  import opened Keys
  import opened Record
  import opened WirePack
  import opened SegmentFooter
  import opened Segments
  import opened SealedSegments

  /** The active segment: its file, the length appends have reached, its index. A
      failed write may leave bytes past `size`. */
  datatype Active = Active(id: nat, file: Bytes, size: nat, index: map<Key, Loc>)

  /** The objects in sealed segments, newest last and winning. */
  ghost function Merge(srcs: seq<Source>): map<Key, Bytes> {
    if srcs == [] then map[] else Merge(srcs[..|srcs| - 1]) + Content(srcs[|srcs| - 1].recs)
  }

  ghost predicate AllOpened(c: Codec, f: Filter, sealed: seq<Sealed>) {
    forall i :: 0 <= i < |sealed| ==> Opened(c, f, sealed[i])
  }

  ghost predicate SealedOk(c: Codec, f: Filter, sealed: seq<Sealed>, srcs: seq<Source>) {
    && |sealed| == |srcs| && AllOpened(c, f, sealed)
    && forall i :: 0 <= i < |sealed| ==> SealedFrom(c, f, sealed[i], srcs[i]) && DistinctRecs(srcs[i].recs)
  }

  ghost predicate ActiveOk(c: Codec, active: Option<Active>, recs: seq<Rec>) {
    match active
    case None => recs == []
    case Some(a) =>
      && AllFit(recs) && a.size == |Body(c, recs)| <= |a.file| && a.file[..a.size] == Body(c, recs)
      && a.index == Locs(c, recs) && DistinctRecs(recs)
  }

  ghost predicate DistinctIds(sealed: seq<Sealed>) {
    forall i, j :: 0 <= i < j < |sealed| ==> sealed[i].id != sealed[j].id
  }

  /** No segment in use has the number. */
  ghost predicate Unused(id: nat, sealed: seq<Sealed>, active: Option<Active>) {
    (active.Some? ==> active.value.id != id) && forall i :: 0 <= i < |sealed| ==> sealed[i].id != id
  }

  /** No number is used twice, and all are below `nextID`. */
  ghost predicate IdsOk(sealed: seq<Sealed>, active: Option<Active>, nextID: nat) {
    && DistinctIds(sealed) && (forall i :: 0 <= i < |sealed| ==> sealed[i].id < nextID)
    && (active.Some? ==> active.value.id < nextID && Unused(active.value.id, sealed, None))
  }

  /** Sealed ids ascend strictly below the active id: so in any store that never
      recovered an active file older than a sealed one. */
  ghost predicate Ordered(sealed: seq<Sealed>, active: Option<Active>) {
    && (forall i, j :: 0 <= i < j < |sealed| ==> sealed[i].id < sealed[j].id)
    && (active.Some? ==> forall i :: 0 <= i < |sealed| ==> sealed[i].id < active.value.id)
  }

  // ------------------------------------------------------------ stale files

  /** Files the store does not use but the next open finds: sealed and active ones that
      could not be removed, and the active segment's own under its sealed name, once a
      seal failed after the rename. */
  datatype Stale = Stale(sealedFiles: map<nat, Bytes>, activeFiles: map<nat, Bytes>, renamed: Option<Bytes>)

  const NOTHING_STALE := Stale(map[], map[], None)

  /** An active file that holds `recs`, whatever follows them; without a whole header it
      holds none. */
  ghost predicate LeftActive(c: Codec, file: Bytes, recs: seq<Rec>) {
    && AllFit(recs) && DistinctRecs(recs)
    && if MAGIC_HEADER <= file then Body(c, recs) <= file else recs == []
  }

  /** A sealed file that holds `src.recs`, if it opens. */
  ghost predicate LeftSealed(c: Codec, f: Filter, file: Bytes, src: Source) {
    ImageOf(c, f, file, src) && DistinctRecs(src.recs)
  }

  /** `known` says what each stale file holds. */
  ghost predicate StaleOk(c: Codec, f: Filter, stale: Stale, known: map<nat, Source>) {
    && (forall id :: id in stale.sealedFiles ==> id in known && LeftSealed(c, f, stale.sealedFiles[id], known[id]))
    && (forall id :: id in stale.activeFiles ==> id in known && LeftActive(c, stale.activeFiles[id], known[id].recs))
  }

  /** Stale files have numbers of their own. */
  ghost predicate Apart(stale: Stale, sealed: seq<Sealed>, active: Option<Active>, next: nat) {
    && (forall id :: id in stale.sealedFiles ==> id < next && id !in stale.activeFiles && Unused(id, sealed, active))
    && (forall id :: id in stale.activeFiles ==> id < next && Unused(id, sealed, active))
  }

  /** A renamed file holds the active records, and writes have stopped. */
  ghost predicate RenamedOk(c: Codec, f: Filter, stale: Stale, known: map<nat, Source>, active: Option<Active>,
                            recs: seq<Rec>, failed: bool) {
    stale.renamed.Some? ==>
      && failed && active.Some? && active.value.id in known && known[active.value.id].recs == recs
      && LeftSealed(c, f, stale.renamed.value, known[active.value.id])
  }

  /** The files of the segments numbered in `which`. */
  method Files(sealed: seq<Sealed>, which: set<nat>, ghost srcs: seq<Source>)
    returns (files: map<nat, Bytes>, ghost known: map<nat, Source>)
    requires |srcs| == |sealed| && DistinctIds(sealed)
    ensures FilesOf(sealed, which, srcs, files, known)
  {
    files, known := map[], map[];
    for i := 0 to |sealed|
      invariant FilesOf(sealed[..i], which, srcs[..i], files, known)
    {
      FilesStep(sealed, which, srcs, files, known, i);
      if sealed[i].id in which {
        files := files[sealed[i].id := sealed[i].mm];
        known := known[sealed[i].id := srcs[i]];
      }
    }
    assert sealed[..|sealed|] == sealed && srcs[..|srcs|] == srcs;
  }

  /** The files, and their sources, of exactly the segments numbered in `which`. */
  ghost predicate FilesOf(sealed: seq<Sealed>, which: set<nat>, srcs: seq<Source>, files: map<nat, Bytes>,
                          known: map<nat, Source>) {
    && |sealed| == |srcs| && known.Keys == files.Keys
    && (forall id :: id in files ==> id in which && !Unused(id, sealed, None))
    && (forall i :: 0 <= i < |sealed| && sealed[i].id in which ==>
          sealed[i].id in files && files[sealed[i].id] == sealed[i].mm && known[sealed[i].id] == srcs[i])
  }

  lemma FilesStep(sealed: seq<Sealed>, which: set<nat>, srcs: seq<Source>, files: map<nat, Bytes>,
                  known: map<nat, Source>, i: nat)
    requires i < |sealed| == |srcs| && DistinctIds(sealed) && FilesOf(sealed[..i], which, srcs[..i], files, known)
    ensures var g := sealed[i];
            if g.id in which
            then FilesOf(sealed[..i + 1], which, srcs[..i + 1], files[g.id := g.mm], known[g.id := srcs[i]])
            else FilesOf(sealed[..i + 1], which, srcs[..i + 1], files, known)
  {
    var front, more := sealed[..i], sealed[..i + 1];
    forall id | id in files ensures !Unused(id, more, None) {
      var j :| 0 <= j < i && front[j].id == id;
      assert more[j] == sealed[j];
    }
    assert more[i] == sealed[i];
    forall j | 0 <= j < i + 1 && more[j].id in which && j < i ensures front[j] == more[j] { }
  }

  lemma FileFrom(sealed: seq<Sealed>, which: set<nat>, srcs: seq<Source>, files: map<nat, Bytes>,
                 known: map<nat, Source>, id: nat) returns (i: nat)
    requires FilesOf(sealed, which, srcs, files, known) && id in files
    ensures i < |sealed| && sealed[i].id == id && files[id] == sealed[i].mm && known[id] == srcs[i]
  {
    i :| 0 <= i < |sealed| && sealed[i].id == id;
  }

  /** Files of detached segments join the stale ones. */
  lemma DetachedStale(c: Codec, f: Filter, stale: Stale, known: map<nat, Source>, sealed: seq<Sealed>,
                      srcs: seq<Source>, which: set<nat>, files: map<nat, Bytes>, from: map<nat, Source>)
    requires StaleOk(c, f, stale, known) && SealedOk(c, f, sealed, srcs)
    requires FilesOf(sealed, which, srcs, files, from)
    requires forall id :: id in stale.activeFiles ==> id !in files
    ensures StaleOk(c, f, stale.(sealedFiles := stale.sealedFiles + files), known + from)
  {
    hide SealedFrom, Opened, ImageOf, LeftActive, DistinctRecs;
    forall id | id in files ensures id in from && LeftSealed(c, f, files[id], from[id]) {
      var i := FileFrom(sealed, which, srcs, files, from, id);
      ImageOfSealed(c, f, sealed[i], srcs[i]);
    }
  }

  /** Every copy of a key carries the map's value. */
  ghost predicate Coherent(srcs: seq<Source>, recs: seq<Rec>, m: map<Key, Bytes>) {
    && Within(Content(recs), m)
    && forall i :: 0 <= i < |srcs| ==> Within(Content(srcs[i].recs), m)
  }

  ghost predicate Within(a: map<Key, Bytes>, m: map<Key, Bytes>) {
    forall k :: k in a ==> k in m && m[k] == a[k]
  }

  // ------------------------------------------------------------- the lemmas

  lemma MergeAppend(srcs: seq<Source>, s: Source)
    ensures Merge(srcs + [s]) == Merge(srcs) + Content(s.recs)
  {
    assert (srcs + [s])[..|srcs|] == srcs;
  }

  /** The newest segment that holds a key decides its value. */
  lemma {:induction false} MergeFinds(srcs: seq<Source>, i: nat, k: Key)
    requires i < |srcs| && k in Content(srcs[i].recs)
    requires forall j :: i < j < |srcs| ==> k !in Content(srcs[j].recs)
    ensures k in Merge(srcs) && Merge(srcs)[k] == Content(srcs[i].recs)[k]
    decreases |srcs|
  {
    if i < |srcs| - 1 { MergeFinds(srcs[..|srcs| - 1], i, k); }
  }

  lemma {:induction false} MergeMisses(srcs: seq<Source>, k: Key)
    requires forall j :: 0 <= j < |srcs| ==> k !in Content(srcs[j].recs)
    ensures k !in Merge(srcs)
  {
    if srcs != [] { MergeMisses(srcs[..|srcs| - 1], k); }
  }

  lemma {:induction false} MergeWithin(srcs: seq<Source>, m: map<Key, Bytes>)
    requires forall i :: 0 <= i < |srcs| ==> Within(Content(srcs[i].recs), m)
    ensures Within(Merge(srcs), m)
  {
    if srcs != [] { MergeWithin(srcs[..|srcs| - 1], m); }
  }

  lemma {:induction false} MergeCovers(srcs: seq<Source>, i: nat, k: Key)
    requires i < |srcs| && k in Content(srcs[i].recs)
    ensures k in Merge(srcs)
    decreases |srcs|
  {
    if i < |srcs| - 1 { MergeCovers(srcs[..|srcs| - 1], i, k); }
  }

  lemma WithinUnion(a: map<Key, Bytes>, b: map<Key, Bytes>, m: map<Key, Bytes>)
    requires Within(a, m) && Within(b, m)
    ensures Within(a + b, m)
  {
  }

  lemma {:induction false} MergeSource(srcs: seq<Source>, k: Key) returns (i: nat)
    requires k in Merge(srcs)
    ensures i < |srcs| && k in Content(srcs[i].recs)
  {
    i := |srcs| - 1;
    if k !in Content(srcs[i].recs) { i := MergeSource(srcs[..i], k); }
  }

  /** Appending a record for an absent key, or another copy of a present one. */
  lemma MapAppends(srcs: seq<Source>, recs: seq<Rec>, o: Rec)
    requires var m := Merge(srcs) + Content(recs);
             Coherent(srcs, recs, m) && (o.key in m ==> m[o.key] == o.data)
    ensures var m := Merge(srcs) + Content(recs);
            Merge(srcs) + Content(recs + [o]) == m[o.key := o.data] && Coherent(srcs, recs + [o], m[o.key := o.data])
  {
    hide Merge, Content;
    ContentAppend(recs, o);
    var m, n := Merge(srcs) + Content(recs), Merge(srcs) + Content(recs + [o]);
    assert n == m[o.key := o.data];
  }

  /** Sealing moves the records and keeps the map. */
  lemma MapSeals(srcs: seq<Source>, recs: seq<Rec>, src: Source)
    requires src.recs == recs && Coherent(srcs, recs, Merge(srcs) + Content(recs))
    ensures Merge(srcs + [src]) + Content([]) == Merge(srcs) + Content(recs)
    ensures Coherent(srcs + [src], [], Merge(srcs) + Content(recs))
  {
    MergeAppend(srcs, src);
    NoContent();
    hide Merge, Content, Within;
    var m := Merge(srcs) + Content(recs);
    assert m + Content([]) == m;
    forall i | 0 <= i < |srcs + [src]| ensures Within(Content((srcs + [src])[i].recs), m) {
      if i < |srcs| { assert (srcs + [src])[i] == srcs[i]; }
    }
  }

  lemma NoContent()
    ensures Content([]) == map[] && forall m :: Within(Content([]), m)
  {
  }

  /** Writing at the end of the valid part, over whatever lies past it. */
  lemma ActiveAppends(c: Codec, a: Active, recs: seq<Rec>, o: Rec)
    requires Lawful(c) && ActiveOk(c, Some(a), recs) && Fits(o) && o.key !in a.index
    ensures var rec := RecordOf(c, o);
            ActiveOk(c, Some(Active(a.id, WriteAt(a.file, rec, a.size), a.size + |rec|,
                                    a.index[o.key := LocAt(c, a.size, o)])), recs + [o])
  {
    hide RecordOf, LocAt;
    DistinctAppend(c, recs, o);
    BodyAppend(c, recs, o);
    LocsAppend(c, recs, o);
    WriteKeepsPrefix(a.file, RecordOf(c, o), a.size);
  }

  function WriteAt(file: Bytes, b: Bytes, off: nat): Bytes
    requires off <= |file|
  {
    file[..off] + b + (if |file| > off + |b| then file[off + |b|..] else [])
  }

  lemma WriteKeepsPrefix(file: Bytes, b: Bytes, off: nat)
    requires off <= |file|
    ensures |WriteAt(file, b, off)| >= off + |b| && WriteAt(file, b, off)[..off + |b|] == file[..off] + b
    ensures WriteAt(file, b, off)[..off] == file[..off]
  {
  }

  lemma JunkIsHarmless(c: Codec, a: Active, recs: seq<Rec>, junk: Bytes)
    requires ActiveOk(c, Some(a), recs)
    ensures a.size <= |a.file| && ActiveOk(c, Some(a.(file := WriteAt(a.file, junk, a.size))), recs)
  {
    hide Body, Locs;
    WriteKeepsPrefix(a.file, junk, a.size);
  }

  /** The header fields of an encoded record, as the append path reads them. */
  lemma LocOfRecord(c: Codec, o: Rec, off: nat)
    requires Lawful(c) && Fits(o)
    ensures var rec := RecordOf(c, o);
            |rec| >= 46 && Loc(off, rec[33], FromBE(rec[34..38]), FromBE(rec[38..42])) == LocAt(c, off, o)
  {
    EncodedShape(c, o.key, o.data, []);
    assert RecordOf(c, o) + [] == RecordOf(c, o);
  }

  /** Nothing, or the active segment joins the sealed ones. */
  ghost predicate Sealing(sealed: seq<Sealed>, srcs: seq<Source>, recs: seq<Rec>,
                          sealed': seq<Sealed>, srcs': seq<Source>, recs': seq<Rec>) {
    || (sealed' == sealed && srcs' == srcs && recs' == recs)
    || (|sealed'| == |sealed| + 1 == |srcs'| && sealed <= sealed' && srcs <= srcs'
        && srcs'[|sealed|].recs == recs && recs' == [])
  }

  lemma SealingNothing(sealed: seq<Sealed>, srcs: seq<Source>, recs: seq<Rec>)
    ensures Sealing(sealed, srcs, recs, sealed, srcs, recs)
  {
  }

  lemma SealingOne(sealed: seq<Sealed>, srcs: seq<Source>, recs: seq<Rec>, g: Sealed, src: Source)
    requires |sealed| == |srcs| && src.recs == recs
    ensures Sealing(sealed, srcs, recs, sealed + [g], srcs + [src], [])
  {
  }

  lemma ExtendsBy(sealed: seq<Sealed>, srcs: seq<Source>, recs: seq<Rec>, grown: seq<Rec>,
                  sealed': seq<Sealed>, srcs': seq<Source>, recs': seq<Rec>, o: Rec)
    requires grown == recs || grown == recs + [o]
    requires Sealing(sealed, srcs, grown, sealed', srcs', recs')
    ensures Extends(sealed, srcs, recs, sealed', srcs', recs', o)
  {
  }

  /** The key is in the active segment or in one sealed since there were `n`. */
  ghost predicate Recent(n: nat, srcs: seq<Source>, recs: seq<Rec>, k: Key) {
    k in Content(recs) || (n < |srcs| && k in Content(srcs[n].recs))
  }

  lemma StaysRecent(sealed: seq<Sealed>, srcs: seq<Source>, recs: seq<Rec>,
                    sealed': seq<Sealed>, srcs': seq<Source>, recs': seq<Rec>, k: Key)
    requires |sealed| == |srcs| && Sealing(sealed, srcs, recs, sealed', srcs', recs') && k in Content(recs)
    ensures Recent(|srcs|, srcs', recs', k)
  {
    hide Content;
  }

  lemma LastIsHeld(recs: seq<Rec>, o: Rec)
    ensures o.key in Content(recs + [o])
  {
    ContentAppend(recs, o);
  }

  /** What appending `o` may do to the segments: nothing, one more record, or one
      more record and a rotation. */
  ghost predicate Extends(sealed: seq<Sealed>, srcs: seq<Source>, recs: seq<Rec>,
                          sealed': seq<Sealed>, srcs': seq<Source>, recs': seq<Rec>, o: Rec) {
    || (sealed' == sealed && srcs' == srcs && (recs' == recs || recs' == recs + [o]))
    || (|sealed'| == |sealed| + 1 == |srcs'| && sealed <= sealed' && srcs <= srcs'
        && (srcs'[|sealed|].recs == recs || srcs'[|sealed|].recs == recs + [o]) && recs' == [])
  }

  // ----------------------------------------------------- reads by segment

  /** No segment from `i` on holds the key. */
  ghost predicate NoneFrom(srcs: seq<Source>, i: nat, k: Key) {
    forall j :: i <= j < |srcs| ==> k !in Content(srcs[j].recs)
  }

  /** Probes the sealed segments newest first. */
  method HasSealed(c: Codec, f: Filter, sealed: seq<Sealed>, k: Key, ghost srcs: seq<Source>) returns (ok: bool)
    requires Lawful(c) && SealedOk(c, f, sealed, srcs)
    ensures ok == (k in Merge(srcs))
  {
    hide SealedFrom, Opened;
    var i := |sealed|;
    while i > 0
      invariant 0 <= i <= |sealed| && NoneFrom(srcs, i, k)
    {
      i := i - 1;
      ok := SealedSegments.Has(c, f, sealed[i], k, srcs[i]);
      if ok {
        MergeFinds(srcs, i, k);
        return true;
      }
    }
    MergeMisses(srcs, k);
    return false;
  }

  /** Reads the newest copy; a corrupt segment fails the read. */
  method GetSealed(c: Codec, f: Filter, sealed: seq<Sealed>, k: Key, ghost srcs: seq<Source>) returns (r: Result<Bytes>)
    requires Lawful(c) && AllOpened(c, f, sealed) && |srcs| == |sealed|
    ensures SealedOk(c, f, sealed, srcs) ==>
              r == if k in Merge(srcs) then Success(Merge(srcs)[k]) else Failure(NotFound)
  {
    hide SealedFrom, Opened;
    var i := |sealed|;
    while i > 0
      invariant 0 <= i <= |sealed| && (SealedOk(c, f, sealed, srcs) ==> NoneFrom(srcs, i, k))
    {
      i := i - 1;
      var data := SealedSegments.Get(c, f, sealed[i], k, srcs[i]);
      if data.Failure? { return Failure(data.error); }
      if data.value.Some? {
        if SealedOk(c, f, sealed, srcs) { MergeFinds(srcs, i, k); }
        return Success(data.value.value);
      }
    }
    if SealedOk(c, f, sealed, srcs) { MergeMisses(srcs, k); }
    return Failure(NotFound);
  }

  method GetSealedRecord(c: Codec, f: Filter, sealed: seq<Sealed>, k: Key, ghost srcs: seq<Source>)
    returns (r: Result<Bytes>)
    requires Lawful(c) && AllOpened(c, f, sealed) && |srcs| == |sealed|
    ensures SealedOk(c, f, sealed, srcs) && k !in Merge(srcs) ==> r == Failure(NotFound)
    ensures SealedOk(c, f, sealed, srcs) && k in Merge(srcs) ==>
              |Merge(srcs)[k]| <= MAX_PAYLOAD && r == Success(RecordOf(c, Rec(k, Merge(srcs)[k])))
  {
    hide SealedFrom, Opened;
    var i := |sealed|;
    while i > 0
      invariant 0 <= i <= |sealed| && (SealedOk(c, f, sealed, srcs) ==> NoneFrom(srcs, i, k))
    {
      i := i - 1;
      var rec := SealedSegments.GetRecord(c, f, sealed[i], k, srcs[i]);
      if rec.Failure? { return Failure(rec.error); }
      if rec.value.Some? {
        if SealedOk(c, f, sealed, srcs) { MergeFinds(srcs, i, k); }
        return Success(rec.value.value);
      }
    }
    if SealedOk(c, f, sealed, srcs) { MergeMisses(srcs, k); }
    return Failure(NotFound);
  }

  method SealedSize(c: Codec, f: Filter, sealed: seq<Sealed>, k: Key, ghost srcs: seq<Source>) returns (r: Option<nat>)
    requires Lawful(c) && SealedOk(c, f, sealed, srcs)
    ensures r == if k in Merge(srcs) then Some(|StoredForm(c, Merge(srcs)[k]).0|) else None
  {
    hide SealedFrom, Opened;
    var i := |sealed|;
    while i > 0
      invariant 0 <= i <= |sealed| && NoneFrom(srcs, i, k)
    {
      i := i - 1;
      r := SealedSegments.StoredSize(c, f, sealed[i], k, srcs[i]);
      if r.Some? {
        MergeFinds(srcs, i, k);
        return;
      }
    }
    MergeMisses(srcs, k);
    return None;
  }

  /** The active segment indexes exactly what it holds, each at its record. */
  lemma ActiveReads(c: Codec, a: Active, recs: seq<Rec>, k: Key)
    requires Lawful(c) && ActiveOk(c, Some(a), recs)
    ensures a.size <= |a.file| && (k in a.index <==> k in Content(recs))
    ensures k in a.index ==>
              var loc := a.index[k];
              && Locates(c, a.file, loc, k, Content(recs)[k])
              && DecodePayload(c, loc.flags, loc.ulen, a.file[loc.off + 46..loc.off + 46 + loc.slen])
                 == Success(Content(recs)[k])
  {
    hide RecordOf, DecodePayload, HeaderOf;
    LocsLocate(c, recs, k);
    if k in a.index {
      assert a.file == Body(c, recs) + a.file[a.size..];
      LocatesInLonger(c, Body(c, recs), a.file[a.size..], a.index[k], k, Content(recs)[k]);
      LocatedDecodes(c, a.file, a.index[k], k, Content(recs)[k]);
    }
  }

  class Store {
    const codec: Codec
    const filter: Filter
    const segmentSize: int
    const sync: bool
    const healthy: bool           // file operations other than removals do not fail

    var sealed: seq<Sealed>
    var active: Option<Active>
    var nextID: nat
    var closed: bool
    var failed: bool
    var capturing: bool
    var grey: set<Key>

    var stale: Stale

    ghost var srcs: seq<Source>   // what each sealed segment was built from
    ghost var recs: seq<Rec>      // what the active segment holds
    ghost var known: map<nat, Source>  // what each stale file holds

    ghost predicate Valid()
      reads this
    {
      && Lawful(codec) && Sound(filter)
      && SealedOk(codec, filter, sealed, srcs) && ActiveOk(codec, active, recs) && IdsOk(sealed, active, nextID)
      && Coherent(srcs, recs, Map()) && StaleOk(codec, filter, stale, known) && Apart(stale, sealed, active, nextID)
      && RenamedOk(codec, filter, stale, known, active, recs, failed)
    }

    /** The finite map the store behaves as. */
    ghost function Map(): map<Key, Bytes>
      reads this
    {
      Merge(srcs) + Content(recs)
    }

    constructor (codec: Codec, filter: Filter, segmentSize: int, sync: bool, healthy: bool)
      requires Lawful(codec) && Sound(filter)
      ensures Valid() && Map() == map[] && !closed && !failed && !capturing && grey == {}
      ensures sealed == [] && active.None? && stale == NOTHING_STALE
      ensures this.codec == codec && this.filter == filter && this.segmentSize == segmentSize && this.sync == sync
      ensures this.healthy == healthy
    {
      this.codec, this.filter, this.segmentSize, this.sync, this.healthy := codec, filter, segmentSize, sync, healthy;
      sealed, active, nextID, closed, failed, capturing, grey := [], None, 1, false, false, false, {};
      stale, srcs, recs, known := NOTHING_STALE, [], [], map[];
    }

    /** Whether some file operation fails here. */
    method Fails() returns (fails: bool)
      ensures healthy ==> !fails
    {
      fails := *;
      if healthy { return false; }
    }

    // --------------------------------------------------------------- reads

    method Has(k: Key) returns (r: Result<bool>)
      requires Valid()
      ensures r == if closed then Failure(Cancelled) else Success(k in Map())
    {
      hide SealedFrom, Opened, RecordOf, DecodePayload;
      if closed { return Failure(Cancelled); }
      if active.Some? {
        ActiveReads(codec, active.value, recs, k);
        if k in active.value.index { return Success(true); }
      }
      var ok := HasSealed(codec, filter, sealed, k, srcs);
      return Success(ok);
    }

    /** Answers as the map does: its value, or not found. */
    method Get(k: Key) returns (r: Result<Bytes>)
      requires Valid()
      ensures r == if closed then Failure(Cancelled) else if k in Map() then Success(Map()[k]) else Failure(NotFound)
    {
      hide SealedFrom, Opened, RecordOf, DecodePayload;
      if closed { return Failure(Cancelled); }
      if active.Some? {
        ActiveReads(codec, active.value, recs, k);
        if k in active.value.index {
          var loc := active.value.index[k];
          return DecodePayload(codec, loc.flags, loc.ulen, active.value.file[loc.off + 46..loc.off + 46 + loc.slen]);
        }
      }
      r := GetSealed(codec, filter, sealed, k, srcs);
    }

    /** The record of the map's value, exactly as it was encoded. */
    method GetRecord(k: Key) returns (r: Result<Bytes>)
      requires Valid()
      ensures closed ==> r == Failure(Cancelled)
      ensures !closed && k !in Map() ==> r == Failure(NotFound)
      ensures !closed && k in Map() ==> |Map()[k]| <= MAX_PAYLOAD && r == Success(RecordOf(codec, Rec(k, Map()[k])))
    {
      hide SealedFrom, Opened, RecordOf, DecodePayload;
      if closed { return Failure(Cancelled); }
      if active.Some? {
        ActiveReads(codec, active.value, recs, k);
        if k in active.value.index {
          var loc := active.value.index[k];
          return Success(active.value.file[loc.off..loc.off + 46 + loc.slen]);
        }
      }
      r := GetSealedRecord(codec, filter, sealed, k, srcs);
    }

    /** The stored length of the map's value. */
    method StoredSize(k: Key) returns (r: Result<Option<nat>>)
      requires Valid()
      ensures closed ==> r == Failure(Cancelled)
      ensures !closed ==> r == Success(if k in Map() then Some(|StoredForm(codec, Map()[k]).0|) else None)
    {
      hide SealedFrom, Opened, RecordOf, DecodePayload;
      if closed { return Failure(Cancelled); }
      if active.Some? {
        ActiveReads(codec, active.value, recs, k);
        if k in active.value.index { return Success(Some(active.value.index[k].slen)); }
      }
      var n := SealedSize(codec, filter, sealed, k, srcs);
      return Success(n);
    }

    // -------------------------------------------------------------- writes

    /** Opens the next-numbered active segment. A failure to create, write or sync its
        file uses the number up; the file is removed again, unless that fails too. */
    method CreateActive() returns (ok: bool)
      requires Valid() && active.None?
      modifies this`active, this`nextID, this`stale, this`known
      ensures Valid() && Map() == old(Map()) && nextID == old(nextID) + 1
      ensures (ok <==> active.Some?) && (healthy ==> ok) && (ok ==> stale == old(stale) && known == old(known))
      ensures ok ==> active.value.id == old(nextID) && active.value.index == map[]
      ensures stale == old(stale) || Strayed(old(stale), stale, old(nextID))
      ensures old(Ordered(sealed, active)) ==> Ordered(sealed, active)
    {
      hide SealedOk, StaleOk, LeftSealed, Coherent, IdsOk, Apart, Merge, Content, Strayed;
      HeaderThenRest(codec, recs, []);
      NumbersCreate(stale, sealed, nextID);
      var id := nextID;
      nextID := nextID + 1;
      var fails := Fails();
      if fails {
        if * {
          var n: nat :| n <= 8;
          StrayOk(codec, filter, stale, known, sealed, id, n);
          stale := stale.(activeFiles := stale.activeFiles[id := MAGIC_HEADER[..n]]);
          known := known[id := Source([], [])];
        }
        return false;
      }
      active := Some(Active(id, MAGIC_HEADER, 8, map[]));
      return true;
    }

    /** Seals the active segment: footer, sync, rename and reopen as a mapped image.
        Whatever fails, the store keeps answering as before, and no more is written, as
        every caller sees to. A failure past the rename leaves the file under its sealed
        name; only closing the old file can fail once the image is in place. */
    method SealActive() returns (ok: bool)
      requires Valid() && !failed
      modifies this
      ensures Valid() && Map() == old(Map()) && unchanged(`closed, `capturing, `grey, `nextID)
      ensures ok ==> active.None? || active.value.index == map[]
      ensures active.Some? ==> sealed == old(sealed)
      ensures failed == !ok && (ok ==> stale == old(stale))
      ensures stale.sealedFiles == old(stale.sealedFiles) && stale.activeFiles == old(stale.activeFiles)
      ensures healthy ==> (ok <==> old(NeedsNoSeal(active) || Sealable(filter, active.value.size, active.value.index)))
      ensures Sealing(old(sealed), old(srcs), old(recs), sealed, srcs, recs)
      ensures old(Ordered(sealed, active)) ==> Ordered(sealed, active)
    {
      hide SealedFrom, SealedOk, Coherent, Merge, Content, Locs, Body, WriteAt, Tails, Sealing, StaleOk, ImageOf,
           Sealable, DistinctRecs, IdsOk, Apart, Ordered, LeftSealed, RenamedOk, ActiveOk;
      SealedLengths(codec, filter, sealed, srcs);
      NotRenamed(codec, filter, stale, known, active, recs);
      SealingNothing(sealed, srcs, recs);
      if active.None? || active.value.index == map[] { return true; }
      var a := active.value;
      ActiveParts(codec, a, recs);
      var image, seg;
      ghost var src;
      image, seg, src := Seal(codec, filter, a.id, a.file[..a.size], a.index, recs);
      var fails := Fails();
      if image.None? || fails {
        // The footer may be partly or wholly written, past the valid part.
        var junk: Bytes := *;
        JunkIsHarmless(codec, a, recs, junk);
        SameNumber(stale, sealed, a, a.(file := WriteAt(a.file, junk, a.size)), nextID);
        active, failed := Some(a.(file := WriteAt(a.file, junk, a.size))), true;
        return false;
      }
      fails := Fails();
      if seg.Failure? || fails {
        RenamedHolds(codec, filter, stale, known, sealed, a, recs, nextID, image.value, src);
        active, failed := Some(a.(file := image.value)), true;
        stale, known := stale.(renamed := image), known[a.id := src];
        return false;
      }
      SealingOne(sealed, srcs, recs, seg.value, src);
      MapSeals(srcs, recs, src);
      SealedGrows(codec, filter, sealed, srcs, seg.value, src);
      NumbersSeal(stale, sealed, a, seg.value, nextID);
      sealed, srcs := sealed + [seg.value], srcs + [src];
      active, recs := None, [];
      fails := Fails();
      if fails {
        failed := true;
        return false;
      }
      return true;
    }

    /** Appends one encoded record, publishes it, syncs if asked and rotates a full
        segment. A key the active segment already indexes is left as it is. On an
        error the record may or may not be visible; an error past the write stops
        all further writes. */
    method AppendLocked(k: Key, rec: Bytes, syncNow: bool, ghost data: Bytes) returns (err: Option<Error>)
      requires Valid() && |data| <= MAX_PAYLOAD && rec == RecordOf(codec, Rec(k, data))
      requires k in Map() ==> Map()[k] == data
      modifies this
      ensures Valid() && unchanged(`closed, `capturing, `grey) && nextID >= old(nextID)
      ensures Map() == old(Map()) || Map() == old(Map())[k := data]
      ensures err.None? ==> !old(closed) && !old(failed) && !failed && Map() == old(Map())[k := data]
      ensures old(closed) || old(failed) ==> err.Some? && unchanged(this)
      ensures healthy && !old(closed) && !old(failed) ==>
                && (err.None? <==> !failed)
                && (failed <==>
                      k !in Content(old(recs)) && Stuck(codec, filter, segmentSize, old(recs) + [Rec(k, data)]))
      ensures stale.sealedFiles == old(stale.sealedFiles) && (err.None? ==> stale == old(stale))
      ensures Extends(old(sealed), old(srcs), old(recs), sealed, srcs, recs, Rec(k, data))
      ensures err.None? ==> Recent(|old(srcs)|, srcs, recs, k)
      ensures old(Ordered(sealed, active)) ==> Ordered(sealed, active)
    {
      hide Valid, Map, Content, RecordOf, Extends, Sealing, Ordered, Stuck;
      ghost var o := Rec(k, data);
      Lengths();
      LastIsHeld(recs, o);
      SealingNothing(sealed, srcs, recs);
      SealingNothing(sealed, srcs, recs + [o]);
      ExtendsBy(sealed, srcs, recs, recs, sealed, srcs, recs, o);
      ExtendsBy(sealed, srcs, recs, recs + [o], sealed, srcs, recs + [o], o);
      if closed { return Some(Cancelled); }
      if failed { return Some(Rejected); }
      if active.None? {
        var ok := CreateActive();
        if !ok { return Some(Rejected); }
      }
      IndexReads(k);
      if k in active.value.index { return None; }
      LocOfRecord(codec, o, 0);
      var written := Write(k, rec, data);
      if !written { return Some(Rejected); }
      var ok := Settle(syncNow);
      ExtendsBy(old(sealed), old(srcs), old(recs), old(recs) + [o], sealed, srcs, recs, o);
      StaysRecent(old(sealed), old(srcs), old(recs) + [o], sealed, srcs, recs, k);
      if !ok { return Some(Rejected); }
      return None;
    }

    lemma Lengths()
      requires Valid()
      ensures |sealed| == |srcs| && Lawful(codec)
    {
      hide SealedFrom, Opened;
    }

    /** The index of the active segment answers as its records do. */
    lemma IndexReads(k: Key)
      requires Valid() && active.Some?
      ensures active.value.size <= |active.value.file| && (k in active.value.index <==> k in Content(recs))
      ensures k in active.value.index ==> k in Map() && Map()[k := Map()[k]] == Map()
    {
      hide SealedOk, StaleOk, Apart, IdsOk, RenamedOk, Coherent, Merge, Content, RecordOf, DecodePayload;
      ActiveReads(codec, active.value, recs, k);
    }

    /** After an append: syncs if asked, and rotates a full segment. A failure stops all
        further writes. */
    method Settle(syncNow: bool) returns (ok: bool)
      requires Valid() && !failed && active.Some? && active.value.index != map[]
      modifies this
      ensures Valid() && Map() == old(Map()) && unchanged(`closed, `capturing, `grey, `nextID)
      ensures failed == !ok && (ok ==> stale == old(stale)) && stale.sealedFiles == old(stale.sealedFiles)
      ensures healthy ==> (ok <==> !Stuck(codec, filter, segmentSize, old(recs)))
      ensures Sealing(old(sealed), old(srcs), old(recs), sealed, srcs, recs)
      ensures old(Ordered(sealed, active)) ==> Ordered(sealed, active)
    {
      hide SealedOk, Coherent, Merge, Content, IdsOk, Sealing, StaleOk, Apart, LeftSealed, Ordered, Stuck, Sealable,
           ActiveOk;
      SealingNothing(sealed, srcs, recs);
      FullWhen(codec, filter, segmentSize, active.value, recs);
      if syncNow && sync {
        var fails := Fails();
        if fails {
          failed := true;
          return false;
        }
      }
      ok := true;
      if active.value.size >= segmentSize { ok := SealActive(); }
    }

    /** Writes a record at the end of the valid part and indexes it; a failed write
        may leave anything past that end. */
    method Write(k: Key, rec: Bytes, ghost data: Bytes) returns (ok: bool)
      requires Valid() && active.Some? && active.value.size <= |active.value.file| && |rec| >= 46
      requires k !in active.value.index
      requires |data| <= MAX_PAYLOAD && rec == RecordOf(codec, Rec(k, data))
      requires (k in Map() ==> Map()[k] == data) && !failed
      modifies this`active, this`recs
      ensures Valid() && active.Some? && (healthy ==> ok) && (ok ==> k in active.value.index)
      ensures old(Ordered(sealed, active)) ==> Ordered(sealed, active)
      ensures Map() == if ok then old(Map())[k := data] else old(Map())
      ensures recs == if ok then old(recs) + [Rec(k, data)] else old(recs)
    {
      hide SealedOk, ActiveOk, Coherent, Merge, Content, RecordOf, FromBE, WriteAt, LocAt, StaleOk, IdsOk, Apart,
           Ordered, LeftSealed;
      var a := active.value;
      var fails := Fails();
      if fails {
        var junk: Bytes := *;
        JunkIsHarmless(codec, a, recs, junk);
        SameNumber(stale, sealed, a, a.(file := WriteAt(a.file, junk, a.size)), nextID);
        active := Some(a.(file := WriteAt(a.file, junk, a.size)));
        return false;
      }
      ghost var o := Rec(k, data);
      LocOfRecord(codec, o, a.size);
      ActiveAppends(codec, a, recs, o);
      MapAppends(srcs, recs, o);
      var loc := Loc(a.size, rec[33], FromBE(rec[34..38]), FromBE(rec[38..42]));
      var grown := Active(a.id, WriteAt(a.file, rec, a.size), a.size + |rec|, a.index[k := loc]);
      SameNumber(stale, sealed, a, grown, nextID);
      active := Some(grown);
      recs := recs + [o];
      return true;
    }

    method SyncActive() returns (err: Option<Error>)
      requires Valid()
      modifies this`failed
      ensures Valid() && Map() == old(Map()) && (old(failed) ==> failed)
      ensures err.None? ==> !closed && !failed
      ensures healthy ==> failed == old(failed) && (err.None? <==> !closed && !failed)
    {
      hide SealedOk, ActiveOk, IdsOk, Coherent, Merge, Content, StaleOk, Apart, LeftSealed;
      if closed { return Some(Cancelled); }
      if failed { return Some(Rejected); }
      if !sync || active.None? { return None; }
      var fails := Fails();
      if fails {
        failed := true;
        return Some(Rejected);
      }
      return None;
    }

    method Observe(k: Key)
      modifies this`grey
      ensures grey == if capturing then old(grey) + {k} else old(grey)
      ensures Map() == old(Map()) && (old(Valid()) ==> Valid())
    {
      hide SealedOk, ActiveOk, IdsOk, Coherent, Merge, Content, Lawful, Sound;
      if capturing { grey := grey + {k}; }
    }

    /** Stores one object unless its key is present, observing the key first. */
    method Put(k: Key, data: Bytes) returns (err: Option<Error>)
      requires Valid()
      modifies this
      ensures Valid() && unchanged(`closed, `capturing)
      ensures grey == if old(failed) || !capturing then old(grey) else old(grey) + {k}
      ensures err.None? ==> Map() == if k in old(Map()) then old(Map()) else old(Map())[k := data]
      ensures err.Some? ==> Map() == old(Map()) || (k !in old(Map()) && Map() == old(Map())[k := data])
      ensures old(closed) || old(failed) || |data| > MAX_PAYLOAD ==> Map() == old(Map())
      ensures healthy && !old(closed) && !old(failed) ==>
                (err.None? <==> k in old(Map()) || (|data| <= MAX_PAYLOAD
                                && !Stuck(codec, filter, segmentSize, old(recs) + [Rec(k, data)])))
    {
      hide SealedFrom, Opened, Locs, Body, EncodeRecord, StaleOk, Apart, RenamedOk, Stuck;
      if failed { return Some(Rejected); }
      Observe(k);
      var has := Has(k);
      if has.Failure? { return Some(Cancelled); }
      if has.value { return None; }
      EncodeSucceeds(codec, k, data);
      var rec := EncodeRecord(codec, k, data);
      if rec.Failure? { return Some(rec.error); }
      err := AppendLocked(k, rec.value, true, data);
    }

    /** Deletes every object; a poisoned write path works again. Files numbered in
        `stuck` cannot be removed, and neither can one a failed seal has renamed, since
        it is looked for under its old name: they stay, and the wipe reports it. */
    method Wipe(stuck: set<nat>) returns (err: Option<Error>)
      requires Valid()
      modifies this
      ensures Valid() && unchanged(`closed, `capturing, `grey, `nextID)
      ensures closed ==> err.Some? && unchanged(this)
      ensures !closed ==> Map() == map[] && !failed && sealed == [] && active.None? && stale.renamed.None?
      ensures !closed ==> srcs == [] && recs == []
      ensures !closed ==> Unremoved(old(sealed), old(srcs), old(active), old(recs), old(stale), old(known), stuck,
                                    stale, known)
      ensures !closed && err.None? ==> stale == old(stale)
      ensures !closed && healthy && stale == old(stale) ==> err.None?
    {
      hide SealedOk, FilesOf, StaleOk, Apart, ActiveOk, AfterWipe, KnownAfterWipe, Coherent, Merge, Content,
           RenamedOk, IdsOk, Unremoved, DistinctIds;
      if closed { return Some(Cancelled); }
      SealedLengths(codec, filter, sealed, srcs);
      NumbersOf(sealed, active, nextID);
      var files;
      ghost var from;
      files, from := Files(sealed, stuck, srcs);
      var left := AfterWipe(stale, files, active, stuck);
      ghost var sources := KnownAfterWipe(stale, known, from, active, recs);
      WipedStale(codec, filter, sealed, srcs, active, recs, stale, known, failed, nextID, stuck, files, from);
      LeavesUnremoved(sealed, srcs, active, recs, stale, known, stuck, files, from);
      var removed := left == stale;
      EmptyStore(codec, filter, nextID, left, sources);
      stale, known, sealed, active, failed, srcs, recs := left, sources, [], None, false, [], [];
      var fails := Fails();
      if !removed || fails { return Some(Rejected); }
      return None;
    }

    method BeginBarrier()
      modifies this`grey, this`capturing
      ensures capturing && grey == {}
    {
      grey, capturing := {}, true;
    }

    method AbortBarrier()
      modifies this`grey, this`capturing
      ensures !capturing && grey == {}
    {
      capturing, grey := false, {};
    }

    /** Ends the capture and hands the grey keys over. */
    method TakeGrey() returns (taken: set<Key>)
      modifies this`grey, this`capturing
      ensures taken == old(grey) && !capturing && grey == {}
    {
      taken := grey;
      capturing, grey := false, {};
    }
  }

  /** There is nothing in the active segment to seal. */
  predicate NeedsNoSeal(active: Option<Active>) { active.None? || active.value.index == map[] }

  /** The records fill a segment that cannot be sealed. */
  ghost predicate Stuck(c: Codec, f: Filter, segmentSize: int, recs: seq<Rec>) {
    AllFit(recs) && |Body(c, recs)| >= segmentSize && !Sealable(f, |Body(c, recs)|, Locs(c, recs))
  }

  lemma FullWhen(c: Codec, f: Filter, segmentSize: int, a: Active, recs: seq<Rec>)
    requires ActiveOk(c, Some(a), recs)
    ensures Stuck(c, f, segmentSize, recs) <==> a.size >= segmentSize && !Sealable(f, a.size, a.index)
  {
    hide Body, Locs, Sealable;
  }

  /** One more active file, with part of a header and no records. */
  ghost predicate Strayed(stale: Stale, stale': Stale, id: nat) {
    && stale'.sealedFiles == stale.sealedFiles && stale'.renamed == stale.renamed
    && id in stale'.activeFiles && stale'.activeFiles[id] <= MAGIC_HEADER
    && stale'.activeFiles == stale.activeFiles[id := stale'.activeFiles[id]]
  }

  lemma HeaderPart(c: Codec, n: nat)
    requires n <= 8
    ensures LeftActive(c, MAGIC_HEADER[..n], []) && MAGIC_HEADER[..n] <= MAGIC_HEADER
  {
    HeaderThenRest(c, [], []);
  }

  lemma StrayOk(c: Codec, f: Filter, stale: Stale, known: map<nat, Source>, sealed: seq<Sealed>, next: nat, n: nat)
    requires StaleOk(c, f, stale, known) && IdsOk(sealed, None, next) && Apart(stale, sealed, None, next) && n <= 8
    ensures var stale' := stale.(activeFiles := stale.activeFiles[next := MAGIC_HEADER[..n]]);
            && Strayed(stale, stale', next) && StaleOk(c, f, stale', known[next := Source([], [])])
            && Apart(stale', sealed, None, next + 1)
  {
    HeaderPart(c, n);
    hide LeftSealed, LeftActive;
  }

  lemma NumbersCreate(stale: Stale, sealed: seq<Sealed>, next: nat)
    requires IdsOk(sealed, None, next) && Apart(stale, sealed, None, next)
    ensures IdsOk(sealed, None, next + 1) && Apart(stale, sealed, None, next + 1)
    ensures forall a: Active :: a.id == next ==>
              && IdsOk(sealed, Some(a), next + 1) && Apart(stale, sealed, Some(a), next + 1)
              && (Ordered(sealed, None) ==> Ordered(sealed, Some(a)))
  {
  }

  /** Only the number of an active segment matters here. */
  lemma SameNumber(stale: Stale, sealed: seq<Sealed>, a: Active, b: Active, next: nat)
    requires IdsOk(sealed, Some(a), next) && Apart(stale, sealed, Some(a), next) && b.id == a.id
    ensures IdsOk(sealed, Some(b), next) && Apart(stale, sealed, Some(b), next)
    ensures Ordered(sealed, Some(a)) ==> Ordered(sealed, Some(b))
  {
  }

  lemma RenamedHolds(c: Codec, f: Filter, stale: Stale, known: map<nat, Source>, sealed: seq<Sealed>, a: Active,
                     recs: seq<Rec>, next: nat, image: Bytes, src: Source)
    requires ActiveOk(c, Some(a), recs) && a.file[..a.size] <= image && src.recs == recs
    requires StaleOk(c, f, stale, known) && IdsOk(sealed, Some(a), next) && Apart(stale, sealed, Some(a), next)
    requires ImageOf(c, f, image, src)
    ensures var b, stale' := a.(file := image), stale.(renamed := Some(image));
            && ActiveOk(c, Some(b), recs) && IdsOk(sealed, Some(b), next) && Apart(stale', sealed, Some(b), next)
            && LeftSealed(c, f, image, src) && StaleOk(c, f, stale', known[a.id := src])
            && RenamedOk(c, f, stale', known[a.id := src], Some(b), recs, true)
            && (Ordered(sealed, Some(a)) ==> Ordered(sealed, Some(b)))
  {
    hide Body, Locs, ImageOf, LeftActive, DistinctRecs;
  }

  lemma ActiveParts(c: Codec, a: Active, recs: seq<Rec>)
    requires ActiveOk(c, Some(a), recs)
    ensures AllFit(recs) && a.size <= |a.file| && a.size == |Body(c, recs)| && a.file[..a.size] == Body(c, recs)
    ensures a.index == Locs(c, recs) && DistinctRecs(recs) && ActiveOk(c, None, [])
  {
  }

  lemma NumbersSeal(stale: Stale, sealed: seq<Sealed>, a: Active, g: Sealed, next: nat)
    requires IdsOk(sealed, Some(a), next) && Apart(stale, sealed, Some(a), next) && g.id == a.id
    ensures IdsOk(sealed + [g], None, next) && Apart(stale, sealed + [g], None, next)
    ensures Ordered(sealed, Some(a)) ==> Ordered(sealed + [g], None)
  {
  }

  /** The stale files once everything else is removed. */
  function AfterWipe(stale: Stale, files: map<nat, Bytes>, active: Option<Active>, stuck: set<nat>): Stale {
    var sealedFiles := stale.sealedFiles + files;
    if active.Some? && stale.renamed.Some? then
      Stale(sealedFiles[active.value.id := stale.renamed.value], stale.activeFiles, None)
    else if active.Some? && active.value.id in stuck then
      Stale(sealedFiles, stale.activeFiles[active.value.id := active.value.file], None)
    else Stale(sealedFiles, stale.activeFiles, None)
  }

  ghost function KnownAfterWipe(stale: Stale, known: map<nat, Source>, from: map<nat, Source>,
                                active: Option<Active>, recs: seq<Rec>): map<nat, Source> {
    if active.Some? && stale.renamed.None? then (known + from)[active.value.id := Source(recs, [])] else known + from
  }

  /** What a wipe leaves on disk: what was stale, and the files it could not remove. */
  ghost predicate Unremoved(sealed: seq<Sealed>, srcs: seq<Source>, active: Option<Active>, recs: seq<Rec>,
                            stale: Stale, known: map<nat, Source>, stuck: set<nat>,
                            stale': Stale, known': map<nat, Source>) {
    exists files, from :: FilesOf(sealed, stuck, srcs, files, from)
      && stale' == AfterWipe(stale, files, active, stuck)
      && known' == KnownAfterWipe(stale, known, from, active, recs)
  }

  lemma LeavesUnremoved(sealed: seq<Sealed>, srcs: seq<Source>, active: Option<Active>, recs: seq<Rec>, stale: Stale,
                        known: map<nat, Source>, stuck: set<nat>, files: map<nat, Bytes>, from: map<nat, Source>)
    requires FilesOf(sealed, stuck, srcs, files, from)
    ensures Unremoved(sealed, srcs, active, recs, stale, known, stuck, AfterWipe(stale, files, active, stuck),
                      KnownAfterWipe(stale, known, from, active, recs))
  {
    hide FilesOf, AfterWipe, KnownAfterWipe;
  }

  lemma NumbersOf(sealed: seq<Sealed>, active: Option<Active>, next: nat)
    requires IdsOk(sealed, active, next)
    ensures DistinctIds(sealed)
  {
  }

  lemma EmptyStore(c: Codec, f: Filter, next: nat, stale: Stale, known: map<nat, Source>)
    requires stale.renamed.None?
    ensures SealedOk(c, f, [], []) && ActiveOk(c, None, []) && IdsOk([], None, next)
    ensures Merge([]) + Content([]) == map[] && Coherent([], [], map[])
    ensures RenamedOk(c, f, stale, known, None, [], false)
  {
  }

  /** As long as writes go on, the active file has its active name. */
  lemma NotRenamed(c: Codec, f: Filter, stale: Stale, known: map<nat, Source>, active: Option<Active>, recs: seq<Rec>)
    requires RenamedOk(c, f, stale, known, active, recs, false)
    ensures stale.renamed.None?
    ensures forall b, rs, failed :: RenamedOk(c, f, stale, known, b, rs, failed)
  {
  }

  lemma WipedStale(c: Codec, f: Filter, sealed: seq<Sealed>, srcs: seq<Source>, active: Option<Active>,
                   recs: seq<Rec>, stale: Stale, known: map<nat, Source>, failed: bool, next: nat, stuck: set<nat>,
                   files: map<nat, Bytes>, from: map<nat, Source>)
    requires SealedOk(c, f, sealed, srcs) && ActiveOk(c, active, recs) && IdsOk(sealed, active, next)
    requires StaleOk(c, f, stale, known) && Apart(stale, sealed, active, next)
    requires RenamedOk(c, f, stale, known, active, recs, failed) && FilesOf(sealed, stuck, srcs, files, from)
    ensures var left, now := AfterWipe(stale, files, active, stuck), KnownAfterWipe(stale, known, from, active, recs);
            && StaleOk(c, f, left, now) && Apart(left, [], None, next) && left.renamed.None?
  {
    hide SealedOk, LeftSealed, LeftActive, ActiveOk, StaleOk, Apart, IdsOk, FilesOf, KnownAfterWipe;
    FilesAreUsed(sealed, srcs, stuck, files, from);
    WipedApart(sealed, active, stale, next, stuck, files);
    WipedKnown(c, f, sealed, srcs, active, recs, stale, known, failed, next, stuck, files, from);
  }

  lemma WipedKnown(c: Codec, f: Filter, sealed: seq<Sealed>, srcs: seq<Source>, active: Option<Active>,
                   recs: seq<Rec>, stale: Stale, known: map<nat, Source>, failed: bool, next: nat, stuck: set<nat>,
                   files: map<nat, Bytes>, from: map<nat, Source>)
    requires SealedOk(c, f, sealed, srcs) && ActiveOk(c, active, recs) && IdsOk(sealed, active, next)
    requires StaleOk(c, f, stale, known) && Apart(stale, sealed, active, next)
    requires RenamedOk(c, f, stale, known, active, recs, failed) && FilesOf(sealed, stuck, srcs, files, from)
    ensures StaleOk(c, f, AfterWipe(stale, files, active, stuck), KnownAfterWipe(stale, known, from, active, recs))
  {
    hide SealedOk, LeftSealed, FilesOf, LeftActive, StaleOk, IdsOk, Apart, ActiveOk;
    FilesAreUsed(sealed, srcs, stuck, files, from);
    WipedApart(sealed, active, stale, next, stuck, files);
    DetachedStale(c, f, stale, known, sealed, srcs, stuck, files, from);
    var now := stale.(sealedFiles := stale.sealedFiles + files);
    if active.Some? {
      ActiveIsApart(sealed, active.value, stale, next, files);
      if stale.renamed.Some? {
        RenamedStale(c, f, now, known + from, active.value.id);
      } else {
        WholeIsLeft(c, active.value, recs);
        ActiveStale(c, f, now, known + from, active.value, recs);
      }
    }
    NameIsForgotten(c, f, now, known + from);
  }

  lemma NameIsForgotten(c: Codec, f: Filter, stale: Stale, known: map<nat, Source>)
    requires StaleOk(c, f, stale, known)
    ensures StaleOk(c, f, stale.(renamed := None), known)
  {
    hide LeftSealed, LeftActive;
  }

  lemma RenamedStale(c: Codec, f: Filter, stale: Stale, known: map<nat, Source>, id: nat)
    requires StaleOk(c, f, stale, known) && stale.renamed.Some? && id in known
    requires LeftSealed(c, f, stale.renamed.value, known[id])
    ensures StaleOk(c, f, Stale(stale.sealedFiles[id := stale.renamed.value], stale.activeFiles, None), known)
  {
    hide LeftSealed, LeftActive;
  }

  lemma ActiveStale(c: Codec, f: Filter, stale: Stale, known: map<nat, Source>, a: Active, recs: seq<Rec>)
    requires StaleOk(c, f, stale, known) && a.id !in stale.sealedFiles && a.id !in stale.activeFiles
    requires LeftActive(c, a.file, recs)
    ensures var now := known[a.id := Source(recs, [])];
            && StaleOk(c, f, stale.(renamed := None), now)
            && StaleOk(c, f, Stale(stale.sealedFiles, stale.activeFiles[a.id := a.file], None), now)
  {
    hide LeftSealed, LeftActive;
  }

  lemma ActiveIsApart(sealed: seq<Sealed>, a: Active, stale: Stale, next: nat, files: map<nat, Bytes>)
    requires IdsOk(sealed, Some(a), next) && Apart(stale, sealed, Some(a), next)
    requires forall id :: id in files ==> !Unused(id, sealed, None)
    ensures a.id !in stale.sealedFiles && a.id !in stale.activeFiles && a.id !in files
  {
  }

  lemma FilesAreUsed(sealed: seq<Sealed>, srcs: seq<Source>, which: set<nat>, files: map<nat, Bytes>,
                     from: map<nat, Source>)
    requires FilesOf(sealed, which, srcs, files, from)
    ensures |sealed| == |srcs| && from.Keys == files.Keys
    ensures forall id :: id in files <==> id in which && !Unused(id, sealed, None)
  {
  }

  lemma WipedApart(sealed: seq<Sealed>, active: Option<Active>, stale: Stale, next: nat, stuck: set<nat>,
                   files: map<nat, Bytes>)
    requires IdsOk(sealed, active, next) && Apart(stale, sealed, active, next)
    requires forall id :: id in files ==> !Unused(id, sealed, None)
    ensures Apart(AfterWipe(stale, files, active, stuck), [], None, next)
    ensures forall id :: id in stale.activeFiles ==> id !in files
  {
  }

  lemma WholeIsLeft(c: Codec, a: Active, recs: seq<Rec>)
    requires ActiveOk(c, Some(a), recs)
    ensures LeftActive(c, a.file, recs)
  {
    hide Locs;
    HeaderThenRest(c, recs, a.file[a.size..]);
    assert a.file == Body(c, recs) + a.file[a.size..];
  }

  lemma EncodeSucceeds(c: Codec, k: Key, data: Bytes)
    ensures EncodeRecord(c, k, data).Success? <==> |data| <= MAX_PAYLOAD
    ensures |data| <= MAX_PAYLOAD ==> EncodeRecord(c, k, data) == Success(RecordOf(c, Rec(k, data)))
  {
  }

  lemma SealedLengths(c: Codec, f: Filter, sealed: seq<Sealed>, srcs: seq<Source>)
    requires SealedOk(c, f, sealed, srcs)
    ensures |sealed| == |srcs|
  {
    hide SealedFrom, Opened;
  }

  lemma SealedGrows(c: Codec, f: Filter, sealed: seq<Sealed>, srcs: seq<Source>, g: Sealed, src: Source)
    requires SealedOk(c, f, sealed, srcs) && SealedFrom(c, f, g, src) && DistinctRecs(src.recs)
    ensures SealedOk(c, f, sealed + [g], srcs + [src])
  {
    assert Opened(c, f, g);
    hide SealedFrom, Opened;
  }
}
