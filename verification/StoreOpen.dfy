/** Closing and opening a store (packstore/packstore.go): the directory is read in
    any order, sealed segments are validated, the active one is recovered. */
module StoreOpen {
  import opened Base
  import opened Keys
  import opened Record
  import opened WirePack
  import opened SegmentFooter
  import opened Segments
  import opened SealedSegments
  import opened PackStore

  /** A directory's segment files by number; other names are ignored unless they
      look like a segment's and have no number. */
  datatype Dir = Dir(sealedFiles: map<nat, Bytes>, activeFiles: map<nat, Bytes>, badName: bool)

  // ---------------------------------------------------- what is on the disk

  /** A sealed file that opens, as the records it was written from. */
  ghost predicate HasFooterAs(c: Codec, f: Filter, image: Bytes, src: Source) {
    HasFooter(c, f, image) && ImageOf(c, f, image, src) && DistinctRecs(src.recs)
  }

  /** An active file that holds `src.recs`: no header yet and no records; or whole
      records and then a torn tail; or a complete footer that was never renamed. */
  ghost predicate ActiveImage(c: Codec, f: Filter, file: Bytes, src: Source) {
    && Packable(src.recs) && DistinctRecs(src.recs)
    && if !(MAGIC_HEADER <= file) then src.recs == []
       else
         && Body(c, src.recs) <= file && Torn(c, file[|Body(c, src.recs)|..])
         && (SealMarked(c, f, file, |Body(c, src.recs)|) ==> ImageOf(c, f, file, src))
  }

  /** A complete footer follows the body. */
  ghost predicate SealMarked(c: Codec, f: Filter, file: Bytes, body: nat) {
    body < |file| && file[body] == SEAL && HasFooter(c, f, file)
  }

  /** The directory of a store: `known` says what each numbered file holds. At most
      one file is active, and has a number of its own. */
  ghost predicate Recoverable(c: Codec, f: Filter, dir: Dir, known: map<nat, Source>) {
    && !dir.badName
    && (forall id :: id in dir.sealedFiles ==>
          id in known && HasFooterAs(c, f, dir.sealedFiles[id], known[id]))
    && (forall id :: id in dir.activeFiles ==> id in known && ActiveImage(c, f, dir.activeFiles[id], known[id]))
    && (forall i, j :: i in dir.activeFiles && j in dir.activeFiles ==> i == j)
    && (forall i, j :: i in dir.sealedFiles && j in dir.activeFiles ==> i != j)
  }

  /** The active file, if there is one, has the highest number. */
  ghost predicate ActiveIsNewest(dir: Dir) {
    forall i, j :: i in dir.sealedFiles && j in dir.activeFiles ==> i < j
  }

  ghost predicate InDir(dir: Dir, id: nat) { id in dir.sealedFiles || id in dir.activeFiles }

  /** `m` is what all files together hold, every copy agreeing. */
  ghost predicate DirHolds(dir: Dir, known: map<nat, Source>, m: map<Key, Bytes>) {
    && (forall id :: InDir(dir, id) ==> id in known && Within(Content(known[id].recs), m))
    && (forall k :: k in m ==> exists id :: InDir(dir, id) && id in known && k in Content(known[id].recs))
  }

  /** All records of the files numbered in `ids`. */
  ghost function RecordsOf(ids: set<nat>, known: map<nat, Source>): set<Rec> {
    set id, o | id in ids && id in known && o in known[id].recs :: o
  }

  ghost predicate OneEach(rs: set<Rec>) { forall x, y :: x in rs && y in rs && x.key == y.key ==> x == y }

  ghost function AsMap(rs: set<Rec>): map<Key, Bytes>
    requires OneEach(rs)
  {
    map o | o in rs :: o.key := o.data
  }

  ghost function Names(dir: Dir): set<nat> { dir.sealedFiles.Keys + dir.activeFiles.Keys }

  /** If equal keys carry equal data, a directory holds one map: all its records. */
  lemma RecordsHeld(dir: Dir, known: map<nat, Source>)
    requires forall id :: id in Names(dir) ==> id in known && DistinctRecs(known[id].recs)
    requires OneEach(RecordsOf(Names(dir), known))
    ensures DirHolds(dir, known, AsMap(RecordsOf(Names(dir), known)))
  {
    hide Content, Within, RecordsOf, AsMap, OneEach, DistinctRecs;
    var m := AsMap(RecordsOf(Names(dir), known));
    forall id | InDir(dir, id) ensures id in known && Within(Content(known[id].recs), m) {
      ContentWithin(Names(dir), known, id);
    }
    forall k | k in m ensures exists id :: InDir(dir, id) && id in known && k in Content(known[id].recs) {
      var id, i := HeldByOne(Names(dir), known, k);
      assert InDir(dir, id);
      DistinctContent(known[id].recs, i);
    }
  }

  lemma HeldByOne(ids: set<nat>, known: map<nat, Source>, k: Key) returns (id: nat, i: nat)
    requires OneEach(RecordsOf(ids, known)) && k in AsMap(RecordsOf(ids, known))
    ensures id in ids && id in known && i < |known[id].recs| && known[id].recs[i].key == k
  {
    var o :| o in RecordsOf(ids, known) && o.key == k;
    id :| id in ids && id in known && o in known[id].recs;
    i :| 0 <= i < |known[id].recs| && known[id].recs[i] == o;
  }

  lemma ContentWithin(ids: set<nat>, known: map<nat, Source>, id: nat)
    requires OneEach(RecordsOf(ids, known)) && id in ids && id in known
    ensures Within(Content(known[id].recs), AsMap(RecordsOf(ids, known)))
  {
    hide Content;
    forall k | k in Content(known[id].recs)
      ensures k in AsMap(RecordsOf(ids, known)) && AsMap(RecordsOf(ids, known))[k] == Content(known[id].recs)[k]
    {
      var i := ContentHasRecord(known[id].recs, k);
      var o := known[id].recs[i];
      assert o in known[id].recs;
      assert o in RecordsOf(ids, known);
    }
  }

  // ---------------------------------------------------------- sealed files

  ghost predicate Ascending(sealed: seq<Sealed>) {
    forall i, j :: 0 <= i < j < |sealed| ==> sealed[i].id < sealed[j].id
  }

  /** Puts a segment in its place by number. */
  method Place(sealed: seq<Sealed>, g: Sealed) returns (r: seq<Sealed>)
    ensures forall x :: x in r <==> x in sealed || x == g
    ensures Ascending(sealed) && (forall i :: 0 <= i < |sealed| ==> sealed[i].id != g.id) ==> Ascending(r)
  {
    var i := |sealed|;
    while i > 0 && sealed[i - 1].id > g.id
      invariant 0 <= i <= |sealed| && forall j :: i <= j < |sealed| ==> sealed[j].id > g.id
    {
      i := i - 1;
    }
    r := sealed[..i] + [g] + sealed[i..];
    PlacedHolds(sealed, g, i);
    if Ascending(sealed) && forall j :: 0 <= j < |sealed| ==> sealed[j].id != g.id { PlacedAscending(sealed, g, i); }
  }

  lemma PlacedHolds(sealed: seq<Sealed>, g: Sealed, i: nat)
    requires i <= |sealed|
    ensures forall x :: x in sealed[..i] + [g] + sealed[i..] <==> x in sealed || x == g
  {
    assert sealed == sealed[..i] + sealed[i..];
  }

  lemma PlacedAscending(sealed: seq<Sealed>, g: Sealed, i: nat)
    requires Ascending(sealed) && i <= |sealed|
    requires i > 0 ==> sealed[i - 1].id < g.id
    requires forall j :: i <= j < |sealed| ==> sealed[j].id > g.id
    ensures Ascending(sealed[..i] + [g] + sealed[i..])
  {
  }

  /** The segments opened from the files numbered in `done`. */
  ghost predicate OpenedFrom(c: Codec, f: Filter, files: map<nat, Bytes>, done: set<nat>, sealed: seq<Sealed>) {
    && Ascending(sealed)
    && (forall g :: g in sealed ==> g.id in done && g.id in files && g.mm == files[g.id] && Opened(c, f, g))
    && (forall id :: id in done ==> exists g :: g in sealed && g.id == id)
  }

  /** Opens every sealed file, in whatever order the directory lists them; one that
      does not parse fails the whole open. */
  method OpenSealed(c: Codec, f: Filter, files: map<nat, Bytes>) returns (r: Result<seq<Sealed>>)
    ensures r.Success? ==> OpenedFrom(c, f, files, files.Keys, r.value)
    ensures r.Failure? ==> exists id :: id in files && !HasFooter(c, f, files[id])
  {
    hide FooterOf, OpenedFrom;
    var todo, sealed := files.Keys, [];
    NoneOpened(c, f, files);
    while todo != {}
      invariant todo <= files.Keys && OpenedFrom(c, f, files, files.Keys - todo, sealed)
      decreases |todo|
    {
      var id :| id in todo;
      var view := ParseFooter(c, f, files[id]);
      if view.Failure? { return Failure(Malformed); }
      var g := Sealed(id, files[id], view.value);
      FreshNumber(c, f, files, files.Keys - todo, sealed, id);
      var grown := Place(sealed, g);
      OneMore(c, f, files, files.Keys - todo, sealed, g, grown);
      assert files.Keys - (todo - {id}) == files.Keys - todo + {id};
      sealed, todo := grown, todo - {id};
    }
    assert files.Keys - {} == files.Keys;
    return Success(sealed);
  }

  lemma NoneOpened(c: Codec, f: Filter, files: map<nat, Bytes>)
    ensures OpenedFrom(c, f, files, files.Keys - files.Keys, [])
  {
  }

  lemma FreshNumber(c: Codec, f: Filter, files: map<nat, Bytes>, done: set<nat>, sealed: seq<Sealed>, id: nat)
    requires OpenedFrom(c, f, files, done, sealed) && id !in done
    ensures Ascending(sealed) && forall i :: 0 <= i < |sealed| ==> sealed[i].id != id
  {
    hide FooterOf;
    forall i | 0 <= i < |sealed| ensures sealed[i].id != id { assert sealed[i] in sealed; }
  }

  lemma OneMore(c: Codec, f: Filter, files: map<nat, Bytes>, done: set<nat>, sealed: seq<Sealed>, g: Sealed,
                grown: seq<Sealed>)
    requires OpenedFrom(c, f, files, done, sealed) && Ascending(grown)
    requires forall x :: x in grown <==> x in sealed || x == g
    requires g.id in files && g.mm == files[g.id] && Opened(c, f, g)
    ensures OpenedFrom(c, f, files, done + {g.id}, grown)
  {
    hide FooterOf;
    forall id | id in done + {g.id} ensures exists x :: x in grown && x.id == id {
      if id in done {
        var x :| x in sealed && x.id == id;
        assert x in grown;
      } else {
        assert g in grown;
      }
    }
  }

  // ----------------------------------------------------------- active file

  datatype Recovered = AsSealed(segment: Sealed) | AsActive(active: Active)

  /** What a recovered active file is fit for. */
  ghost predicate RecoveredAs(c: Codec, f: Filter, id: nat, src: Source, r: Recovered) {
    match r
    case AsSealed(g) => g.id == id && Opened(c, f, g) && SealedFrom(c, f, g, src) && DistinctRecs(src.recs)
    case AsActive(a) => a.id == id && ActiveOk(c, Some(a), src.recs)
  }

  /** Completes a crashed seal, or cuts the file back to its valid part and resumes
      it, or resets a file whose header never became durable. */
  method RecoverActive(c: Codec, f: Filter, id: nat, file: Bytes, ghost src: Source) returns (r: Recovered)
    requires Lawful(c)
    ensures r.AsSealed? ==> r.segment.id == id && r.segment.mm == file && Opened(c, f, r.segment)
    ensures r.AsActive? ==> r.active.id == id && r.active.size == |r.active.file| >= 8
    ensures ActiveImage(c, f, file, src) ==> RecoveredAs(c, f, id, src, r)
  {
    hide FooterOf, SealedFrom, Walk, Locs, Torn, Body, ActiveImage;
    var scan := ScanActive(c, f, file);
    if ActiveImage(c, f, file, src) { ScanIsExact(c, f, file, src); }
    if scan.sealed {
      var view := ParseFooter(c, f, file);
      return AsSealed(Sealed(id, file, view.value));
    }
    if scan.size < 8 {
      ResetOk(c, id);
      return AsActive(Active(id, MAGIC_HEADER, 8, map[]));
    }
    return AsActive(Active(id, file[..scan.size], scan.size, scan.index));
  }

  /** The scan of an active file finds its records. */
  lemma ScanIsExact(c: Codec, f: Filter, file: Bytes, src: Source)
    requires Lawful(c) && ActiveImage(c, f, file, src)
    ensures AllFit(src.recs) && DistinctRecs(src.recs)
    ensures !(MAGIC_HEADER <= file) ==> src.recs == []
    ensures MAGIC_HEADER <= file ==>
              && Body(c, src.recs) <= file && Walk(c, file, 8, map[]) == (|Body(c, src.recs)|, Locs(c, src.recs))
              && (SealMarked(c, f, file, |Body(c, src.recs)|) ==> ImageOf(c, f, file, src))
  {
    hide FooterOf, SealedFrom, Walk, Locs, Torn;
    if MAGIC_HEADER <= file {
      assert file == Body(c, src.recs) + file[|Body(c, src.recs)|..];
      ScanFindsRecords(c, src.recs, file[|Body(c, src.recs)|..]);
    }
  }

  lemma ResetOk(c: Codec, id: nat)
    ensures ActiveOk(c, Some(Active(id, MAGIC_HEADER, 8, map[])), [])
  {
    HeaderThenRest(c, [], []);
  }

  // ------------------------------------------------------------- the store

  /** The sources of opened segments. */
  ghost function Sources(sealed: seq<Sealed>, known: map<nat, Source>): (srcs: seq<Source>)
    requires forall i :: 0 <= i < |sealed| ==> sealed[i].id in known
    ensures |srcs| == |sealed| && forall i :: 0 <= i < |sealed| ==> srcs[i] == known[sealed[i].id]
  {
    seq(|sealed|, i requires 0 <= i < |sealed| => known[sealed[i].id])
  }

  lemma SealedFilesOk(c: Codec, f: Filter, dir: Dir, known: map<nat, Source>, sealed: seq<Sealed>)
    requires Recoverable(c, f, dir, known) && OpenedFrom(c, f, dir.sealedFiles, dir.sealedFiles.Keys, sealed)
    ensures forall i :: 0 <= i < |sealed| ==> sealed[i].id in known
    ensures SealedOk(c, f, sealed, Sources(sealed, known)) && Ascending(sealed)
  {
    hide FooterOf, SealedFrom, ActiveImage;
    forall i | 0 <= i < |sealed|
      ensures sealed[i].id in known && Opened(c, f, sealed[i]) && SealedFrom(c, f, sealed[i], known[sealed[i].id])
    {
      var g := sealed[i];
      assert g in sealed;
      assert SealedFrom(c, f, Sealed(g.id, g.mm, g.view), known[g.id]);
    }
  }

  /** The next number to use: above every number in the directory. */
  method NextNumber(sealed: seq<Sealed>) returns (n: nat)
    ensures n >= 1 && forall i :: 0 <= i < |sealed| ==> sealed[i].id < n
  {
    n := 1;
    for i := 0 to |sealed|
      invariant n >= 1 && forall j :: 0 <= j < i ==> sealed[j].id < n
    {
      if sealed[i].id >= n { n := sealed[i].id + 1; }
    }
  }

  lemma WithinBoth(a: map<Key, Bytes>, m: map<Key, Bytes>)
    requires Within(a, m) && forall k :: k in m ==> k in a
    ensures a == m
  {
  }

  /** The segments together hold exactly `m`. */
  lemma MapIs(srcs: seq<Source>, recs: seq<Rec>, m: map<Key, Bytes>)
    requires Within(Content(recs), m) && forall i :: 0 <= i < |srcs| ==> Within(Content(srcs[i].recs), m)
    requires forall k :: k in m ==> k in Content(recs) || exists i :: 0 <= i < |srcs| && k in Content(srcs[i].recs)
    ensures Merge(srcs) + Content(recs) == m && Coherent(srcs, recs, m)
  {
    hide Merge, Content, Within;
    MergeWithin(srcs, m);
    WithinUnion(Merge(srcs), Content(recs), m);
    forall k | k in m ensures k in Merge(srcs) + Content(recs) { Held(srcs, recs, k); }
    WithinBoth(Merge(srcs) + Content(recs), m);
  }

  lemma Held(srcs: seq<Source>, recs: seq<Rec>, k: Key)
    requires k in Content(recs) || exists i :: 0 <= i < |srcs| && k in Content(srcs[i].recs)
    ensures k in Merge(srcs) + Content(recs)
  {
    hide Merge, Content;
    if k !in Content(recs) {
      var i :| 0 <= i < |srcs| && k in Content(srcs[i].recs);
      MergeCovers(srcs, i, k);
    }
  }

  /** Everything the opened store must satisfy. */
  ghost predicate OpenedAs(c: Codec, f: Filter, sealed: seq<Sealed>, active: Option<Active>, next: nat,
                           srcs: seq<Source>, recs: seq<Rec>, m: map<Key, Bytes>) {
    && SealedOk(c, f, sealed, srcs) && ActiveOk(c, active, recs) && IdsOk(sealed, active, next)
    && Merge(srcs) + Content(recs) == m && Coherent(srcs, recs, m)
  }

  /** Each sealed file's source is among those opened. */
  lemma SourceOpened(c: Codec, f: Filter, dir: Dir, known: map<nat, Source>, sealed: seq<Sealed>, id: nat)
    returns (i: nat)
    requires OpenedFrom(c, f, dir.sealedFiles, dir.sealedFiles.Keys, sealed) && id in dir.sealedFiles && id in known
    requires forall i :: 0 <= i < |sealed| ==> sealed[i].id in known
    ensures i < |sealed| && Sources(sealed, known)[i] == known[id]
  {
    hide FooterOf;
    var g :| g in sealed && g.id == id;
    i :| 0 <= i < |sealed| && sealed[i] == g;
  }

  /** What the sealed files and one more source hold together. */
  lemma HeldBySources(c: Codec, f: Filter, dir: Dir, known: map<nat, Source>, sealed: seq<Sealed>, recs: seq<Rec>,
                      m: map<Key, Bytes>)
    requires Recoverable(c, f, dir, known) && DirHolds(dir, known, m)
    requires OpenedFrom(c, f, dir.sealedFiles, dir.sealedFiles.Keys, sealed)
    requires forall i :: 0 <= i < |sealed| ==> sealed[i].id in known
    requires if dir.activeFiles == map[] then recs == []
             else exists id :: id in dir.activeFiles && recs == known[id].recs
    ensures Merge(Sources(sealed, known)) + Content(recs) == m && Coherent(Sources(sealed, known), recs, m)
  {
    hide FooterOf, HasFooter, ImageOf, ActiveImage, Content, Merge, Within;
    var srcs := Sources(sealed, known);
    forall i | 0 <= i < |srcs| ensures Within(Content(srcs[i].recs), m) {
      assert sealed[i] in sealed;
      assert InDir(dir, sealed[i].id);
    }
    assert Within(Content(recs), m) by {
      if dir.activeFiles == map[] { NothingWithin(m); } else {
        var id :| id in dir.activeFiles && recs == known[id].recs;
        assert InDir(dir, id);
      }
    }
    forall k | k in m ensures k in Content(recs) || exists i :: 0 <= i < |srcs| && k in Content(srcs[i].recs) {
      var id :| InDir(dir, id) && id in known && k in Content(known[id].recs);
      if id in dir.sealedFiles { var i := SourceOpened(c, f, dir, known, sealed, id); }
    }
    MapIs(srcs, recs, m);
  }

  lemma NothingWithin(m: map<Key, Bytes>)
    ensures Within(Content([]), m)
  {
  }

  lemma RecoverableOpens(c: Codec, f: Filter, dir: Dir, known: map<nat, Source>)
    requires Recoverable(c, f, dir, known)
    ensures !dir.badName && |dir.activeFiles| <= 1
    ensures forall id :: id in dir.sealedFiles ==> HasFooter(c, f, dir.sealedFiles[id])
  {
    hide HasFooter, ImageOf, ActiveImage;
    if dir.activeFiles != map[] {
      var id :| id in dir.activeFiles;
      assert dir.activeFiles.Keys == {id};
    }
  }

  lemma NumbersOk(c: Codec, f: Filter, dir: Dir, known: map<nat, Source>, sealed: seq<Sealed>, id: nat)
    requires Recoverable(c, f, dir, known) && OpenedFrom(c, f, dir.sealedFiles, dir.sealedFiles.Keys, sealed)
    requires id in dir.activeFiles
    ensures Ascending(sealed) && Unused(id, sealed, None)
    ensures (forall i :: i in dir.sealedFiles ==> i < id) ==> forall i :: 0 <= i < |sealed| ==> sealed[i].id < id
  {
    hide HasFooter, ImageOf, ActiveImage, Opened;
    forall i | 0 <= i < |sealed| ensures sealed[i].id != id && sealed[i].id in dir.sealedFiles {
      assert sealed[i] in sealed;
    }
  }

  lemma AscendingDistinct(sealed: seq<Sealed>)
    requires Ascending(sealed)
    ensures DistinctIds(sealed)
  {
  }

  lemma LoadedWithoutActive(c: Codec, f: Filter, dir: Dir, known: map<nat, Source>, m: map<Key, Bytes>,
                            sealed: seq<Sealed>, next: nat)
    requires Recoverable(c, f, dir, known) && DirHolds(dir, known, m) && dir.activeFiles == map[]
    requires OpenedFrom(c, f, dir.sealedFiles, dir.sealedFiles.Keys, sealed)
    requires forall i :: 0 <= i < |sealed| ==> sealed[i].id < next
    ensures forall i :: 0 <= i < |sealed| ==> sealed[i].id in known
    ensures OpenedAs(c, f, sealed, None, next, Sources(sealed, known), [], m) && Ordered(sealed, None)
  {
    hide Recoverable, DirHolds, OpenedFrom, SealedOk, Coherent, Merge, Content;
    SealedFilesOk(c, f, dir, known, sealed);
    AscendingDistinct(sealed);
    HeldBySources(c, f, dir, known, sealed, [], m);
  }

  lemma LoadedWithActive(c: Codec, f: Filter, dir: Dir, known: map<nat, Source>, m: map<Key, Bytes>,
                         sealed: seq<Sealed>, next: nat, a: Active)
    requires Recoverable(c, f, dir, known) && DirHolds(dir, known, m) && a.id in dir.activeFiles && a.id in known
    requires OpenedFrom(c, f, dir.sealedFiles, dir.sealedFiles.Keys, sealed)
    requires a.id < next && ActiveOk(c, Some(a), known[a.id].recs)
    requires forall i :: 0 <= i < |sealed| ==> sealed[i].id < next
    ensures forall i :: 0 <= i < |sealed| ==> sealed[i].id in known
    ensures OpenedAs(c, f, sealed, Some(a), next, Sources(sealed, known), known[a.id].recs, m)
    ensures ActiveIsNewest(dir) ==> Ordered(sealed, Some(a))
  {
    hide Recoverable, DirHolds, OpenedFrom, SealedOk, ActiveOk, Coherent, Merge, Content;
    SealedFilesOk(c, f, dir, known, sealed);
    NumbersOk(c, f, dir, known, sealed, a.id);
    AscendingDistinct(sealed);
    HeldBySources(c, f, dir, known, sealed, known[a.id].recs, m);
  }

  /** The directory once a crashed seal is completed: the file has its sealed name. */
  ghost function Completed(dir: Dir, id: nat): Dir
    requires id in dir.activeFiles
  {
    Dir(dir.sealedFiles[id := dir.activeFiles[id]], map[], dir.badName)
  }

  lemma CompletedHolds(c: Codec, f: Filter, dir: Dir, known: map<nat, Source>, m: map<Key, Bytes>, id: nat)
    requires Recoverable(c, f, dir, known) && DirHolds(dir, known, m) && id in dir.activeFiles && id in known
    requires HasFooterAs(c, f, dir.activeFiles[id], known[id])
    ensures Recoverable(c, f, Completed(dir, id), known) && DirHolds(Completed(dir, id), known, m)
  {
    hide HasFooter, ImageOf, ActiveImage, Content, Within, DistinctRecs;
    var after := Completed(dir, id);
    forall k | k in m ensures exists i :: InDir(after, i) && i in known && k in Content(known[i].recs) {
      var i :| InDir(dir, i) && i in known && k in Content(known[i].recs);
      assert InDir(after, i);
    }
    forall i | InDir(after, i) ensures i in known && Within(Content(known[i].recs), m) { assert InDir(dir, i); }
  }

  lemma LoadedResealed(c: Codec, f: Filter, dir: Dir, known: map<nat, Source>, m: map<Key, Bytes>, sealed: seq<Sealed>,
                       next: nat, g: Sealed, placed: seq<Sealed>)
    requires Recoverable(c, f, dir, known) && DirHolds(dir, known, m) && g.id in dir.activeFiles && g.id in known
    requires OpenedFrom(c, f, dir.sealedFiles, dir.sealedFiles.Keys, sealed) && g.mm == dir.activeFiles[g.id]
    requires g.id < next && SealedFrom(c, f, g, known[g.id]) && DistinctRecs(known[g.id].recs)
    requires (forall x :: x in placed <==> x in sealed || x == g) && Ascending(placed)
    requires forall i :: 0 <= i < |sealed| ==> sealed[i].id < next
    ensures forall i :: 0 <= i < |placed| ==> placed[i].id in known
    ensures OpenedAs(c, f, placed, None, next, Sources(placed, known), [], m) && Ordered(placed, None)
  {
    var after := Completed(dir, g.id);
    assert Opened(c, f, g);
    ImageOfSealed(c, f, g, known[g.id]);
    hide SealedFrom, Opened;
    CompletedHolds(c, f, dir, known, m, g.id);
    PlacedFrom(c, f, dir, sealed, g, placed);
    hide Recoverable, DirHolds, OpenedFrom;
    forall i | 0 <= i < |placed| ensures placed[i].id < next {
      assert placed[i] in placed;
      if placed[i] != g { var j :| 0 <= j < |sealed| && sealed[j] == placed[i]; }
    }
    LoadedWithoutActive(c, f, after, known, m, placed, next);
  }

  lemma PlacedFrom(c: Codec, f: Filter, dir: Dir, sealed: seq<Sealed>, g: Sealed, placed: seq<Sealed>)
    requires OpenedFrom(c, f, dir.sealedFiles, dir.sealedFiles.Keys, sealed) && Ascending(placed) && Opened(c, f, g)
    requires g.id in dir.activeFiles && g.id !in dir.sealedFiles && g.mm == dir.activeFiles[g.id]
    requires forall x :: x in placed <==> x in sealed || x == g
    ensures var files := Completed(dir, g.id).sealedFiles; OpenedFrom(c, f, files, files.Keys, placed)
  {
    hide Opened;
    var files := Completed(dir, g.id).sealedFiles;
    OneMore(c, f, files, dir.sealedFiles.Keys, sealed, g, placed);
    assert dir.sealedFiles.Keys + {g.id} == files.Keys;
  }

  /** When an open succeeds: names make sense, at most one file is active, every sealed
      file has a footer, and file operations work if there is an active file to
      recover. */
  ghost predicate Opens(c: Codec, f: Filter, dir: Dir, healthy: bool) {
    && !dir.badName && |dir.activeFiles| <= 1
    && (forall id :: id in dir.sealedFiles ==> HasFooter(c, f, dir.sealedFiles[id]))
    && (dir.activeFiles == map[] || healthy)
  }

  lemma AllHaveFooters(c: Codec, f: Filter, files: map<nat, Bytes>, sealed: seq<Sealed>)
    requires OpenedFrom(c, f, files, files.Keys, sealed)
    ensures forall id :: id in files ==> HasFooter(c, f, files[id])
  {
    hide FooterOf;
    forall id | id in files ensures HasFooter(c, f, files[id]) {
      var g :| g in sealed && g.id == id;
    }
  }

  /** What opening a directory yields: sealed segments, the active one, the next
      number. */
  datatype Contents = Contents(sealed: seq<Sealed>, active: Option<Active>, next: nat)

  method ReadDir(c: Codec, f: Filter, dir: Dir, healthy: bool, ghost known: map<nat, Source>, ghost m: map<Key, Bytes>)
    returns (r: Result<Contents>, ghost srcs: seq<Source>, ghost recs: seq<Rec>)
    requires Lawful(c)
    ensures r.Success? <==> Opens(c, f, dir, healthy)
    ensures healthy && Recoverable(c, f, dir, known) && DirHolds(dir, known, m) ==>
              && r.Success? && OpenedAs(c, f, r.value.sealed, r.value.active, r.value.next, srcs, recs, m)
              && (ActiveIsNewest(dir) ==> Ordered(r.value.sealed, r.value.active))
  {
    hide Recoverable, DirHolds, OpenedFrom, OpenedAs, Ordered, ActiveIsNewest;
    srcs, recs := [], [];
    ghost var ok := Recoverable(c, f, dir, known) && DirHolds(dir, known, m);
    if ok { RecoverableOpens(c, f, dir, known); }
    if dir.badName || |dir.activeFiles| > 1 { return Failure(Malformed), srcs, recs; }
    var sealed := OpenSealed(c, f, dir.sealedFiles);
    if sealed.Failure? { return Failure(Malformed), srcs, recs; }
    AllHaveFooters(c, f, dir.sealedFiles, sealed.value);
    var next := NextNumber(sealed.value);
    if dir.activeFiles == map[] {
      if ok {
        LoadedWithoutActive(c, f, dir, known, m, sealed.value, next);
        srcs := Sources(sealed.value, known);
      }
      return Success(Contents(sealed.value, None, next)), srcs, recs;
    }
    if !healthy { return Failure(Rejected), srcs, recs; }
    var id :| id in dir.activeFiles;
    r, srcs, recs := ReadActive(c, f, dir, id, sealed.value, if id >= next then id + 1 else next, known, m);
  }

  method ReadActive(c: Codec, f: Filter, dir: Dir, id: nat, sealed: seq<Sealed>, next: nat,
                    ghost known: map<nat, Source>, ghost m: map<Key, Bytes>)
    returns (r: Result<Contents>, ghost srcs: seq<Source>, ghost recs: seq<Rec>)
    requires Lawful(c) && id in dir.activeFiles && id < next
    requires OpenedFrom(c, f, dir.sealedFiles, dir.sealedFiles.Keys, sealed)
    requires forall i :: 0 <= i < |sealed| ==> sealed[i].id < next
    ensures r.Success?
    ensures Recoverable(c, f, dir, known) && DirHolds(dir, known, m) ==>
              && OpenedAs(c, f, r.value.sealed, r.value.active, r.value.next, srcs, recs, m)
              && (ActiveIsNewest(dir) ==> Ordered(r.value.sealed, r.value.active))
  {
    hide Recoverable, DirHolds, OpenedFrom, OpenedAs, Ordered, ActiveIsNewest, ActiveImage, ActiveOk,
         SealedFrom, Opened;
    srcs, recs := [], [];
    ghost var ok := Recoverable(c, f, dir, known) && DirHolds(dir, known, m);
    ghost var src := if id in known then known[id] else Source([], []);
    if ok { ActiveKnown(c, f, dir, known, id); }
    var found := RecoverActive(c, f, id, dir.activeFiles[id], src);
    match found {
      case AsSealed(g) =>
        var placed := Place(sealed, g);
        if ok {
          NumbersOk(c, f, dir, known, sealed, id);
          LoadedResealed(c, f, dir, known, m, sealed, next, g, placed);
          srcs := Sources(placed, known);
        }
        return Success(Contents(placed, None, next)), srcs, recs;
      case AsActive(a) =>
        if ok {
          LoadedWithActive(c, f, dir, known, m, sealed, next, a);
          srcs, recs := Sources(sealed, known), src.recs;
        }
        return Success(Contents(sealed, Some(a), next)), srcs, recs;
    }
  }

  /** Opens a store on a directory, with the exact condition for success. If file
      operations work and the directory is one a store left, however it stopped, the
      open succeeds with exactly what the files hold. */
  method Load(s: Store, dir: Dir, healthy: bool, ghost known: map<nat, Source>, ghost m: map<Key, Bytes>)
    returns (err: Option<Error>)
    requires s.Valid() && s.sealed == [] && s.active.None? && !s.closed && !s.failed && s.stale == NOTHING_STALE
    modifies s
    ensures err.None? <==> Opens(s.codec, s.filter, dir, healthy)
    ensures healthy && Recoverable(s.codec, s.filter, dir, known) && DirHolds(dir, known, m) ==>
              && err.None? && s.Valid() && s.Map() == m && !s.closed && !s.failed && s.stale == NOTHING_STALE
              && (ActiveIsNewest(dir) ==> Ordered(s.sealed, s.active))
  {
    hide Recoverable, DirHolds, SealedOk, ActiveOk, IdsOk, Coherent, Merge, Content, StaleOk, Apart, RenamedOk, Ordered,
         ActiveIsNewest, Opens;
    var r;
    ghost var srcs, recs;
    r, srcs, recs := ReadDir(s.codec, s.filter, dir, healthy, known, m);
    if r.Failure? { return Some(r.error); }
    NothingIsStale(s.codec, s.filter, s.known, r.value.sealed, r.value.active, r.value.next, recs);
    s.sealed, s.active, s.nextID := r.value.sealed, r.value.active, r.value.next;
    s.srcs, s.recs := srcs, recs;
    return None;
  }

  lemma NothingIsStale(c: Codec, f: Filter, known: map<nat, Source>, sealed: seq<Sealed>, active: Option<Active>,
                       next: nat, recs: seq<Rec>)
    ensures StaleOk(c, f, NOTHING_STALE, known) && Apart(NOTHING_STALE, sealed, active, next)
    ensures RenamedOk(c, f, NOTHING_STALE, known, active, recs, false)
  {
  }

  lemma ActiveKnown(c: Codec, f: Filter, dir: Dir, known: map<nat, Source>, id: nat)
    requires Recoverable(c, f, dir, known) && id in dir.activeFiles
    ensures id in known && ActiveImage(c, f, dir.activeFiles[id], known[id])
  {
    hide HasFooter, ImageOf, ActiveImage;
  }
}
