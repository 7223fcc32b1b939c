/** Closing a store and opening what it left (packstore/packstore.go): its own files,
    and those that removals, failed creations and failed seals left behind, with the
    exact conditions for the open to succeed and for the map to be the old one. */
module StoreReopen {
  import opened Base
  import opened Keys
  import opened Record
  import opened WirePack
  import opened SegmentFooter
  import opened Segments
  import opened SealedSegments
  import opened PackStore
  import opened StoreOpen

  // ------------------------------------------------------ what is on the disk

  /** A store's segments and stale files, and what they hold. */
  datatype Disk = Disk(sealed: seq<Sealed>, srcs: seq<Source>, active: Option<Active>, recs: seq<Rec>,
                       stale: Stale, known: map<nat, Source>)

  ghost function DiskOf(s: Store): Disk
    reads s
  {
    Disk(s.sealed, s.srcs, s.active, s.recs, s.stale, s.known)
  }

  ghost predicate DiskOk(c: Codec, f: Filter, d: Disk, next: nat, failed: bool) {
    && SealedOk(c, f, d.sealed, d.srcs) && ActiveOk(c, d.active, d.recs) && IdsOk(d.sealed, d.active, next)
    && StaleOk(c, f, d.stale, d.known) && Apart(d.stale, d.sealed, d.active, next)
    && RenamedOk(c, f, d.stale, d.known, d.active, d.recs, failed) && Coherent(d.srcs, d.recs, MapOf(d))
  }

  ghost function MapOf(d: Disk): map<Key, Bytes> { Merge(d.srcs) + Content(d.recs) }

  /** The active segment has its file under its active name. */
  predicate Owns(active: Option<Active>, stale: Stale) { active.Some? && stale.renamed.None? }

  /** The files under active names. */
  function Actives(active: Option<Active>, stale: Stale): map<nat, Bytes> {
    if Owns(active, stale) then stale.activeFiles[active.value.id := active.value.file] else stale.activeFiles
  }

  /** The files under sealed names, given those of the segments in use. */
  function SealedNames(active: Option<Active>, stale: Stale, files: map<nat, Bytes>): map<nat, Bytes> {
    if active.Some? && stale.renamed.Some? then (stale.sealedFiles + files)[active.value.id := stale.renamed.value]
    else stale.sealedFiles + files
  }

  ghost function ActiveFiles(d: Disk): map<nat, Bytes> { Actives(d.active, d.stale) }

  ghost predicate OwnId(d: Disk, id: nat) { Owns(d.active, d.stale) && id == d.active.value.id }

  /** The records of an active file, and then `more` that failed writes left. */
  ghost function AllAt(d: Disk, id: nat, more: seq<Rec>): seq<Rec> {
    (if OwnId(d, id) then d.recs else if id in d.known then d.known[id].recs else []) + more
  }

  ghost function InUse(srcs: seq<Source>): set<Rec> { set i, o | 0 <= i < |srcs| && o in srcs[i].recs :: o }

  /** The records under sealed names: in use, stale, or renamed. */
  ghost function SealedRecs(d: Disk): set<Rec> {
    InUse(d.srcs) + RecordsOf(d.stale.sealedFiles.Keys, d.known)
    + (if d.active.Some? && d.stale.renamed.Some? then set o | o in d.recs else {})
  }

  /** The records an open finds: those under sealed names, and what a scan sees of the
      active file. */
  ghost function Found(d: Disk, more: seq<Rec>): set<Rec> {
    SealedRecs(d) + set id, o | id in ActiveFiles(d) && o in Scanned(AllAt(d, id, more)) :: o
  }

  ghost function Everything(d: Disk, more: seq<Rec>): set<Rec> {
    SealedRecs(d) + (set o | o in d.recs) + set id, o | id in ActiveFiles(d) && o in AllAt(d, id, more) :: o
  }

  /** The open succeeds: at most one file has an active name, and every stale file under
      a sealed name has a footer. */
  ghost predicate CanReopen(c: Codec, f: Filter, d: Disk) {
    && |ActiveFiles(d)| <= 1
    && (forall id :: id in d.stale.sealedFiles ==> HasFooter(c, f, d.stale.sealedFiles[id]))
    && (d.active.Some? && d.stale.renamed.Some? ==> HasFooter(c, f, d.stale.renamed.value))
  }

  /** What a scan of the file sees as exactly `recs`, up to a non-canonical key: behind
      them nothing starts a record, and there is no footer but one over these records,
      as a seal whose last steps failed leaves. Behind a non-canonical key anything
      may lie. */
  ghost predicate Resumable(c: Codec, f: Filter, file: Bytes, recs: seq<Rec>) {
    && AllFit(recs) && DistinctRecs(recs) && Body(c, recs) <= file
    && (CanonicalLength(recs) == |recs| ==>
          && Torn(c, file[|Body(c, recs)|..])
          && (SealMarked(c, f, file, |Body(c, recs)|) ==> exists es :: ImageOf(c, f, file, Source(recs, es))))
  }

  /** The same for a file that may have no whole header. */
  ghost predicate Seen(c: Codec, f: Filter, file: Bytes, recs: seq<Rec>) {
    if MAGIC_HEADER <= file then Resumable(c, f, file, recs) else recs == []
  }

  /** An active file as the next open sees it: its records up to the first under a
      non-canonical key. */
  lemma AsScanned(c: Codec, f: Filter, file: Bytes, recs: seq<Rec>) returns (src: Source)
    requires Lawful(c) && Resumable(c, f, file, recs)
    ensures src.recs == Scanned(recs) && ActiveImage(c, f, file, src)
  {
    var tail := file[|Body(c, recs)|..];
    assert file == Body(c, recs) + tail;
    HeaderThenRest(c, recs, tail);
    if CanonicalLength(recs) < |recs| {
      src := Source(Scanned(recs), []);
      var rest := BadRecordIsTorn(c, recs, tail);
      LeftBehindBadKey(c, f, file, src, rest);
    } else {
      assert Scanned(recs) == recs;
      src := Source(recs, []);
      if SealMarked(c, f, file, |Body(c, recs)|) {
        var es :| ImageOf(c, f, file, Source(recs, es));
        src := Source(recs, es);
      }
      assert ActiveImage(c, f, file, src) by { hide Torn, HasFooter, ImageOf, Records, Locs; }
    }
  }

  lemma LeftBehindBadKey(c: Codec, f: Filter, file: Bytes, src: Source, rest: Bytes)
    requires Packable(src.recs) && DistinctRecs(src.recs) && MAGIC_HEADER <= file
    requires file == Body(c, src.recs) + rest && rest != [] && rest[0] == TAG_CHUNK && Torn(c, rest)
    ensures ActiveImage(c, f, file, src)
  {
    hide Torn, HasFooter, ImageOf, Records;
    assert file[|Body(c, src.recs)|..] == rest && file[|Body(c, src.recs)|] == rest[0];
  }

  lemma AsSeen(c: Codec, f: Filter, file: Bytes, recs: seq<Rec>) returns (src: Source)
    requires Lawful(c) && Seen(c, f, file, recs)
    ensures src.recs == Scanned(recs) && ActiveImage(c, f, file, src)
  {
    if MAGIC_HEADER <= file {
      src := AsScanned(c, f, file, recs);
    } else {
      src := Source([], []);
    }
  }

  /** What lies in active files is as the next open sees it, and every copy of a key,
      stale or not, has the same data. */
  ghost predicate LeavesBehind(c: Codec, f: Filter, d: Disk, more: seq<Rec>) {
    && (forall id :: id in ActiveFiles(d) ==> Seen(c, f, ActiveFiles(d)[id], AllAt(d, id, more)))
    && OneEach(Everything(d, more))
  }

  // -------------------------------------------------------------- the map

  lemma InUseHas(srcs: seq<Source>, i: nat, o: Rec)
    requires i < |srcs| && o in srcs[i].recs
    ensures o in InUse(srcs)
  {
  }

  /** Each value of the map has its record. */
  lemma MapHasRecord(d: Disk, k: Key) returns (o: Rec)
    requires Coherent(d.srcs, d.recs, MapOf(d)) && k in MapOf(d)
    ensures o == Rec(k, MapOf(d)[k]) && (o in InUse(d.srcs) || o in d.recs)
  {
    hide Merge, Content;
    if k in Content(d.recs) {
      var i := ContentHasRecord(d.recs, k);
      o := d.recs[i];
    } else {
      var i := MergeSource(d.srcs, k);
      var j := ContentHasRecord(d.srcs[i].recs, k);
      o := d.srcs[i].recs[j];
      InUseHas(d.srcs, i, o);
    }
  }

  /** And each record in use is a value of the map. */
  lemma RecordInMap(c: Codec, f: Filter, d: Disk, o: Rec)
    requires SealedOk(c, f, d.sealed, d.srcs) && ActiveOk(c, d.active, d.recs) && Coherent(d.srcs, d.recs, MapOf(d))
    requires o in InUse(d.srcs) || o in d.recs
    ensures o.key in MapOf(d) && MapOf(d)[o.key] == o.data
  {
    hide Merge, Content, SealedFrom, Opened, Body, Locs, AllFit;
    if o in d.recs {
      var i :| 0 <= i < |d.recs| && d.recs[i] == o;
      DistinctContent(d.recs, i);
    } else {
      var i :| 0 <= i < |d.srcs| && o in d.srcs[i].recs;
      var j :| 0 <= j < |d.srcs[i].recs| && d.srcs[i].recs[j] == o;
      DistinctContent(d.srcs[i].recs, j);
      MergeCovers(d.srcs, i, o.key);
    }
  }

  ghost predicate HasKey(rs: set<Rec>, k: Key) { exists o :: o in rs && o.key == k }

  lemma AsMapKeys(rs: set<Rec>, k: Key)
    requires OneEach(rs)
    ensures k in AsMap(rs) <==> HasKey(rs, k)
    ensures forall o :: o in rs && o.key == k ==> AsMap(rs)[k] == o.data
  {
  }

  /** How many records of an active file are the store's own. */
  ghost function OwnLength(d: Disk, id: nat): nat { if OwnId(d, id) then |d.recs| else 0 }

  /** No stale record comes back that the map does not have. */
  ghost predicate NoneComesBack(d: Disk) {
    forall o :: o in RecordsOf(d.stale.sealedFiles.Keys, d.known) ==> o.key in MapOf(d)
  }

  /** The scan adds no record the map does not have. */
  ghost predicate NoneAdded(d: Disk, id: nat, more: seq<Rec>) {
    var all := AllAt(d, id, more);
    forall i :: OwnLength(d, id) <= i < CanonicalLength(all) ==> all[i].key in MapOf(d)
  }

  /** And drops none without a copy under a sealed name. */
  ghost predicate NoneDropped(d: Disk, id: nat, more: seq<Rec>) {
    var all := AllAt(d, id, more);
    forall i :: CanonicalLength(all) <= i < OwnLength(d, id) && i < |all| ==> HasKey(SealedRecs(d), all[i].key)
  }

  ghost predicate SameOnReopen(d: Disk, more: seq<Rec>) {
    && NoneComesBack(d)
    && forall id :: id in ActiveFiles(d) ==> NoneAdded(d, id, more) && NoneDropped(d, id, more)
  }

  lemma FoundAt(d: Disk, more: seq<Rec>, id: nat, i: nat)
    requires id in ActiveFiles(d) && i < CanonicalLength(AllAt(d, id, more))
    ensures AllAt(d, id, more)[i] in Found(d, more)
  {
    hide SealedRecs, CanonicalLength;
    var all := AllAt(d, id, more);
    assert Scanned(all)[i] == all[i];
    assert all[i] in Scanned(all);
  }

  lemma FoundIsEverything(d: Disk, more: seq<Rec>)
    requires OneEach(Everything(d, more))
    ensures OneEach(Found(d, more))
  {
    hide SealedRecs, CanonicalLength;
    forall o | o in Found(d, more) ensures o in Everything(d, more) {
      if o !in SealedRecs(d) {
        var id :| id in ActiveFiles(d) && o in Scanned(AllAt(d, id, more));
        assert o in AllAt(d, id, more);
      }
    }
  }

  /** What is found is in the map, if nothing stale comes back and nothing is added. */
  lemma FoundInMap(c: Codec, f: Filter, d: Disk, next: nat, failed: bool, more: seq<Rec>, o: Rec)
    requires DiskOk(c, f, d, next, failed) && SameOnReopen(d, more) && o in Found(d, more)
    ensures o.key in MapOf(d)
  {
    hide CanonicalLength, Merge, Content, SealedOk, ActiveOk, IdsOk, StaleOk, Apart, Coherent, HasKey;
    if o in InUse(d.srcs) || o in d.recs {
      RecordInMap(c, f, d, o);
    } else if o !in SealedRecs(d) {
      var id :| id in ActiveFiles(d) && o in Scanned(AllAt(d, id, more));
      var all := AllAt(d, id, more);
      var i :| 0 <= i < |Scanned(all)| && Scanned(all)[i] == o;
      assert all[i] == o;
      assert NoneAdded(d, id, more);
    }
  }

  /** What is in the map is found, if nothing is dropped. */
  lemma MapIsFound(d: Disk, more: seq<Rec>, k: Key)
    requires Coherent(d.srcs, d.recs, MapOf(d)) && k in MapOf(d) && (d.active.None? ==> d.recs == [])
    requires forall id :: id in ActiveFiles(d) ==> NoneDropped(d, id, more)
    ensures HasKey(Found(d, more), k)
  {
    hide CanonicalLength, Merge, Content, Coherent;
    var o := MapHasRecord(d, k);
    if o in SealedRecs(d) {
      assert o in Found(d, more);
    } else {
      var id := d.active.value.id;
      var all := AllAt(d, id, more);
      var i :| 0 <= i < |d.recs| && d.recs[i] == o;
      assert all[i] == o && id in ActiveFiles(d);
      if i < CanonicalLength(all) {
        FoundAt(d, more, id, i);
      } else {
        assert NoneDropped(d, id, more);
        var x :| x in SealedRecs(d) && x.key == k;
        assert x in Found(d, more);
      }
    }
  }

  /** If what is found is the map, nothing was dropped. */
  lemma FoundDropsNone(c: Codec, f: Filter, d: Disk, next: nat, failed: bool, more: seq<Rec>, id: nat)
    requires DiskOk(c, f, d, next, failed) && id in ActiveFiles(d) && |ActiveFiles(d)| <= 1
    requires DistinctRecs(AllAt(d, id, more)) && forall k :: k in MapOf(d) ==> HasKey(Found(d, more), k)
    ensures NoneDropped(d, id, more)
  {
    hide CanonicalLength, Merge, Content, SealedOk, StaleOk, Apart, Coherent, SealedRecs;
    var all, n := AllAt(d, id, more), CanonicalLength(AllAt(d, id, more));
    forall i | n <= i < OwnLength(d, id) && i < |all| ensures HasKey(SealedRecs(d), all[i].key) {
      assert all[i] == d.recs[i];
      RecordInMap(c, f, d, all[i]);
      forall y | y in Scanned(all) ensures y.key != all[i].key { NotScanned(all, i, y); }
      var x :| x in Found(d, more) && x.key == all[i].key;
      if x !in SealedRecs(d) {
        var a :| a in ActiveFiles(d) && x in Scanned(AllAt(d, a, more));
        OnlyOne(ActiveFiles(d), a, id);
      }
    }
  }

  lemma NotScanned(recs: seq<Rec>, i: nat, x: Rec)
    requires DistinctRecs(recs) && CanonicalLength(recs) <= i < |recs| && x in Scanned(recs)
    ensures x.key != recs[i].key
  {
    hide CanonicalLength;
    var j :| 0 <= j < |Scanned(recs)| && Scanned(recs)[j] == x;
    assert recs[j] == x;
  }

  lemma OnlyOne(m: map<nat, Bytes>, a: nat, b: nat)
    requires |m| <= 1 && a in m && b in m
    ensures a == b
  {
    assert |m.Keys - {a}| == |m.Keys| - 1;
    assert m.Keys - {a} == {};
  }

  /** An open that succeeds finds the same map exactly when every stale record is in it,
      every whole record a failed write left is, and every record the scan drops, from
      the first non-canonical key on, has a copy under a sealed name. */
  lemma ReopenKeepsIff(c: Codec, f: Filter, d: Disk, next: nat, failed: bool, more: seq<Rec>)
    requires DiskOk(c, f, d, next, failed) && LeavesBehind(c, f, d, more) && |ActiveFiles(d)| <= 1
    ensures OneEach(Found(d, more)) && (AsMap(Found(d, more)) == MapOf(d) <==> SameOnReopen(d, more))
  {
    hide CanonicalLength, Merge, Content, SealedOk, StaleOk, Apart, IdsOk, Coherent, RenamedOk, Found, NoneDropped,
         AsMap, NoneComesBack, NoneAdded, OneEach, Everything, HasKey, DistinctRecs, Resumable;
    FoundIsEverything(d, more);
    var found, m := AsMap(Found(d, more)), MapOf(d);
    if SameOnReopen(d, more) {
      SameMaps(c, f, d, next, failed, more);
    } else if found == m {
      SameOnly(c, f, d, next, failed, more);
    }
  }

  lemma SameMaps(c: Codec, f: Filter, d: Disk, next: nat, failed: bool, more: seq<Rec>)
    requires DiskOk(c, f, d, next, failed) && OneEach(Everything(d, more)) && OneEach(Found(d, more))
    requires SameOnReopen(d, more)
    ensures AsMap(Found(d, more)) == MapOf(d)
  {
    hide CanonicalLength, Merge, Content, SealedOk, StaleOk, Apart, IdsOk, RenamedOk, Found, NoneDropped, Coherent,
         NoneComesBack, NoneAdded, AsMap, OneEach, SealedRecs;
    var found, m := AsMap(Found(d, more)), MapOf(d);
    forall k | k in m ensures k in found && found[k] == m[k] {
      MapIsFound(d, more, k);
      AsMapKeys(Found(d, more), k);
      var x: Rec :| x in Found(d, more) && x.key == k;
      ValuesAgree(d, more, k, x);
    }
    forall k | k in found ensures k in m {
      AsMapKeys(Found(d, more), k);
      var x: Rec :| x in Found(d, more) && x.key == k;
      FoundInMap(c, f, d, next, failed, more, x);
    }
  }

  lemma ValuesAgree(d: Disk, more: seq<Rec>, k: Key, x: Rec)
    requires Coherent(d.srcs, d.recs, MapOf(d)) && k in MapOf(d) && OneEach(Everything(d, more))
    requires x in Found(d, more) && x.key == k
    ensures x.data == MapOf(d)[k]
  {
    hide CanonicalLength, Merge, Content, Coherent;
    var o := MapHasRecord(d, k);
    assert o in Everything(d, more);
    if x !in SealedRecs(d) {
      var id :| id in ActiveFiles(d) && x in Scanned(AllAt(d, id, more));
      assert x in AllAt(d, id, more);
    }
    assert x in Everything(d, more);
  }

  lemma SameOnly(c: Codec, f: Filter, d: Disk, next: nat, failed: bool, more: seq<Rec>)
    requires DiskOk(c, f, d, next, failed) && LeavesBehind(c, f, d, more) && |ActiveFiles(d)| <= 1
    requires OneEach(Found(d, more)) && AsMap(Found(d, more)) == MapOf(d)
    ensures SameOnReopen(d, more)
  {
    hide CanonicalLength, Merge, Content, SealedOk, StaleOk, Apart, IdsOk, RenamedOk, Coherent, ActiveOk, NoneDropped,
         AsMap, OneEach, Everything, HasKey, DistinctRecs, Body;
    forall k ensures k in MapOf(d) <==> HasKey(Found(d, more), k) { AsMapKeys(Found(d, more), k); }
    forall o | o in RecordsOf(d.stale.sealedFiles.Keys, d.known) ensures o.key in MapOf(d) { KeyOf(d, more, o); }
    forall id | id in ActiveFiles(d) ensures NoneAdded(d, id, more) && NoneDropped(d, id, more) {
      forall i | OwnLength(d, id) <= i < CanonicalLength(AllAt(d, id, more))
        ensures AllAt(d, id, more)[i].key in MapOf(d)
      {
        FoundAt(d, more, id, i);
        KeyOf(d, more, AllAt(d, id, more)[i]);
      }
      SeenIsDistinct(c, f, ActiveFiles(d)[id], AllAt(d, id, more));
      FoundDropsNone(c, f, d, next, failed, more, id);
    }
  }

  lemma KeyOf(d: Disk, more: seq<Rec>, o: Rec)
    requires o in Found(d, more) && forall k :: HasKey(Found(d, more), k) ==> k in MapOf(d)
    ensures o.key in MapOf(d)
  {
    hide Found, Merge, Content;
    assert HasKey(Found(d, more), o.key);
  }

  lemma SeenIsDistinct(c: Codec, f: Filter, file: Bytes, recs: seq<Rec>)
    requires Seen(c, f, file, recs)
    ensures DistinctRecs(recs)
  {
  }

  // --------------------------------------------------------- the directory

  ghost function DirOf(d: Disk, files: map<nat, Bytes>): Dir {
    Dir(SealedNames(d.active, d.stale, files), ActiveFiles(d), false)
  }

  /** The numbers of the segments in use. */
  function Ids(sealed: seq<Sealed>): set<nat> { set g | g in sealed :: g.id }

  ghost predicate FilesInUse(d: Disk, files: map<nat, Bytes>, from: map<nat, Source>) {
    FilesOf(d.sealed, Ids(d.sealed), d.srcs, files, from)
  }

  /** Whether the open succeeds. */
  lemma OpensIff(c: Codec, f: Filter, d: Disk, next: nat, failed: bool, files: map<nat, Bytes>, from: map<nat, Source>)
    requires DiskOk(c, f, d, next, failed) && FilesInUse(d, files, from)
    ensures Opens(c, f, DirOf(d, files), true) <==> CanReopen(c, f, d)
  {
    hide SealedFrom, Opened, ActiveOk, StaleOk, Coherent, HasFooter, Merge, Content, RenamedOk;
    forall id | id in files ensures HasFooter(c, f, files[id]) && !Unused(id, d.sealed, None) {
      var i := FileFrom(d.sealed, Ids(d.sealed), d.srcs, files, from, id);
      ImageOfSealed(c, f, d.sealed[i], d.srcs[i]);
    }
    hide FilesOf, SealedOk;
    NamesAreApart(d, next, files);
    hide IdsOk, Apart, Unused;
    var named := SealedNames(d.active, d.stale, files);
    var dir := DirOf(d, files);
    assert dir.sealedFiles == named && dir.activeFiles == ActiveFiles(d);
    if CanReopen(c, f, d) {
      forall id | id in named ensures HasFooter(c, f, named[id]) { }
      assert Opens(c, f, dir, true);
    }
    if Opens(c, f, dir, true) {
      assert d.active.Some? && d.stale.renamed.Some? ==> d.active.value.id in named;
      assert CanReopen(c, f, d);
    }
  }

  lemma NamesAreApart(d: Disk, next: nat, files: map<nat, Bytes>)
    requires IdsOk(d.sealed, d.active, next) && Apart(d.stale, d.sealed, d.active, next)
    requires forall id :: id in files ==> !Unused(id, d.sealed, None)
    ensures var named := SealedNames(d.active, d.stale, files);
            && (forall id :: id in d.stale.sealedFiles ==> id in named && named[id] == d.stale.sealedFiles[id])
            && (forall id :: id in files ==> id in named && named[id] == files[id])
            && (forall id :: id in named ==> id !in ActiveFiles(d))
  {
  }

  lemma FilesAre(c: Codec, f: Filter, d: Disk, files: map<nat, Bytes>, from: map<nat, Source>)
    requires SealedOk(c, f, d.sealed, d.srcs) && FilesInUse(d, files, from)
    ensures from.Keys == files.Keys && forall id :: id in files ==>
              !Unused(id, d.sealed, None) && HasFooterAs(c, f, files[id], from[id])
  {
    hide SealedFrom, Opened, ImageOf, DistinctRecs, HasFooter;
    forall id | id in files ensures !Unused(id, d.sealed, None) && HasFooterAs(c, f, files[id], from[id]) {
      var i := FileFrom(d.sealed, Ids(d.sealed), d.srcs, files, from, id);
      ImageOfSealed(c, f, d.sealed[i], d.srcs[i]);
    }
  }

  /** Every file under a sealed name opens, as what it holds. */
  lemma SealedNamesOpen(c: Codec, f: Filter, d: Disk, next: nat, failed: bool, files: map<nat, Bytes>,
                        from: map<nat, Source>, id: nat)
    requires DiskOk(c, f, d, next, failed) && FilesInUse(d, files, from) && CanReopen(c, f, d)
    requires id in SealedNames(d.active, d.stale, files)
    ensures id in d.known + from
    ensures HasFooterAs(c, f, SealedNames(d.active, d.stale, files)[id], (d.known + from)[id])
  {
    FilesAre(c, f, d, files, from);
    FromIsApart(d, next, from);
    hide SealedOk, ActiveOk, FilesOf, LeftActive, Coherent, Merge, Content, IdsOk, Apart, HasFooter, ImageOf,
         DistinctRecs;
    NameOpens(c, f, d, files, from, id);
  }

  lemma NameOpens(c: Codec, f: Filter, d: Disk, files: map<nat, Bytes>, from: map<nat, Source>, id: nat)
    requires CanReopen(c, f, d) && id in SealedNames(d.active, d.stale, files) && from.Keys == files.Keys
    requires forall i :: i in files ==> HasFooterAs(c, f, files[i], from[i])
    requires forall i :: i in d.stale.sealedFiles ==>
               i !in from && i in d.known && LeftSealed(c, f, d.stale.sealedFiles[i], d.known[i])
    requires d.active.Some? ==> d.active.value.id !in from
    requires d.active.Some? && d.stale.renamed.Some? ==>
               d.active.value.id in d.known && LeftSealed(c, f, d.stale.renamed.value, d.known[d.active.value.id])
    ensures id in d.known + from
    ensures HasFooterAs(c, f, SealedNames(d.active, d.stale, files)[id], (d.known + from)[id])
  {
    hide HasFooter, ImageOf, DistinctRecs;
  }

  lemma FromIsApart(d: Disk, next: nat, from: map<nat, Source>)
    requires IdsOk(d.sealed, d.active, next) && Apart(d.stale, d.sealed, d.active, next)
    requires forall id :: id in from ==> !Unused(id, d.sealed, None)
    ensures forall id :: id in d.stale.sealedFiles || id in d.stale.activeFiles ==> id !in from
    ensures d.active.Some? ==> d.active.value.id !in from
  {
  }

  lemma InUseFrom(d: Disk, files: map<nat, Bytes>, from: map<nat, Source>, o: Rec)
    requires FilesInUse(d, files, from)
    ensures o in RecordsOf(files.Keys, from) <==> o in InUse(d.srcs)
  {
    if o in InUse(d.srcs) {
      var i :| 0 <= i < |d.srcs| && o in d.srcs[i].recs;
      assert d.sealed[i] in d.sealed;
      assert d.sealed[i].id in Ids(d.sealed);
    }
    if o in RecordsOf(files.Keys, from) {
      var id :| id in files && id in from && o in from[id].recs;
      var i := FileFrom(d.sealed, Ids(d.sealed), d.srcs, files, from, id);
    }
  }

  /** The records under sealed names. */
  lemma SealedNamesHold(c: Codec, f: Filter, d: Disk, next: nat, failed: bool, files: map<nat, Bytes>,
                        from: map<nat, Source>)
    requires DiskOk(c, f, d, next, failed) && FilesInUse(d, files, from)
    ensures RecordsOf(SealedNames(d.active, d.stale, files).Keys, d.known + from) == SealedRecs(d)
  {
    FilesAre(c, f, d, files, from);
    FromIsApart(d, next, from);
    hide SealedOk, ActiveOk, IdsOk, Apart, Coherent, HasFooterAs, Unused, LeftSealed, LeftActive, Merge, Content;
    var named, all := SealedNames(d.active, d.stale, files), d.known + from;
    forall o ensures o in RecordsOf(named.Keys, all) <==> o in SealedRecs(d) {
      InUseFrom(d, files, from, o);
      hide FilesOf;
      NamedRecord(d, files, from, o);
    }
  }

  lemma NamedRecord(d: Disk, files: map<nat, Bytes>, from: map<nat, Source>, o: Rec)
    requires from.Keys == files.Keys && (o in RecordsOf(files.Keys, from) <==> o in InUse(d.srcs))
    requires forall id :: id in d.stale.sealedFiles ==> id in d.known && id !in from
    requires d.active.Some? ==> d.active.value.id !in from
    requires d.active.Some? && d.stale.renamed.Some? ==>
               d.active.value.id in d.known && d.known[d.active.value.id].recs == d.recs
    ensures o in RecordsOf(SealedNames(d.active, d.stale, files).Keys, d.known + from) <==> o in SealedRecs(d)
  {
    hide InUse;
    var named, all := SealedNames(d.active, d.stale, files), d.known + from;
    if o in RecordsOf(named.Keys, all) {
      var id :| id in named && id in all && o in all[id].recs;
      if id in files { assert o in RecordsOf(files.Keys, from); }
      else if id in d.stale.sealedFiles { assert o in RecordsOf(d.stale.sealedFiles.Keys, d.known); }
    }
    if o in SealedRecs(d) {
      if o in InUse(d.srcs) {
        var id :| id in files && id in from && o in from[id].recs;
        assert id in named && all[id] == from[id];
      } else if o in RecordsOf(d.stale.sealedFiles.Keys, d.known) {
        var id :| id in d.stale.sealedFiles && id in d.known && o in d.known[id].recs;
        assert id in named && all[id] == d.known[id];
      } else {
        assert d.active.value.id in named;
      }
    }
  }

  /** The directory is one an open recovers, and what it holds is what is found. */
  lemma LeftHeld(c: Codec, f: Filter, d: Disk, next: nat, failed: bool, more: seq<Rec>, files: map<nat, Bytes>,
                 from: map<nat, Source>) returns (known: map<nat, Source>)
    requires Lawful(c) && DiskOk(c, f, d, next, failed) && FilesInUse(d, files, from) && CanReopen(c, f, d)
    requires LeavesBehind(c, f, d, more) && OneEach(Found(d, more))
    ensures Recoverable(c, f, DirOf(d, files), known)
    ensures DirHolds(DirOf(d, files), known, AsMap(Found(d, more)))
  {
    hide DiskOk, FilesInUse, CanReopen, SealedRecs, HasFooterAs, ActiveImage, Seen, OneEach, AsMap, DirHolds, Found,
         RecordsOf, SealedNames, AllAt, Everything, Recoverable;
    var named := SealedNames(d.active, d.stale, files);
    known := d.known + from;
    forall id | id in named ensures id in known && HasFooterAs(c, f, named[id], known[id]) {
      SealedNamesOpen(c, f, d, next, failed, files, from, id);
    }
    SealedNamesHold(c, f, d, next, failed, files, from);
    NamesDiffer(c, f, d, next, failed, files, from);
    if ActiveFiles(d) != map[] {
      var id :| id in ActiveFiles(d);
      var src := AsSeen(c, f, ActiveFiles(d)[id], AllAt(d, id, more));
      OneActive(c, f, d, id);
      WithActive(named, known, id, src, SealedRecs(d));
      known := known[id := src];
    }
    FoundOne(d, more, known, named);
    DirRecovers(c, f, named, ActiveFiles(d), known);
    AllDistinct(c, f, DirOf(d, files), known);
    RecordsHeld(DirOf(d, files), known);
  }

  lemma DirRecovers(c: Codec, f: Filter, named: map<nat, Bytes>, actives: map<nat, Bytes>, known: map<nat, Source>)
    requires forall id :: id in named ==> id in known && HasFooterAs(c, f, named[id], known[id]) && id !in actives
    requires forall id :: id in actives ==>
               actives.Keys == {id} && id in known && ActiveImage(c, f, actives[id], known[id])
    ensures Recoverable(c, f, Dir(named, actives, false), known)
  {
    hide HasFooterAs, ActiveImage;
  }

  lemma NamesDiffer(c: Codec, f: Filter, d: Disk, next: nat, failed: bool, files: map<nat, Bytes>,
                    from: map<nat, Source>)
    requires DiskOk(c, f, d, next, failed) && FilesInUse(d, files, from)
    ensures forall id :: id in SealedNames(d.active, d.stale, files) ==> id !in ActiveFiles(d)
  {
    FilesAre(c, f, d, files, from);
    hide SealedOk, ActiveOk, FilesOf, StaleOk, Coherent, HasFooterAs, RenamedOk;
    NamesAreApart(d, next, files);
  }

  lemma OneActive(c: Codec, f: Filter, d: Disk, id: nat)
    requires CanReopen(c, f, d) && id in ActiveFiles(d)
    ensures ActiveFiles(d).Keys == {id}
  {
    forall a | a in ActiveFiles(d) ensures a == id { OnlyOne(ActiveFiles(d), a, id); }
  }

  lemma WithActive(named: map<nat, Bytes>, known: map<nat, Source>, id: nat, src: Source, rs: set<Rec>)
    requires RecordsOf(named.Keys, known) == rs && id !in named
    ensures RecordsOf(named.Keys + {id}, known[id := src]) == rs + set o | o in src.recs
  {
    var now := known[id := src];
    forall o | o in RecordsOf(named.Keys + {id}, now) ensures o in rs || o in src.recs {
      var i :| i in named.Keys + {id} && i in now && o in now[i].recs;
      if i != id { assert o in RecordsOf(named.Keys, known); }
    }
    forall o | o in rs ensures o in RecordsOf(named.Keys + {id}, now) {
      assert o in RecordsOf(named.Keys, known);
      var i :| i in named && i in known && o in known[i].recs;
      assert now[i] == known[i];
    }
    forall o | o in src.recs ensures o in RecordsOf(named.Keys + {id}, now) { assert now[id] == src; }
  }

  lemma FoundOne(d: Disk, more: seq<Rec>, known: map<nat, Source>, named: map<nat, Bytes>)
    requires ActiveFiles(d) == map[] ==> RecordsOf(named.Keys, known) == SealedRecs(d)
    requires forall id :: id in ActiveFiles(d) ==>
               && ActiveFiles(d).Keys == {id} && id in known && known[id].recs == Scanned(AllAt(d, id, more))
               && RecordsOf(named.Keys + {id}, known) == SealedRecs(d) + set o | o in known[id].recs
    ensures RecordsOf(named.Keys + ActiveFiles(d).Keys, known) == Found(d, more)
  {
    hide SealedRecs, CanonicalLength, RecordsOf, AllAt;
    if ActiveFiles(d) == map[] {
      assert named.Keys + ActiveFiles(d).Keys == named.Keys;
    } else {
      var id :| id in ActiveFiles(d);
      assert (set a, o | a in ActiveFiles(d) && o in Scanned(AllAt(d, a, more)) :: o) == set o | o in known[id].recs;
    }
  }

  lemma AllDistinct(c: Codec, f: Filter, dir: Dir, known: map<nat, Source>)
    requires Recoverable(c, f, dir, known)
    ensures forall id :: id in Names(dir) ==> id in known && DistinctRecs(known[id].recs)
  {
    hide HasFooter, ImageOf, Torn, SealMarked, Body;
  }

  // ----------------------------------------------------------------- close

  lemma ValidDisk(s: Store)
    requires s.Valid()
    ensures DiskOk(s.codec, s.filter, DiskOf(s), s.nextID, s.failed) && MapOf(DiskOf(s)) == s.Map()
    ensures |s.srcs| == |s.sealed| && DistinctIds(s.sealed) && Lawful(s.codec)
  {
    SealedLengths(s.codec, s.filter, s.sealed, s.srcs);
    hide SealedOk, ActiveOk, StaleOk, Apart, RenamedOk, Coherent, Merge, Content, DistinctIds;
  }

  /** Closes a store without sealing. Its files stay behind, with the stale ones. */
  method Close(s: Store, ghost more: seq<Rec>) returns (dir: Dir, ghost known: map<nat, Source>)
    requires s.Valid() && !s.closed
    modifies s
    ensures s.closed && s.active.None? && s.sealed == []
    ensures Opens(s.codec, s.filter, dir, true) <==> old(CanReopen(s.codec, s.filter, DiskOf(s)))
    ensures old(CanReopen(s.codec, s.filter, DiskOf(s)) && LeavesBehind(s.codec, s.filter, DiskOf(s), more)) ==>
              && old(OneEach(Found(DiskOf(s), more))) && Recoverable(s.codec, s.filter, dir, known)
              && DirHolds(dir, known, old(AsMap(Found(DiskOf(s), more))))
    ensures old(s.stale) == NOTHING_STALE && old(Ordered(s.sealed, s.active)) ==> ActiveIsNewest(dir)
  {
    hide Store.Valid, CanReopen, LeavesBehind, Found, OneEach, AsMap, Recoverable, DirHolds, DiskOk, Opens, FilesOf,
         Ordered, ActiveIsNewest, Actives, SealedNames, MapOf, Store.Map, Ids;
    ValidDisk(s);
    ghost var d := DiskOf(s);
    var files;
    ghost var from;
    files, from := Files(s.sealed, Ids(s.sealed), s.srcs);
    dir := Dir(SealedNames(s.active, s.stale, files), Actives(s.active, s.stale), false);
    known := LeftBy(s.codec, s.filter, d, s.nextID, s.failed, more, files, from);
    s.closed, s.active, s.sealed, s.srcs, s.recs := true, None, [], [], [];
  }

  lemma LeftBy(c: Codec, f: Filter, d: Disk, next: nat, failed: bool, more: seq<Rec>, files: map<nat, Bytes>,
               from: map<nat, Source>) returns (known: map<nat, Source>)
    requires Lawful(c) && DiskOk(c, f, d, next, failed) && FilesInUse(d, files, from)
    ensures Opens(c, f, DirOf(d, files), true) <==> CanReopen(c, f, d)
    ensures CanReopen(c, f, d) && LeavesBehind(c, f, d, more) ==>
              && OneEach(Found(d, more)) && Recoverable(c, f, DirOf(d, files), known)
              && DirHolds(DirOf(d, files), known, AsMap(Found(d, more)))
    ensures d.stale == NOTHING_STALE && Ordered(d.sealed, d.active) ==> ActiveIsNewest(DirOf(d, files))
  {
    hide CanReopen, LeavesBehind, Found, OneEach, AsMap, Recoverable, DirHolds, DiskOk, Opens, FilesInUse, Ordered,
         ActiveIsNewest, DirOf;
    known := map[];
    OpensIff(c, f, d, next, failed, files, from);
    if d.stale == NOTHING_STALE && Ordered(d.sealed, d.active) { NewestOwned(d, files, from); }
    if CanReopen(c, f, d) && LeavesBehind(c, f, d, more) {
      KeepsIff(c, f, d, next, failed, more);
      known := LeftHeld(c, f, d, next, failed, more, files, from);
    }
  }

  lemma KeepsIff(c: Codec, f: Filter, d: Disk, next: nat, failed: bool, more: seq<Rec>)
    requires DiskOk(c, f, d, next, failed) && LeavesBehind(c, f, d, more) && CanReopen(c, f, d)
    ensures OneEach(Found(d, more)) && (AsMap(Found(d, more)) == MapOf(d) <==> SameOnReopen(d, more))
  {
    ReopenKeepsIff(c, f, d, next, failed, more);
  }

  lemma NewestOwned(d: Disk, files: map<nat, Bytes>, from: map<nat, Source>)
    requires d.stale == NOTHING_STALE && Ordered(d.sealed, d.active) && FilesInUse(d, files, from)
    ensures ActiveIsNewest(DirOf(d, files))
  {
    forall id | id in files ensures d.active.Some? ==> id < d.active.value.id {
      var i := FileFrom(d.sealed, Ids(d.sealed), d.srcs, files, from, id);
    }
  }

  /** A reopen. It succeeds exactly when at most one file has an active name and every
      stale file under a sealed name has a footer. The new store then has everything
      under sealed names, and of the active file the records up to the first
      non-canonical key. It is the same map exactly when nothing stale comes back, and
      what the scan adds or drops is elsewhere; in particular when nothing is stale, all
      keys are canonical and no failed write left a whole record. */
  method Reopen(s: Store, ghost more: seq<Rec>) returns (t: Store, err: Option<Error>)
    requires s.Valid() && !s.closed
    modifies s
    ensures fresh(t) && (err.None? <==> old(CanReopen(s.codec, s.filter, DiskOf(s))))
    ensures err.None? && old(LeavesBehind(s.codec, s.filter, DiskOf(s), more)) ==>
              && old(OneEach(Found(DiskOf(s), more)))
              && t.Valid() && t.stale == NOTHING_STALE && t.Map() == old(AsMap(Found(DiskOf(s), more)))
              && (t.Map() == old(s.Map()) <==> old(SameOnReopen(DiskOf(s), more)))
              && (old(s.stale) == NOTHING_STALE && old(Ordered(s.sealed, s.active)) ==> Ordered(t.sealed, t.active))
  {
    hide Recoverable, DirHolds, CanReopen, LeavesBehind, SameOnReopen, Found, OneEach, AsMap, Opens, DiskOk,
         SealedOk, ActiveOk, IdsOk, StaleOk, Apart, RenamedOk, Coherent, Merge, Content, Ordered, ActiveIsNewest;
    ValidDisk(s);
    ghost var d := DiskOf(s);
    ghost var m := map[];
    if CanReopen(s.codec, s.filter, d) && LeavesBehind(s.codec, s.filter, d, more) {
      KeepsIff(s.codec, s.filter, d, s.nextID, s.failed, more);
      m := AsMap(Found(d, more));
    }
    t := new Store(s.codec, s.filter, s.segmentSize, s.sync, s.healthy);
    var dir;
    ghost var known;
    dir, known := Close(s, more);
    err := Load(t, dir, true, known, m);
  }

  // --------------------------------------------------- where the map changes

  /** A stale record the map does not have comes back, be it of a wipe or of a sweep. */
  lemma StaleComesBack(d: Disk, more: seq<Rec>, id: nat, o: Rec)
    requires id in d.stale.sealedFiles && id in d.known && o in d.known[id].recs && o.key !in MapOf(d)
    ensures o in Found(d, more) && !SameOnReopen(d, more)
  {
    hide Merge, Content, InUse, CanonicalLength;
    assert o in RecordsOf(d.stale.sealedFiles.Keys, d.known);
  }

  /** A wipe that cannot remove one sealed file, and then a reopen: the store was empty,
      and has all the objects of that file again. */
  method WipedObjectsComeBack(s: Store, i: nat)
    returns (wiped: Option<Error>, ghost m: map<Key, Bytes>, t: Store, err: Option<Error>)
    requires s.Valid() && !s.closed && s.active.None? && s.stale == NOTHING_STALE && i < |s.sealed| == |s.srcs|
    modifies s
    ensures wiped.Some? && m == map[] && err.None? && t.Valid() && t.Map() == Content(old(s.srcs)[i].recs)
  {
    hide CanReopen, LeavesBehind, SameOnReopen, Found, OneEach, AsMap, Unremoved, SealedOk, ActiveOk, IdsOk, StaleOk,
         Apart, RenamedOk, Coherent, Merge, Content, Ordered, Lawful, Sound;
    ghost var src, g := s.srcs[i], s.sealed[i];
    ImageOfMember(s.codec, s.filter, s.sealed, s.srcs, i);
    NoRecords(s.codec, s.active, s.recs);
    ghost var c, f, sealed, srcs, known := s.codec, s.filter, s.sealed, s.srcs, s.known;
    wiped := s.Wipe({s.sealed[i].id});
    m := s.Map();
    OneFileLeft(sealed, srcs, known, i, s.stale, s.known);
    LeftAlone(c, f, DiskOf(s), g, src);
    t, err := Reopen(s, []);
  }

  lemma ImageOfMember(c: Codec, f: Filter, sealed: seq<Sealed>, srcs: seq<Source>, i: nat)
    requires SealedOk(c, f, sealed, srcs) && i < |sealed|
    ensures HasFooter(c, f, sealed[i].mm) && DistinctRecs(srcs[i].recs)
  {
    ImageOfSealed(c, f, sealed[i], srcs[i]);
  }

  lemma NoRecords(c: Codec, active: Option<Active>, recs: seq<Rec>)
    requires ActiveOk(c, active, recs) && active.None?
    ensures recs == []
  {
  }

  lemma OneFileLeft(sealed: seq<Sealed>, srcs: seq<Source>, known: map<nat, Source>, i: nat, stale': Stale,
                    known': map<nat, Source>)
    requires i < |sealed| == |srcs|
    requires Unremoved(sealed, srcs, None, [], NOTHING_STALE, known, {sealed[i].id}, stale', known')
    ensures stale' == Stale(map[sealed[i].id := sealed[i].mm], map[], None) && stale' != NOTHING_STALE
    ensures sealed[i].id in known' && known'[sealed[i].id] == srcs[i]
  {
    hide FilesOf;
    var id := sealed[i].id;
    var files, from :| FilesOf(sealed, {id}, srcs, files, from)
      && stale' == AfterWipe(NOTHING_STALE, files, None, {id})
      && known' == KnownAfterWipe(NOTHING_STALE, known, from, None, []);
    OneFile(sealed, srcs, i, files, from);
    assert id in stale'.sealedFiles;
  }

  lemma OneFile(sealed: seq<Sealed>, srcs: seq<Source>, i: nat, files: map<nat, Bytes>, from: map<nat, Source>)
    requires i < |sealed| == |srcs| && FilesOf(sealed, {sealed[i].id}, srcs, files, from)
    ensures files == map[sealed[i].id := sealed[i].mm] && from == map[sealed[i].id := srcs[i]]
  {
  }

  lemma LeftAlone(c: Codec, f: Filter, d: Disk, g: Sealed, src: Source)
    requires d.sealed == [] && d.srcs == [] && d.active.None? && d.recs == []
    requires d.stale == Stale(map[g.id := g.mm], map[], None) && g.id in d.known && d.known[g.id] == src
    requires HasFooter(c, f, g.mm) && DistinctRecs(src.recs)
    ensures CanReopen(c, f, d) && LeavesBehind(c, f, d, []) && OneEach(Found(d, []))
    ensures AsMap(Found(d, [])) == Content(src.recs)
  {
    hide HasFooter, Content, OneEach, AsMap, SealedRecs, DistinctRecs;
    var rs := set o | o in src.recs;
    OnlyStale(d, g.id);
    assert Found(d, []) == rs && Everything(d, []) == rs;
    DistinctAgree(src.recs);
  }

  lemma OnlyStale(d: Disk, id: nat)
    requires d.srcs == [] && d.active.None? && d.stale.sealedFiles.Keys == {id} && id in d.known
    ensures SealedRecs(d) == set o | o in d.known[id].recs
  {
    assert InUse(d.srcs) == {};
    assert forall o :: o in RecordsOf(d.stale.sealedFiles.Keys, d.known) <==> o in d.known[id].recs;
  }

  lemma DistinctAgree(recs: seq<Rec>)
    requires DistinctRecs(recs)
    ensures var rs := set o | o in recs; OneEach(rs) && AsMap(rs) == Content(recs)
  {
    hide Content;
    var rs := set o | o in recs;
    forall x, y | x in rs && y in rs && x.key == y.key ensures x == y {
      var i :| 0 <= i < |recs| && recs[i] == x;
      var j :| 0 <= j < |recs| && recs[j] == y;
    }
    forall k | k in Content(recs) ensures k in AsMap(rs) && AsMap(rs)[k] == Content(recs)[k] {
      var i := ContentHasRecord(recs, k);
      assert recs[i] in rs;
    }
    forall k | k in AsMap(rs) ensures k in Content(recs) {
      var o :| o in rs && o.key == k;
      var i :| 0 <= i < |recs| && recs[i] == o;
      DistinctContent(recs, i);
    }
  }

  /** A seal that failed past the rename leaves every record under the sealed name, so a
      reopen keeps even those behind a non-canonical key. */
  lemma RenamedKeepsAll(d: Disk, more: seq<Rec>)
    requires d.active.Some? && d.stale.renamed.Some? && d.stale.sealedFiles == map[] && d.stale.activeFiles == map[]
    ensures SameOnReopen(d, more) && forall o :: o in d.recs ==> o in Found(d, more)
  {
    hide Merge, Content, InUse, CanonicalLength;
  }

  /** Before the rename they are lost, unless they have copies. */
  lemma UnrenamedLosesTheRest(d: Disk, more: seq<Rec>, i: nat)
    requires Owns(d.active, d.stale) && CanonicalLength(d.recs) <= i < |d.recs|
    requires !HasKey(SealedRecs(d), d.recs[i].key)
    ensures !SameOnReopen(d, more)
  {
    hide Merge, Content, InUse, SealedRecs, HasKey;
    var id := d.active.value.id;
    assert id in ActiveFiles(d) && AllAt(d, id, more) == d.recs + more;
    CanonicalPrefix(d.recs, more);
    assert (d.recs + more)[i] == d.recs[i];
    assert !NoneDropped(d, id, more);
  }

  lemma {:induction false} CanonicalPrefix(a: seq<Rec>, b: seq<Rec>)
    requires CanonicalLength(a) < |a|
    ensures CanonicalLength(a + b) == CanonicalLength(a)
  {
    if Keys.Valid(a[0].key) {
      assert (a + b)[1..] == a[1..] + b;
      CanonicalPrefix(a[1..], b);
    }
  }

  /** A file a failed creation could not remove, next to the active segment's own: the
      store is refused. */
  lemma StrayIsRefused(c: Codec, f: Filter, d: Disk, next: nat, failed: bool, id: nat)
    requires DiskOk(c, f, d, next, failed) && Owns(d.active, d.stale) && id in d.stale.activeFiles
    ensures !CanReopen(c, f, d)
  {
    hide SealedOk, ActiveOk, StaleOk, Coherent, RenamedOk, HasFooter;
    assert Unused(id, d.sealed, d.active);
    if CanReopen(c, f, d) { OnlyOne(ActiveFiles(d), id, d.active.value.id); }
  }
}
