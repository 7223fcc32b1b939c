/** What the crash protocol leaves on disk, opened as bytes: the two models meet. A
    machine that stops keeps of each file a prefix of the bytes written, at least what
    was synced. */
module CrashRecovery {
  import opened Base
  import opened Keys
  import opened Record
  import opened WirePack
  import opened SegmentFooter
  import opened Segments
  import opened SealedSegments
  import opened StoreOpen
  import CP = CrashProtocol

  // ---------------------------------------------------------------- one file

  /** `whole` is what the process wrote of the file: its records, and its footer if that
      was written. */
  ghost predicate WrittenAs(c: Codec, f: Filter, file: CP.File, src: Source, whole: Bytes) {
    && src.recs == file.recs && Packable(file.recs)
    && if file.footer.NoFooter? then whole == Body(c, file.recs)
       else
         && Body(c, file.recs) < whole && whole[|Body(c, file.recs)|] == SEAL
         && HasFooterAs(c, f, whole, src)
  }

  /** `b` is what a stopped machine keeps of it: no less than was synced, and no part of
      a footer that is a footer itself. A header is synced with the first record. */
  ghost predicate KeptOf(c: Codec, f: Filter, file: CP.File, whole: Bytes, b: Bytes)
    requires AllFit(file.recs) && file.synced <= |file.recs|
  {
    && b <= whole && (file.footer.Durable? ==> b == whole)
    && (file.synced > 0 ==> |BodyTo(c, file.recs, file.synced)| <= |b|)
    && (|Body(c, file.recs)| < |b| < |whole| ==> !HasFooter(c, f, b))
  }

  /** What is left of one file is what the protocol says: its records cut at some whole
      one no earlier than the synced part, or all of them under a whole footer. */
  lemma FileAfterStop(c: Codec, f: Filter, file: CP.File, src: Source, whole: Bytes, b: Bytes)
    returns (cut: nat, isWhole: bool, after: Source)
    requires Lawful(c) && CP.FileOk(file) && WrittenAs(c, f, file, src, whole) && KeptOf(c, f, file, whole, b)
    ensures file.synced <= cut <= |file.recs| && after.recs == CP.Survivor(file, cut, isWhole).recs
    ensures ActiveImage(c, f, b, after) && (file.footer.Durable? ==> HasFooterAs(c, f, b, after))
  {
    var recs, body := file.recs, Body(c, file.recs);
    HeaderThenRest(c, recs, []);
    assert body + [] == body;
    if |b| < 8 {
      cut, isWhole, after := 0, false, Source([], []);
      TooShort(c, f, file, b);
    } else if |b| <= |body| && (file.footer.NoFooter? || b != whole) {
      var j, tail := CutBody(c, recs, |b|);
      assert b == body[..|b|] by { assert body <= whole; }
      cut, isWhole, after := j, false, Source(recs[..j], []);
      PrefixImage(c, f, recs, j, tail, b);
    } else {
      cut, isWhole, after := |recs|, b == whole, src;
      assert recs[..|recs|] == recs;
      FooterImage(c, f, file, src, whole, b);
    }
  }

  lemma TooShort(c: Codec, f: Filter, file: CP.File, b: Bytes)
    requires AllFit(file.recs) && file.synced <= |file.recs| && |b| < 8
    requires file.synced > 0 ==> |BodyTo(c, file.recs, file.synced)| <= |b|
    ensures file.synced == 0 && ActiveImage(c, f, b, Source([], []))
  {
    if file.synced > 0 { HeaderThenRest(c, file.recs[..file.synced], []); }
  }

  lemma PrefixImage(c: Codec, f: Filter, recs: seq<Rec>, j: nat, tail: Bytes, b: Bytes)
    requires Packable(recs) && DistinctRecs(recs) && j <= |recs|
    requires b == Body(c, recs[..j]) + tail && Torn(c, tail) && (tail == [] || tail[0] == TAG_CHUNK)
    ensures ActiveImage(c, f, b, Source(recs[..j], []))
  {
    hide Torn, HasFooter, ImageOf;
    HeaderThenRest(c, recs[..j], tail);
    hide Body;
    assert b[|Body(c, recs[..j])|..] == tail;
  }

  lemma FooterImage(c: Codec, f: Filter, file: CP.File, src: Source, whole: Bytes, b: Bytes)
    requires CP.FileOk(file) && WrittenAs(c, f, file, src, whole) && KeptOf(c, f, file, whole, b)
    requires !file.footer.NoFooter? && Body(c, file.recs) <= b && MAGIC_HEADER <= b
    ensures ActiveImage(c, f, b, src) && (file.footer.Durable? ==> HasFooterAs(c, f, b, src))
  {
    hide HasFooter, ImageOf, Body, BodyTo;
    var tail := b[|Body(c, file.recs)|..];
    assert tail == [] || tail[0] == whole[|Body(c, file.recs)|];
    if |b| == |whole| { assert b == whole; }
  }

  // ----------------------------------------------------------- the directory

  /** Every file as it was written and as the machine leaves it. */
  ghost predicate AllKept(c: Codec, f: Filter, files: map<CP.Id, CP.File>, srcs: map<CP.Id, Source>,
                          wholes: map<CP.Id, Bytes>, left: map<CP.Id, Bytes>) {
    forall id :: id in files ==>
      && id in srcs && id in wholes && id in left && CP.FileOk(files[id])
      && WrittenAs(c, f, files[id], srcs[id], wholes[id]) && KeptOf(c, f, files[id], wholes[id], left[id])
  }

  /** What is left of each file, as records. */
  ghost predicate LeftAs(c: Codec, f: Filter, files: map<CP.Id, CP.File>, left: map<CP.Id, Bytes>, ids: set<CP.Id>,
                         cut: map<CP.Id, nat>, whole: set<CP.Id>, known: map<nat, Source>) {
    && cut.Keys == ids && known.Keys == ids
    && forall id :: id in ids ==>
      && id in files && id in left && files[id].synced <= cut[id] <= |files[id].recs|
      && known[id].recs == CP.Survivor(files[id], cut[id], id in whole).recs
      && ActiveImage(c, f, left[id], known[id])
      && (files[id].footer.Durable? ==> HasFooterAs(c, f, left[id], known[id]))
  }

  lemma LeftAsGrows(c: Codec, f: Filter, files: map<CP.Id, CP.File>, left: map<CP.Id, Bytes>, ids: set<CP.Id>,
                    cut: map<CP.Id, nat>, whole: set<CP.Id>, known: map<nat, Source>,
                    id: CP.Id, n: nat, isWhole: bool, after: Source)
    requires LeftAs(c, f, files, left, ids, cut, whole, known)
    requires id in files && id in left && id !in ids && whole <= ids
    requires files[id].synced <= n <= |files[id].recs| && after.recs == CP.Survivor(files[id], n, isWhole).recs
    requires ActiveImage(c, f, left[id], after)
    requires files[id].footer.Durable? ==> HasFooterAs(c, f, left[id], after)
    ensures LeftAs(c, f, files, left, ids + {id}, cut[id := n], if isWhole then whole + {id} else whole,
                   known[id := after])
  {
    hide ActiveImage, HasFooterAs;
  }

  lemma OneAfterStop(c: Codec, f: Filter, files: map<CP.Id, CP.File>, srcs: map<CP.Id, Source>,
                     wholes: map<CP.Id, Bytes>, left: map<CP.Id, Bytes>, id: CP.Id)
    returns (cut: nat, isWhole: bool, after: Source)
    requires Lawful(c) && AllKept(c, f, files, srcs, wholes, left) && id in files
    ensures id in left && files[id].synced <= cut <= |files[id].recs|
    ensures after.recs == CP.Survivor(files[id], cut, isWhole).recs && ActiveImage(c, f, left[id], after)
    ensures files[id].footer.Durable? ==> HasFooterAs(c, f, left[id], after)
  {
    hide ActiveImage, HasFooterAs, WrittenAs, KeptOf, CP.FileOk, Lawful;
    cut, isWhole, after := FileAfterStop(c, f, files[id], srcs[id], wholes[id], left[id]);
  }

  lemma NothingLeft(c: Codec, f: Filter, files: map<CP.Id, CP.File>, left: map<CP.Id, Bytes>)
    ensures LeftAs(c, f, files, left, {}, map[], {}, map[])
  {
  }

  /** All files after a stop. */
  lemma {:induction false} FilesAfterStop(c: Codec, f: Filter, files: map<CP.Id, CP.File>, srcs: map<CP.Id, Source>,
                                          wholes: map<CP.Id, Bytes>, left: map<CP.Id, Bytes>, ids: set<CP.Id>)
    returns (cut: map<CP.Id, nat>, whole: set<CP.Id>, known: map<nat, Source>)
    requires Lawful(c) && AllKept(c, f, files, srcs, wholes, left) && ids <= files.Keys
    ensures LeftAs(c, f, files, left, ids, cut, whole, known) && whole <= ids
  {
    hide AllKept, LeftAs, ActiveImage, HasFooterAs, Lawful;
    if ids == {} {
      cut, whole, known := map[], {}, map[];
      NothingLeft(c, f, files, left);
    } else {
      var id :| id in ids;
      cut, whole, known := FilesAfterStop(c, f, files, srcs, wholes, left, ids - {id});
      var n, isWhole, after := OneAfterStop(c, f, files, srcs, wholes, left, id);
      LeftAsGrows(c, f, files, left, ids - {id}, cut, whole, known, id, n, isWhole, after);
      cut, whole, known := cut[id := n], if isWhole then whole + {id} else whole, known[id := after];
      assert ids - {id} + {id} == ids;
    }
  }

  /** The files a directory names, by kind. */
  ghost function DirOf(d: CP.Dir, left: map<CP.Id, Bytes>): Dir {
    Dir(map id | id in d && id in left && d[id].SealedName? :: left[id],
        map id | id in d && id in left && d[id].ActiveName? :: left[id], false)
  }

  lemma LeftIsRecoverable(c: Codec, f: Filter, files: map<CP.Id, CP.File>, d: CP.Dir, left: map<CP.Id, Bytes>,
                          cut: map<CP.Id, nat>, whole: set<CP.Id>, known: map<nat, Source>)
    requires LeftAs(c, f, files, left, files.Keys, cut, whole, known) && CP.DirOk(files, d)
    ensures Recoverable(c, f, DirOf(d, left), known)
  {
    hide ActiveImage, HasFooterAs;
  }

  // --------------------------------------------------------------- contents

  lemma LeftAgrees(c: Codec, f: Filter, files: map<CP.Id, CP.File>, d: CP.Dir, left: map<CP.Id, Bytes>,
                   cut: map<CP.Id, nat>, whole: set<CP.Id>, known: map<nat, Source>)
    requires LeftAs(c, f, files, left, files.Keys, cut, whole, known) && CP.OneValue(files)
    ensures OneEach(RecordsOf(d.Keys, known))
  {
    hide ActiveImage, HasFooterAs;
    forall id, o | id in known && o in known[id].recs ensures id in files && o in files[id].recs {
      assert known[id].recs == CP.Survivor(files[id], cut[id], id in whole).recs;
    }
  }

  lemma LeftHolds(c: Codec, f: Filter, files: map<CP.Id, CP.File>, d: CP.Dir, left: map<CP.Id, Bytes>,
                  cut: map<CP.Id, nat>, whole: set<CP.Id>, known: map<nat, Source>)
    requires LeftAs(c, f, files, left, files.Keys, cut, whole, known) && CP.DirOk(files, d)
    requires OneEach(RecordsOf(d.Keys, known))
    ensures DirHolds(DirOf(d, left), known, AsMap(RecordsOf(d.Keys, known)))
  {
    hide ActiveImage, HasFooterAs, RecordsOf, AsMap, OneEach, DirHolds;
    var dir := DirOf(d, left);
    assert Names(dir) == d.Keys;
    forall id | id in d ensures id in known && DistinctRecs(known[id].recs) {
      ImageIsDistinct(c, f, left[id], known[id]);
    }
    RecordsHeld(dir, known);
  }

  lemma ImageIsDistinct(c: Codec, f: Filter, b: Bytes, src: Source)
    requires ActiveImage(c, f, b, src)
    ensures DistinctRecs(src.recs)
  {
  }

  // -------------------------------------------------------------- the result

  /** The bytes hold the records the protocol's state says. */
  ghost predicate SameRecords(s: CP.State, known: map<nat, Source>) {
    known.Keys == s.files.Keys && forall id :: id in known ==> known[id].recs == s.files[id].recs
  }

  /** A machine that stops at any point of any run leaves, whatever prefix of each file
      and whichever directory it keeps, a directory the store opens. What the opened
      store then holds includes every record acknowledged as durable and not swept
      since, with its payload, and file by file it is what the protocol goes on from. */
  lemma AckedRecordsAreLoaded(c: Codec, f: Filter, run: seq<CP.State>, i: nat, at: nat, srcs: map<CP.Id, Source>,
                              wholes: map<CP.Id, Bytes>, left: map<CP.Id, Bytes>)
    returns (stop: CP.Step, known: map<nat, Source>, m: map<Key, Bytes>)
    requires Lawful(c) && CP.Run(run) && i < |run| && at < |run[i].dirs|
    requires AllKept(c, f, run[i].files, srcs, wholes, left)
    ensures stop.MachineStops? && stop.at == at && CP.Enabled(run[i], stop)
    ensures var dir := DirOf(run[i].dirs[at], left);
            Recoverable(c, f, dir, known) && DirHolds(dir, known, m)
    ensures forall o :: o in run[i].acked ==> o.key in m && m[o.key] == o.data
    ensures SameRecords(CP.Apply(run[i], stop), known)
  {
    CP.RunKeeps(run, i);
    InvParts(run[i], at);
    hide CP.Inv, AllKept, CP.Run, CP.DirOk, CP.OneValue, CP.AckedOk, DirOf, Recoverable, DirHolds, CP.Enabled, CP.Apply,
         SameRecords;
    stop, known, m := LoadedAfterStop(c, f, run[i], at, srcs, wholes, left);
  }

  lemma InvParts(s: CP.State, at: nat)
    requires CP.Inv(s) && at < |s.dirs|
    ensures CP.DirOk(s.files, s.dirs[at]) && CP.OneValue(s.files) && CP.AckedOk(s)
  {
    hide CP.FilesOk, CP.PhaseOk, CP.SweepOk, CP.OneValue, CP.AckedOk, CP.DirOk;
  }

  lemma LoadedAfterStop(c: Codec, f: Filter, s: CP.State, at: nat, srcs: map<CP.Id, Source>,
                        wholes: map<CP.Id, Bytes>, left: map<CP.Id, Bytes>)
    returns (stop: CP.Step, known: map<nat, Source>, m: map<Key, Bytes>)
    requires Lawful(c) && at < |s.dirs| && AllKept(c, f, s.files, srcs, wholes, left)
    requires CP.DirOk(s.files, s.dirs[at]) && CP.OneValue(s.files) && CP.AckedOk(s)
    ensures stop.MachineStops? && stop.at == at && CP.Enabled(s, stop)
    ensures Recoverable(c, f, DirOf(s.dirs[at], left), known) && DirHolds(DirOf(s.dirs[at], left), known, m)
    ensures forall o :: o in s.acked ==> o.key in m && m[o.key] == o.data
    ensures SameRecords(CP.Apply(s, stop), known)
  {
    hide AllKept, CP.DirOk, CP.OneValue, CP.AckedOk, RecordsOf, DirHolds, Recoverable, ActiveImage, HasFooterAs, DirOf;
    var d := s.dirs[at];
    var cut, whole;
    cut, whole, known := FilesAfterStop(c, f, s.files, srcs, wholes, left, s.files.Keys);
    stop := CP.MachineStops(at, cut, whole);
    assert CP.CutOk(s, cut);
    assert CP.Enabled(s, stop);
    assert SameRecords(CP.Apply(s, stop), known);
    hide LeftAs, CP.Enabled, SameRecords;
    LeftIsRecoverable(c, f, s.files, d, left, cut, whole, known);
    LeftAgrees(c, f, s.files, d, left, cut, whole, known);
    LeftHolds(c, f, s.files, d, left, cut, whole, known);
    m := AsMap(RecordsOf(d.Keys, known));
    forall o | o in s.acked ensures o.key in m && m[o.key] == o.data {
      AckedIsLeft(c, f, s, d, left, cut, whole, known, at, o);
    }
  }

  lemma AckedIsLeft(c: Codec, f: Filter, s: CP.State, d: CP.Dir, left: map<CP.Id, Bytes>, cut: map<CP.Id, nat>,
                    whole: set<CP.Id>, known: map<nat, Source>, at: nat, o: Rec)
    requires LeftAs(c, f, s.files, left, s.files.Keys, cut, whole, known) && CP.AckedOk(s)
    requires at < |s.dirs| && d == s.dirs[at] && o in s.acked
    ensures o in RecordsOf(d.Keys, known)
  {
    hide ActiveImage, HasFooterAs;
    assert CP.Certain(s, {}, o);
    var id :| CP.CertainIn(s, id, o);
    assert id in d && s.files[id].recs[..s.files[id].synced] <= s.files[id].recs[..cut[id]];
    assert o in known[id].recs;
  }
}
