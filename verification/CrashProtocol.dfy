/** Durability of the segment files (packstore/packstore.go, packstore/recover.go,
    packstore/compact.go) as a step system. When the machine stops, what was synced
    of each file is kept, perhaps more of it up to all of it, and the directory as it
    stood at some moment since it was last synced: directory changes become durable
    in order. When only the process stops, everything is kept and nothing is synced. */
module CrashProtocol {
  import opened Base
  import opened Keys
  import opened WirePack
  import Segments

  type Id = nat

  /** How far the footer has come. */
  datatype Footer = NoFooter | Written | Durable

  /** A file's records, how many of them are synced, and its footer. */
  datatype File = File(recs: seq<Rec>, synced: nat, footer: Footer)

  datatype Name = ActiveName | SealedName

  type Dir = map<Id, Name>

  /** Where the one writer is. */
  datatype Phase =
    | Idle
    | Creating(id: Id)
    | Sealing(id: Id)
    | Renamed(id: Id)
    | Crashed
    | Completing(id: Id)      // an open that finishes a crashed seal

  /** Where a compaction is: the live records of the victims are copied, the copies
      synced, the victims removed. Copying creates and seals files as any writer does. */
  datatype Sweep =
    | NoSweep
    | Copying(victims: set<Id>, live: set<Key>, todo: set<Rec>)
    | Synced(victims: set<Id>, live: set<Key>)
    | Removing(victims: set<Id>)

  datatype State = State(
    files: map<Id, File>,
    dirs: seq<Dir>,           // the directory since its last sync; the last is current
    active: Option<Id>,
    phase: Phase,
    sweep: Sweep,
    nextID: Id,
    failed: bool,
    acked: set<Rec>)          // acknowledged as durable and not swept since

  function Cur(s: State): Dir
    requires s.dirs != []
  {
    s.dirs[|s.dirs| - 1]
  }

  function Init(): State { State(map[], [map[]], None, Idle, NoSweep, 1, false, {}) }

  /** Synced, in a file that every possible directory lists. */
  ghost predicate CertainIn(s: State, id: Id, o: Rec) {
    && id in s.files && s.files[id].synced <= |s.files[id].recs| && o in s.files[id].recs[..s.files[id].synced]
    && forall i :: 0 <= i < |s.dirs| ==> id in s.dirs[i]
  }

  ghost predicate Certain(s: State, victims: set<Id>, o: Rec) {
    exists id :: id !in victims && CertainIn(s, id, o)
  }

  /** The current directory has the record in a published segment, or synced in the
      active one. */
  ghost predicate HeldIn(s: State, id: Id, o: Rec)
    requires s.dirs != []
  {
    && id in Cur(s) && id in s.files && s.files[id].synced <= |s.files[id].recs|
    && if Cur(s)[id].SealedName? then o in s.files[id].recs
       else s.active == Some(id) && o in s.files[id].recs[..s.files[id].synced]
  }

  ghost predicate Held(s: State, victims: set<Id>, o: Rec)
    requires s.dirs != []
  {
    exists id :: id !in victims && HeldIn(s, id, o)
  }

  /** A survivor has the record: a published segment that is no victim, or the active
      one, synced or not. */
  ghost predicate KeptIn(s: State, id: Id, o: Rec)
    requires s.dirs != []
  {
    && id in Cur(s) && id in s.files && (Cur(s)[id].SealedName? || s.active == Some(id))
    && o in s.files[id].recs
  }

  ghost predicate Kept(s: State, victims: set<Id>, o: Rec)
    requires s.dirs != []
  {
    exists id :: id !in victims && KeptIn(s, id, o)
  }

  /** A survivor has some record of the key. */
  ghost predicate SurvivorHas(s: State, victims: set<Id>, k: Key)
    requires s.dirs != []
  {
    exists o: Rec :: o.key == k && Kept(s, victims, o)
  }

  /** A record of a victim under a live key. */
  ghost predicate LiveIn(files: map<Id, File>, victims: set<Id>, live: set<Key>, o: Rec) {
    o.key in live && exists id :: id in victims && id in files && o in files[id].recs
  }

  ghost function LiveRecords(s: State, victims: set<Id>, live: set<Key>): (todo: set<Rec>)
    ensures forall o :: o in todo <==> LiveIn(s.files, victims, live, o)
  {
    set id, o | id in victims && id in s.files && o in s.files[id].recs && o.key in live :: o
  }

  datatype Step =
    | Create                       // a new active file appears
    | CreateFails(removed: bool)   // and is removed again, unless that fails too
    | CreateDone                   // header synced, directory synced
    | Append(o: Rec)
    | Sync
    | Poison                       // a sync or a seal step failed: no more writes
    | Ack(o: Rec)                  // success returned to a writer after its sync
    | WriteFooter
    | SyncFooter
    | Rename
    | Publish                      // directory synced, segment swapped in
    | BeginCompact(victims: set<Id>, live: set<Key>)
    | Skip(o: Rec)                 // a survivor has the key already
    | Copy(o: Rec)
    | GiveUp                       // a record failed its check, or a write failed
    | SyncCopies
    | BeginRemove
    | Unlink(id: Id)
    | RemoveDone(dirSynced: bool)
    | ProcessStops
    | MachineStops(at: nat, cut: map<Id, nat>, whole: set<Id>)
    | OpenActive(id: Id)           // cut back to the valid part and resume
    | OpenSealed(id: Id)           // complete the rename of a crashed seal
    | OpenDone
    | OpenEmpty

  /** At least the synced records of every file are on disk. */
  ghost predicate CutOk(s: State, cut: map<Id, nat>) {
    cut.Keys == s.files.Keys && forall id :: id in cut ==> s.files[id].synced <= cut[id] <= |s.files[id].recs|
  }

  ghost predicate Writable(s: State) {
    s.phase.Idle? && !s.failed && s.active.Some? && s.active.value in s.files && MayWrite(s)
  }

  /** The write lock is free or held by a compaction that copies. */
  ghost predicate MayWrite(s: State) { s.sweep.NoSweep? || s.sweep.Copying? }

  /** The active file has no record of the key. */
  ghost predicate Absent(s: State, k: Key)
    requires s.active.Some? && s.active.value in s.files
  {
    forall o :: o in s.files[s.active.value].recs ==> o.key != k
  }

  /** Equal keys carry equal data: keys are made from the data. */
  ghost predicate Agrees(s: State, o: Rec) {
    forall id, x :: id in s.files && x in s.files[id].recs && x.key == o.key ==> x == o
  }

  ghost predicate AllSealed(s: State, victims: set<Id>)
    requires s.dirs != []
  {
    forall id :: id in victims ==> id in Cur(s) && Cur(s)[id].SealedName? && s.active != Some(id)
  }

  ghost predicate ActiveFile(s: State, id: Id)
    requires s.dirs != []
  {
    id in Cur(s) && Cur(s)[id].ActiveName? && id in s.files
  }

  ghost predicate Enabled(s: State, step: Step)
    requires s.dirs != []
  {
    match step
    case Create => s.phase.Idle? && !s.failed && s.active.None? && MayWrite(s)
    case CreateFails(_) => s.phase.Creating?
    case CreateDone => s.phase.Creating?
    case Append(o) => Writable(s) && s.sweep.NoSweep? && Absent(s, o.key) && Agrees(s, o)
    case Sync => Writable(s)
    case Poison => (s.phase.Idle? || s.phase.Sealing? || s.phase.Renamed?) && !s.sweep.Removing?
    case Ack(o) => s.phase.Idle? && !s.sweep.Removing? && Held(s, {}, o)
    case WriteFooter => Writable(s)
    case SyncFooter => s.phase.Sealing? && s.phase.id in s.files && s.files[s.phase.id].footer.Written?
    case Rename => s.phase.Sealing? && s.phase.id in s.files && s.files[s.phase.id].footer.Durable?
    case Publish => s.phase.Renamed?
    case BeginCompact(victims, live) => s.phase.Idle? && !s.failed && s.sweep.NoSweep? && AllSealed(s, victims)
    case Skip(o) => s.sweep.Copying? && o in s.sweep.todo && SurvivorHas(s, s.sweep.victims, o.key)
    case Copy(o) => Writable(s) && s.sweep.Copying? && o in s.sweep.todo && Absent(s, o.key)
    case GiveUp => s.phase.Idle? && s.sweep.Copying?
    case SyncCopies => s.phase.Idle? && s.sweep.Copying? && s.sweep.todo == {}
    case BeginRemove => s.sweep.Synced?
    case Unlink(id) => s.sweep.Removing? && id in s.sweep.victims && id in Cur(s)
    case RemoveDone(_) => s.sweep.Removing?
    case ProcessStops => true
    case MachineStops(at, cut, _) => at < |s.dirs| && CutOk(s, cut)
    case OpenActive(id) => s.phase.Crashed? && ActiveFile(s, id) && !s.files[id].footer.Durable?
    case OpenSealed(id) => s.phase.Crashed? && ActiveFile(s, id) && !s.files[id].footer.NoFooter?
    case OpenDone => s.phase.Completing?
    case OpenEmpty => s.phase.Crashed? && NoActive(Cur(s))
  }

  /** A file on disk after the machine stopped: cut at some whole record, unless its
      footer is whole. */
  function Survivor(f: File, cut: nat, whole: bool): File
    requires cut <= |f.recs|
  {
    if f.footer.Durable? || (f.footer.Written? && whole) then File(f.recs, |f.recs|, Durable)
    else File(f.recs[..cut], cut, NoFooter)
  }

  function WithDir(s: State, d: Dir): State { s.(dirs := s.dirs + [d]) }

  function DirSynced(s: State): State
    requires s.dirs != []
  {
    s.(dirs := [Cur(s)])
  }

  function WithFile(s: State, id: Id, f: File): State { s.(files := s.files[id := f]) }

  function Appended(s: State, o: Rec): State
    requires s.active.Some? && s.active.value in s.files
  {
    var f := s.files[s.active.value];
    WithFile(s, s.active.value, f.(recs := f.recs + [o]))
  }

  function ActiveSynced(s: State): State
    requires s.active.Some? && s.active.value in s.files
  {
    var f := s.files[s.active.value];
    WithFile(s, s.active.value, f.(synced := |f.recs|))
  }

  ghost function Apply(s: State, step: Step): State
    requires s.dirs != [] && Enabled(s, step)
  {
    match step
    case Create =>
      WithFile(WithDir(s, Cur(s)[s.nextID := ActiveName]), s.nextID, File([], 0, NoFooter))
      .(phase := Creating(s.nextID), nextID := s.nextID + 1)
    case CreateFails(removed) => (if removed then WithDir(s, Cur(s) - {s.phase.id}) else s).(phase := Idle)
    case CreateDone => DirSynced(s).(phase := Idle, active := Some(s.phase.id))
    case Append(o) => Appended(s, o)
    case Sync => ActiveSynced(s)
    case Poison => s.(failed := true, phase := Idle, sweep := NoSweep)
    case Ack(o) => s.(acked := s.acked + {o})
    case WriteFooter =>
      WithFile(s, s.active.value, s.files[s.active.value].(footer := Written)).(phase := Sealing(s.active.value))
    case SyncFooter =>
      var f := s.files[s.phase.id];
      WithFile(s, s.phase.id, File(f.recs, |f.recs|, Durable))
    case Rename => WithDir(s, Cur(s)[s.phase.id := SealedName]).(phase := Renamed(s.phase.id))
    case Publish => DirSynced(s).(phase := Idle, active := None)
    case BeginCompact(victims, live) => s.(sweep := Copying(victims, live, LiveRecords(s, victims, live)))
    case Skip(o) => s.(sweep := s.sweep.(todo := s.sweep.todo - {o}))
    case Copy(o) => Appended(s, o).(sweep := s.sweep.(todo := s.sweep.todo - {o}))
    case GiveUp => s.(sweep := NoSweep)
    case SyncCopies =>
      (if s.active.Some? && s.active.value in s.files then ActiveSynced(s) else s)
      .(sweep := Synced(s.sweep.victims, s.sweep.live))
    case BeginRemove =>
      var victims := s.sweep.victims;
      s.(sweep := Removing(victims),
         acked := set o | o in s.acked && (o.key in s.sweep.live || Held(s, victims, o)))
    case Unlink(id) => WithDir(s, Cur(s) - {id})
    case RemoveDone(dirSynced) => (if dirSynced then DirSynced(s) else s).(sweep := NoSweep)
    case ProcessStops => s.(active := None, phase := Crashed, sweep := NoSweep, failed := false)
    case MachineStops(at, cut, whole) =>
      State(map id | id in s.files :: Survivor(s.files[id], cut[id], id in whole), [s.dirs[at]], None, Crashed, NoSweep,
            s.nextID, false, s.acked)
    case OpenActive(id) => WithFile(s, id, s.files[id].(footer := NoFooter)).(active := Some(id), phase := Idle)
    case OpenSealed(id) => WithDir(s, Cur(s)[id := SealedName]).(phase := Completing(id))
    case OpenDone => DirSynced(s).(phase := Idle)
    case OpenEmpty => s.(phase := Idle)
  }

  // ------------------------------------------------------------- invariants

  /** Synced prefixes are prefixes, whole footers cover whole files. */
  ghost predicate FileOk(f: File) {
    f.synced <= |f.recs| && (f.footer.Durable? ==> f.synced == |f.recs|) && Segments.DistinctRecs(f.recs)
  }

  ghost predicate FilesOk(s: State) {
    forall id :: id in s.files ==> id < s.nextID && FileOk(s.files[id])
  }

  /** A directory lists known files, sealed names only on whole ones, at most one
      active, which has the highest number. */
  ghost predicate DirOk(files: map<Id, File>, d: Dir) {
    && (forall id :: id in d ==> id in files && (d[id].SealedName? ==> files[id].footer.Durable?))
    && (forall a, id :: a in d && d[a].ActiveName? && id in d ==> id <= a)
  }

  ghost predicate NoActive(d: Dir) {
    forall a :: a in d ==> !d[a].ActiveName?
  }

  /** The directory lists `id`, and no other active file. */
  ghost predicate Lists(d: Dir, id: Id) {
    id in d && forall a :: a in d && d[a].ActiveName? ==> a == id
  }

  /** Every directory there may be is sound and lists every published segment. */
  ghost predicate DirsSound(files: map<Id, File>, dirs: seq<Dir>) {
    && dirs != [] && (forall i :: 0 <= i < |dirs| ==> DirOk(files, dirs[i]))
    && (forall i :: 0 <= i < |dirs| ==> KeepsSealed(dirs[|dirs| - 1], dirs[i]))
  }

  ghost predicate KeepsSealed(cur: Dir, d: Dir) {
    forall id :: id in cur && cur[id].SealedName? ==> id in d
  }

  ghost predicate DirsOk(s: State) { DirsSound(s.files, s.dirs) }

  ghost predicate Only(s: State, id: Id) {
    id in s.files && forall i :: 0 <= i < |s.dirs| ==> Lists(s.dirs[i], id)
  }

  ghost predicate PhaseOk(s: State)
    requires s.dirs != []
  {
    match s.phase
    case Idle => ActiveOk(s)
    case Creating(id) => s.active.None? && !s.failed && CreatingOk(s, id)
    case Sealing(id) => s.active == Some(id) && Only(s, id) && ActiveFile(s, id) && !s.failed
    case Renamed(id) => s.active == Some(id) && Only(s, id) && !s.failed && NoActive(Cur(s))
    case Crashed => s.active.None? && forall a :: ActiveFile(s, a) ==> Only(s, a) && !s.files[a].footer.Written?
    case Completing(id) => s.active.None? && NoActive(Cur(s))
  }

  /** The file being created is in the last directory alone, and empty. */
  ghost predicate CreatingOk(s: State, id: Id)
    requires s.dirs != []
  {
    && ActiveFile(s, id) && s.files[id] == File([], 0, NoFooter) && NoActive(Cur(s) - {id})
    && |s.dirs| > 1 && (forall i :: 0 <= i < |s.dirs| - 1 ==> id !in s.dirs[i])
  }

  /** The active file is the only one, and takes no records past a footer. */
  ghost predicate ActiveOk(s: State)
    requires s.dirs != []
  {
    match s.active
    case None => NoActive(Cur(s))
    case Some(id) => Only(s, id) && (!s.failed ==> ActiveFile(s, id) && s.files[id].footer.NoFooter?)
  }

  ghost predicate AckedOk(s: State) {
    forall o :: o in s.acked ==> Certain(s, {}, o)
  }

  /** Equal keys carry equal data across all files. */
  ghost predicate OneValue(files: map<Id, File>) {
    forall a, b, x, y ::
      a in files && b in files && x in files[a].recs && y in files[b].recs && x.key == y.key ==> x == y
  }

  /** While copying, each live record of a victim is still to do or has a survivor; once
      the copies are synced, each is held outside the victims; while victims go, what is
      acknowledged is certain without them. */
  ghost predicate SweepOk(s: State) {
    s.dirs != [] &&
    match s.sweep
    case NoSweep => true
    case Copying(victims, live, todo) =>
      && !s.failed && !s.phase.Crashed? && !s.phase.Completing? && AllSealed(s, victims)
      && (forall o :: o in todo ==> LiveIn(s.files, victims, live, o))
      && (forall o :: LiveIn(s.files, victims, live, o) ==> o in todo || Kept(s, victims, o))
    case Synced(victims, live) =>
      && !s.failed && s.phase.Idle? && AllSealed(s, victims)
      && (forall o :: LiveIn(s.files, victims, live, o) ==> Held(s, victims, o))
    case Removing(victims) =>
      && !s.failed && s.phase.Idle? && (forall id :: id in victims ==> s.active != Some(id))
      && (forall o :: o in s.acked ==> Certain(s, victims, o))
  }

  /** What writing keeps, whatever a compaction is at. */
  ghost predicate Sound(s: State) {
    FilesOk(s) && DirsOk(s) && PhaseOk(s) && AckedOk(s)
  }

  ghost predicate Inv(s: State) {
    Sound(s) && OneValue(s.files) && SweepOk(s)
  }

  /** The process may stop here without harm: no file is being created, and no
      active file has a footer that was written and not yet synced. */
  ghost predicate Sheltered(s: State)
    requires s.dirs != []
  {
    !s.phase.Creating? && forall a :: ActiveFile(s, a) ==> !s.files[a].footer.Written?
  }

  ghost predicate Safe(s: State, step: Step)
    requires s.dirs != []
  {
    (step.ProcessStops? ==> Sheltered(s)) && (step.CreateFails? ==> step.removed)
  }

  // ------------------------------------------------------------------ steps

  /** What is certain stays so while its file keeps its synced records and every
      directory keeps listing it. */
  lemma CertainStays(s: State, t: State, id: Id, o: Rec)
    requires CertainIn(s, id, o) && id in t.files
    requires s.files[id].synced <= t.files[id].synced <= |t.files[id].recs|
    requires s.files[id].recs[..s.files[id].synced] <= t.files[id].recs[..t.files[id].synced]
    requires forall i :: 0 <= i < |t.dirs| ==> id in t.dirs[i]
    ensures CertainIn(t, id, o)
  {
  }

  /** Fewer directories, or more that list as much of the published and active
      files, lose nothing certain. */
  lemma SubsetOfDirs(s: State, t: State, victims: set<Id>, o: Rec)
    requires Certain(s, victims, o) && t.files == s.files && forall i :: 0 <= i < |t.dirs| ==> t.dirs[i] in s.dirs
    ensures Certain(t, victims, o)
  {
    var id :| id !in victims && CertainIn(s, id, o);
    forall i | 0 <= i < |t.dirs| ensures id in t.dirs[i] {
      assert t.dirs[i] in s.dirs;
      var j :| 0 <= j < |s.dirs| && s.dirs[j] == t.dirs[i];
    }
    assert CertainIn(t, id, o);
  }

  lemma OneMoreDir(s: State, t: State, d: Dir, victims: set<Id>, o: Rec)
    requires s.dirs != [] && Certain(s, victims, o) && t.dirs == s.dirs + [d]
    requires forall id :: id in s.files ==> id in t.files && t.files[id] == s.files[id]
    requires forall id :: id in Cur(s) && id !in victims ==> id in d
    ensures Certain(t, victims, o)
  {
    var id :| id !in victims && CertainIn(s, id, o);
    assert id in s.dirs[|s.dirs| - 1];
    assert CertainIn(t, id, o);
  }

  lemma FileGrows(s: State, t: State, id: Id, victims: set<Id>, o: Rec)
    requires Certain(s, victims, o) && t.dirs == s.dirs && id in s.files
    requires t.files.Keys == s.files.Keys && forall x :: x in s.files && x != id ==> t.files[x] == s.files[x]
    requires s.files[id].synced <= t.files[id].synced <= |t.files[id].recs| && s.files[id].recs <= t.files[id].recs
    requires s.files[id].synced <= |s.files[id].recs|
    ensures Certain(t, victims, o)
  {
    var x :| x !in victims && CertainIn(s, x, o);
    CertainStays(s, t, x, o);
  }

  lemma CreateKeeps(s: State, step: Step)
    requires Inv(s) && Enabled(s, step) && step.Create?
    ensures Sound(Apply(s, step))
  {
    hide Certain, OneValue, SweepOk;
    var t := Apply(s, step);
    forall o | o in t.acked ensures Certain(t, {}, o) { OneMoreDir(s, t, Cur(t), {}, o); }
  }

  lemma CreateFailsKeeps(s: State, step: Step)
    requires Inv(s) && Enabled(s, step) && step.CreateFails? && step.removed
    ensures Sound(Apply(s, step))
  {
    hide OneValue, SweepOk, Segments.DistinctRecs;
    var t := Apply(s, step);
    forall o | o in t.acked ensures Certain(t, {}, o) {
      var id :| CertainIn(s, id, o);
      assert id in s.dirs[|s.dirs| - 1];
      assert CertainIn(t, id, o);
    }
  }

  lemma CreateDoneKeeps(s: State, step: Step)
    requires Inv(s) && Enabled(s, step) && step.CreateDone?
    ensures Sound(Apply(s, step))
  {
    hide Certain, OneValue, SweepOk, Segments.DistinctRecs;
    var t := Apply(s, step);
    forall o | o in t.acked ensures Certain(t, {}, o) { SubsetOfDirs(s, t, {}, o); }
  }

  lemma WriteKeeps(s: State, step: Step)
    requires Inv(s) && Enabled(s, step) && (step.Sync? || step.WriteFooter?)
    ensures Sound(Apply(s, step))
  {
    hide Certain, OneValue, SweepOk;
    var t := Apply(s, step);
    forall o | o in t.acked ensures Certain(t, {}, o) { FileGrows(s, t, s.active.value, {}, o); }
  }

  lemma AppendKeeps(s: State, o: Rec)
    requires Sound(s) && Writable(s) && Absent(s, o.key)
    ensures Sound(Appended(s, o))
  {
    hide Certain;
    var t := Appended(s, o);
    AppendedDistinct(s.files[s.active.value].recs, o);
    forall x | x in t.acked ensures Certain(t, {}, x) { FileGrows(s, t, s.active.value, {}, x); }
    hide Segments.DistinctRecs, AckedOk, Absent;
  }

  lemma AppendedDistinct(recs: seq<Rec>, o: Rec)
    requires Segments.DistinctRecs(recs) && forall x :: x in recs ==> x.key != o.key
    ensures Segments.DistinctRecs(recs + [o])
  {
  }

  /** Where a compaction is does not matter for what writing keeps. */
  lemma SweepIsApart(s: State, t: State)
    requires Sound(s) && t == s.(sweep := t.sweep)
    ensures Sound(t)
  {
    hide Certain;
    forall o | o in t.acked ensures Certain(t, {}, o) { SubsetOfDirs(s, t, {}, o); }
  }

  lemma SyncFooterKeeps(s: State, step: Step)
    requires Inv(s) && Enabled(s, step) && step.SyncFooter?
    ensures Sound(Apply(s, step))
  {
    hide Certain, OneValue, SweepOk, Segments.DistinctRecs;
    var t := Apply(s, step);
    forall o | o in t.acked ensures Certain(t, {}, o) { FileGrows(s, t, s.phase.id, {}, o); }
  }

  lemma PoisonKeeps(s: State, step: Step)
    requires Inv(s) && Enabled(s, step) && step.Poison?
    ensures Sound(Apply(s, step))
  {
    hide Certain, OneValue, SweepOk, Segments.DistinctRecs;
    var t := Apply(s, step);
    forall o | o in t.acked ensures Certain(t, {}, o) { SubsetOfDirs(s, t, {}, o); }
  }

  lemma RenameKeeps(s: State, step: Step)
    requires Inv(s) && Enabled(s, step) && step.Rename?
    ensures Sound(Apply(s, step))
  {
    hide Certain, OneValue, SweepOk, Segments.DistinctRecs;
    var t := Apply(s, step);
    forall o | o in t.acked ensures Certain(t, {}, o) { OneMoreDir(s, t, Cur(t), {}, o); }
  }

  lemma PublishKeeps(s: State, step: Step)
    requires Inv(s) && Enabled(s, step) && step.Publish?
    ensures Sound(Apply(s, step))
  {
    hide Certain, OneValue, SweepOk, Segments.DistinctRecs;
    var t := Apply(s, step);
    forall o | o in t.acked ensures Certain(t, {}, o) { SubsetOfDirs(s, t, {}, o); }
  }

  /** What the current directory holds is safe from any crash. */
  lemma HeldIsCertain(s: State, victims: set<Id>, o: Rec)
    requires Sound(s) && s.phase.Idle? && Held(s, victims, o)
    ensures Certain(s, victims, o)
  {
    var id :| id !in victims && HeldIn(s, id, o);
    if Cur(s)[id].SealedName? {
      assert DirOk(s.files, s.dirs[|s.dirs| - 1]);
      assert s.files[id].recs[..s.files[id].synced] == s.files[id].recs;
    }
    forall i | 0 <= i < |s.dirs| ensures id in s.dirs[i] { assert s.active == Some(id) ==> Lists(s.dirs[i], id); }
    assert CertainIn(s, id, o);
  }

  lemma AckKeeps(s: State, step: Step)
    requires Inv(s) && Enabled(s, step) && step.Ack?
    ensures Sound(Apply(s, step))
  {
    hide Certain, Held, OneValue, SweepOk, Segments.DistinctRecs;
    var t := Apply(s, step);
    HeldIsCertain(s, {}, step.o);
    forall o | o in t.acked ensures Certain(t, {}, o) { SubsetOfDirs(s, t, {}, o); }
  }

  /** An acknowledged record under a live key is certain without the victims. */
  lemma LiveIsCertain(s: State, o: Rec)
    requires Inv(s) && s.sweep.Synced? && o in s.acked && o.key in s.sweep.live
    ensures Certain(s, s.sweep.victims, o)
  {
    hide Held, FilesOk, DirsOk, PhaseOk, OneValue, AllSealed;
    assert Certain(s, {}, o);
    var id :| CertainIn(s, id, o);
    if id in s.sweep.victims {
      assert LiveIn(s.files, s.sweep.victims, s.sweep.live, o);
      HeldIsCertain(s, s.sweep.victims, o);
    }
  }

  lemma BeginRemoveKeeps(s: State, step: Step)
    requires Inv(s) && Enabled(s, step) && step.BeginRemove?
    ensures Inv(Apply(s, step))
  {
    var t := Apply(s, step);
    forall o | o in t.acked ensures Certain(t, s.sweep.victims, o) && Certain(t, {}, o) {
      hide Certain, Held;
      if o.key in s.sweep.live { LiveIsCertain(s, o); } else { HeldIsCertain(s, s.sweep.victims, o); }
      SubsetOfDirs(s, t, s.sweep.victims, o);
      SubsetOfDirs(s, t, {}, o);
    }
    hide Certain, CertainIn, Held, LiveIn;
  }

  lemma SyncActiveKeeps(s: State)
    requires Sound(s) && s.phase.Idle? && s.active.Some? && s.active.value in s.files
    ensures Sound(ActiveSynced(s))
  {
    hide Certain;
    var t := ActiveSynced(s);
    forall o | o in t.acked ensures Certain(t, {}, o) { FileGrows(s, t, s.active.value, {}, o); }
  }

  lemma CompactKeeps(s: State, step: Step)
    requires Inv(s) && Enabled(s, step)
    requires step.Append? || step.BeginCompact? || step.Skip? || step.Copy? || step.GiveUp? || step.SyncCopies?
    ensures Sound(Apply(s, step))
  {
    hide SweepOk, OneValue, Held, Kept, LiveIn, SurvivorHas, Absent, Agrees, AllSealed;
    var t := Apply(s, step);
    hide Sound;
    if step.Append? || step.Copy? {
      AppendKeeps(s, step.o);
      SweepIsApart(Appended(s, step.o), t);
    } else if step.SyncCopies? && s.active.Some? && s.active.value in s.files {
      SyncActiveKeeps(s);
      SweepIsApart(ActiveSynced(s), t);
    } else {
      SweepIsApart(s, t);
    }
  }

  lemma UnlinkKeeps(s: State, step: Step)
    requires Inv(s) && Enabled(s, step) && step.Unlink?
    ensures Sound(Apply(s, step))
  {
    hide Certain;
    var t := Apply(s, step);
    forall o | o in t.acked ensures Certain(t, s.sweep.victims, o) && Certain(t, {}, o) {
      OneMoreDir(s, t, Cur(t), s.sweep.victims, o);
      CertainAnyway(t, s.sweep.victims, o);
    }
  }

  lemma CertainAnyway(s: State, victims: set<Id>, o: Rec)
    requires Certain(s, victims, o)
    ensures Certain(s, {}, o)
  {
  }

  lemma RemoveDoneKeeps(s: State, step: Step)
    requires Inv(s) && Enabled(s, step) && step.RemoveDone?
    ensures Sound(Apply(s, step))
  {
    hide Certain, OneValue, Segments.DistinctRecs;
    var t := Apply(s, step);
    forall o | o in t.acked ensures Certain(t, {}, o) { SubsetOfDirs(s, t, {}, o); }
  }

  lemma ProcessStopsKeeps(s: State, step: Step)
    requires Inv(s) && Enabled(s, step) && step.ProcessStops? && Sheltered(s)
    ensures Sound(Apply(s, step))
  {
    hide Certain, OneValue, SweepOk, Segments.DistinctRecs;
    var t := Apply(s, step);
    forall o | o in t.acked ensures Certain(t, {}, o) { SubsetOfDirs(s, t, {}, o); }
  }

  lemma MachineStopsKeeps(s: State, step: Step)
    requires Inv(s) && Enabled(s, step) && step.MachineStops?
    ensures Sound(Apply(s, step))
  {
    MachineKeepsAcked(s, step);
    MachineKeepsFiles(s, step);
    hide Certain, AckedOk, OneValue, SweepOk, FilesOk, PhaseOk;
    var t := Apply(s, step);
    assert DirOk(s.files, s.dirs[step.at]);
    assert DirOk(t.files, s.dirs[step.at]);
    StoppedPhase(t);
  }

  lemma MachineKeepsFiles(s: State, step: Step)
    requires Inv(s) && Enabled(s, step) && step.MachineStops?
    ensures FilesOk(Apply(s, step))
    ensures forall id :: id in s.files ==> !Apply(s, step).files[id].footer.Written?
  {
    hide DirsOk, PhaseOk, AckedOk, OneValue, SweepOk;
  }

  /** A directory alone, with no footer written and not synced, is fit to open. */
  lemma StoppedPhase(t: State)
    requires |t.dirs| == 1 && DirOk(t.files, t.dirs[0]) && t.phase.Crashed? && t.active.None?
    requires forall id :: id in t.files ==> !t.files[id].footer.Written?
    ensures DirsOk(t) && PhaseOk(t)
  {
  }

  lemma MachineKeepsAcked(s: State, step: Step)
    requires Inv(s) && Enabled(s, step) && step.MachineStops?
    ensures AckedOk(Apply(s, step))
  {
    hide PhaseOk, OneValue, SweepOk, DirsOk, Segments.DistinctRecs;
    var t := Apply(s, step);
    forall o | o in t.acked ensures Certain(t, {}, o) {
      var id :| CertainIn(s, id, o);
      CertainStays(s, t, id, o);
    }
  }

  lemma OpenKeeps(s: State, step: Step)
    requires Inv(s) && Enabled(s, step) && (step.OpenActive? || step.OpenEmpty?)
    ensures Sound(Apply(s, step))
  {
    hide Certain, OneValue, SweepOk, Segments.DistinctRecs;
    var t := Apply(s, step);
    if step.OpenActive? {
      forall o | o in t.acked ensures Certain(t, {}, o) { FileGrows(s, t, step.id, {}, o); }
    } else {
      forall o | o in t.acked ensures Certain(t, {}, o) { SubsetOfDirs(s, t, {}, o); }
    }
  }

  lemma OpenSealedKeeps(s: State, step: Step)
    requires Inv(s) && Enabled(s, step) && step.OpenSealed?
    ensures Sound(Apply(s, step))
  {
    hide Certain, OneValue, SweepOk, Segments.DistinctRecs;
    var t := Apply(s, step);
    forall o | o in t.acked ensures Certain(t, {}, o) { OneMoreDir(s, t, Cur(t), {}, o); }
  }

  lemma OpenDoneKeeps(s: State, step: Step)
    requires Inv(s) && Enabled(s, step) && step.OpenDone?
    ensures Sound(Apply(s, step))
  {
    hide Certain, OneValue, SweepOk, Segments.DistinctRecs;
    var t := Apply(s, step);
    forall o | o in t.acked ensures Certain(t, {}, o) { SubsetOfDirs(s, t, {}, o); }
  }

  // ------------------------------------------------------------ compactions

  /** No record appears but by a step that may add it. */
  lemma NothingNew(files: map<Id, File>, files': map<Id, File>)
    requires OneValue(files)
    requires forall id, x :: id in files' && x in files'[id].recs ==> id in files && x in files[id].recs
    ensures OneValue(files')
  {
  }

  lemma OneMoreAgrees(s: State, o: Rec)
    requires OneValue(s.files) && s.active.Some? && s.active.value in s.files && Agrees(s, o)
    ensures OneValue(Appended(s, o).files)
  {
  }

  lemma ValuesKeep(s: State, step: Step)
    requires Inv(s) && Enabled(s, step)
    ensures OneValue(Apply(s, step).files)
  {
    var t := Apply(s, step);
    hide Sound, AllSealed, Kept, SurvivorHas, Held, Certain, SweepOk;
    if step.Append? || step.Copy? {
      if step.Copy? { CopyAgrees(s, step.o); }
      hide OneValue, Agrees;
      OneMoreAgrees(s, step.o);
    } else {
      hide OneValue;
      if !step.MachineStops? { RecordsStay(s, step); }
      NothingNew(s.files, t.files);
    }
  }

  lemma RecordsStay(s: State, step: Step)
    requires s.dirs != [] && Enabled(s, step) && !step.Append? && !step.Copy? && !step.MachineStops?
    ensures var now := Apply(s, step).files;
            forall id :: id in now ==> (id in s.files && now[id].recs == s.files[id].recs) || now[id].recs == []
  {
    hide Held, SurvivorHas, Agrees, Absent, AllSealed, LiveIn, CutOk, NoActive;
  }

  lemma CopyAgrees(s: State, o: Rec)
    requires Inv(s) && s.sweep.Copying? && o in s.sweep.todo
    ensures Agrees(s, o)
  {
    hide Sound, AllSealed, Kept;
    assert LiveIn(s.files, s.sweep.victims, s.sweep.live, o);
  }

  /** Copying goes on while victims stay as they are and survivors lose nothing. */
  lemma CopyingStays(s: State, t: State)
    requires s.dirs != [] && t.dirs != [] && SweepOk(s) && s.sweep.Copying? && t.sweep.Copying?
    requires t.sweep.victims == s.sweep.victims && t.sweep.live == s.sweep.live && t.sweep.todo <= s.sweep.todo
    requires !t.failed && !t.phase.Crashed? && !t.phase.Completing? && AllSealed(t, t.sweep.victims)
    requires forall id :: id in s.sweep.victims ==>
               (id in s.files <==> id in t.files) && (id in s.files ==> t.files[id].recs == s.files[id].recs)
    requires forall id, o :: KeptIn(s, id, o) ==> KeptIn(t, id, o)
    requires forall o :: o in s.sweep.todo ==> o in t.sweep.todo || Kept(t, t.sweep.victims, o)
    ensures SweepOk(t)
  {
    hide KeptIn, AllSealed;
    forall o | LiveIn(t.files, t.sweep.victims, t.sweep.live, o)
      ensures LiveIn(s.files, s.sweep.victims, s.sweep.live, o) && (o in t.sweep.todo || Kept(t, t.sweep.victims, o))
    {
      if o !in s.sweep.todo { assert Kept(s, s.sweep.victims, o); }
    }
  }

  /** Creating and sealing files while copying. */
  lemma RotationKeepsSweep(s: State, step: Step)
    requires Inv(s) && Enabled(s, step) && s.sweep.Copying?
    requires step.Create? || step.CreateFails? || step.CreateDone? || step.Sync?
             || step.WriteFooter? || step.SyncFooter? || step.Rename? || step.Publish?
    ensures SweepOk(Apply(s, step))
  {
    var t := Apply(s, step);
    if step.Sync? || step.WriteFooter? || step.SyncFooter? {
      WritingKeepsFiles(s, step);
    } else {
      NamingKeepsFiles(s, step);
    }
    hide Sound, OneValue, KeptIn, AllSealed, LiveIn, Kept;
    CopyingStays(s, t);
  }

  /** Victims keep their names and records, and survivors theirs. */
  ghost predicate FilesStay(s: State, t: State)
    requires s.dirs != [] && s.sweep.Copying?
  {
    && t.dirs != [] && AllSealed(t, s.sweep.victims) && t.sweep == s.sweep && !t.failed
    && (forall id, o :: KeptIn(s, id, o) ==> KeptIn(t, id, o))
    && (forall id :: id in s.sweep.victims ==>
          (id in s.files <==> id in t.files) && (id in s.files ==> t.files[id].recs == s.files[id].recs))
  }

  lemma NamingKeepsFiles(s: State, step: Step)
    requires Inv(s) && Enabled(s, step) && s.sweep.Copying?
    requires step.Create? || step.CreateFails? || step.CreateDone? || step.Rename? || step.Publish?
    ensures FilesStay(s, Apply(s, step))
  {
    hide OneValue, AckedOk, LiveIn, Kept, Held, Segments.DistinctRecs;
  }

  lemma WritingKeepsFiles(s: State, step: Step)
    requires Inv(s) && Enabled(s, step) && s.sweep.Copying?
    requires step.Sync? || step.WriteFooter? || step.SyncFooter?
    ensures FilesStay(s, Apply(s, step))
  {
    hide OneValue, AckedOk, LiveIn, Kept, Held, Segments.DistinctRecs;
  }

  lemma CopyKeepsSweep(s: State, step: Step)
    requires Inv(s) && Enabled(s, step) && step.Copy?
    ensures SweepOk(Apply(s, step))
  {
    var t := Apply(s, step);
    assert KeptIn(t, s.active.value, step.o) && forall id, o :: KeptIn(s, id, o) ==> KeptIn(t, id, o) by {
      hide OneValue, AckedOk, SweepOk;
    }
    hide OneValue, AckedOk, KeptIn;
    assert Kept(t, t.sweep.victims, step.o);
    CopyingStays(s, t);
  }

  lemma SkipKeepsSweep(s: State, step: Step)
    requires Inv(s) && Enabled(s, step) && step.Skip?
    ensures SweepOk(Apply(s, step))
  {
    var t := Apply(s, step);
    assert LiveIn(s.files, s.sweep.victims, s.sweep.live, step.o) by { hide Sound, OneValue, LiveIn, Kept; }
    SurvivorAgrees(s, s.sweep.victims, s.sweep.live, step.o);
    assert forall id, o :: KeptIn(s, id, o) ==> KeptIn(t, id, o) by { hide Sound, SweepOk, OneValue; }
    hide Sound, OneValue, KeptIn, LiveIn, SurvivorHas;
    CopyingStays(s, t);
  }

  /** A survivor that has the key has the record. */
  lemma SurvivorAgrees(s: State, victims: set<Id>, live: set<Key>, o: Rec)
    requires s.dirs != [] && OneValue(s.files) && LiveIn(s.files, victims, live, o) && SurvivorHas(s, victims, o.key)
    ensures Kept(s, victims, o)
  {
    var x: Rec :| x.key == o.key && Kept(s, victims, x);
    var id :| id !in victims && KeptIn(s, id, x);
    assert x == o;
  }

  /** A survivor, once the active file is synced, holds its record. */
  lemma KeptThenHeld(s: State, t: State, victims: set<Id>, o: Rec)
    requires Sound(s) && s.phase.Idle? && !s.failed && Kept(s, victims, o)
    requires SyncedAs(s, t)
    ensures Held(t, victims, o)
  {
    var id :| id !in victims && KeptIn(s, id, o);
    assert HeldIn(t, id, o) by { hide AckedOk, DirsOk; }
  }

  lemma SyncCopiesKeepsSweep(s: State, step: Step)
    requires Inv(s) && Enabled(s, step) && step.SyncCopies?
    ensures SweepOk(Apply(s, step))
  {
    var t := Apply(s, step);
    var victims, live := s.sweep.victims, s.sweep.live;
    hide Sound, OneValue, LiveIn, Held, Kept, AllSealed;
    SyncKeepsNames(s, t, victims);
    forall o | LiveIn(t.files, victims, live, o) ensures Held(t, victims, o) {
      SyncKeepsLive(s, t, victims, live, o);
      KeptThenHeld(s, t, victims, o);
    }
  }

  ghost predicate SyncedAs(s: State, t: State) {
    t == (if s.active.Some? && s.active.value in s.files then ActiveSynced(s) else s).(sweep := t.sweep)
  }

  lemma SyncKeepsNames(s: State, t: State, victims: set<Id>)
    requires s.dirs != [] && SyncedAs(s, t) && AllSealed(s, victims)
    ensures t.dirs == s.dirs && AllSealed(t, victims)
  {
  }

  lemma SyncKeepsLive(s: State, t: State, victims: set<Id>, live: set<Key>, o: Rec)
    requires SyncedAs(s, t) && LiveIn(t.files, victims, live, o)
    ensures LiveIn(s.files, victims, live, o)
  {
  }

  /** A record acknowledged during a sweep changes nothing about the sweep. */
  lemma AckKeepsSweep(s: State, step: Step)
    requires Inv(s) && Enabled(s, step) && step.Ack?
    ensures SweepOk(Apply(s, step))
  {
    var t := Apply(s, step);
    assert forall id, o :: KeptIn(s, id, o) ==> KeptIn(t, id, o);
    assert forall id, o :: HeldIn(s, id, o) ==> HeldIn(t, id, o);
    hide Sound, OneValue, KeptIn, HeldIn;
    if s.sweep.Copying? {
      CopyingStays(s, t);
    } else if s.sweep.Synced? {
      forall o | LiveIn(t.files, t.sweep.victims, t.sweep.live, o) ensures Held(t, t.sweep.victims, o) {
        assert Held(s, s.sweep.victims, o);
      }
    }
  }

  /** Copying never gets stuck: each record still to do is in the active file or can be
      appended to it. */
  lemma CopyCanGoOn(s: State, o: Rec)
    requires Inv(s) && s.sweep.Copying? && o in s.sweep.todo && s.phase.Idle? && s.active.Some?
    ensures Enabled(s, Copy(o)) || Enabled(s, Skip(o))
  {
    hide AckedOk, OneValue;
    var a := s.active.value;
    assert Lists(s.dirs[|s.dirs| - 1], a);
    if !Absent(s, o.key) {
      var x :| x in s.files[a].recs && x.key == o.key;
      assert KeptIn(s, a, x);
      assert Kept(s, s.sweep.victims, x);
    }
  }

  lemma UnlinkKeepsSweep(s: State, step: Step)
    requires Inv(s) && Enabled(s, step) && step.Unlink?
    ensures SweepOk(Apply(s, step))
  {
    var t := Apply(s, step);
    forall o | o in t.acked ensures Certain(t, s.sweep.victims, o) {
      hide Certain;
      OneMoreDir(s, t, Cur(t), s.sweep.victims, o);
    }
  }

  lemma BeginCompactKeepsSweep(s: State, step: Step)
    requires Inv(s) && Enabled(s, step) && step.BeginCompact?
    ensures SweepOk(Apply(s, step))
  {
    hide Sound, OneValue, LiveIn;
  }

  lemma SweepKeeps(s: State, step: Step)
    requires Inv(s) && Enabled(s, step)
    ensures SweepOk(Apply(s, step))
  {
    if step.BeginRemove? {
      BeginRemoveKeeps(s, step);
      return;
    }
    hide Inv, Kept, Held, LiveIn, Certain, SurvivorHas, AllSealed, Agrees, Absent;
    match step {
      case BeginCompact(_, _) => BeginCompactKeepsSweep(s, step);
      case Skip(_) => SkipKeepsSweep(s, step);
      case Copy(_) => CopyKeepsSweep(s, step);
      case SyncCopies => SyncCopiesKeepsSweep(s, step);
      case Unlink(_) => UnlinkKeepsSweep(s, step);
      case Ack(_) => AckKeepsSweep(s, step);
      case Create => if s.sweep.Copying? { RotationKeepsSweep(s, step); }
      case CreateFails(_) => CreationSweep(s); if s.sweep.Copying? { RotationKeepsSweep(s, step); }
      case CreateDone => CreationSweep(s); if s.sweep.Copying? { RotationKeepsSweep(s, step); }
      case Sync => if s.sweep.Copying? { RotationKeepsSweep(s, step); }
      case WriteFooter => if s.sweep.Copying? { RotationKeepsSweep(s, step); }
      case SyncFooter => CreationSweep(s); if s.sweep.Copying? { RotationKeepsSweep(s, step); }
      case Rename => CreationSweep(s); if s.sweep.Copying? { RotationKeepsSweep(s, step); }
      case Publish => CreationSweep(s); if s.sweep.Copying? { RotationKeepsSweep(s, step); }
      case OpenActive(_) => CreationSweep(s);
      case OpenSealed(_) => CreationSweep(s);
      case OpenDone => CreationSweep(s);
      case OpenEmpty => CreationSweep(s);
      case _ =>
    }
  }

  /** Only a copying compaction may be in the middle of creating or sealing a file, and
      none outlives its process. */
  lemma CreationSweep(s: State)
    requires Inv(s) && !s.phase.Idle?
    ensures MayWrite(s) && (s.phase.Crashed? || s.phase.Completing? ==> s.sweep.NoSweep?)
  {
    hide Sound, OneValue;
  }

  lemma SoundKeeps(s: State, step: Step)
    requires Inv(s) && Enabled(s, step) && Safe(s, step)
    ensures Sound(Apply(s, step))
  {
    if step.BeginRemove? { BeginRemoveKeeps(s, step); }
    hide Sound, SweepOk, OneValue, Apply, Enabled, Sheltered;
    match step {
      case Create => CreateKeeps(s, step);
      case CreateFails(_) => CreateFailsKeeps(s, step);
      case CreateDone => CreateDoneKeeps(s, step);
      case Append(_) => CompactKeeps(s, step);
      case Sync => WriteKeeps(s, step);
      case Poison => PoisonKeeps(s, step);
      case Ack(_) => AckKeeps(s, step);
      case WriteFooter => WriteKeeps(s, step);
      case SyncFooter => SyncFooterKeeps(s, step);
      case Rename => RenameKeeps(s, step);
      case Publish => PublishKeeps(s, step);
      case BeginCompact(_, _) => CompactKeeps(s, step);
      case Skip(_) => CompactKeeps(s, step);
      case Copy(_) => CompactKeeps(s, step);
      case GiveUp => CompactKeeps(s, step);
      case SyncCopies => CompactKeeps(s, step);
      case BeginRemove =>
      case Unlink(_) => UnlinkKeeps(s, step);
      case RemoveDone(_) => RemoveDoneKeeps(s, step);
      case ProcessStops => ProcessStopsKeeps(s, step);
      case MachineStops(_, _, _) => MachineStopsKeeps(s, step);
      case OpenActive(_) => OpenKeeps(s, step);
      case OpenSealed(_) => OpenSealedKeeps(s, step);
      case OpenDone => OpenDoneKeeps(s, step);
      case OpenEmpty => OpenKeeps(s, step);
    }
  }

  /** Every step of writing, sealing, sweeping, stopping and opening keeps the
      invariant. */
  lemma StepKeeps(s: State, step: Step)
    requires Inv(s) && Enabled(s, step) && Safe(s, step)
    ensures Inv(Apply(s, step))
  {
    SoundKeeps(s, step);
    ValuesKeep(s, step);
    SweepKeeps(s, step);
    hide Sound, OneValue, SweepOk, Apply, Enabled, Sheltered;
  }

  // ------------------------------------------------------------------- runs

  /** One step of a run in which the process stops only where that is safe, and the file
      of a failed creation is removed. */
  ghost predicate Successor(s: State, t: State) {
    s.dirs != [] && exists step :: Enabled(s, step) && t == Apply(s, step) && Safe(s, step)
  }

  ghost predicate Run(run: seq<State>) {
    |run| > 0 && run[0] == Init() && forall i :: 0 <= i < |run| - 1 ==> Successor(run[i], run[i + 1])
  }

  lemma {:induction false} RunKeeps(run: seq<State>, i: nat)
    requires Run(run) && i < |run|
    ensures Inv(run[i])
  {
    if i > 0 {
      RunKeeps(run, i - 1);
      assert Successor(run[i - 1], run[i - 1 + 1]);
      var s := run[i - 1];
      var step :| Enabled(s, step) && run[i] == Apply(s, step) && Safe(s, step);
      StepKeeps(run[i - 1], step);
    }
  }

  ghost predicate OneActive(d: Dir) {
    forall a, b :: a in d && b in d && d[a].ActiveName? && d[b].ActiveName? ==> a == b
  }

  /** Whatever directory a crash leaves, at any point of any run: at most one active
      file, numbered above all others, and every sealed file whole, so that opening
      it never refuses. */
  lemma OpenFindsOneActive(run: seq<State>, i: nat, at: nat)
    requires Run(run) && i < |run| && at < |run[i].dirs|
    ensures var d := run[i].dirs[at];
            && OneActive(d)
            && (forall id :: id in d ==> id in run[i].files && (d[id].SealedName? ==> run[i].files[id].footer.Durable?))
  {
    RunKeeps(run, i);
    assert DirOk(run[i].files, run[i].dirs[at]);
  }

  /** Every record acknowledged as durable and not swept since is, after the machine
      stops at any point of any run, whole in a file the directory lists. */
  lemma AckedSurvivesTheMachine(run: seq<State>, i: nat, step: Step, o: Rec) returns (id: Id)
    requires Run(run) && i < |run| && run[i].dirs != [] && o in run[i].acked
    requires step.MachineStops? && Enabled(run[i], step)
    ensures var t := Apply(run[i], step);
            Inv(t) && id in Cur(t) && id in t.files && o in t.files[id].recs
  {
    hide Run, FilesOk, PhaseOk, OneValue, SweepOk, Apply, Enabled;
    RunKeeps(run, i);
    StepKeeps(run[i], step);
    var t := Apply(run[i], step);
    if o !in t.acked { OnlyTheDeadAreForgotten(run[i], step, o); }
    assert Certain(t, {}, o);
    id :| CertainIn(t, id, o);
    assert id in t.dirs[|t.dirs| - 1];
  }

  /** At any point of any run, when a sweep may begin to remove files, every record of a
      victim under a live key is durable outside the victims: whole in every directory a
      stop can leave. */
  lemma SweepKeepsLive(run: seq<State>, i: nat, victim: Id, o: Rec) returns (id: Id)
    requires Run(run) && i < |run| && run[i].sweep.Synced? && victim in run[i].sweep.victims
    requires victim in run[i].files && o in run[i].files[victim].recs && o.key in run[i].sweep.live
    ensures id !in run[i].sweep.victims && CertainIn(run[i], id, o)
  {
    var s := run[i];
    RunKeeps(run, i);
    assert LiveIn(s.files, s.sweep.victims, s.sweep.live, o);
    HeldIsCertain(s, s.sweep.victims, o);
    id :| id !in s.sweep.victims && CertainIn(s, id, o);
  }

  /** An acknowledgement is taken back only for a record that is dead and has no copy
      outside the victims, and only when a sweep begins to remove files. */
  lemma OnlyTheDeadAreForgotten(s: State, step: Step, o: Rec)
    requires s.dirs != [] && Enabled(s, step) && o in s.acked && o !in Apply(s, step).acked
    ensures step.BeginRemove? && o.key !in s.sweep.live && !Held(s, s.sweep.victims, o)
  {
    hide Held;
  }

  /** When the file of a failed creation cannot be removed, every directory still has at
      most one active file, until the next creation: then the store is refused. */
  lemma UnremovedIsRefusedNext(s: State) returns (t: State, u: State)
    requires Inv(s) && s.phase.Creating?
    ensures Via(s, CreateFails(false), t) && forall i :: 0 <= i < |t.dirs| ==> OneActive(t.dirs[i])
    ensures Via(t, Create, u) && !OneActive(Cur(u))
  {
    hide AckedOk, OneValue;
    t := Apply(s, CreateFails(false));
    forall i | 0 <= i < |t.dirs| ensures OneActive(t.dirs[i]) { assert DirOk(s.files, s.dirs[i]); }
    CreationSweep(s);
    u := Apply(t, Create);
    var a, b := s.phase.id, s.nextID;
    assert a in Cur(u) && b in Cur(u) && Cur(u)[a].ActiveName? && Cur(u)[b].ActiveName? && a != b;
  }

  // ------------------------------------------------- where it is not sheltered

  ghost predicate Leads(s: State, steps: seq<Step>, t: State)
    decreases |steps|
  {
    if steps == [] then s == t
    else s.dirs != [] && Enabled(s, steps[0]) && Leads(Apply(s, steps[0]), steps[1..], t)
  }

  /** The step is enabled and leads there. */
  ghost predicate Via(s: State, step: Step, t: State) {
    s.dirs != [] && Enabled(s, step) && t == Apply(s, step)
  }

  lemma LeadsThen(s: State, step: Step, next: State, steps: seq<Step>, t: State)
    requires Via(s, step, next) && Leads(next, steps, t)
    ensures Leads(s, [step] + steps, t)
  {
    hide Enabled, Apply;
    assert ([step] + steps)[1..] == steps;
  }

  /** A sealed name on a file without a whole footer: opening refuses the store. */
  ghost predicate Refused(s: State) {
    s.dirs != [] && exists id :: id in Cur(s) && Cur(s)[id].SealedName? && id in s.files && !s.files[id].footer.Durable?
  }

  ghost function SyncedCut(s: State): map<Id, nat> { map id | id in s.files :: s.files[id].synced }

  /** If the process stops while an active file has a footer that was written and
      not synced, the next open renames the file without syncing it; if the machine
      then stops too, the store can be refused. */
  lemma UnsyncedFooterCanBeRefused(s: State, a: Id) returns (steps: seq<Step>, t: State)
    requires Inv(s) && ActiveFile(s, a) && s.files[a].footer.Written?
    ensures Leads(s, steps, t) && Refused(t)
  {
    var s1, s2, s3 := FooterPath(s, a);
    var stop := MachineStops(0, SyncedCut(s3), {});
    t := FooterLost(s3, a);
    hide Leads, Via, Refused, Inv;
    LeadsNowhere(t);
    LeadsThen(s3, stop, t, [], t);
    LeadsThen(s2, OpenDone, s3, [stop] + [], t);
    LeadsThen(s1, OpenSealed(a), s2, [OpenDone] + ([stop] + []), t);
    steps := [ProcessStops] + ([OpenSealed(a)] + ([OpenDone] + ([stop] + [])));
    LeadsThen(s, ProcessStops, s1, [OpenSealed(a)] + ([OpenDone] + ([stop] + [])), t);
  }

  lemma FooterPath(s: State, a: Id) returns (s1: State, s2: State, s3: State)
    requires Inv(s) && ActiveFile(s, a) && s.files[a].footer.Written?
    ensures Via(s, ProcessStops, s1) && Via(s1, OpenSealed(a), s2) && Via(s2, OpenDone, s3)
    ensures s3.files == s.files && |s3.dirs| == 1 && a in Cur(s3) && Cur(s3)[a].SealedName?
    ensures forall id :: id in s3.files ==> s3.files[id].synced <= |s3.files[id].recs|
  {
    hide PhaseOk, AckedOk;
    s1 := Apply(s, ProcessStops);
    s2 := Apply(s1, OpenSealed(a));
    s3 := Apply(s2, OpenDone);
  }

  lemma FooterLost(s: State, a: Id) returns (t: State)
    requires |s.dirs| == 1 && a in s.files && s.files[a].footer.Written? && a in Cur(s) && Cur(s)[a].SealedName?
    requires forall id :: id in s.files ==> s.files[id].synced <= |s.files[id].recs|
    ensures Via(s, MachineStops(0, SyncedCut(s), {}), t) && Refused(t)
  {
    var stop := MachineStops(0, SyncedCut(s), {});
    assert Enabled(s, stop);
    t := Apply(s, stop);
    assert Cur(t)[a].SealedName? && !t.files[a].footer.Durable?;
  }

  lemma LeadsNowhere(t: State)
    ensures Leads(t, [], t)
  {
  }

  /** If the process stops while a file is being created, the next open resumes the
      file without syncing the directory; a record then written, synced and
      acknowledged is lost if the machine stops. */
  lemma UnlistedFileCanLoseAcked(s: State, o: Rec) returns (steps: seq<Step>, t: State)
    requires Inv(s) && s.phase.Creating? && forall id, x :: id in s.files && x in s.files[id].recs ==> x.key != o.key
    ensures Leads(s, steps, t) && t.dirs != [] && o in t.acked
    ensures forall id :: id in Cur(t) && id in t.files ==> o !in t.files[id].recs
  {
    var a := s.phase.id;
    var s1, s2, s3, s4, s5 := CreatePath(s, o);
    var stop := MachineStops(0, SyncedCut(s5), {});
    t := LostIn(s, s5, stop, a, o);
    hide Leads, Via, Inv, Apply, Enabled;
    LeadsNowhere(t);
    LeadsThen(s5, stop, t, [], t);
    LeadsThen(s4, Ack(o), s5, [stop] + [], t);
    LeadsThen(s3, Sync, s4, [Ack(o)] + ([stop] + []), t);
    LeadsThen(s2, Append(o), s3, [Sync] + ([Ack(o)] + ([stop] + [])), t);
    steps := [Append(o)] + ([Sync] + ([Ack(o)] + ([stop] + [])));
    LeadsThen(s1, OpenActive(a), s2, steps, t);
    LeadsThen(s, ProcessStops, s1, [OpenActive(a)] + steps, t);
    steps := [ProcessStops] + ([OpenActive(a)] + steps);
  }

  lemma CreatePath(s: State, o: Rec) returns (s1: State, s2: State, s3: State, s4: State, s5: State)
    requires Inv(s) && s.phase.Creating? && forall id, x :: id in s.files && x in s.files[id].recs ==> x.key != o.key
    ensures Via(s, ProcessStops, s1) && Via(s1, OpenActive(s.phase.id), s2) && Via(s2, Append(o), s3)
    ensures Via(s3, Sync, s4) && Via(s4, Ack(o), s5)
    ensures s5.dirs == s.dirs && o in s5.acked && s.phase.id !in s5.dirs[0]
    ensures s5.files.Keys == s.files.Keys
    ensures forall id :: id in s.files && id != s.phase.id ==> s5.files[id] == s.files[id]
    ensures forall id :: id in s5.files ==> s5.files[id].synced <= |s5.files[id].recs|
  {
    hide AckedOk, DirsOk;
    var a := s.phase.id;
    s1 := Apply(s, ProcessStops);
    s2 := Apply(s1, OpenActive(a));
    s3 := Apply(s2, Append(o));
    assert s3.files[a] == File([] + [o], 0, NoFooter);
    s4 := Apply(s3, Sync);
    assert s4.files[a] == File([o], 1, NoFooter);
    SyncedThenHeld(s4, a, o);
    s5 := Apply(s4, Ack(o));
  }

  lemma SyncedThenHeld(s: State, a: Id, o: Rec)
    requires s.dirs != [] && s.active == Some(a) && ActiveFile(s, a) && s.files[a] == File([o], 1, NoFooter)
    ensures Held(s, {}, o)
  {
    assert [o][..1] == [o];
    assert HeldIn(s, a, o);
  }

  lemma LostIn(s: State, s5: State, stop: Step, a: Id, o: Rec) returns (t: State)
    requires s5.dirs != [] && stop == MachineStops(0, SyncedCut(s5), {}) && a !in s5.dirs[0] && o in s5.acked
    requires s5.files.Keys == s.files.Keys && forall id :: id in s.files && id != a ==> s5.files[id] == s.files[id]
    requires forall id :: id in s.files ==> o !in s.files[id].recs
    requires forall id :: id in s5.files ==> s5.files[id].synced <= |s5.files[id].recs|
    ensures Via(s5, stop, t) && t.dirs != [] && o in t.acked
    ensures forall id :: id in Cur(t) && id in t.files ==> o !in t.files[id].recs
  {
    assert Enabled(s5, stop);
    t := Apply(s5, stop);
  }

  // ---------------------------------------------------------- dedup hits

  /** A record in the active file that is not synced, as one recovered after a process
      stop may be, is found by a reader, so that storing it again succeeds at once. That
      is no acknowledgement here: if the machine stops, the record can be gone. */
  lemma UnsyncedDedupCanBeLost(s: State, a: Id, i: nat) returns (stop: Step)
    requires Inv(s) && s.active == Some(a) && a in Cur(s) && a in s.files && s.files[a].footer.NoFooter?
    requires s.files[a].synced <= i < |s.files[a].recs|
    requires forall id :: id in s.files && id != a ==> s.files[a].recs[i] !in s.files[id].recs
    ensures var o := s.files[a].recs[i];
            && Kept(s, {}, o) && stop.MachineStops? && Enabled(s, stop)
            && forall id :: id in Apply(s, stop).files ==> o !in Apply(s, stop).files[id].recs
  {
    assert s.dirs != [];
    hide PhaseOk, AckedOk, OneValue, SweepOk, DirsOk;
    var o := s.files[a].recs[i];
    assert KeptIn(s, a, o);
    stop := MachineStops(|s.dirs| - 1, SyncedCut(s), {});
    assert Enabled(s, stop);
    var t := Apply(s, stop);
    NotInFront(s.files[a].recs, s.files[a].synced, i);
  }

  lemma NotInFront(recs: seq<Rec>, n: nat, i: nat)
    requires Segments.DistinctRecs(recs) && n <= i < |recs|
    ensures recs[i] !in recs[..n]
  {
  }

  // ----------------------------------------------------------- both windows

  /** The first write of a store: a file is created, the record appended, synced and
      acknowledged, and a footer written behind it. */
  ghost function FirstWrite(o: Rec, i: nat): State
    requires i <= 6
  {
    var file := if i <= 2 then File([], 0, NoFooter)
                else File([o], if i == 3 then 0 else 1, if i == 6 then Written else NoFooter);
    var listed: Dir := map[1 := ActiveName];
    State(if i == 0 then map[] else map[1 := file],
          if i == 0 then [map[]] else if i == 1 then [map[], listed] else [listed],
          if i <= 1 then None else Some(1),
          if i == 1 then Creating(1) else if i == 6 then Sealing(1) else Idle,
          NoSweep, if i == 0 then 1 else 2, false, if i < 5 then {} else {o})
  }

  function FirstStep(o: Rec, i: nat): Step
    requires i < 6
  {
    [Create, CreateDone, Append(o), Sync, Ack(o), WriteFooter][i]
  }

  lemma FirstStepsOn(o: Rec, i: nat)
    requires i < 6
    ensures FirstWrite(o, i).dirs != [] && Enabled(FirstWrite(o, i), FirstStep(o, i))
    ensures Apply(FirstWrite(o, i), FirstStep(o, i)) == FirstWrite(o, i + 1)
  {
    assert [] + [o] == [o];
    if i == 4 { SyncedThenHeld(FirstWrite(o, 4), 1, o); }
  }

  /** Both windows are reached by ordinary writing: the first write creates a file,
      and rotation writes a footer behind an acknowledged record. */
  lemma WindowsAreReached(o: Rec) returns (run: seq<State>)
    ensures Run(run) && |run| == 7 && run[1].phase.Creating?
    ensures run[6].dirs != [] && ActiveFile(run[6], 1) && run[6].files[1].footer.Written? && o in run[6].acked
  {
    hide Enabled, Apply, FirstStep;
    run := seq(7, i requires 0 <= i < 7 => FirstWrite(o, i));
    forall i | 0 <= i < |run| - 1 ensures Successor(run[i], run[i + 1]) {
      FirstStepsOn(o, i);
      NotAProcessStop(o, i);
    }
  }

  lemma NotAProcessStop(o: Rec, i: nat)
    requires i < 6
    ensures !FirstStep(o, i).ProcessStops? && !FirstStep(o, i).CreateFails?
  {
  }
}
