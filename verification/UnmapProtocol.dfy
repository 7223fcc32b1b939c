/** When a sealed segment may be unmapped (packstore/packstore.go, packstore/gc.go,
    packstore/compact.go, gc/collector.go): readers under the read lock, scrubs that
    only registered under it, and removers that detach under the write lock, wait for
    no scrub to be registered, and then unmap. A compaction reads its victims holding
    only the append lock, which every remover takes to detach. A mark reads segments
    without any of these; it is the cycle slot that keeps removers away from it. */
module UnmapProtocol {
  import opened Base

  type Seg = nat
  type Actor = nat

  /** A remover waits for the scrubs there are, and is then clear to unmap. */
  datatype Remover = Waiting(segs: set<Seg>) | Clear(segs: set<Seg>)

  datatype State = State(
    sealed: set<Seg>,                  // the probe list
    closed: bool,
    readers: map<Actor, set<Seg>>,     // holders of the read lock and what they may touch
    scrubs: map<Actor, set<Seg>>,      // registered walks and their snapshots
    scrubN: int,                       // the counter removers wait on
    removers: map<Actor, Remover>,
    unmapped: set<Seg>,
    appender: Option<Actor>,           // who holds the append lock
    copied: set<Seg>,                  // what its compaction selects from and copies
    slot: Option<Actor>,               // who holds the collector's cycle slot
    mark: Option<set<Seg>>)            // what the slot holder's mark set refers to

  datatype Step =
    | AcquireRead(a: Actor)                      // and check for a closed store
    | ReleaseRead(a: Actor)
    | Register(a: Actor, segs: set<Seg>)         // Verify, ScanIndex, Record
    | EndScrub(a: Actor)
    | Seal(seg: Seg)                             // rotation publishes a new segment
    | Detach(a: Actor, segs: set<Seg>)           // Remove, removeVictims, Wipe
    | Close(a: Actor)                            // keeps the list but closes it to readers
    | PassWait(a: Actor)
    | Unmap(a: Actor, seg: Seg)
    | TakeAppend(a: Actor)
    | ReleaseAppend(a: Actor)
    | BeginCopy(a: Actor)                        // selectVictims, under the read lock
    | EndCopy(a: Actor)                          // copyLive has returned
    | TakeSlot(a: Actor)                         // Run, Status, Wipe
    | BeginMark(a: Actor)                        // NewMarkSet, under the read lock
    | EndMark(a: Actor)
    | ReleaseSlot(a: Actor)

  function Init(): State { State({}, false, map[], map[], 0, map[], {}, None, {}, None, None) }

  /** A number no segment has had. */
  ghost predicate Fresh(s: State, seg: Seg) {
    && seg !in s.sealed && seg !in s.unmapped
    && (forall a :: a in s.readers ==> seg !in s.readers[a]) && (forall a :: a in s.scrubs ==> seg !in s.scrubs[a])
    && (forall a :: a in s.removers ==> seg !in s.removers[a].segs) && seg !in s.copied
  }

  /** The write lock is held only while no reader is, and the append lock by one actor:
      whoever seals, detaches or closes, and a compaction until its copies are done. */
  ghost predicate Enabled(s: State, step: Step) {
    match step
    case AcquireRead(a) => a !in s.readers
    case ReleaseRead(a) => a in s.readers
    case Register(a, segs) => a in s.readers && a !in s.scrubs && segs <= s.readers[a]
    case EndScrub(a) => a in s.scrubs
    case Seal(seg) => s.readers == map[] && !s.closed && s.appender.Some? && Fresh(s, seg)
    case Detach(a, segs) =>
      && s.readers == map[] && !s.closed && s.appender == Some(a) && s.copied == {} && a !in s.removers
      && segs <= s.sealed
    case Close(a) => s.readers == map[] && !s.closed && s.appender == Some(a) && s.copied == {} && a !in s.removers
    case PassWait(a) => a in s.removers && s.removers[a].Waiting? && s.scrubN == 0
    case Unmap(a, seg) => a in s.removers && s.removers[a].Clear? && seg in s.removers[a].segs
    case TakeAppend(a) => s.appender.None?
    case ReleaseAppend(a) => s.appender == Some(a) && s.copied == {}
    case BeginCopy(a) => s.appender == Some(a) && s.copied == {} && a in s.readers
    case EndCopy(a) => s.appender == Some(a)
    case TakeSlot(a) => s.slot.None?
    case BeginMark(a) => s.slot == Some(a) && s.mark.None? && a in s.readers
    case EndMark(a) => s.slot == Some(a) && s.mark.Some?
    case ReleaseSlot(a) => s.slot == Some(a) && s.mark.None?
  }

  /** What the collector promises: segments are detached by the holder of the slot, after
      its own mark, and the store is closed after the collector. */
  ghost predicate Orderly(s: State, step: Step) {
    && (step.Detach? ==> s.slot == Some(step.a) && s.mark.None?)
    && (step.Close? ==> s.mark.None?) && (step.BeginMark? ==> !s.closed)
  }

  ghost function Apply(s: State, step: Step): State
    requires Enabled(s, step)
  {
    match step
    case AcquireRead(a) => s.(readers := s.readers[a := if s.closed then {} else s.sealed])
    case ReleaseRead(a) => s.(readers := s.readers - {a})
    case Register(a, segs) => s.(scrubs := s.scrubs[a := segs], scrubN := s.scrubN + 1)
    case EndScrub(a) => s.(scrubs := s.scrubs - {a}, scrubN := s.scrubN - 1)
    case Seal(seg) => s.(sealed := s.sealed + {seg})
    case Detach(a, segs) => s.(sealed := s.sealed - segs, removers := s.removers[a := Waiting(segs)])
    case Close(a) => s.(closed := true, removers := s.removers[a := Waiting(s.sealed)])
    case PassWait(a) => s.(removers := s.removers[a := Clear(s.removers[a].segs)])
    case Unmap(a, seg) => s.(unmapped := s.unmapped + {seg})
    case TakeAppend(a) => s.(appender := Some(a))
    case ReleaseAppend(a) => s.(appender := None)
    case BeginCopy(a) => s.(copied := s.readers[a])
    case EndCopy(a) => s.(copied := {})
    case TakeSlot(a) => s.(slot := Some(a))
    case BeginMark(a) => s.(mark := Some(s.sealed))
    case EndMark(a) => s.(mark := None)
    case ReleaseSlot(a) => s.(slot := None)
  }

  /** No reader, registered scrub or compaction holds an unmapped segment. */
  ghost predicate Safe(s: State) {
    && s.copied !! s.unmapped
    && (forall a :: a in s.readers ==> s.readers[a] !! s.unmapped)
    && (forall a :: a in s.scrubs ==> s.scrubs[a] !! s.unmapped)
  }

  /** What every step keeps: readers reach only the open probe list, what a remover
      has taken is out of it, a clear remover's segments are in no snapshot, and the
      counter counts the scrubs. */
  ghost predicate Inv(s: State) {
    && Safe(s) && s.scrubN == |s.scrubs|
    && (forall a :: a in s.readers ==> s.readers[a] <= s.sealed && (s.closed ==> s.readers[a] == {}))
    && (!s.closed ==> s.sealed !! s.unmapped)
    && (forall d :: d in s.removers && !s.closed ==> s.removers[d].segs !! s.sealed)
    && (forall a, d :: a in s.readers && d in s.removers ==> s.readers[a] !! s.removers[d].segs)
    && (forall d :: d in s.removers ==> s.copied !! s.removers[d].segs)
    && (forall a, d :: a in s.scrubs && d in s.removers && s.removers[d].Clear? ==> s.scrubs[a] !! s.removers[d].segs)
  }

  lemma DropOne(m: map<Actor, set<Seg>>, a: Actor)
    requires a in m
    ensures |m - {a}| == |m| - 1
  {
    assert (m - {a}).Keys == m.Keys - {a};
    assert |m.Keys| == |m| && |(m - {a}).Keys| == |m - {a}|;
  }

  lemma EmptyMap(m: map<Actor, set<Seg>>)
    requires |m| == 0
    ensures m == map[]
  {
    assert m.Keys == {};
  }

  lemma ReadStepKeeps(s: State, step: Step)
    requires Inv(s) && Enabled(s, step) && (step.AcquireRead? || step.ReleaseRead?)
    ensures Inv(Apply(s, step))
  {
  }

  lemma RegisterKeeps(s: State, step: Step)
    requires Inv(s) && Enabled(s, step) && step.Register?
    ensures Inv(Apply(s, step))
  {
    assert |s.scrubs[step.a := step.segs]| == |s.scrubs| + 1;
  }

  lemma EndScrubKeeps(s: State, step: Step)
    requires Inv(s) && Enabled(s, step) && step.EndScrub?
    ensures Inv(Apply(s, step))
  {
    DropOne(s.scrubs, step.a);
  }

  lemma SealKeeps(s: State, step: Step)
    requires Inv(s) && Enabled(s, step) && step.Seal?
    ensures Inv(Apply(s, step))
  {
  }

  lemma DetachKeeps(s: State, step: Step)
    requires Inv(s) && Enabled(s, step) && (step.Detach? || step.Close?)
    ensures Inv(Apply(s, step))
  {
  }

  lemma PassWaitKeeps(s: State, step: Step)
    requires Inv(s) && Enabled(s, step) && step.PassWait?
    ensures Inv(Apply(s, step))
  {
    EmptyMap(s.scrubs);
  }

  lemma UnmapKeeps(s: State, step: Step)
    requires Inv(s) && Enabled(s, step) && step.Unmap?
    ensures Inv(Apply(s, step))
  {
  }

  lemma SlotKeeps(s: State, step: Step)
    requires Inv(s) && Enabled(s, step)
    requires step.TakeSlot? || step.BeginMark? || step.EndMark? || step.ReleaseSlot?
    ensures Inv(Apply(s, step))
  {
  }

  lemma AppendLockKeeps(s: State, step: Step)
    requires Inv(s) && Enabled(s, step)
    requires step.TakeAppend? || step.ReleaseAppend? || step.BeginCopy? || step.EndCopy?
    ensures Inv(Apply(s, step))
  {
  }

  lemma StepKeeps(s: State, step: Step)
    requires Inv(s) && Enabled(s, step)
    ensures Inv(Apply(s, step))
  {
    hide Inv, Apply, Enabled;
    match step {
      case AcquireRead(_) => ReadStepKeeps(s, step);
      case ReleaseRead(_) => ReadStepKeeps(s, step);
      case Register(_, _) => RegisterKeeps(s, step);
      case EndScrub(_) => EndScrubKeeps(s, step);
      case Seal(_) => SealKeeps(s, step);
      case Detach(_, _) => DetachKeeps(s, step);
      case Close(_) => DetachKeeps(s, step);
      case PassWait(_) => PassWaitKeeps(s, step);
      case Unmap(_, _) => UnmapKeeps(s, step);
      case TakeAppend(_) => AppendLockKeeps(s, step);
      case ReleaseAppend(_) => AppendLockKeeps(s, step);
      case BeginCopy(_) => AppendLockKeeps(s, step);
      case EndCopy(_) => AppendLockKeeps(s, step);
      case TakeSlot(_) => SlotKeeps(s, step);
      case BeginMark(_) => SlotKeeps(s, step);
      case EndMark(_) => SlotKeeps(s, step);
      case ReleaseSlot(_) => SlotKeeps(s, step);
    }
  }

  ghost predicate Successor(s: State, t: State) {
    exists step :: Enabled(s, step) && t == Apply(s, step)
  }

  ghost predicate Run(run: seq<State>) {
    |run| > 0 && run[0] == Init() && forall i :: 0 <= i < |run| - 1 ==> Successor(run[i], run[i + 1])
  }

  lemma {:induction false} RunKeeps(run: seq<State>, i: nat)
    requires Run(run) && i < |run|
    ensures Inv(run[i])
  {
    if i > 0 {
      RunKeeps(run, i - 1);
      assert Successor(run[i - 1], run[i - 1 + 1]);
      var step :| Enabled(run[i - 1], step) && run[i] == Apply(run[i - 1], step);
      StepKeeps(run[i - 1], step);
    }
  }

  /** In every state of every run no locked reader, no registered scrub, however late it
      registered, and no compaction holds a segment that has been unmapped. */
  lemma NothingHeldIsUnmapped(run: seq<State>, i: nat)
    requires Run(run) && i < |run|
    ensures Safe(run[i])
  {
    RunKeeps(run, i);
  }

  /** A scrub that registers while a remover waits cannot reach what was detached. */
  lemma LateScrubsMissDetached(run: seq<State>, i: nat, step: Step, d: Actor)
    requires Run(run) && i < |run| && Enabled(run[i], step) && step.Register? && d in run[i].removers
    ensures step.segs !! run[i].removers[d].segs
  {
    RunKeeps(run, i);
  }

  // ----------------------------------------------------------------- the mark

  /** What the mark refers to is mapped, and no remover has it. */
  ghost predicate MarkOk(s: State) {
    s.mark.Some? ==>
      && s.mark.value !! s.unmapped
      && forall d :: d in s.removers ==> s.mark.value !! s.removers[d].segs
  }

  lemma MarkKeeps(s: State, step: Step)
    requires Inv(s) && MarkOk(s) && Enabled(s, step) && Orderly(s, step)
    ensures MarkOk(Apply(s, step))
  {
  }

  ghost predicate OrderlySuccessor(s: State, t: State) {
    exists step :: Enabled(s, step) && Orderly(s, step) && t == Apply(s, step)
  }

  ghost predicate OrderlyRun(run: seq<State>) {
    |run| > 0 && run[0] == Init() && forall i :: 0 <= i < |run| - 1 ==> OrderlySuccessor(run[i], run[i + 1])
  }

  /** In every state of every run in which segments are detached only by the holder of
      the slot, the mark refers to no segment that has been unmapped, nor to one that a
      remover is about to unmap. */
  lemma {:induction false} MarkIsNeverUnmapped(run: seq<State>, i: nat)
    requires OrderlyRun(run) && i < |run|
    ensures Inv(run[i]) && MarkOk(run[i])
  {
    if i > 0 {
      MarkIsNeverUnmapped(run, i - 1);
      assert OrderlySuccessor(run[i - 1], run[i - 1 + 1]);
      var step :| Enabled(run[i - 1], step) && Orderly(run[i - 1], step) && run[i] == Apply(run[i - 1], step);
      StepKeeps(run[i - 1], step);
      MarkKeeps(run[i - 1], step);
    }
  }

  /** Without the slot it can be: one actor marks while another detaches, waits for no
      scrub, and unmaps. */
  function Unruly(i: nat): Step
    requires i < 9
  {
    [TakeAppend(1), Seal(1), TakeSlot(0), AcquireRead(0), BeginMark(0), ReleaseRead(0), Detach(1, {1}), PassWait(1),
     Unmap(1, 1)][i]
  }

  ghost function UnrulyState(i: nat): State
    requires i <= 9
  {
    State(if 2 <= i < 7 then {1} else {}, false, if i == 4 || i == 5 then map[0 := {1}] else map[], map[], 0,
          if i < 7 then map[] else if i == 7 then map[1 := Waiting({1})] else map[1 := Clear({1})],
          if i == 9 then {1} else {}, if i == 0 then None else Some(1), {},
          if i < 3 then None else Some(0), if i < 5 then None else Some({1}))
  }

  lemma UnrulyStep(i: nat)
    requires i < 9
    ensures Enabled(UnrulyState(i), Unruly(i)) && Apply(UnrulyState(i), Unruly(i)) == UnrulyState(i + 1)
  {
  }

  lemma WithoutTheSlotTheMarkIsUnmapped() returns (run: seq<State>)
    ensures Run(run) && |run| == 10 && run[9].mark == Some({1}) && 1 in run[9].unmapped
  {
    run := seq(10, i requires 0 <= i < 10 => UnrulyState(i));
    hide Enabled, Apply, Unruly;
    forall i | 0 <= i < |run| - 1 ensures Successor(run[i], run[i + 1]) { UnrulyStep(i); }
  }
}
