/** The concurrent mark-and-sweep protocol (gc/cycle.go, gc/collector.go,
    packstore/barrier.go, packstore/compact.go) as a step system: write spans,
    reference PUTs and deletes, and one collection cycle interleave freely,
    subject only to the reference lock. */
module GcProtocol {
  import opened Keys
  import opened Graphs

  /** An object-write span holds the reference lock shared. `acked` are the keys
      it was told are stored, by a write or a dedup hit. */
  datatype Span = Span(observed: set<Key>, acked: set<Key>)

  /** A reference PUT, from the completeness walk to the release of the shared
      lock. */
  datatype Put =
    | Walking(name: string, root: Key, pending: set<Key>, visited: set<Key>)
    | Ready(name: string, root: Key)
    | Published(name: string, root: Key)

  /** Where the cycle stands. `roots` is the snapshot the mark started from; `kept`
      is what had a copy outside the victims when the sweep began. */
  datatype Phase =
    | Idle
    | SnapshotLocked
    | BarrierOn
    | RootsRead(roots: set<Key>)
    | Snapshotted(roots: set<Key>)
    | Marking(roots: set<Key>, snapshot: set<Key>, marked: set<Key>, todo: set<Key>)
    | Marked(roots: set<Key>, marked: set<Key>)
    | SweepLocked(roots: set<Key>, marked: set<Key>)
    | Copying(live: set<Key>, victims: set<nat>, kept: set<Key>, uncopied: set<Key>)
    | Swept
    | Wiping

  datatype State = State(
    refs: map<string, Key>,
    sealed: map<nat, set<Key>>,
    active: set<Key>,
    grey: set<Key>,
    capturing: bool,
    spans: map<nat, Span>,
    puts: map<nat, Put>,
    phase: Phase,
    acked: set<Key>)  // history: keys acknowledged since the barrier last began

  datatype Step =
    | BeginSpan(w: nat) | Observe(w: nat, k: Key) | DedupHit(w: nat, k: Key)
    | Append(w: nat, k: Key) | EndSpan(w: nat) | Rotate(id: nat)
    | BeginPut(p: nat, name: string, root: Key) | Visit(p: nat, k: Key)
    | ObserveClosure(p: nat) | StoreRef(p: nat) | EndPut(p: nat) | DeleteRef(name: string)
    | LockForSnapshot | StartBarrier | ReadRoots | UnlockSnapshot
    | TakeSnapshot | MarkKey(k: Key) | FinishMark | LockForSweep
    | TakeGrey(victims: set<nat>) | CopyKey(k: Key) | RemoveVictims | FailSweep | UnlockSweep
    | AbortCycle | WipeRefs | WipeObjects

  function InSegments(sealed: map<nat, set<Key>>): set<Key> {
    set id, k | id in sealed && k in sealed[id] :: k
  }

  function Stored(s: State): set<Key> { s.active + InSegments(s.sealed) }

  /** What remains once the victims are unlinked. */
  function Survivors(s: State, victims: set<nat>): set<Key> {
    s.active + InSegments(s.sealed - victims)
  }

  /** The cycle holds the reference lock exclusively. */
  predicate Exclusive(phase: Phase) {
    phase.SnapshotLocked? || phase.BarrierOn? || phase.RootsRead? || phase.SweepLocked?
    || phase.Copying? || phase.Swept?
  }

  predicate NoHolders(s: State) { |s.spans| == 0 && |s.puts| == 0 }

  function Grey(s: State, ks: set<Key>): set<Key> {
    if s.capturing then s.grey + ks else s.grey
  }

  /** A walk gets past `k` when it is a leaf or its body decodes. */
  predicate Readable(g: Graph, k: Key) { IsLeafType(k) || k in g }

  /** A key determines its payload, so `g` gives, once and for all, the children
      of every object that decodes. */
  predicate Enabled(g: Graph, s: State, step: Step) {
    match step
    case BeginSpan(w) => !Exclusive(s.phase) && w !in s.spans
    case Observe(w, k) => w in s.spans
    case DedupHit(w, k) => w in s.spans && k in s.spans[w].observed && k in Stored(s)
    case Append(w, k) => w in s.spans && k in s.spans[w].observed
    case EndSpan(w) => w in s.spans
    case Rotate(id) => id !in s.sealed
    case BeginPut(p, name, root) => !Exclusive(s.phase) && !s.phase.Wiping? && p !in s.puts
    case Visit(p, k) =>
      && p in s.puts && s.puts[p].Walking? && k in s.puts[p].pending
      && k in Stored(s) && Readable(g, k)
    case ObserveClosure(p) => p in s.puts && s.puts[p].Walking? && s.puts[p].pending == {}
    case StoreRef(p) => p in s.puts && s.puts[p].Ready?
    case EndPut(p) => p in s.puts
    case DeleteRef(name) => name in s.refs
    case LockForSnapshot => s.phase.Idle? && NoHolders(s)
    case StartBarrier => s.phase.SnapshotLocked?
    case ReadRoots => s.phase.BarrierOn?
    case UnlockSnapshot => s.phase.RootsRead?
    case TakeSnapshot => s.phase.Snapshotted?
    case MarkKey(k) =>
      && s.phase.Marking? && k in s.phase.todo && k in s.phase.snapshot && Readable(g, k)
    case FinishMark => s.phase.Marking? && s.phase.todo == {}
    case LockForSweep => s.phase.Marked? && NoHolders(s)
    case TakeGrey(victims) => s.phase.SweepLocked? && victims <= s.sealed.Keys
    case CopyKey(k) => s.phase.Copying? && k in s.phase.uncopied
    case RemoveVictims => s.phase.Copying? && s.phase.uncopied == {}
    case FailSweep => s.phase.Copying?
    case UnlockSweep => s.phase.Swept?
    case AbortCycle =>
      s.phase.Snapshotted? || s.phase.Marking? || s.phase.Marked? || s.phase.SweepLocked?
    case WipeRefs => s.phase.Idle? && |s.puts| == 0
    case WipeObjects => s.phase.Wiping?
  }

  function KeySet(ks: seq<Key>): set<Key> { set k | k in ks }

  function ApplySpan(s: State, w: nat, span: Span): State {
    s.(spans := s.spans[w := span])
  }

  function Apply(g: Graph, s: State, step: Step): State
    requires Enabled(g, s, step)
  {
    match step
    case BeginSpan(w) => ApplySpan(s, w, Span({}, {}))
    case Observe(w, k) =>
      ApplySpan(s, w, s.spans[w].(observed := s.spans[w].observed + {k})).(grey := Grey(s, {k}))
    case DedupHit(w, k) =>
      ApplySpan(s, w, s.spans[w].(acked := s.spans[w].acked + {k})).(acked := s.acked + {k})
    case Append(w, k) =>
      ApplySpan(s, w, s.spans[w].(acked := s.spans[w].acked + {k}))
        .(active := s.active + {k}, acked := s.acked + {k})
    case EndSpan(w) => s.(spans := s.spans - {w})
    case Rotate(id) => s.(sealed := s.sealed[id := s.active], active := {})
    case BeginPut(p, name, root) => s.(puts := s.puts[p := Walking(name, root, {root}, {})])
    case Visit(p, k) =>
      var put := s.puts[p];
      var visited := put.visited + {k};
      s.(puts := s.puts[p := put.(visited := visited,
                                  pending := put.pending + KeySet(Next(g, k)) - visited)])
    case ObserveClosure(p) =>
      var put := s.puts[p];
      s.(puts := s.puts[p := Ready(put.name, put.root)], grey := Grey(s, put.visited))
    case StoreRef(p) =>
      var put := s.puts[p];
      s.(puts := s.puts[p := Published(put.name, put.root)], refs := s.refs[put.name := put.root])
    case EndPut(p) => s.(puts := s.puts - {p})
    case DeleteRef(name) => s.(refs := s.refs - {name})
    case LockForSnapshot => s.(phase := SnapshotLocked)
    case StartBarrier => s.(phase := BarrierOn, grey := {}, capturing := true, acked := {})
    case ReadRoots => s.(phase := RootsRead(s.refs.Values))
    case UnlockSnapshot => s.(phase := Snapshotted(s.phase.roots))
    case TakeSnapshot => s.(phase := Marking(s.phase.roots, Stored(s), {}, s.phase.roots))
    case MarkKey(k) =>
      if k in s.phase.marked then s.(phase := s.phase.(todo := s.phase.todo - {k}))
      else s.(phase := s.phase.(marked := s.phase.marked + {k},
                                todo := s.phase.todo - {k} + KeySet(Next(g, k))))
    case FinishMark => s.(phase := Marked(s.phase.roots, s.phase.marked))
    case LockForSweep => s.(phase := SweepLocked(s.phase.roots, s.phase.marked))
    case TakeGrey(victims) =>
      var live := s.phase.marked + s.grey;
      var doomed := set id, k | id in victims && id in s.sealed && k in s.sealed[id] :: k;
      s.(phase := Copying(live, victims, Survivors(s, victims), live * doomed), grey := {}, capturing := false)
    case CopyKey(k) =>
      s.(phase := s.phase.(uncopied := s.phase.uncopied - {k}),
         active := if k in Survivors(s, s.phase.victims) then s.active else s.active + {k})
    case RemoveVictims => s.(phase := Swept, sealed := s.sealed - s.phase.victims)
    case FailSweep => s.(phase := Swept)
    case UnlockSweep => s.(phase := Idle)
    case AbortCycle => s.(phase := Idle, grey := {}, capturing := false)
    case WipeRefs => s.(phase := Wiping, refs := map[])
    case WipeObjects =>
      s.(phase := Idle, sealed := map[], active := {}, acked := {},
         spans := map w | w in s.spans :: s.spans[w].(acked := {}))
  }

  // ------------------------------------------------------------- invariant

  /** Everything below `r` is stored and readable. */
  ghost predicate Whole(g: Graph, s: State, r: Key) {
    forall k :: Reaches(g, r, k) ==> k in Stored(s) && Readable(g, k)
  }

  /** Everything below `r` is in `ks`. */
  ghost predicate Covers(g: Graph, ks: set<Key>, r: Key) {
    forall k :: Reaches(g, r, k) ==> k in ks
  }

  /** The safety property: no stored reference dangles. */
  ghost predicate Safe(g: Graph, s: State) {
    forall n :: n in s.refs ==> Whole(g, s, s.refs[n])
  }

  ghost predicate LocksOk(s: State) {
    && (Exclusive(s.phase) ==> s.spans == map[] && s.puts == map[])
    && (s.phase.Wiping? ==> s.puts == map[] && s.refs == map[])
    && (s.capturing <==>
        s.phase.BarrierOn? || s.phase.RootsRead? || s.phase.Snapshotted? || s.phase.Marking?
        || s.phase.Marked? || s.phase.SweepLocked?)
  }

  ghost predicate PutOk(g: Graph, s: State, put: Put) {
    match put
    case Walking(_, root, pending, visited) =>
      && root in visited + pending
      && (forall v :: v in visited ==> v in Stored(s) && Readable(g, v))
      && (forall v, k :: v in visited && k in Next(g, v) ==> k in visited + pending)
    case Ready(_, root) => Whole(g, s, root) && (s.capturing ==> Covers(g, s.grey, root))
    case Published(_, root) => Whole(g, s, root) && (s.capturing ==> Covers(g, s.grey, root))
  }

  ghost predicate PutsOk(g: Graph, s: State) {
    forall p :: p in s.puts ==> PutOk(g, s, s.puts[p])
  }

  /** Each reference was in the snapshot, or was published behind the barrier. */
  ghost predicate RootsOk(g: Graph, s: State, roots: set<Key>) {
    && (forall n :: n in s.refs ==> s.refs[n] in roots || Covers(g, s.grey, s.refs[n]))
    && (forall r :: r in roots ==> Whole(g, s, r))
  }

  ghost predicate FromRoots(g: Graph, roots: set<Key>, k: Key) {
    exists r :: r in roots && Reaches(g, r, k)
  }

  ghost predicate MarkOk(g: Graph, roots: set<Key>, snapshot: set<Key>,
                         marked: set<Key>, todo: set<Key>)
  {
    && roots <= marked + todo
    && (forall v, k :: v in marked && k in Next(g, v) ==> k in marked + todo)
    && (forall k :: k in marked + todo ==> FromRoots(g, roots, k))
    && (forall r :: r in roots ==> Covers(g, snapshot, r))
  }

  /** The mark is exactly what the snapshot's roots reach. */
  ghost predicate MarkedOk(g: Graph, roots: set<Key>, marked: set<Key>) {
    forall k :: k in marked <==> FromRoots(g, roots, k)
  }

  ghost predicate CycleOk(g: Graph, s: State) {
    match s.phase
    case RootsRead(roots) => RootsOk(g, s, roots)
    case Snapshotted(roots) => RootsOk(g, s, roots)
    case Marking(roots, snapshot, marked, todo) =>
      RootsOk(g, s, roots) && MarkOk(g, roots, snapshot, marked, todo)
    case Marked(roots, marked) => RootsOk(g, s, roots) && MarkedOk(g, roots, marked)
    case SweepLocked(roots, marked) => RootsOk(g, s, roots) && MarkedOk(g, roots, marked)
    case Copying(live, victims, kept, uncopied) =>
      && (forall n :: n in s.refs ==> Covers(g, live, s.refs[n]))
      && (forall k :: k in live && k in Stored(s) ==> k in uncopied || k in Survivors(s, victims))
      && kept <= Survivors(s, victims) <= kept + live
      && uncopied <= Stored(s) && uncopied <= live && victims <= s.sealed.Keys
      && s.acked <= live
    case _ => true
  }

  ghost predicate AcksOk(s: State) {
    && s.acked <= Stored(s)
    && (s.capturing ==> s.acked <= s.grey)
    && (forall w :: w in s.spans ==> s.spans[w].acked <= s.acked)
    && (forall w :: w in s.spans && s.capturing ==> s.spans[w].observed <= s.grey)
  }

  ghost predicate Inv(g: Graph, s: State) {
    Safe(g, s) && LocksOk(s) && PutsOk(g, s) && CycleOk(g, s) && AcksOk(s)
  }

  ghost predicate Init(s: State) {
    && s.refs == map[] && s.spans == map[] && s.puts == map[] && s.phase == Idle
    && !s.capturing && s.grey == {} && s.acked == {}
  }

  // ---------------------------------------------------- one step preserves

  /** A step that only adds objects and grey keys, drops references and stays in
      its phase. */
  ghost predicate Grows(s: State, t: State) {
    && Stored(s) <= Stored(t) && s.grey <= t.grey && s.capturing == t.capturing
    && s.phase == t.phase
    && (forall n :: n in t.refs ==> n in s.refs && t.refs[n] == s.refs[n])
  }

  lemma GrowthKeeps(g: Graph, s: State, t: State)
    requires Inv(g, s) && Grows(s, t)
    ensures Safe(g, t)
    ensures !s.phase.Copying? ==> CycleOk(g, t)
    ensures forall p :: p in s.puts ==> PutOk(g, t, s.puts[p])
  {
    hide Inv, Grows, Safe, CycleOk, PutOk;
    PutsGrow(g, s, t);
    RefsGrow(g, s, t);
    if !s.phase.Copying? { CycleGrows(g, s, t); }
  }

  lemma RefsGrow(g: Graph, s: State, t: State)
    requires Inv(g, s) && Grows(s, t)
    ensures Safe(g, t)
  {
    hide Reaches, Next, CycleOk, PutOk;
  }

  lemma CycleGrows(g: Graph, s: State, t: State)
    requires Inv(g, s) && Grows(s, t) && !s.phase.Copying?
    ensures CycleOk(g, t)
  {
    hide Reaches, Next, PutOk, Safe;
  }

  lemma PutsGrow(g: Graph, s: State, t: State)
    requires Inv(g, s) && Grows(s, t)
    ensures forall p :: p in s.puts ==> PutOk(g, t, s.puts[p])
  {
    hide Reaches, Next, CycleOk;
    forall p | p in s.puts ensures PutOk(g, t, s.puts[p]) {
      assert PutOk(g, s, s.puts[p]);
    }
  }

  lemma SpanStepKeeps(g: Graph, s: State, step: Step)
    requires Inv(g, s) && Enabled(g, s, step)
    requires step.BeginSpan? || step.Observe? || step.DedupHit? || step.Append? || step.EndSpan?
    ensures Inv(g, Apply(g, s, step))
  {
    hide Safe, CycleOk, PutOk;
    var t := Apply(g, s, step);
    assert Grows(s, t);
    GrowthKeeps(g, s, t);
  }

  /** Sealing the active segment moves records without changing what is stored. */
  lemma RotateStored(s: State, id: nat)
    requires id !in s.sealed
    ensures Stored(s.(sealed := s.sealed[id := s.active], active := {})) == Stored(s)
    ensures forall victims :: id !in victims ==>
              Survivors(s.(sealed := s.sealed[id := s.active], active := {}), victims)
              == Survivors(s, victims)
  {
    var t := s.(sealed := s.sealed[id := s.active], active := {});
    forall k | k in Stored(s) ensures k in Stored(t) {
      if k in s.active { assert k in t.sealed[id]; }
      else {
        var i :| i in s.sealed && k in s.sealed[i];
        assert k in t.sealed[i];
      }
    }
    forall victims | id !in victims ensures Survivors(t, victims) == Survivors(s, victims) {
      var kept, kept' := s.sealed - victims, t.sealed - victims;
      assert kept' == kept[id := s.active];
      forall k | k in Survivors(s, victims) ensures k in Survivors(t, victims) {
        if k in s.active { assert k in kept'[id]; }
        else {
          var i :| i in kept && k in kept[i];
          assert k in kept'[i];
        }
      }
    }
  }

  lemma RotateKeeps(g: Graph, s: State, step: Step)
    requires Inv(g, s) && Enabled(g, s, step) && step.Rotate?
    ensures Inv(g, Apply(g, s, step))
  {
    var t := Apply(g, s, step);
    RotateStored(s, step.id);
    GrowthKeeps(g, s, t);
  }

  lemma DeleteKeeps(g: Graph, s: State, step: Step)
    requires Inv(g, s) && Enabled(g, s, step) && step.DeleteRef?
    ensures Inv(g, Apply(g, s, step))
  {
    GrowthKeeps(g, s, Apply(g, s, step));
  }

  /** Visiting one key moves its children to the pending side. */
  lemma VisitStaysClosed(g: Graph, visited: set<Key>, pending: set<Key>, k: Key)
    requires forall v, ck :: v in visited && ck in Next(g, v) ==> ck in visited + pending
    ensures var seen := visited + {k};
            forall v, ck :: v in seen && ck in Next(g, v) ==>
              ck in seen + (pending + KeySet(Next(g, k)) - seen)
  {
    var seen := visited + {k};
    forall v, ck | v in seen && ck in Next(g, v)
      ensures ck in seen + (pending + KeySet(Next(g, k)) - seen)
    {
      if v == k { assert ck in KeySet(Next(g, k)); } else { assert ck in visited + pending; }
    }
  }

  lemma VisitKeeps(g: Graph, s: State, step: Step)
    requires Inv(g, s) && Enabled(g, s, step) && step.Visit?
    ensures PutOk(g, s, Apply(g, s, step).puts[step.p])
  {
    assert PutOk(g, s, s.puts[step.p]);
    var put := s.puts[step.p];
    VisitStaysClosed(g, put.visited, put.pending, step.k);
  }

  lemma WalkKeeps(g: Graph, s: State, step: Step)
    requires Inv(g, s) && Enabled(g, s, step)
    requires step.BeginPut? || step.Visit? || step.EndPut?
    ensures Inv(g, Apply(g, s, step))
  {
    hide Safe, CycleOk, Whole, Covers, Reaches;
    var t := Apply(g, s, step);
    GrowthKeeps(g, s, t);
    if step.Visit? { VisitKeeps(g, s, step); }
  }

  /** A finished walk has seen everything below its root. */
  lemma WalkCovers(g: Graph, s: State, put: Put)
    requires PutOk(g, s, put) && put.Walking? && put.pending == {}
    ensures Covers(g, put.visited, put.root) && Whole(g, s, put.root)
  {
    ClosedHoldsReachable(g, put.visited, put.root);
  }

  lemma ObserveClosureKeeps(g: Graph, s: State, step: Step)
    requires Inv(g, s) && Enabled(g, s, step) && step.ObserveClosure?
    ensures Inv(g, Apply(g, s, step))
  {
    hide Safe, CycleOk, Reaches;
    var t := Apply(g, s, step);
    GrowthKeeps(g, s, t);
    WalkCovers(g, s, s.puts[step.p]);
  }

  /** Publishing a walked root keeps the reference side of the cycle invariant:
      its closure is stored, and grey while the barrier is on. */
  lemma StoreRefRoots(g: Graph, s: State, t: State, n: string, r: Key, roots: set<Key>)
    requires RootsOk(g, s, roots) && Covers(g, s.grey, r)
    requires t.refs == s.refs[n := r] && t.grey == s.grey && Stored(t) == Stored(s)
    ensures RootsOk(g, t, roots)
  {
  }

  lemma StoreRefKeeps(g: Graph, s: State, step: Step)
    requires Inv(g, s) && Enabled(g, s, step) && step.StoreRef?
    ensures Inv(g, Apply(g, s, step))
  {
    var t := Apply(g, s, step);
    var put := s.puts[step.p];
    assert PutOk(g, s, put);
    assert Stored(s) == Stored(t);
    forall p | p in t.puts ensures PutOk(g, t, t.puts[p]) { assert PutOk(g, s, s.puts[p]); }
    if s.phase.Snapshotted? || s.phase.Marking? || s.phase.Marked? {
      StoreRefRoots(g, s, t, put.name, put.root, s.phase.roots);
    }
  }

  /** A step that moves the cycle on and touches nothing else. */
  lemma PhaseStepKeeps(g: Graph, s: State, phase: Phase)
    requires Inv(g, s)
    ensures var t := s.(phase := phase); Safe(g, t) && PutsOk(g, t) && AcksOk(t)
  {
    var t := s.(phase := phase);
    assert Stored(s) == Stored(t);
    forall p | p in t.puts ensures PutOk(g, t, t.puts[p]) { assert PutOk(g, s, s.puts[p]); }
  }

  lemma SnapshotKeeps(g: Graph, s: State, step: Step)
    requires Inv(g, s) && Enabled(g, s, step)
    requires step.LockForSnapshot? || step.StartBarrier? || step.ReadRoots? || step.UnlockSnapshot?
    ensures Inv(g, Apply(g, s, step))
  {
    assert Stored(Apply(g, s, step)) == Stored(s);
  }

  /** The reference side of the cycle invariant survives a phase change. */
  lemma RootsFrame(g: Graph, s: State, phase: Phase, roots: set<Key>)
    requires RootsOk(g, s, roots)
    ensures RootsOk(g, s.(phase := phase), roots)
  {
    assert Stored(s.(phase := phase)) == Stored(s);
  }

  lemma FreshMarkOk(g: Graph, s: State, roots: set<Key>)
    requires RootsOk(g, s, roots)
    ensures MarkOk(g, roots, Stored(s), {}, roots)
  {
    forall k | k in roots ensures FromRoots(g, roots, k) { ReachesSelf(g, k); }
  }

  lemma TakeSnapshotKeeps(g: Graph, s: State, step: Step)
    requires Inv(g, s) && Enabled(g, s, step) && step.TakeSnapshot?
    ensures Inv(g, Apply(g, s, step))
  {
    var t := Apply(g, s, step);
    PhaseStepKeeps(g, s, t.phase);
    RootsFrame(g, s, t.phase, s.phase.roots);
    FreshMarkOk(g, s, s.phase.roots);
  }

  lemma ChildrenFromRoots(g: Graph, roots: set<Key>, k: Key)
    requires FromRoots(g, roots, k)
    ensures forall ck :: ck in Next(g, k) ==> FromRoots(g, roots, ck)
  {
    var r :| r in roots && Reaches(g, r, k);
    forall ck | ck in Next(g, k) ensures FromRoots(g, roots, ck) { ReachesStep(g, r, k, ck); }
  }

  /** Marking one key moves its children to the unvisited side. */
  lemma MarkStaysClosed(g: Graph, marked: set<Key>, todo: set<Key>, k: Key)
    requires forall v, ck :: v in marked && ck in Next(g, v) ==> ck in marked + todo
    ensures forall v, ck :: v in marked + {k} && ck in Next(g, v) ==>
              ck in marked + {k} + (todo - {k} + KeySet(Next(g, k)))
  {
    forall v, ck | v in marked + {k} && ck in Next(g, v)
      ensures ck in marked + {k} + (todo - {k} + KeySet(Next(g, k)))
    {
      if v == k { assert ck in KeySet(Next(g, k)); } else { assert ck in marked + todo; }
    }
  }

  lemma MarkKeyOk(g: Graph, roots: set<Key>, snapshot: set<Key>, marked: set<Key>, todo: set<Key>, k: Key)
    requires MarkOk(g, roots, snapshot, marked, todo) && k in todo
    ensures MarkOk(g, roots, snapshot, marked + {k}, todo - {k} + KeySet(Next(g, k)))
  {
    ChildrenFromRoots(g, roots, k);
    MarkStaysClosed(g, marked, todo, k);
    var kids := KeySet(Next(g, k));
    forall x | x in marked + {k} + (todo - {k} + kids) ensures FromRoots(g, roots, x) {
      if x in kids { assert x in Next(g, k); } else { assert x in marked + todo; }
    }
  }

  /** Popping a key that is already marked. */
  lemma SkipKeyOk(g: Graph, roots: set<Key>, snapshot: set<Key>, marked: set<Key>, todo: set<Key>, k: Key)
    requires MarkOk(g, roots, snapshot, marked, todo) && k in marked
    ensures MarkOk(g, roots, snapshot, marked, todo - {k})
  {
    assert marked + (todo - {k}) == marked + todo;
  }

  lemma MarkingKeeps(g: Graph, s: State, phase: Phase)
    requires Inv(g, s) && s.phase.Marking? && phase.Marking? && phase.roots == s.phase.roots
    requires MarkOk(g, phase.roots, phase.snapshot, phase.marked, phase.todo)
    ensures Inv(g, s.(phase := phase))
  {
    hide MarkOk, Reaches;
    PhaseStepKeeps(g, s, phase);
    RootsFrame(g, s, phase, s.phase.roots);
  }

  lemma MarkKeyKeeps(g: Graph, s: State, step: Step)
    requires Inv(g, s) && Enabled(g, s, step) && step.MarkKey?
    ensures Inv(g, Apply(g, s, step))
  {
    var ph := s.phase;
    if step.k in ph.marked {
      SkipKeyOk(g, ph.roots, ph.snapshot, ph.marked, ph.todo, step.k);
      MarkingKeeps(g, s, ph.(todo := ph.todo - {step.k}));
    } else {
      MarkKeyOk(g, ph.roots, ph.snapshot, ph.marked, ph.todo, step.k);
      MarkingKeeps(g, s, ph.(marked := ph.marked + {step.k},
                             todo := ph.todo - {step.k} + KeySet(Next(g, step.k))));
    }
  }

  /** With nothing left to visit the mark is closed, so it is exactly what the
      roots reach. */
  lemma MarkIsExact(g: Graph, roots: set<Key>, snapshot: set<Key>, marked: set<Key>)
    requires MarkOk(g, roots, snapshot, marked, {})
    ensures MarkedOk(g, roots, marked)
  {
    hide Reaches;
    forall k | FromRoots(g, roots, k) ensures k in marked {
      var r :| r in roots && Reaches(g, r, k);
      ClosedHoldsReachable(g, marked, r);
    }
  }

  lemma FinishMarkKeeps(g: Graph, s: State, step: Step)
    requires Inv(g, s) && Enabled(g, s, step) && step.FinishMark?
    ensures Inv(g, Apply(g, s, step))
  {
    var t := Apply(g, s, step);
    PhaseStepKeeps(g, s, t.phase);
    RootsFrame(g, s, t.phase, s.phase.roots);
    MarkIsExact(g, s.phase.roots, s.phase.snapshot, s.phase.marked);
  }

  lemma LockForSweepKeeps(g: Graph, s: State, step: Step)
    requires Inv(g, s) && Enabled(g, s, step) && step.LockForSweep?
    ensures Inv(g, Apply(g, s, step))
  {
    var t := Apply(g, s, step);
    PhaseStepKeeps(g, s, t.phase);
    RootsFrame(g, s, t.phase, s.phase.roots);
  }

  lemma UnlockSweepKeeps(g: Graph, s: State, step: Step)
    requires Inv(g, s) && Enabled(g, s, step)
    requires step.FailSweep? || step.UnlockSweep?
    ensures Inv(g, Apply(g, s, step))
  {
    PhaseStepKeeps(g, s, Apply(g, s, step).phase);
  }

  lemma AbortKeeps(g: Graph, s: State, step: Step)
    requires Inv(g, s) && Enabled(g, s, step) && step.AbortCycle?
    ensures Inv(g, Apply(g, s, step))
  {
    var t := Apply(g, s, step);
    assert Stored(s) == Stored(t);
    forall p | p in t.puts ensures PutOk(g, t, t.puts[p]) { assert PutOk(g, s, s.puts[p]); }
  }

  lemma TakeGreyKeeps(g: Graph, s: State, step: Step)
    requires Inv(g, s) && Enabled(g, s, step) && step.TakeGrey?
    ensures Inv(g, Apply(g, s, step))
  {
    var t := Apply(g, s, step);
    assert Stored(s) == Stored(t);
    var kept := s.sealed - step.victims;
    forall n | n in t.refs ensures Covers(g, t.phase.live, t.refs[n]) {
      assert forall k :: Reaches(g, s.refs[n], k) && s.refs[n] in s.phase.roots
                         ==> FromRoots(g, s.phase.roots, k);
    }
    forall k | k in t.phase.live && k in Stored(t)
      ensures k in t.phase.uncopied || k in Survivors(t, step.victims)
    {
      if k !in s.active {
        var i :| i in s.sealed && k in s.sealed[i];
        if i !in step.victims { assert i in kept && k in kept[i]; }
      }
    }
  }

  lemma CopyKeeps(g: Graph, s: State, step: Step)
    requires Inv(g, s) && Enabled(g, s, step) && step.CopyKey?
    ensures Inv(g, Apply(g, s, step))
  {
    var t := Apply(g, s, step);
    var victims := s.phase.victims;
    assert Stored(s) == Stored(t);
    assert Survivors(t, victims) == Survivors(s, victims) + {step.k};
  }

  /** Unlinking the victims takes nothing a reference or an acknowledgement
      needs. */
  lemma RemoveKeeps(g: Graph, s: State, step: Step)
    requires Inv(g, s) && Enabled(g, s, step) && step.RemoveVictims?
    ensures Inv(g, Apply(g, s, step))
    ensures Stored(Apply(g, s, step)) == Survivors(s, s.phase.victims)
  {
    var t := Apply(g, s, step);
    assert Stored(t) == Survivors(s, s.phase.victims);
  }

  lemma WipeKeeps(g: Graph, s: State, step: Step)
    requires Inv(g, s) && Enabled(g, s, step)
    requires step.WipeRefs? || step.WipeObjects?
    ensures Inv(g, Apply(g, s, step))
  {
  }

  lemma StepKeeps(g: Graph, s: State, step: Step)
    requires Inv(g, s) && Enabled(g, s, step)
    ensures Inv(g, Apply(g, s, step))
  {
    hide Inv, Enabled, Apply;
    match step
    case Rotate(_) => RotateKeeps(g, s, step);
    case BeginPut(_, _, _) => WalkKeeps(g, s, step);
    case Visit(_, _) => WalkKeeps(g, s, step);
    case EndPut(_) => WalkKeeps(g, s, step);
    case ObserveClosure(_) => ObserveClosureKeeps(g, s, step);
    case StoreRef(_) => StoreRefKeeps(g, s, step);
    case DeleteRef(_) => DeleteKeeps(g, s, step);
    case LockForSnapshot => SnapshotKeeps(g, s, step);
    case StartBarrier => SnapshotKeeps(g, s, step);
    case ReadRoots => SnapshotKeeps(g, s, step);
    case UnlockSnapshot => SnapshotKeeps(g, s, step);
    case TakeSnapshot => TakeSnapshotKeeps(g, s, step);
    case MarkKey(_) => MarkKeyKeeps(g, s, step);
    case FinishMark => FinishMarkKeeps(g, s, step);
    case TakeGrey(_) => TakeGreyKeeps(g, s, step);
    case CopyKey(_) => CopyKeeps(g, s, step);
    case RemoveVictims => RemoveKeeps(g, s, step);
    case LockForSweep => LockForSweepKeeps(g, s, step);
    case FailSweep => UnlockSweepKeeps(g, s, step);
    case UnlockSweep => UnlockSweepKeeps(g, s, step);
    case AbortCycle => AbortKeeps(g, s, step);
    case WipeRefs => WipeKeeps(g, s, step);
    case WipeObjects => WipeKeeps(g, s, step);
    case _ => SpanStepKeeps(g, s, step);
  }

  // ------------------------------------------------------------ whole runs

  ghost predicate Successor(g: Graph, s: State, t: State) {
    exists step :: Enabled(g, s, step) && t == Apply(g, s, step)
  }

  ghost predicate Run(g: Graph, run: seq<State>) {
    && |run| > 0 && Init(run[0])
    && forall i :: 0 <= i < |run| - 1 ==> Successor(g, run[i], run[i + 1])
  }

  lemma SuccessorKeepsInv(g: Graph, s: State, t: State)
    requires Inv(g, s) && Successor(g, s, t)
    ensures Inv(g, t)
  {
    var step :| Enabled(g, s, step) && t == Apply(g, s, step);
    StepKeeps(g, s, step);
  }

  lemma InitInv(g: Graph, s: State)
    requires Init(s)
    ensures Inv(g, s)
  {
  }

  lemma {:induction false} RunKeepsInv(g: Graph, run: seq<State>, i: nat)
    requires Run(g, run) && i < |run|
    ensures Inv(g, run[i])
  {
    if i == 0 {
      InitInv(g, run[0]);
    } else {
      RunKeepsInv(g, run, i - 1);
      assert Successor(g, run[i - 1], run[i - 1 + 1]);
      SuccessorKeepsInv(g, run[i - 1], run[i]);
    }
  }

  /** GC safety: in every state of every run, whatever a stored reference reaches
      is stored, and so is every key a running span was told is stored. */
  lemma NothingReferencedIsLost(g: Graph, run: seq<State>, i: nat)
    requires Run(g, run) && i < |run|
    ensures forall n, k :: n in run[i].refs && Reaches(g, run[i].refs[n], k) ==> k in Stored(run[i])
    ensures forall w, k :: w in run[i].spans && k in run[i].spans[w].acked ==> k in Stored(run[i])
  {
    RunKeepsInv(g, run, i);
    forall n, k | n in run[i].refs && Reaches(g, run[i].refs[n], k) ensures k in Stored(run[i]) {
      assert Whole(g, run[i], run[i].refs[n]);
    }
  }

  /** A mark never meets a key missing from its snapshot or an object that does
      not decode: the only step left to it is to go on. */
  lemma MarkNeverMissesAKey(g: Graph, run: seq<State>, i: nat, k: Key)
    requires Run(g, run) && i < |run| && run[i].phase.Marking? && k in run[i].phase.todo
    ensures Enabled(g, run[i], MarkKey(k))
  {
    RunKeepsInv(g, run, i);
    var ph := run[i].phase;
    assert k in ph.marked + ph.todo;
    assert FromRoots(g, ph.roots, k);
    var r :| r in ph.roots && Reaches(g, r, k);
    assert Covers(g, ph.snapshot, r) && Whole(g, run[i], r);
  }

  /** When the mark is done it is exactly what the snapshot's roots reach, so the
      sweep keeps nothing on behalf of the roots that they do not need. */
  lemma MarkIsReachability(g: Graph, run: seq<State>, i: nat)
    requires Run(g, run) && i < |run| && run[i].phase.Marked?
    ensures forall k :: k in run[i].phase.marked <==> FromRoots(g, run[i].phase.roots, k)
  {
    RunKeepsInv(g, run, i);
  }

  /** The acknowledged keys only grow between two barrier starts (a wipe aside). */
  lemma AcksGrow(g: Graph, s: State, step: Step)
    requires Enabled(g, s, step) && !step.StartBarrier? && !step.WipeObjects?
    ensures s.acked <= Apply(g, s, step).acked
  {
    hide Inv, Reaches;
  }

  /** A step other than a barrier start or a wipe. */
  ghost predicate QuietSuccessor(g: Graph, s: State, t: State) {
    exists step :: Enabled(g, s, step) && t == Apply(g, s, step)
                   && !step.StartBarrier? && !step.WipeObjects?
  }

  ghost predicate SameBarrier(g: Graph, run: seq<State>, i: nat, j: nat)
    requires i <= j < |run|
  {
    forall m :: i <= m < j ==> QuietSuccessor(g, run[m], run[m + 1])
  }

  lemma {:induction false} AcksCarry(g: Graph, run: seq<State>, i: nat, j: nat)
    requires i <= j < |run| && SameBarrier(g, run, i, j)
    ensures run[i].acked <= run[j].acked
    decreases j - i
  {
    if i < j {
      AcksCarry(g, run, i, j - 1);
      var m := j - 1;
      assert QuietSuccessor(g, run[m], run[m + 1]);
      var step :| Enabled(g, run[m], step) && run[m + 1] == Apply(g, run[m], step)
                  && !step.StartBarrier? && !step.WipeObjects?;
      AcksGrow(g, run[m], step);
    }
  }

  /** A key acknowledged to a writer stays stored, through any marking, sweeping
      or aborting, until the next cycle begins: the sweep that ends this cycle
      cannot take it. */
  lemma AcknowledgedKeysSurviveTheSweep(g: Graph, run: seq<State>, i: nat, j: nat, k: Key)
    requires Run(g, run) && i <= j < |run| && SameBarrier(g, run, i, j)
    requires k in run[i].acked
    ensures k in Stored(run[j])
  {
    AcksCarry(g, run, i, j);
    RunKeepsInv(g, run, j);
  }

  /** The sweep, from the grey capture to the unlink: of what was stored, exactly
      the live keys and those with a copy outside the victims are left, and
      nothing appears. */
  lemma RemovalIsExact(g: Graph, run: seq<State>, i: nat)
    requires Run(g, run) && i < |run| && Enabled(g, run[i], RemoveVictims)
    ensures var s, t := run[i], Apply(g, run[i], RemoveVictims);
            && Stored(t) <= Stored(s)
            && forall k :: k in Stored(s) ==>
                 (k in Stored(t) <==> k in s.phase.live || k in s.phase.kept)
  {
    RunKeepsInv(g, run, i);
    var s := run[i];
    RemoveKeeps(g, s, RemoveVictims);
    assert Survivors(s, s.phase.victims) <= Stored(s);
  }

  // ------------------------------------------------------ a cycle that sweeps

  /** The states of a cycle over one segment that holds one unreferenced key. */
  ghost function CycleAt(k: Key, i: nat): State
    requires i <= 9
  {
    State(map[], if i < 9 then map[1 := {k}] else map[], {}, {}, 2 <= i < 8, map[], map[], PhaseAt(k, i), {})
  }

  function PhaseAt(k: Key, i: nat): Phase {
    match i
    case 0 => Idle
    case 1 => SnapshotLocked
    case 2 => BarrierOn
    case 3 => RootsRead({})
    case 4 => Snapshotted({})
    case 5 => Marking({}, {k}, {}, {})
    case 6 => Marked({}, {})
    case 7 => SweepLocked({}, {})
    case 8 => Copying({}, {1}, {}, {})
    case _ => Swept
  }

  lemma OneSegment(k: Key, i: nat)
    requires i < 9
    ensures Stored(CycleAt(k, i)) == {k} && Survivors(CycleAt(k, i), {1}) == {} && CycleAt(k, i).refs.Values == {}
  {
    var s := CycleAt(k, i);
    assert k in s.sealed[1];
    assert s.sealed - {1} == map[];
  }

  ghost predicate Via(g: Graph, s: State, step: Step, t: State) {
    Enabled(g, s, step) && t == Apply(g, s, step)
  }

  lemma BarrierSteps(g: Graph, k: Key)
    ensures Via(g, CycleAt(k, 0), LockForSnapshot, CycleAt(k, 1)) && Via(g, CycleAt(k, 1), StartBarrier, CycleAt(k, 2))
  {
  }

  lemma SnapshotSteps(g: Graph, k: Key)
    ensures Via(g, CycleAt(k, 2), ReadRoots, CycleAt(k, 3)) && Via(g, CycleAt(k, 3), UnlockSnapshot, CycleAt(k, 4))
  {
    OneSegment(k, 2);
    hide Stored, Survivors;
  }

  lemma MarkSteps(g: Graph, k: Key)
    ensures Via(g, CycleAt(k, 4), TakeSnapshot, CycleAt(k, 5)) && Via(g, CycleAt(k, 5), FinishMark, CycleAt(k, 6))
  {
    OneSegment(k, 4);
    hide Stored, Survivors;
  }

  lemma LockStep(g: Graph, k: Key)
    ensures Via(g, CycleAt(k, 6), LockForSweep, CycleAt(k, 7))
  {
  }

  lemma GreyStep(g: Graph, k: Key)
    ensures Via(g, CycleAt(k, 7), TakeGrey({1}), CycleAt(k, 8))
  {
    var s := CycleAt(k, 7);
    OneSegment(k, 7);
    hide Stored, Survivors;
    var live := s.phase.marked + s.grey;
    var doomed := set id, x | id in {1} && id in s.sealed && x in s.sealed[id] :: x;
    assert live == {} && live * doomed == {};
    assert Apply(g, s, TakeGrey({1})).phase == Copying(live, {1}, Survivors(s, {1}), live * doomed);
  }

  lemma RemoveStep(g: Graph, k: Key)
    ensures Via(g, CycleAt(k, 8), RemoveVictims, CycleAt(k, 9))
  {
    assert CycleAt(k, 8).sealed - {1} == map[];
  }

  lemma CycleGoesOn(g: Graph, k: Key, i: nat)
    requires i < 9
    ensures Successor(g, CycleAt(k, i), CycleAt(k, i + 1))
  {
    BarrierSteps(g, k);
    SnapshotSteps(g, k);
    MarkSteps(g, k);
    LockStep(g, k);
    GreyStep(g, k);
    RemoveStep(g, k);
    hide CycleAt, Enabled, Apply;
  }

  /** An unreferenced key can be collected: some run ends without it. */
  lemma GarbageCanBeSwept(g: Graph, k: Key) returns (run: seq<State>)
    ensures Run(g, run) && k in Stored(run[0]) && k !in Stored(run[|run| - 1])
  {
    hide CycleAt, Successor, Stored;
    run := seq(10, i requires 0 <= i < 10 => CycleAt(k, i));
    forall i | 0 <= i < |run| - 1 ensures Successor(g, run[i], run[i + 1]) { CycleGoesOn(g, k, i); }
    OneSegment(k, 0);
    CycleEnds(k);
  }

  lemma CycleEnds(k: Key)
    ensures Init(CycleAt(k, 0)) && Stored(CycleAt(k, 9)) == {}
  {
  }
}
