/** The streaming index builder (fstree/index_builder.go): child references are
    collected level by level into runs, a full run becomes a node whose key moves
    up, and `Finish` collapses what is left. */
module IndexBuilding {
  import opened Base
  import opened Keys
  import opened ObjectGraph
  import opened Trees
  import opened Chunker

  /** Where built objects go. The consumer may refuse any of them. */
  class Sink {
    var log: seq<Object>
    const accepts: nat -> bool

    constructor (accepts: nat -> bool)
      ensures log == [] && this.accepts == accepts
    {
      log := [];
      this.accepts := accepts;
    }

    method Emit(o: Object) returns (ok: bool)
      modifies this`log
      ensures ok == accepts(|old(log)|)
      ensures log == if ok then old(log) + [o] else old(log)
    {
      ok := accepts(|log|);
      if ok { log := log + [o]; }
    }
  }

  datatype Level = Level(keys: seq<Key>, seps: seq<Bytes>, runLen: nat)

  // --------------------------------------------- emission order of objects

  /** The keys an index node names. */
  function IndexRefs(p: Payload): seq<Bytes> {
    match p
    case KeyList(cs) => cs
    case PairList(ps) => PairRefs(ps)
    case _ => []
  }

  ghost predicate Before(log: seq<Object>, n: nat, k: Bytes)
    requires n <= |log|
  {
    exists j :: 0 <= j < n && log[j].key == k
  }

  /** Children before parents: every key a node names was emitted earlier, or was
      stored by the caller beforehand. */
  ghost predicate ChildrenFirst(log: seq<Object>, external: set<Key>) {
    forall i, c :: 0 <= i < |log| && c in IndexRefs(log[i].payload) ==>
      c in external || Before(log, i, c)
  }

  ghost predicate Known(log: seq<Object>, external: set<Key>, k: Key) {
    k in external || Before(log, |log|, k)
  }

  lemma KnownGrows(log: seq<Object>, o: Object, external: set<Key>, k: Key)
    requires Known(log, external, k)
    ensures Known(log + [o], external, k)
  {
    if k !in external {
      var j :| 0 <= j < |log| && log[j].key == k;
      assert (log + [o])[j].key == k;
    }
  }

  lemma EmitKeepsOrder(log: seq<Object>, o: Object, external: set<Key>)
    requires ChildrenFirst(log, external)
    requires forall c :: c in IndexRefs(o.payload) ==> c in external || Before(log, |log|, c)
    ensures ChildrenFirst(log + [o], external)
  {
    var more := log + [o];
    forall i, c | 0 <= i < |more| && c in IndexRefs(more[i].payload)
      ensures c in external || Before(more, i, c)
    {
      if c !in external {
        assert Before(log, i, c);
        var j :| 0 <= j < i && log[j].key == c;
        assert more[j].key == c;
      }
    }
  }

  // ----------------------------------------------------- levels of pending trees

  function Pending(levels: seq<seq<Tree>>): nat {
    if levels == [] then 0 else |levels[0]| + Pending(levels[1..])
  }

  function NodeTotal(levels: seq<seq<Tree>>): nat {
    if levels == [] then 0 else NodeCount(levels[0]) + NodeTotal(levels[1..])
  }

  /** The leaves in the order they were added: higher levels hold older ones. */
  function Spine(levels: seq<seq<Tree>>): seq<Tree> {
    if levels == [] then [] else Spine(levels[1..]) + Leaves(levels[0])
  }

  ghost predicate EmptyBelow(levels: seq<seq<Tree>>, l: nat) {
    forall i :: 0 <= i < l && i < |levels| ==> levels[i] == []
  }

  lemma {:induction false} SpineAt(levels: seq<seq<Tree>>, l: nat)
    requires l < |levels| && EmptyBelow(levels, l)
    ensures Spine(levels) == Spine(levels[l + 1..]) + Leaves(levels[l])
    decreases l
  {
    if l > 0 {
      SpineAt(levels[1..], l - 1);
      assert levels[1..][l..] == levels[l + 1..];
      assert levels[0] == [];
    }
  }

  lemma {:induction false} SpineOfEmpty(levels: seq<seq<Tree>>)
    requires EmptyBelow(levels, |levels|)
    ensures Spine(levels) == [] && Pending(levels) == 0 && NodeTotal(levels) == 0
  {
    if levels != [] { SpineOfEmpty(levels[1..]); }
  }

  lemma {:induction false} TotalsUpdate(levels: seq<seq<Tree>>, l: nat, ts: seq<Tree>)
    requires l < |levels|
    ensures Pending(levels[l := ts]) == Pending(levels) - |levels[l]| + |ts|
    ensures NodeTotal(levels[l := ts]) == NodeTotal(levels) - NodeCount(levels[l]) + NodeCount(ts)
    decreases l
  {
    if l == 0 {
      assert levels[l := ts][1..] == levels[1..];
    } else {
      assert levels[l := ts][1..] == levels[1..][l - 1 := ts];
      TotalsUpdate(levels[1..], l - 1, ts);
    }
  }

  lemma {:induction false} AddEmptyLevel(levels: seq<seq<Tree>>)
    ensures Pending(levels + [[]]) == Pending(levels)
    ensures NodeTotal(levels + [[]]) == NodeTotal(levels)
    ensures Spine(levels + [[]]) == Spine(levels)
  {
    if levels == [] {
      assert levels + [[]] == [[]];
      assert [[]][1..] == levels;
    } else {
      assert (levels + [[]])[1..] == levels[1..] + [[]];
      AddEmptyLevel(levels[1..]);
    }
  }

  /** One pending subtree is all there is. */
  lemma LoneTree(levels: seq<seq<Tree>>, l: nat)
    requires l == |levels| - 1 && EmptyBelow(levels, l) && |levels[l]| == 1
    ensures Spine(levels) == Leaves([levels[l][0]]) && NodeTotal(levels) == NodeCount([levels[l][0]])
  {
    assert levels[l] == [levels[l][0]];
    SpineAt(levels, l);
    TotalsUpdate(levels, l, []);
    SpineOfEmpty(levels[l := []]);
  }

  /** Adding one subtree at level `l`, with nothing pending below it. */
  lemma AddAt(levels: seq<seq<Tree>>, l: nat, t: Tree)
    requires l < |levels| && EmptyBelow(levels, l)
    ensures var next := levels[l := levels[l] + [t]];
            && Spine(next) == Spine(levels) + Leaves([t])
            && Pending(next) == Pending(levels) + 1
            && NodeTotal(next) == NodeTotal(levels) + NodeCount([t])
            && EmptyBelow(next, l)
  {
    var next := levels[l := levels[l] + [t]];
    SpineAt(levels, l);
    SpineAt(next, l);
    assert next[l + 1..] == levels[l + 1..];
    LeavesAppend(levels[l], [t]);
    NodeCountAppend(levels[l], [t]);
    TotalsUpdate(levels, l, levels[l] + [t]);
  }

  /** Emptying level `l`, with nothing pending below it. */
  lemma ClearAt(levels: seq<seq<Tree>>, l: nat)
    requires l < |levels| && EmptyBelow(levels, l)
    ensures var next := levels[l := []];
            && Spine(levels) == Spine(next) + Leaves(levels[l])
            && Pending(next) == Pending(levels) - |levels[l]|
            && NodeTotal(next) == NodeTotal(levels) - NodeCount(levels[l])
            && EmptyBelow(next, l + 1)
  {
    var next := levels[l := []];
    SpineAt(levels, l);
    SpineAt(next, l);
    assert next[l + 1..] == levels[l + 1..];
    TotalsUpdate(levels, l, []);
  }

  // ------------------------------------------------------------- builder

  datatype Config = Config(enc: Encoding, ic: ItemChunker, isDir: bool)

  /** A pending subtree: well shaped, wholly emitted, its root known. */
  ghost predicate TreeOk(cf: Config, log: seq<Object>, external: set<Key>, t: Tree) {
    && Proper(cf.enc, cf.isDir, cf.ic.maxRun, t)
    && Emitted(log, cf.isDir, t)
    && Known(log, external, t.key)
  }

  /** A level's fields describe the run of subtrees behind it. */
  ghost predicate LevelOk(cf: Config, log: seq<Object>, external: set<Key>, level: Level, ts: seq<Tree>) {
    && level.keys == KeysOf(ts)
    && level.seps == (if cf.isDir then SepsOf(ts) else [])
    && level.runLen == |ts|
    && forall i :: 0 <= i < |ts| ==> TreeOk(cf, log, external, ts[i])
  }

  lemma TreeOkGrows(cf: Config, log: seq<Object>, o: Object, external: set<Key>, t: Tree)
    requires TreeOk(cf, log, external, t)
    ensures TreeOk(cf, log + [o], external, t)
  {
    EmittedGrows(log, [o], cf.isDir, t);
    KnownGrows(log, o, external, t.key);
  }

  lemma LevelOkGrows(cf: Config, log: seq<Object>, o: Object, external: set<Key>, level: Level, ts: seq<Tree>)
    requires LevelOk(cf, log, external, level, ts)
    ensures LevelOk(cf, log + [o], external, level, ts)
  {
    forall i | 0 <= i < |ts| ensures TreeOk(cf, log + [o], external, ts[i]) {
      TreeOkGrows(cf, log, o, external, ts[i]);
    }
  }

  /** The node closing a run of at least two subtrees. */
  ghost function Closing(cf: Config, ts: seq<Tree>): Tree
    requires |ts| > 0 && EncodeNode(cf.enc, cf.isDir, ts).Success?
  {
    Node(EncodeNode(cf.enc, cf.isDir, ts).value.key, if cf.isDir then ts[|ts| - 1].sep else [], ts)
  }

  lemma RunKeysValid(cf: Config, log: seq<Object>, external: set<Key>, level: Level, ts: seq<Tree>)
    requires LevelOk(cf, log, external, level, ts) && cf.isDir
    ensures forall i :: 0 <= i < |ts| ==> Valid(ts[i].key)
  {
    forall i | 0 <= i < |ts| ensures Valid(ts[i].key) {
      assert TreeOk(cf, log, external, ts[i]);
      ProperKeyValid(cf.enc, cf.ic.maxRun, ts[i]);
    }
  }

  /** Emitting the node keeps the order: its run was emitted before it. */
  lemma ClosingOrder(cf: Config, log: seq<Object>, external: set<Key>, level: Level, ts: seq<Tree>, o: Object)
    requires LevelOk(cf, log, external, level, ts) && ChildrenFirst(log, external)
    requires o.payload == NodeBody(cf.isDir, ts)
    ensures ChildrenFirst(log + [o], external)
  {
    forall c | c in IndexRefs(o.payload) ensures c in external || Before(log, |log|, c) {
      var i :| 0 <= i < |IndexRefs(o.payload)| && c == IndexRefs(o.payload)[i];
      assert c == ts[i].key && TreeOk(cf, log, external, ts[i]);
    }
    EmitKeepsOrder(log, o, external);
  }

  /** And the closed subtree is then as good as its parts. */
  lemma ClosingOk(cf: Config, log: seq<Object>, external: set<Key>, level: Level, ts: seq<Tree>)
    requires LevelOk(cf, log, external, level, ts) && ChildrenFirst(log, external)
    requires 2 <= |ts| <= cf.ic.maxRun
    ensures EncodeNode(cf.enc, cf.isDir, ts).Success?
    ensures var o := EncodeNode(cf.enc, cf.isDir, ts).value;
            TreeOk(cf, log + [o], external, Closing(cf, ts)) && ChildrenFirst(log + [o], external)
  {
    if cf.isDir { RunKeysValid(cf, log, external, level, ts); }
    NodeEncodes(cf.enc, cf.isDir, ts);
    var o := EncodeNode(cf.enc, cf.isDir, ts).value;
    ClosingOrder(cf, log, external, level, ts, o);
    LevelOkGrows(cf, log, o, external, level, ts);
    ClosedTreeOk(cf, log, external, ts, o);
  }

  lemma ClosedTreeOk(cf: Config, log: seq<Object>, external: set<Key>, ts: seq<Tree>, o: Object)
    requires forall i :: 0 <= i < |ts| ==> TreeOk(cf, log + [o], external, ts[i])
    requires 2 <= |ts| <= cf.ic.maxRun
    requires EncodeNode(cf.enc, cf.isDir, ts) == Success(o) && o.payload == NodeBody(cf.isDir, ts)
    ensures TreeOk(cf, log + [o], external, Closing(cf, ts))
  {
    hide EncodeNode, NodeBody;
    assert (log + [o])[|log|] == o;
    assert forall i :: 0 <= i < |ts| ==> TreeOk(cf, log + [o], external, ts[i]);
    assert Before(log + [o], |log + [o]|, o.key);
  }

  /** Everything the builder holds, with the run at level `open` possibly full. */
  ghost predicate StateOk(cf: Config, log: seq<Object>, external: set<Key>,
                          levels: seq<Level>, trees: seq<seq<Tree>>, open: int)
  {
    && cf.ic.Usable() && |levels| == |trees|
    && (forall l :: 0 <= l < |levels| ==> LevelOk(cf, log, external, levels[l], trees[l]))
    && (forall l :: 0 <= l < |trees| ==>
          |trees[l]| <= cf.ic.maxRun && (l != open ==> |trees[l]| < cf.ic.maxRun))
    && ChildrenFirst(log, external)
  }

  /** A key pushed onto the run at level `l`. */
  lemma PushOk(cf: Config, log: seq<Object>, external: set<Key>, levels: seq<Level>,
               trees: seq<seq<Tree>>, l: nat, sep: Bytes, t: Tree)
    requires StateOk(cf, log, external, levels, trees, -1) && l < |levels|
    requires TreeOk(cf, log, external, t) && (cf.isDir ==> t.sep == sep)
    ensures var L := levels[l];
            StateOk(cf, log, external,
                    levels[l := Level(L.keys + [t.key], if cf.isDir then L.seps + [sep] else [], L.runLen + 1)],
                    trees[l := trees[l] + [t]], l)
  {
    var L := levels[l];
    var ts := trees[l] + [t];
    assert LevelOk(cf, log, external, L, trees[l]);
    assert KeysOf(ts) == KeysOf(trees[l]) + [t.key] && SepsOf(ts) == SepsOf(trees[l]) + [t.sep];
    assert LevelOk(cf, log, external,
                   Level(L.keys + [t.key], if cf.isDir then L.seps + [sep] else [], L.runLen + 1), ts);
  }

  /** The run at level `l` dropped. */
  lemma ResetOk(cf: Config, log: seq<Object>, external: set<Key>, levels: seq<Level>,
                trees: seq<seq<Tree>>, l: nat)
    requires StateOk(cf, log, external, levels, trees, l) && l < |levels|
    ensures StateOk(cf, log, external, levels[l := Level([], [], 0)], trees[l := []], -1)
  {
  }

  lemma StateOkGrows(cf: Config, log: seq<Object>, o: Object, external: set<Key>,
                     levels: seq<Level>, trees: seq<seq<Tree>>, open: int)
    requires StateOk(cf, log, external, levels, trees, open) && ChildrenFirst(log + [o], external)
    ensures StateOk(cf, log + [o], external, levels, trees, open)
  {
    forall l | 0 <= l < |levels| ensures LevelOk(cf, log + [o], external, levels[l], trees[l]) {
      LevelOkGrows(cf, log, o, external, levels[l], trees[l]);
    }
  }

  lemma ExternalGrows(cf: Config, log: seq<Object>, external: set<Key>,
                      levels: seq<Level>, trees: seq<seq<Tree>>, k: Key)
    requires StateOk(cf, log, external, levels, trees, -1)
    ensures StateOk(cf, log, external + {k}, levels, trees, -1)
  {
    forall l | 0 <= l < |levels| ensures LevelOk(cf, log, external + {k}, levels[l], trees[l]) {
      forall i | 0 <= i < |trees[l]| ensures TreeOk(cf, log, external + {k}, trees[l][i]) {
        assert TreeOk(cf, log, external, trees[l][i]);
      }
    }
  }

  class IndexBuilder {
    const cf: Config
    var levels: seq<Level>
    ghost var trees: seq<seq<Tree>>   // the subtree behind each pending key
    ghost var built: nat              // index nodes emitted so far
    ghost var external: set<Key>      // leaf keys the caller had stored already

    ghost predicate Ok(log: seq<Object>, open: int)
      reads this
    {
      StateOk(cf, log, external, levels, trees, open)
    }

    ghost predicate Valid(log: seq<Object>)
      reads this
    {
      Ok(log, -1) && built == NodeTotal(trees)
    }

    constructor (cf: Config, ghost log: seq<Object>)
      requires cf.ic.Usable() && ChildrenFirst(log, {})
      ensures levels == [] && trees == [] && built == 0 && external == {}
      ensures this.cf == cf && Valid(log)
    {
      this.cf := cf;
      levels, trees, built, external := [], [], 0, {};
    }

    /** Grows the level list to hold level `l`. */
    method Ensure(l: nat, ghost log: seq<Object>)
      requires Ok(log, -1) && l <= |levels|
      modifies this`levels, this`trees
      ensures Ok(log, -1) && l < |levels|
      ensures |levels| == (if l < |old(levels)| then |old(levels)| else l + 1)
      ensures Pending(trees) == old(Pending(trees)) && Spine(trees) == old(Spine(trees))
      ensures NodeTotal(trees) == old(NodeTotal(trees))
      ensures EmptyBelow(old(trees), l) ==> EmptyBelow(trees, l)
    {
      if l == |levels| {
        AddEmptyLevel(trees);
        levels := levels + [Level([], [], 0)];
        trees := trees + [[]];
      }
    }

    /** Appends one key to the run at level `l`. */
    method Push(l: nat, ck: Key, sep: Bytes, ghost log: seq<Object>, ghost t: Tree)
      requires Ok(log, -1) && l <= |levels| && EmptyBelow(trees, l)
      requires TreeOk(cf, log, external, t) && t.key == ck && (cf.isDir ==> t.sep == sep)
      modifies this`levels, this`trees
      ensures Ok(log, l) && l < |levels| && EmptyBelow(trees, l)
      ensures |levels| == (if l < |old(levels)| then |old(levels)| else l + 1)
      ensures |trees[l]| > 0
      ensures Spine(trees) == old(Spine(trees)) + Leaves([t])
      ensures Pending(trees) == old(Pending(trees)) + 1
      ensures NodeTotal(trees) == old(NodeTotal(trees)) + NodeCount([t])
    {
      Ensure(l, log);
      AddAt(trees, l, t);
      PushOk(cf, log, external, levels, trees, l, sep, t);
      var L := levels[l];
      levels := levels[l := Level(L.keys + [ck], if cf.isDir then L.seps + [sep] else [], L.runLen + 1)];
      trees := trees[l := trees[l] + [t]];
    }

    /** Drops the run at level `l`. */
    method Reset(l: nat, ghost log: seq<Object>)
      requires Ok(log, l) && l < |levels| && EmptyBelow(trees, l)
      modifies this`levels, this`trees
      ensures Ok(log, -1) && EmptyBelow(trees, l + 1) && |levels| == |old(levels)|
      ensures old(Spine(trees)) == Spine(trees) + Leaves(old(trees)[l])
      ensures Pending(trees) == old(Pending(trees)) - |old(trees)[l]|
      ensures NodeTotal(trees) == old(NodeTotal(trees)) - NodeCount(old(trees)[l])
    {
      ClearAt(trees, l);
      ResetOk(cf, log, external, levels, trees, l);
      levels := levels[l := Level([], [], 0)];
      trees := trees[l := []];
    }

    /** Adds one key at level `l`, closing the run there, and any run that fills
        above it, when the chunker says so. Adding `t` appends its leaves; either
        nothing closes and the level list grows to `l` at most, or fewer keys are
        pending than if none had closed. Only a refused object fails it. */
    method Add(sink: Sink, l: nat, ck: Key, sep: Bytes, ghost t: Tree) returns (ok: bool)
      requires Ok(sink.log, -1) && l <= |levels| && EmptyBelow(trees, l)
      requires built == NodeTotal(trees) + NodeCount([t])
      requires TreeOk(cf, sink.log, external, t) && t.key == ck && (cf.isDir ==> t.sep == sep)
      modifies this`levels, this`trees, this`built, sink`log
      ensures old(sink.log) <= sink.log && (!ok ==> !sink.accepts(|sink.log|))
      ensures |sink.log| - |old(sink.log)| == built - old(built)
      ensures ok ==> Valid(sink.log) && EmptyBelow(trees, l)
      ensures ok ==> Spine(trees) == old(Spine(trees)) + Leaves([t])
      ensures ok ==> |levels| > l && |levels| >= |old(levels)|
      ensures ok ==> Pending(trees) <= old(Pending(trees))
                     || (Pending(trees) == old(Pending(trees)) + 1
                         && |levels| == if l < |old(levels)| then |old(levels)| else l + 1)
      decreases Pending(trees) + 1, 1
    {
      Push(l, ck, sep, sink.log, t);
      var sum := if cf.isDir then cf.enc.pairSum(DirPair(sep, ck)) else cf.enc.keySum(ck);
      ok := true;
      if cf.ic.IsBoundary(sum, levels[l].runLen) { ok := CloseLevel(sink, l); }
    }

    /** Turns the run at level `l` into a node and adds the node one level up. */
    method CloseLevel(sink: Sink, l: nat) returns (ok: bool)
      requires Ok(sink.log, l) && l < |levels| && EmptyBelow(trees, l) && |trees[l]| >= 2
      requires built == NodeTotal(trees)
      modifies this`levels, this`trees, this`built, sink`log
      ensures old(sink.log) <= sink.log && (!ok ==> !sink.accepts(|sink.log|))
      ensures |sink.log| - |old(sink.log)| == built - old(built)
      ensures ok ==> Valid(sink.log) && EmptyBelow(trees, l + 1)
      ensures ok ==> Spine(trees) == old(Spine(trees)) && Pending(trees) < old(Pending(trees))
      ensures ok ==> |levels| > l + 1 && |levels| >= |old(levels)|
      decreases Pending(trees), 0
    {
      var obj, sep;
      ghost var t;
      ok, obj, sep, t := EmitNode(sink, l);
      if ok { ok := Add(sink, l + 1, obj.key, sep, t); }
    }

    /** Builds the node over the run at level `l`, clears the run and emits the
        node. */
    method EmitNode(sink: Sink, l: nat) returns (ok: bool, obj: Object, sep: Bytes, ghost t: Tree)
      requires Ok(sink.log, l) && l < |levels| && EmptyBelow(trees, l) && |trees[l]| >= 2
      requires built == NodeTotal(trees)
      modifies this`levels, this`trees, this`built, sink`log
      ensures |levels| == |old(levels)| && EmptyBelow(trees, l + 1)
      ensures !ok ==> sink.log == old(sink.log) && built == old(built) && !sink.accepts(|sink.log|)
      ensures ok ==> sink.log == old(sink.log) + [obj] && built == old(built) + 1
      ensures ok ==> Ok(sink.log, -1) && TreeOk(cf, sink.log, external, t)
      ensures t.key == obj.key && (cf.isDir ==> t.sep == sep)
      ensures old(Spine(trees)) == Spine(trees) + Leaves([t])
      ensures Pending(trees) == old(Pending(trees)) - |old(trees)[l]|
      ensures ok ==> built == NodeTotal(trees) + NodeCount([t])
    {
      obj, sep, t := CutRun(l, sink.log);
      ok := sink.Emit(obj);
      if ok { built := built + 1; }
    }

    /** Builds the node over the run at level `l` and clears the run; once the node
        is emitted everything is in order again. */
    method CutRun(l: nat, ghost log: seq<Object>) returns (obj: Object, sep: Bytes, ghost t: Tree)
      requires Ok(log, l) && l < |levels| && EmptyBelow(trees, l) && |trees[l]| >= 2
      modifies this`levels, this`trees
      ensures |levels| == |old(levels)| && EmptyBelow(trees, l + 1)
      ensures Ok(log + [obj], -1) && TreeOk(cf, log + [obj], external, t)
      ensures t.key == obj.key && (cf.isDir ==> t.sep == sep)
      ensures old(Spine(trees)) == Spine(trees) + Leaves([t])
      ensures Pending(trees) == old(Pending(trees)) - |old(trees)[l]|
      ensures NodeTotal(trees) + NodeCount([t]) == old(NodeTotal(trees)) + 1
    {
      ghost var ts := trees[l];
      ClosingOk(cf, log, external, levels[l], ts);
      t := Closing(cf, ts);
      LeavesOfOne(t);
      NodeCountOfOne(t);
      obj, sep := BuildNode(levels[l], ts, log);
      Reset(l, log);
      StateOkGrows(cf, log, obj, external, levels, trees, -1);
    }

    /** The node over a level's run, from the level's own keys and separators. */
    method BuildNode(L: Level, ghost ts: seq<Tree>, ghost log: seq<Object>) returns (obj: Object, sep: Bytes)
      requires LevelOk(cf, log, external, L, ts) && |ts| > 0
      requires EncodeNode(cf.enc, cf.isDir, ts).Success?
      ensures EncodeNode(cf.enc, cf.isDir, ts) == Success(obj)
      ensures sep == Closing(cf, ts).sep
    {
      hide EncodeDirNode, EncodeFileNode;
      if cf.isDir {
        var pairs := seq(|L.keys|, i requires 0 <= i < |L.keys| => DirPair(L.seps[i], L.keys[i]));
        assert pairs == PairsOf(ts);
        obj := EncodeDirNode(cf.enc, pairs).value;
        sep := L.seps[|L.seps| - 1];
      } else {
        obj := EncodeFileNode(cf.enc, L.keys).value;
        sep := [];
      }
    }

    /** The caller may emit objects of its own, as long as they are not nodes. */
    lemma ValidGrows(log: seq<Object>, o: Object)
      requires Valid(log) && IndexRefs(o.payload) == []
      ensures Valid(log + [o])
    {
      EmitKeepsOrder(log, o, external);
      StateOkGrows(cf, log, o, external, levels, trees, -1);
    }

    /** One leaf-level child. */
    method AddChild(sink: Sink, ck: Key, sep: Bytes, ghost body: Payload) returns (ok: bool)
      requires Valid(sink.log) && (cf.isDir ==> Keys.Valid(ck))
      modifies this, sink`log
      ensures old(sink.log) <= sink.log && (!ok ==> !sink.accepts(|sink.log|))
      ensures |sink.log| - |old(sink.log)| == built - old(built)
      ensures ok ==> Valid(sink.log) && |levels| > 0
      ensures ok ==> Spine(trees) == old(Spine(trees)) + [Leaf(ck, sep, body)]
      ensures external == if Before(old(sink.log), |old(sink.log)|, ck) then old(external) else old(external) + {ck}
    {
      ghost var t := Leaf(ck, sep, body);
      LeavesOfOne(t);
      NodeCountOfOne(t);
      if !Before(sink.log, |sink.log|, ck) {
        ExternalGrows(cf, sink.log, external, levels, trees, ck);
        external := external + {ck};
      }
      ok := Add(sink, 0, ck, sep, t);
    }

    /** A lone key moves up unwrapped. */
    method Promote(sink: Sink, l: nat) returns (ok: bool)
      requires Valid(sink.log) && l < |levels| - 1 && EmptyBelow(trees, l) && |trees[l]| == 1
      modifies this`levels, this`trees, this`built, sink`log
      ensures old(sink.log) <= sink.log && (!ok ==> !sink.accepts(|sink.log|))
      ensures |sink.log| - |old(sink.log)| == built - old(built)
      ensures ok ==> Valid(sink.log) && EmptyBelow(trees, l + 1) && l + 1 < |levels|
      ensures ok ==> Spine(trees) == old(Spine(trees))
      ensures ok ==> Pending(trees) < old(Pending(trees))
                     || (Pending(trees) == old(Pending(trees)) && |levels| == |old(levels)|)
    {
      var ck := levels[l].keys[0];
      var sep := if cf.isDir then levels[l].seps[0] else [];
      ghost var t := trees[l][0];
      assert trees[l] == [t];
      Reset(l, sink.log);
      ok := Add(sink, l + 1, ck, sep, t);
    }

    /** One pass of the closing loop below the root. */
    method FinishLevel(sink: Sink, l: nat) returns (ok: bool)
      requires Valid(sink.log) && l < |levels| && EmptyBelow(trees, l)
      requires |trees[l]| == 1 ==> l < |levels| - 1
      modifies this`levels, this`trees, this`built, sink`log
      ensures old(sink.log) <= sink.log && (!ok ==> !sink.accepts(|sink.log|))
      ensures |sink.log| - |old(sink.log)| == built - old(built)
      ensures ok ==> Valid(sink.log) && EmptyBelow(trees, l + 1) && l + 1 <= |levels|
      ensures ok ==> Spine(trees) == old(Spine(trees))
      ensures ok ==> Pending(trees) < old(Pending(trees))
                     || (Pending(trees) == old(Pending(trees)) && |levels| == |old(levels)|)
    {
      ok := true;
      if levels[l].runLen == 1 {
        ok := Promote(sink, l);
      } else if levels[l].runLen > 1 {
        ok := CloseLevel(sink, l);
      }
    }

    /** A lone key with nothing pending around it is the root. */
    method TakeRoot(l: nat, ghost log: seq<Object>) returns (root: Key, ghost t: Tree)
      requires Valid(log) && l == |levels| - 1 && EmptyBelow(trees, l) && |trees[l]| == 1
      modifies this`levels, this`trees
      ensures t.key == root && Leaves([t]) == old(Spine(trees))
      ensures TreeOk(cf, log, external, t) && built == NodeCount([t]) < |old(Spine(trees))|
    {
      root := levels[l].keys[0];
      t := trees[l][0];
      LoneTree(trees, l);
      assert LevelOk(cf, log, external, levels[l], trees[l]);
      assert TreeOk(cf, log, external, t);
      FewerNodesThanLeaves(cf.enc, cf.isDir, cf.ic.maxRun, [t]);
      levels := levels[l := Level([], [], 0)];
      trees := trees[l := []];
    }

    /** Collapses the open runs bottom-up. The loop extends the list it walks; it
        ends because every pass either moves up without adding a key or leaves
        fewer keys pending. With at least one child added it returns the root of
        a tree over exactly the added leaves, and fails only on a refused object;
        with none it fails. */
    method Finish(sink: Sink) returns (r: Result<Key>, ghost t: Tree)
      requires Valid(sink.log)
      modifies this`levels, this`trees, this`built, sink`log
      ensures old(sink.log) <= sink.log
      ensures |sink.log| - |old(sink.log)| == built - old(built)
      ensures r.Failure? ==> (old(Spine(trees)) == [] && r.error == Empty)
                             || (!sink.accepts(|sink.log|) && r.error == Rejected)
      ensures r.Success? ==>
                && t.key == r.value && Leaves([t]) == old(Spine(trees))
                && TreeOk(cf, sink.log, external, t) && ChildrenFirst(sink.log, external)
                && built == NodeCount([t]) < |old(Spine(trees))|
      ensures old(Spine(trees)) == [] ==> r.Failure?
    {
      t := Leaf(seq(SIZE, _ => 0), [], Raw([]));
      var l := 0;
      while l < |levels|
        invariant Valid(sink.log) && l <= |levels| && EmptyBelow(trees, l)
        invariant Spine(trees) == old(Spine(trees))
        invariant old(sink.log) <= sink.log
        invariant |sink.log| - |old(sink.log)| == built - old(built)
        decreases Pending(trees), |levels| - l
      {
        if levels[l].runLen == 1 && l == |levels| - 1 {
          var root;
          root, t := TakeRoot(l, sink.log);
          return Success(root), t;
        }
        var ok := FinishLevel(sink, l);
        if !ok { return Failure(Rejected), t; }
        l := l + 1;
      }
      SpineOfEmpty(trees);
      return Failure(Empty), t;
    }
  }
}
