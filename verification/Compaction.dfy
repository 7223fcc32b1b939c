/** Compaction (packstore/compact.go): mostly-dead sealed segments are rewritten,
    their live records copied into the active segment before they are removed. */
module Compaction {
  import opened Base
  import opened Keys
  import opened Record
  import opened WirePack
  import opened SegmentIndex
  import opened SegmentFooter
  import opened Segments
  import opened SealedSegments
  import opened PackStore

  type Live = Key -> bool

  // ------------------------------------------------------- reading an index

  /** The `i`th row of an index, decoded. */
  function RowEntry(p: Parsed, i: nat): IndexEntry
    requires 44 * i + 44 <= |p.rows|
  {
    var row := p.rows[44 * i..44 * i + 44];
    IndexEntry(row[..32], FromBE(row[32..40]), FromBE(row[40..44]))
  }

  lemma RowEntryIs(p: Parsed, es: seq<IndexEntry>, i: nat)
    requires Indexes(p, es) && Fit(es) && i < |es|
    ensures 44 * i + 44 <= |p.rows| && RowEntry(p, i) == es[i]
  {
    RowAt(es, i);
    RowFields(es[i]);
    assert Row(es[i])[..32] == es[i].key;
  }

  /** All rows of an index, in order. */
  method AllEntries(p: Parsed, n: nat, ghost es: seq<IndexEntry>) returns (r: seq<IndexEntry>)
    requires |p.rows| == 44 * n
    ensures |r| == n && (Indexes(p, es) && Fit(es) ==> r == es)
  {
    hide Indexes, Fit, RowEntry;
    r := [];
    for i := 0 to n
      invariant |r| == i && (Indexes(p, es) && Fit(es) ==> i <= |es| && r == es[..i])
    {
      RowsLength(p, es, n);
      if Indexes(p, es) && Fit(es) { RowEntryIs(p, es, i); }
      r := r + [RowEntry(p, i)];
    }
    RowsLength(p, es, n);
  }

  lemma RowsLength(p: Parsed, es: seq<IndexEntry>, n: nat)
    requires |p.rows| == 44 * n
    ensures Indexes(p, es) ==> |es| == n
  {
  }

  // --------------------------------------------------------------- liveness

  datatype Liveness = Liveness(liveKeys: nat, deadKeys: nat, liveBytes: nat, deadBytes: nat)

  ghost function BytesOf(es: seq<IndexEntry>, live: Live, want: bool): nat {
    if es == [] then 0
    else
      var e := es[|es| - 1];
      BytesOf(es[..|es| - 1], live, want) + (if live(e.key) == want then 46 + e.slen else 0)
  }

  method Measure(es: seq<IndexEntry>, live: Live) returns (r: Liveness)
    ensures r.liveBytes == BytesOf(es, live, true) && r.deadBytes == BytesOf(es, live, false)
    ensures r.liveKeys + r.deadKeys == |es|
    ensures r.deadKeys > 0 <==> exists i :: 0 <= i < |es| && !live(es[i].key)
  {
    r := Liveness(0, 0, 0, 0);
    for i := 0 to |es|
      invariant r.liveBytes == BytesOf(es[..i], live, true) && r.deadBytes == BytesOf(es[..i], live, false)
      invariant r.liveKeys + r.deadKeys == i
      invariant r.deadKeys > 0 <==> exists j :: 0 <= j < i && !live(es[j].key)
    {
      assert es[..i + 1][..i] == es[..i];
      var n := 46 + es[i].slen;
      r := if live(es[i].key) then r.(liveKeys := r.liveKeys + 1, liveBytes := r.liveBytes + n)
           else r.(deadKeys := r.deadKeys + 1, deadBytes := r.deadBytes + n);
    }
    assert es[..|es|] == es;
  }

  /** The selection line: something dead, and dead bytes at least the given share. */
  ghost predicate Selected(es: seq<IndexEntry>, live: Live, minDeadRatio: real) {
    && (exists i :: 0 <= i < |es| && !live(es[i].key))
    && BytesOf(es, live, false) as real >=
       minDeadRatio * (BytesOf(es, live, true) + BytesOf(es, live, false)) as real
  }

  /** The eligible segments past the selection line, by number. */
  method SelectVictims(c: Codec, f: Filter, sealed: seq<Sealed>, live: Live, minDeadRatio: real, eligible: nat -> bool,
                       ghost srcs: seq<Source>) returns (victims: set<nat>)
    requires SealedOk(c, f, sealed, srcs) && DistinctIds(sealed)
    ensures forall id :: id in victims ==> exists i :: 0 <= i < |sealed| && sealed[i].id == id
    ensures forall i :: 0 <= i < |sealed| ==>
              (sealed[i].id in victims <==> eligible(sealed[i].id) && Selected(srcs[i].es, live, minDeadRatio))
  {
    hide SealedFrom, Opened, Selected;
    victims := {};
    for i := 0 to |sealed|
      invariant forall id :: id in victims ==> exists j :: 0 <= j < i && sealed[j].id == id
      invariant forall j :: 0 <= j < i ==>
                  (sealed[j].id in victims <==> eligible(sealed[j].id) && Selected(srcs[j].es, live, minDeadRatio))
    {
      var g := sealed[i];
      if eligible(g.id) {
        var past := PastLine(c, f, g, live, minDeadRatio, srcs[i]);
        if past { victims := victims + {g.id}; }
      }
    }
  }

  method PastLine(c: Codec, f: Filter, g: Sealed, live: Live, minDeadRatio: real, ghost src: Source)
    returns (past: bool)
    requires SealedFrom(c, f, g, src)
    ensures past <==> Selected(src.es, live, minDeadRatio)
  {
    hide SealedFrom, Indexes, Fit, IndexOf, Locs, BytesOf;
    IndexShape(c, f, g, src);
    var es := AllEntries(g.view.index, g.view.keyCount, src.es);
    var info := Measure(es, live);
    past := info.deadKeys > 0 && info.deadBytes as real >= minDeadRatio * (info.liveBytes + info.deadBytes) as real;
  }

  lemma IndexShape(c: Codec, f: Filter, g: Sealed, src: Source)
    requires SealedFrom(c, f, g, src)
    ensures Indexes(g.view.index, src.es) && Fit(src.es) && |g.view.index.rows| == 44 * g.view.keyCount
    ensures IndexOf(src.es, Locs(c, src.recs)) && AllFit(src.recs)
  {
    hide Locs, Body, IndexBytes, Indexes, Fit, IndexOf;
  }

  // ------------------------------------------------------------- candidates

  /** A row of a victim's index. */
  datatype Candidate = Candidate(seg: Sealed, e: IndexEntry)

  /** The record the row points at, bounds checked. */
  function RecordFor(r: Candidate): Result<Bytes> {
    if r.seg.view.bodyLen > |r.seg.mm| then Failure(Malformed)
    else RecordBytesAt(r.seg.mm, r.seg.view.bodyLen, Slot(r.e.off, r.e.slen))
  }

  /** The record a row points at is the one of the map's value. */
  ghost predicate RowOk(c: Codec, m: map<Key, Bytes>, r: Candidate) {
    var k := r.e.key;
    k in m && |m[k]| <= MAX_PAYLOAD && RecordFor(r) == Success(RecordOf(c, Rec(k, m[k])))
  }

  ghost predicate HasRow(rows: seq<Candidate>, k: Key) {
    exists j :: 0 <= j < |rows| && rows[j].e.key == k
  }

  /** The rows of one segment cover what it holds and point at its records. */
  lemma SegmentRows(c: Codec, f: Filter, g: Sealed, src: Source, m: map<Key, Bytes>)
    requires Lawful(c) && SealedFrom(c, f, g, src) && Within(Content(src.recs), m)
    ensures forall i :: 0 <= i < |src.es| ==> RowOk(c, m, Candidate(g, src.es[i]))
    ensures forall k :: k in Content(src.recs) ==> exists i :: 0 <= i < |src.es| && src.es[i].key == k
  {
    hide SealedFrom, Locs, RecordOf, RecordBytesAt, PayloadAt, StoredForm, Content, Indexes, Fit;
    IndexShape(c, f, g, src);
    forall i | 0 <= i < |src.es| ensures RowOk(c, m, Candidate(g, src.es[i])) {
      assert src.es[i] in src.es;
      ReadsBack(c, f, g, src.es[i].key, src);
    }
    forall k | k in Content(src.recs) ensures exists i :: 0 <= i < |src.es| && src.es[i].key == k {
      ReadsBack(c, f, g, k, src);
      assert EntryOf(k, Locs(c, src.recs)[k]) in src.es;
    }
  }

  /** Lists every row of every victim. */
  method VictimRows(c: Codec, f: Filter, sealed: seq<Sealed>, victims: set<nat>, ghost srcs: seq<Source>,
                    ghost m: map<Key, Bytes>)
    returns (rows: seq<Candidate>)
    requires Lawful(c) && SealedOk(c, f, sealed, srcs)
    requires forall i :: 0 <= i < |srcs| ==> Within(Content(srcs[i].recs), m)
    ensures forall j :: 0 <= j < |rows| ==> RowOk(c, m, rows[j])
    ensures forall i, k :: 0 <= i < |sealed| && sealed[i].id in victims && k in Content(srcs[i].recs) ==>
              HasRow(rows, k)
  {
    hide SealedFrom, Opened, RowOk, Within, Content, HasRow;
    rows := [];
    for i := 0 to |sealed|
      invariant forall j :: 0 <= j < |rows| ==> RowOk(c, m, rows[j])
      invariant forall j, k :: 0 <= j < i && sealed[j].id in victims && k in Content(srcs[j].recs) ==> HasRow(rows, k)
    {
      if sealed[i].id in victims {
        var more := SegmentCandidates(c, f, sealed[i], srcs[i], m);
        RowsJoin(rows, more);
        rows := rows + more;
      }
    }
  }

  method SegmentCandidates(c: Codec, f: Filter, g: Sealed, ghost src: Source, ghost m: map<Key, Bytes>)
    returns (rows: seq<Candidate>)
    requires Lawful(c) && SealedFrom(c, f, g, src) && Within(Content(src.recs), m)
    ensures forall j :: 0 <= j < |rows| ==> RowOk(c, m, rows[j])
    ensures forall k :: k in Content(src.recs) ==> HasRow(rows, k)
  {
    hide SealedFrom, Indexes, Fit, IndexOf, Locs, RowOk, Content;
    IndexShape(c, f, g, src);
    SegmentRows(c, f, g, src, m);
    var es := AllEntries(g.view.index, g.view.keyCount, src.es);
    rows := seq(|es|, i requires 0 <= i < |es| => Candidate(g, es[i]));
    forall k | k in Content(src.recs) ensures HasRow(rows, k) {
      var i :| 0 <= i < |src.es| && src.es[i].key == k;
      assert rows[i].e.key == k;
    }
  }

  lemma RowsJoin(a: seq<Candidate>, b: seq<Candidate>)
    ensures forall k :: HasRow(a, k) || HasRow(b, k) ==> HasRow(a + b, k)
  {
    forall k | HasRow(a, k) || HasRow(b, k) ensures HasRow(a + b, k) {
      if j :| 0 <= j < |a| && a[j].e.key == k { assert (a + b)[j] == a[j]; }
      else { var j :| 0 <= j < |b| && b[j].e.key == k; assert (a + b)[|a| + j] == b[j]; }
    }
  }

  // -------------------------------------------------------------- survivors

  /** What the segments hold at one moment. */
  datatype Held = Held(sealed: seq<Sealed>, srcs: seq<Source>, recs: seq<Rec>)

  ghost function Now(s: Store): Held
    reads s
  {
    Held(s.sealed, s.srcs, s.recs)
  }

  /** As many sources as segments, no number twice, and the victims among them. */
  ghost predicate Paired(h: Held, victims: set<nat>) {
    && |h.sealed| == |h.srcs| && DistinctIds(h.sealed)
    && (forall id :: id in victims ==> exists i :: 0 <= i < |h.sealed| && h.sealed[i].id == id)
  }

  /** The key has a copy outside the victims. */
  ghost predicate Survives(h: Held, victims: set<nat>, k: Key) {
    || k in Content(h.recs)
    || exists i :: 0 <= i < |h.sealed| && i < |h.srcs| && h.sealed[i].id !in victims && k in Content(h.srcs[i].recs)
  }

  method SurvivorHas(s: Store, victims: set<nat>, k: Key) returns (r: bool)
    requires s.Valid()
    ensures r == Survives(Now(s), victims, k)
  {
    hide SealedFrom, Opened, Content, Merge, Coherent;
    if s.active.Some? {
      ActiveReads(s.codec, s.active.value, s.recs, k);
      if k in s.active.value.index { return true; }
    } else {
      NothingHeld();
    }
    for i := 0 to |s.sealed|
      invariant forall j :: 0 <= j < i && s.sealed[j].id !in victims ==> k !in Content(s.srcs[j].recs)
    {
      if s.sealed[i].id !in victims {
        var has := SealedSegments.Has(s.codec, s.filter, s.sealed[i], k, s.srcs[i]);
        if has { return true; }
      }
    }
    return false;
  }

  lemma NothingHeld()
    ensures Content([]) == map[]
  {
  }

  /** Segments were added at the end, if at all. */
  ghost predicate Longer(h: Held, h': Held) { h.sealed <= h'.sealed && h.srcs <= h'.srcs }

  ghost predicate Grew(h: Held, h': Held, o: Rec) {
    Extends(h.sealed, h.srcs, h.recs, h'.sealed, h'.srcs, h'.recs, o)
  }

  /** Appending keeps every survivor, adds at most the key appended, and a sealed
      segment it creates is no victim. */
  lemma AppendSurvives(h: Held, h': Held, victims: set<nat>, o: Rec, k: Key)
    requires Paired(h, victims) && Paired(h', {}) && Grew(h, h', o)
    ensures Survives(h, victims, k) ==> Survives(h', victims, k)
    ensures Survives(h', victims, k) ==> k == o.key || Survives(h, victims, k)
    ensures Recent(|h.srcs|, h'.srcs, h'.recs, k) ==> Survives(h', victims, k)
    ensures Paired(h', victims)
  {
    ContentAppend(h.recs, o);
    NothingHeld();
    hide Content;
    forall i | 0 <= i < |h.sealed| ensures h'.sealed[i] == h.sealed[i] && h'.srcs[i] == h.srcs[i] {}
  }

  // ---------------------------------------------------------------- copying

  /** A record is fit to copy: it parses under its own key and its payload passes
      the object check. */
  predicate CheckRecord(c: Codec, check: (Key, Bytes) -> bool, k: Key, rec: Bytes) {
    var h := ParseRecord(c, rec);
    && h.Success? && h.value.key == k
    && var d := DecodePayload(c, h.value.flags, h.value.ulen, rec[46..]);
    && d.Success? && check(k, d.value)
  }

  /** A record the copy will take: under a canonical key, and passing the object check. */
  ghost predicate Copyable(check: (Key, Bytes) -> bool, m: map<Key, Bytes>, k: Key) {
    Valid(k) && k in m && check(k, m[k])
  }

  lemma CheckIsCopyable(c: Codec, check: (Key, Bytes) -> bool, m: map<Key, Bytes>, k: Key)
    requires Lawful(c) && k in m && |m[k]| <= MAX_PAYLOAD
    ensures CheckRecord(c, check, k, RecordOf(c, Rec(k, m[k]))) <==> Copyable(check, m, k)
  {
    hide ParseRecord, DecodePayload, FromBE, BE;
    var rec := RecordOf(c, Rec(k, m[k]));
    assert rec + [] == rec;
    RecordParses(c, k, m[k], []);
    EncodedShape(c, k, m[k], []);
    PayloadDecodes(c, k, m[k]);
    assert rec[46..] == StoredForm(c, m[k]).0;
  }

  /** Every live row seen so far has survived or waits. */
  ghost predicate Copied(h: Held, victims: set<nat>, live: Live, rows: seq<Candidate>, seen: nat,
                         waiting: set<Candidate>) {
    forall j :: 0 <= j < seen && j < |rows| && live(rows[j].e.key) ==>
      Survives(h, victims, rows[j].e.key) || rows[j] in waiting
  }

  /** Since `start`, survivors stayed and only `joins` keys joined them. */
  ghost predicate OnlyJoined(h: Held, victims: set<nat>, joins: iset<Key>, start: Held) {
    forall k ::
      && (Survives(h, victims, k) ==> Survives(start, victims, k) || k in joins)
      && (Survives(start, victims, k) ==> Survives(h, victims, k))
  }

  /** The live records the copy will take. */
  ghost function Joins(live: Live, check: (Key, Bytes) -> bool, m: map<Key, Bytes>): iset<Key> {
    iset k | live(k) && Copyable(check, m, k)
  }

  lemma AppendKeeps(h: Held, h': Held, victims: set<nat>, live: Live, joins: iset<Key>, rows: seq<Candidate>,
                    seen: nat, waiting: set<Candidate>, start: Held, r: Candidate, o: Rec)
    requires Paired(h, victims) && Paired(h', {}) && Grew(h, h', o) && o.key == r.e.key && o.key in joins
    requires Copied(h, victims, live, rows, seen, waiting) && OnlyJoined(h, victims, joins, start)
    ensures Paired(h', victims) && OnlyJoined(h', victims, joins, start) && Longer(h, h')
    ensures Recent(|h.srcs|, h'.srcs, h'.recs, o.key) ==> Copied(h', victims, live, rows, seen, waiting - {r})
  {
    assert Longer(h, h');
    hide Survives, Grew, Paired, Recent, Longer;
    AppendSurvives(h, h', victims, o, o.key);
    forall k ensures Survives(h', victims, k) ==> Survives(start, victims, k) || k in joins
             ensures Survives(start, victims, k) ==> Survives(h', victims, k) {
      AppendSurvives(h, h', victims, o, k);
    }
    if Recent(|h.srcs|, h'.srcs, h'.recs, o.key) {
      forall j | 0 <= j < seen && j < |rows| && live(rows[j].e.key)
        ensures Survives(h', victims, rows[j].e.key) || rows[j] in waiting - {r} {
        AppendSurvives(h, h', victims, o, rows[j].e.key);
      }
    }
  }

  /** Checks and appends one waiting record. */
  method CopyOne(s: Store, victims: set<nat>, live: Live, check: (Key, Bytes) -> bool, r: Candidate,
                 ghost rows: seq<Candidate>, ghost seen: nat, ghost waiting: set<Candidate>, ghost start: Held,
                 ghost m: map<Key, Bytes>)
    returns (err: Option<Error>)
    requires s.Valid() && s.Map() == m && RowOk(s.codec, m, r) && live(r.e.key) && Paired(Now(s), victims)
    requires Copied(Now(s), victims, live, rows, seen, waiting)
    requires OnlyJoined(Now(s), victims, Joins(live, check, m), start)
    modifies s
    ensures s.Valid() && s.Map() == m && Paired(Now(s), victims)
    ensures OnlyJoined(Now(s), victims, Joins(live, check, m), start)
    ensures s.closed == old(s.closed) && s.capturing == old(s.capturing) && s.grey == old(s.grey)
    ensures s.stale.sealedFiles == old(s.stale.sealedFiles)
    ensures Longer(old(Now(s)), Now(s))
    ensures err.None? ==> Copied(Now(s), victims, live, rows, seen, waiting - {r})
    ensures err.None? ==> !s.closed && !s.failed && !old(s.failed) && Copyable(check, m, r.e.key)
    ensures s.healthy && !s.closed && !old(s.failed) && err.Some? ==> s.failed || !Copyable(check, m, r.e.key)
  {
    hide SealedOk, ActiveOk, IdsOk, Coherent, Merge, Content, CheckRecord, RecordOf, RecordBytesAt, Extends, Recent,
         Survives, Copied, OnlyJoined, Paired, StaleOk, Apart, RenamedOk, Stuck, Copyable, Ordered;
    var rec := RecordFor(r);
    if rec.Failure? { return Some(Malformed); }
    CheckIsCopyable(s.codec, check, m, r.e.key);
    if !CheckRecord(s.codec, check, r.e.key, rec.value) { return Some(Malformed); }
    ghost var before, o := Now(s), Rec(r.e.key, m[r.e.key]);
    err := s.AppendLocked(r.e.key, rec.value, false, m[r.e.key]);
    assert s.Map() == m;
    PairedNow(s);
    AppendKeeps(before, Now(s), victims, live, Joins(live, check, m), rows, seen, waiting, start, r, o);
  }

  lemma PairedNow(s: Store)
    requires s.Valid()
    ensures Paired(Now(s), {})
  {
    hide SealedFrom, Opened;
  }

  /** Copies every live victim record that has no other copy. Rows are examined in
      order while checked records are appended in any order behind them, so a key
      in two victims may be copied twice. */
  method CopyLive(s: Store, victims: set<nat>, live: Live, check: (Key, Bytes) -> bool, rows: seq<Candidate>,
                  ghost m: map<Key, Bytes>)
    returns (err: Option<Error>)
    requires s.Valid() && s.Map() == m && Paired(Now(s), victims)
    requires forall j :: 0 <= j < |rows| ==> RowOk(s.codec, m, rows[j])
    modifies s
    ensures s.Valid() && s.Map() == m && Paired(Now(s), victims)
    ensures s.closed == old(s.closed) && s.capturing == old(s.capturing) && s.grey == old(s.grey)
    ensures OnlyJoined(Now(s), victims, Joins(live, check, m), old(Now(s))) && Longer(old(Now(s)), Now(s))
    ensures err.None? ==> Copied(Now(s), victims, live, rows, |rows|, {})
    ensures s.stale.sealedFiles == old(s.stale.sealedFiles)
    ensures s.healthy && !s.closed && !old(s.failed) && err.Some? ==>
              s.failed || !Movable(old(Now(s)), victims, live, check, m)
    ensures err.None? && !old(s.failed) ==> !s.failed
  {
    hide Store.Valid, Store.Map, RowOk, Copied, OnlyJoined, Paired, Survives, Copyable, Joins;
    ghost var start := Now(s);
    var seen := 0;
    var waiting: set<Candidate> := {};
    CopyStarts(Now(s), victims, live, rows, Joins(live, check, m));
    while seen < |rows| || waiting != {}
      invariant seen <= |rows| && s.Valid() && s.Map() == m && Paired(Now(s), victims)
      invariant s.closed == old(s.closed) && s.capturing == old(s.capturing) && s.grey == old(s.grey)
      invariant s.stale.sealedFiles == old(s.stale.sealedFiles) && (!old(s.failed) ==> !s.failed)
      invariant forall r :: r in waiting ==>
                  RowOk(s.codec, m, r) && live(r.e.key) && !Survives(start, victims, r.e.key)
      invariant Copied(Now(s), victims, live, rows, seen, waiting)
      invariant OnlyJoined(Now(s), victims, Joins(live, check, m), start) && Longer(start, Now(s))
      decreases |rows| - seen, |waiting|
    {
      var examine: bool := *;
      if waiting == {} || (seen < |rows| && examine) {
        var r := rows[seen];
        if live(r.e.key) {
          var has := SurvivorHas(s, victims, r.e.key);
          RowSeen(Now(s), victims, live, rows, seen, waiting, if has then waiting else waiting + {r});
          if !has {
            NotBefore(Now(s), victims, Joins(live, check, m), start, r.e.key);
            waiting := waiting + {r};
          }
        } else {
          RowSeen(Now(s), victims, live, rows, seen, waiting, waiting);
        }
        seen := seen + 1;
      } else {
        var r :| r in waiting;
        InMap(s.codec, m, r);
        err := CopyOne(s, victims, live, check, r, rows, seen, waiting, start, m);
        if err.Some? { return; }
        waiting := waiting - {r};
      }
    }
    return None;
  }

  /** Every live key held only by victims can be copied. */
  ghost predicate Movable(h: Held, victims: set<nat>, live: Live, check: (Key, Bytes) -> bool, m: map<Key, Bytes>) {
    forall k :: k in m && live(k) && !Survives(h, victims, k) ==> Copyable(check, m, k)
  }

  lemma NotBefore(h: Held, victims: set<nat>, joins: iset<Key>, start: Held, k: Key)
    requires OnlyJoined(h, victims, joins, start) && !Survives(h, victims, k)
    ensures !Survives(start, victims, k)
  {
    hide Survives;
  }

  lemma InMap(c: Codec, m: map<Key, Bytes>, r: Candidate)
    requires RowOk(c, m, r)
    ensures r.e.key in m
  {
  }

  lemma CopyStarts(h: Held, victims: set<nat>, live: Live, rows: seq<Candidate>, joins: iset<Key>)
    ensures Copied(h, victims, live, rows, 0, {}) && OnlyJoined(h, victims, joins, h)
  {
  }

  lemma RowSeen(h: Held, victims: set<nat>, live: Live, rows: seq<Candidate>, seen: nat, waiting: set<Candidate>,
                waiting': set<Candidate>)
    requires seen < |rows| && Copied(h, victims, live, rows, seen, waiting) && waiting <= waiting'
    requires live(rows[seen].e.key) ==> Survives(h, victims, rows[seen].e.key) || rows[seen] in waiting'
    ensures Copied(h, victims, live, rows, seen + 1, waiting')
  {
    hide Survives;
  }

  // ---------------------------------------------------------------- removal

  /** The first `n` segments that are not victims, in order. */
  ghost predicate Keeping(h: Held, n: nat, victims: set<nat>, kept: seq<Sealed>, keptSrcs: seq<Source>) {
    && n <= |h.sealed| == |h.srcs| && |kept| == |keptSrcs|
    && DistinctIds(kept)
    && (forall x :: 0 <= x < |kept| ==> From(h, n, victims, kept[x], keptSrcs[x]))
    && (forall j :: 0 <= j < n && h.sealed[j].id !in victims ==> At(kept, keptSrcs, h.sealed[j], h.srcs[j]))
  }

  /** The segments that are not victims. */
  ghost predicate KeptOf(h: Held, victims: set<nat>, kept: seq<Sealed>, keptSrcs: seq<Source>) {
    Keeping(h, |h.sealed|, victims, kept, keptSrcs)
  }

  ghost predicate From(h: Held, n: nat, victims: set<nat>, g: Sealed, src: Source)
    requires n <= |h.sealed| == |h.srcs|
  {
    exists j :: 0 <= j < n && h.sealed[j] == g && h.srcs[j] == src && g.id !in victims
  }

  ghost predicate At(kept: seq<Sealed>, keptSrcs: seq<Source>, g: Sealed, src: Source) {
    exists x :: 0 <= x < |kept| && x < |keptSrcs| && kept[x] == g && keptSrcs[x] == src
  }

  method Keep(sealed: seq<Sealed>, victims: set<nat>, ghost srcs: seq<Source>, ghost recs: seq<Rec>)
    returns (kept: seq<Sealed>, ghost keptSrcs: seq<Source>)
    requires |srcs| == |sealed| && DistinctIds(sealed)
    ensures KeptOf(Held(sealed, srcs, recs), victims, kept, keptSrcs)
  {
    hide From, At;
    ghost var h := Held(sealed, srcs, recs);
    kept, keptSrcs := [], [];
    for i := 0 to |sealed|
      invariant Keeping(h, i, victims, kept, keptSrcs)
    {
      KeepStep(h, i, victims, kept, keptSrcs);
      if sealed[i].id !in victims { kept, keptSrcs := kept + [sealed[i]], keptSrcs + [srcs[i]]; }
    }
  }

  lemma KeepStep(h: Held, n: nat, victims: set<nat>, kept: seq<Sealed>, keptSrcs: seq<Source>)
    requires n < |h.sealed| && Keeping(h, n, victims, kept, keptSrcs)
    requires DistinctIds(h.sealed)
    ensures if h.sealed[n].id in victims then Keeping(h, n + 1, victims, kept, keptSrcs)
            else Keeping(h, n + 1, victims, kept + [h.sealed[n]], keptSrcs + [h.srcs[n]])
  {
    hide At;
    forall x | 0 <= x < |kept| ensures From(h, n + 1, victims, kept[x], keptSrcs[x]) && kept[x].id != h.sealed[n].id {
      assert From(h, n, victims, kept[x], keptSrcs[x]);
      var j :| 0 <= j < n && h.sealed[j] == kept[x] && h.srcs[j] == keptSrcs[x];
    }
    AtStays(kept, keptSrcs, h.sealed[n], h.srcs[n]);
    if h.sealed[n].id !in victims { assert From(h, n + 1, victims, h.sealed[n], h.srcs[n]); }
  }

  lemma AtStays(kept: seq<Sealed>, keptSrcs: seq<Source>, g: Sealed, src: Source)
    requires |kept| == |keptSrcs|
    ensures At(kept + [g], keptSrcs + [src], g, src)
    ensures forall a, b :: At(kept, keptSrcs, a, b) ==> At(kept + [g], keptSrcs + [src], a, b)
  {
    assert (kept + [g])[|kept|] == g && (keptSrcs + [src])[|kept|] == src;
    forall a, b | At(kept, keptSrcs, a, b) ensures At(kept + [g], keptSrcs + [src], a, b) {
      var x :| 0 <= x < |kept| && x < |keptSrcs| && kept[x] == a && keptSrcs[x] == b;
      assert (kept + [g])[x] == a && (keptSrcs + [src])[x] == b;
    }
  }

  /** What is left holds exactly the survivors, with their old values. */
  lemma KeptMap(h: Held, victims: set<nat>, kept: seq<Sealed>, keptSrcs: seq<Source>, m: map<Key, Bytes>)
    requires KeptOf(h, victims, kept, keptSrcs) && Coherent(h.srcs, h.recs, m)
    ensures var left := Merge(keptSrcs) + Content(h.recs);
            && (forall k :: k in left <==> Survives(h, victims, k)) && Within(left, m)
            && Coherent(keptSrcs, h.recs, left)
  {
    hide Content, Merge, Within, Survives;
    var left := Merge(keptSrcs) + Content(h.recs);
    forall x | 0 <= x < |keptSrcs| ensures Within(Content(keptSrcs[x].recs), m) {
      assert From(h, |h.sealed|, victims, kept[x], keptSrcs[x]);
    }
    MergeWithin(keptSrcs, m);
    WithinUnion(Merge(keptSrcs), Content(h.recs), m);
    forall k ensures k in left <==> Survives(h, victims, k) { LeftIffSurvives(h, victims, kept, keptSrcs, k); }
    forall x | 0 <= x < |keptSrcs| ensures Within(Content(keptSrcs[x].recs), left) {
      forall k | k in Content(keptSrcs[x].recs) ensures k in left { MergeCovers(keptSrcs, x, k); }
      WithinBetween(Content(keptSrcs[x].recs), left, m);
    }
    WithinBetween(Content(h.recs), left, m);
  }

  lemma WithinBetween(a: map<Key, Bytes>, b: map<Key, Bytes>, m: map<Key, Bytes>)
    requires Within(a, m) && Within(b, m) && forall k :: k in a ==> k in b
    ensures Within(a, b)
  {
  }

  lemma LeftIffSurvives(h: Held, victims: set<nat>, kept: seq<Sealed>, keptSrcs: seq<Source>, k: Key)
    requires KeptOf(h, victims, kept, keptSrcs)
    ensures k in Merge(keptSrcs) + Content(h.recs) <==> Survives(h, victims, k)
  {
    hide Content, Merge;
    if k in Merge(keptSrcs) {
      var x := MergeSource(keptSrcs, k);
      assert From(h, |h.sealed|, victims, kept[x], keptSrcs[x]);
    }
    if k !in Content(h.recs) && Survives(h, victims, k) {
      var i :| 0 <= i < |h.sealed| && h.sealed[i].id !in victims && k in Content(h.srcs[i].recs);
      assert At(kept, keptSrcs, h.sealed[i], h.srcs[i]);
      var x :| 0 <= x < |kept| && x < |keptSrcs| && kept[x] == h.sealed[i] && keptSrcs[x] == h.srcs[i];
      MergeCovers(keptSrcs, x, k);
    }
  }

  /** Detaches the victims and deletes their files; the store then holds exactly
      the survivors. Files numbered in `stuck` cannot be removed and stay. */
  method RemoveVictims(s: Store, victims: set<nat>, stuck: set<nat>) returns (err: Option<Error>)
    requires s.Valid() && Paired(Now(s), victims) && !s.failed
    modifies s
    ensures s.Valid() && s.closed == old(s.closed) && s.capturing == old(s.capturing) && s.grey == old(s.grey)
    ensures !s.failed && (forall k :: k in s.Map() <==> Survives(old(Now(s)), victims, k))
    ensures Within(s.Map(), old(s.Map()))
    ensures StayOf(old(Now(s)), victims * stuck, old(s.stale), old(s.known), s.stale, s.known)
    ensures (err.None? ==> victims !! stuck) && (s.healthy && victims !! stuck ==> err.None?)
  {
    hide Merge, Content, Within, SealedOk, ActiveOk, Survives, StaleOk, Apart, FilesOf, LeftSealed, IdsOk;
    var kept, files;
    ghost var keptSrcs, from, h, m := [], map[], Now(s), s.Map();
    NumbersOf(s.sealed, s.active, s.nextID);
    kept, keptSrcs := Keep(s.sealed, victims, s.srcs, s.recs);
    KeptMap(h, victims, kept, keptSrcs, m);
    KeptOk(s.codec, s.filter, h, victims, kept, keptSrcs, s.active, s.nextID);
    files, from := Files(s.sealed, victims * stuck, s.srcs);
    VictimsStale(s.codec, s.filter, h, victims, victims * stuck, kept, keptSrcs, s.active, s.nextID, s.stale, s.known,
                 files, from);
    s.sealed, s.srcs := kept, keptSrcs;
    s.stale, s.known := s.stale.(sealedFiles := s.stale.sealedFiles + files), s.known + from;
    var fails := s.Fails();
    if victims * stuck != {} || fails { return Some(Rejected); }
    return None;
  }

  /** The files numbered in `which` stay behind as stale ones. */
  ghost predicate StayOf(h: Held, which: set<nat>, stale: Stale, known: map<nat, Source>,
                         stale': Stale, known': map<nat, Source>) {
    exists files, from :: FilesOf(h.sealed, which, h.srcs, files, from)
      && stale' == stale.(sealedFiles := stale.sealedFiles + files) && known' == known + from
  }

  lemma VictimsStale(c: Codec, f: Filter, h: Held, victims: set<nat>, which: set<nat>, kept: seq<Sealed>,
                     keptSrcs: seq<Source>, active: Option<Active>, next: nat, stale: Stale, known: map<nat, Source>,
                     files: map<nat, Bytes>, from: map<nat, Source>)
    requires KeptOf(h, victims, kept, keptSrcs) && SealedOk(c, f, h.sealed, h.srcs) && IdsOk(h.sealed, active, next)
    requires StaleOk(c, f, stale, known) && Apart(stale, h.sealed, active, next) && which <= victims
    requires FilesOf(h.sealed, which, h.srcs, files, from)
    ensures var stale' := stale.(sealedFiles := stale.sealedFiles + files);
            StaleOk(c, f, stale', known + from) && Apart(stale', kept, active, next)
  {
    hide SealedOk, StaleOk, FilesOf, KeptOf, IdsOk;
    FilesAreUsed(h.sealed, h.srcs, which, files, from);
    KeptApart(h, victims, which, kept, keptSrcs, active, next, stale, files);
    DetachedStale(c, f, stale, known, h.sealed, h.srcs, which, files, from);
  }

  lemma KeptApart(h: Held, victims: set<nat>, which: set<nat>, kept: seq<Sealed>, keptSrcs: seq<Source>,
                  active: Option<Active>, next: nat, stale: Stale, files: map<nat, Bytes>)
    requires KeptOf(h, victims, kept, keptSrcs) && IdsOk(h.sealed, active, next)
    requires Apart(stale, h.sealed, active, next) && which <= victims
    requires forall id :: id in files <==> id in which && !Unused(id, h.sealed, None)
    ensures Apart(stale.(sealedFiles := stale.sealedFiles + files), kept, active, next)
    ensures forall id :: id in stale.activeFiles ==> id !in files
  {
    hide At;
    forall x | 0 <= x < |kept| ensures !Unused(kept[x].id, h.sealed, None) && kept[x].id !in victims {
      assert From(h, |h.sealed|, victims, kept[x], keptSrcs[x]);
    }
  }

  lemma KeptOk(c: Codec, f: Filter, h: Held, victims: set<nat>, kept: seq<Sealed>, keptSrcs: seq<Source>,
               active: Option<Active>, next: nat)
    requires KeptOf(h, victims, kept, keptSrcs) && SealedOk(c, f, h.sealed, h.srcs) && IdsOk(h.sealed, active, next)
    ensures SealedOk(c, f, kept, keptSrcs) && IdsOk(kept, active, next)
  {
    hide SealedFrom, Opened, At;
    forall x | 0 <= x < |kept|
      ensures Opened(c, f, kept[x]) && SealedFrom(c, f, kept[x], keptSrcs[x]) && kept[x].id < next
      ensures DistinctRecs(keptSrcs[x].recs)
      ensures active.Some? ==> kept[x].id != active.value.id {
      assert From(h, |h.sealed|, victims, kept[x], keptSrcs[x]);
    }
  }

  // ---------------------------------------------------------------- compact

  /** The victims' rows cover what they hold. */
  ghost predicate RowsCover(h: Held, victims: set<nat>, rows: seq<Candidate>) {
    forall i, k :: 0 <= i < |h.sealed| && i < |h.srcs| && h.sealed[i].id in victims && k in Content(h.srcs[i].recs) ==>
      HasRow(rows, k)
  }

  /** The segments hold exactly the keys of `m`. */
  ghost predicate HoldsKeys(h: Held, m: map<Key, Bytes>) {
    forall k :: k in m <==> k in Merge(h.srcs) + Content(h.recs)
  }

  /** Once the copy is done, what survives is what is live or had another copy. */
  lemma SurvivorsExactly(h: Held, start: Held, victims: set<nat>, live: Live, joins: iset<Key>,
                         rows: seq<Candidate>, m: map<Key, Bytes>, k: Key)
    requires |start.sealed| == |start.srcs| && RowsCover(start, victims, rows)
    requires Copied(h, victims, live, rows, |rows|, {}) && OnlyJoined(h, victims, joins, start)
    requires HoldsKeys(h, m) && HoldsKeys(start, m) && forall x :: x in joins ==> live(x)
    ensures Survives(h, victims, k) <==> k in m && (live(k) || Survives(start, victims, k))
    ensures k in m && live(k) && !Survives(start, victims, k) ==> k in joins
  {
    hide Content, Merge, HasRow;
    if Survives(h, victims, k) { SurvivorHeld(h, victims, k); }
    if k in m && live(k) && !Survives(start, victims, k) {
      var i := MergeSource(start.srcs, k);
      assert start.sealed[i].id in victims;
      RowFound(h, victims, live, rows, k);
    }
  }

  lemma AllSurvivors(h: Held, start: Held, victims: set<nat>, live: Live, joins: iset<Key>, rows: seq<Candidate>,
                     m: map<Key, Bytes>)
    requires |start.sealed| == |start.srcs| && RowsCover(start, victims, rows)
    requires Copied(h, victims, live, rows, |rows|, {}) && OnlyJoined(h, victims, joins, start)
    requires HoldsKeys(h, m) && HoldsKeys(start, m) && forall x :: x in joins ==> live(x)
    ensures forall k :: k in m && live(k) && !Survives(start, victims, k) ==> k in joins
    ensures forall k :: Survives(h, victims, k) <==> k in m && (live(k) || Survives(start, victims, k))
  {
    hide Survives, RowsCover, Copied, OnlyJoined, HoldsKeys;
    forall k ensures Survives(h, victims, k) <==> k in m && (live(k) || Survives(start, victims, k))
             ensures k in m && live(k) && !Survives(start, victims, k) ==> k in joins {
      SurvivorsExactly(h, start, victims, live, joins, rows, m, k);
    }
  }

  lemma RowFound(h: Held, victims: set<nat>, live: Live, rows: seq<Candidate>, k: Key)
    requires Copied(h, victims, live, rows, |rows|, {}) && HasRow(rows, k) && live(k)
    ensures Survives(h, victims, k)
  {
    hide Survives;
    var j :| 0 <= j < |rows| && rows[j].e.key == k;
  }

  lemma SurvivorHeld(h: Held, victims: set<nat>, k: Key)
    requires Survives(h, victims, k)
    ensures k in Merge(h.srcs) + Content(h.recs)
  {
    hide Content, Merge;
    if k !in Content(h.recs) {
      var i :| 0 <= i < |h.sealed| && i < |h.srcs| && h.sealed[i].id !in victims && k in Content(h.srcs[i].recs);
      MergeCovers(h.srcs, i, k);
    }
  }

  /** Selects, copies, syncs and removes, once the active segment is sealed. */
  method CompactSealed(s: Store, live: Live, minDeadRatio: real, eligible: nat -> bool, check: (Key, Bytes) -> bool,
                       stuck: set<nat>)
    returns (err: Option<Error>, victims: set<nat>, removed: bool)
    requires s.Valid() && !s.failed && !s.closed
    modifies s
    ensures s.Valid() && s.closed == old(s.closed) && s.capturing == old(s.capturing) && s.grey == old(s.grey)
    ensures !removed ==> s.Map() == old(s.Map())
    ensures removed ==> ChosenBy(old(Now(s)), victims, live, minDeadRatio, eligible) && Within(s.Map(), old(s.Map()))
    ensures removed ==> forall k :: k in s.Map() <==>
              k in old(s.Map()) && (live(k) || Survives(old(Now(s)), victims, k))
    ensures removed ==> victims != {} && !s.failed && Movable(old(Now(s)), victims, live, check, old(s.Map()))
    ensures s.healthy && victims != {} && !s.failed && Movable(old(Now(s)), victims, live, check, old(s.Map())) ==>
              removed
    ensures err.None? ==> (removed || victims == {}) && victims !! stuck
    ensures s.healthy && (removed || victims == {}) && victims !! stuck ==> err.None?
    ensures OnlyStuck(old(s.stale), s.stale, if removed then victims * stuck else {})
    ensures removed ==> SourcesStay(old(Now(s)), victims * stuck, s.known)
  {
    hide SealedOk, ActiveOk, Coherent, Merge, Content, Within, Survives, Selected, HasRow, Copied, OnlyJoined,
         RowOk, RowsCover, IdsOk, Lawful, Sound, StaleOk, Apart, LeftSealed, StayOf, Joins, Movable;
    ghost var m, start := s.Map(), Now(s);
    victims, removed := {}, false;
    var fails := s.Fails();
    if fails { return Some(Rejected), victims, removed; }
    PairedNow(s);
    victims := SelectVictims(s.codec, s.filter, s.sealed, live, minDeadRatio, eligible, s.srcs);
    if victims == {} { return None, victims, removed; }
    var rows := ListRows(s, victims, m);
    err := CopyLive(s, victims, live, check, rows, m);
    if err.Some? { return err, victims, removed; }
    if s.sync && s.active.Some? {
      fails := s.Fails();
      if fails {
        s.failed := true;
        return Some(Rejected), victims, removed;
      }
    }
    JoinsAreLive(live, check, m);
    AllSurvivors(Now(s), start, victims, live, Joins(live, check, m), rows, m);
    AllMovable(start, victims, live, check, m);
    ghost var before := s.stale;
    ghost var now, known := Now(s), s.known;
    err := RemoveVictims(s, victims, stuck);
    StayedOnly(now, start, victims, victims * stuck, before, known, s.stale, s.known);
    removed := true;
  }

  /** No other sealed file has become stale. */
  ghost predicate OnlyStuck(stale: Stale, stale': Stale, which: set<nat>) {
    stale'.sealedFiles.Keys == stale.sealedFiles.Keys + which
  }

  /** What the stale files numbered in `which` hold is what their segments held. */
  ghost predicate SourcesStay(h: Held, which: set<nat>, known: map<nat, Source>) {
    forall i :: 0 <= i < |h.sealed| && i < |h.srcs| && h.sealed[i].id in which ==>
      h.sealed[i].id in known && known[h.sealed[i].id] == h.srcs[i]
  }

  lemma StayedOnly(h: Held, start: Held, victims: set<nat>, which: set<nat>, stale: Stale, known: map<nat, Source>,
                   stale': Stale, known': map<nat, Source>)
    requires StayOf(h, which, stale, known, stale', known') && Paired(h, victims) && which <= victims
    requires Longer(start, h)
    ensures OnlyStuck(stale, stale', which) && SourcesStay(start, which, known')
  {
    hide FilesOf, Paired, SourcesStay, Longer;
    var files, from :| FilesOf(h.sealed, which, h.srcs, files, from)
      && stale' == stale.(sealedFiles := stale.sealedFiles + files) && known' == known + from;
    VictimFiles(h, victims, which, files, from);
    FilesHold(h, start, which, files, known, from);
  }

  lemma FilesHold(h: Held, start: Held, which: set<nat>, files: map<nat, Bytes>, known: map<nat, Source>,
                  from: map<nat, Source>)
    requires FilesOf(h.sealed, which, h.srcs, files, from) && Longer(start, h)
    ensures SourcesStay(start, which, known + from)
  {
    forall i | 0 <= i < |start.sealed| && i < |start.srcs| && start.sealed[i].id in which
      ensures start.sealed[i].id in from && from[start.sealed[i].id] == start.srcs[i]
    {
      assert start.sealed[i] == h.sealed[i] && start.srcs[i] == h.srcs[i];
    }
  }

  lemma VictimFiles(h: Held, victims: set<nat>, which: set<nat>, files: map<nat, Bytes>, from: map<nat, Source>)
    requires Paired(h, victims) && which <= victims && FilesOf(h.sealed, which, h.srcs, files, from)
    ensures files.Keys == which
  {
    FilesAreUsed(h.sealed, h.srcs, which, files, from);
    hide FilesOf, DistinctIds;
  }

  lemma JoinsAreLive(live: Live, check: (Key, Bytes) -> bool, m: map<Key, Bytes>)
    ensures forall k :: k in Joins(live, check, m) ==> live(k)
  {
  }

  lemma AllMovable(start: Held, victims: set<nat>, live: Live, check: (Key, Bytes) -> bool, m: map<Key, Bytes>)
    requires forall k :: k in m && live(k) && !Survives(start, victims, k) ==> k in Joins(live, check, m)
    ensures Movable(start, victims, live, check, m)
  {
    hide Survives;
  }

  /** One compaction. Marked and grey keys are live. Nothing leaves the store unless
      every live record of the selected victims has been copied; then exactly the
      live keys and the keys with a copy outside the victims remain, each with its
      old payload. `start` is what the segments hold once the active one is sealed.
      A live record held only by victims that has a non-canonical key, or fails the
      object check, stops every compaction that selects them. */
  method Compact(s: Store, marked: Live, minDeadRatio: real, eligible: nat -> bool, check: (Key, Bytes) -> bool,
                 stuck: set<nat>)
    returns (err: Option<Error>, victims: set<nat>, removed: bool, ghost start: Held)
    requires s.Valid()
    modifies s
    ensures s.Valid() && !s.capturing && s.grey == {} && s.closed == old(s.closed)
    ensures !removed ==> s.Map() == old(s.Map())
    ensures err.None? ==> (removed || victims == {}) && victims !! stuck
    ensures removed ==>
              !old(s.closed) && !old(s.failed) && HoldsKeys(start, old(s.Map())) && Within(s.Map(), old(s.Map()))
    ensures removed ==> Sealing(old(s.sealed), old(s.srcs), old(s.recs), start.sealed, start.srcs, start.recs)
    ensures var live := (k: Key) => k in old(s.grey) || marked(k);
            removed ==> ChosenBy(start, victims, live, minDeadRatio, eligible)
                        && forall k :: k in s.Map() <==> k in old(s.Map()) && (live(k) || Survives(start, victims, k))
    ensures var live := (k: Key) => k in old(s.grey) || marked(k);
            && (removed ==> victims != {} && !s.failed && Movable(start, victims, live, check, old(s.Map())))
            && (s.healthy && !s.closed && !old(s.failed) && !s.failed ==>
                  && (victims != {} && Movable(start, victims, live, check, old(s.Map())) ==> removed)
                  && ((removed || victims == {}) && victims !! stuck ==> err.None?))
    ensures OnlyStuck(old(s.stale), s.stale, if removed then victims * stuck else {})
    ensures removed ==> SourcesStay(start, victims * stuck, s.known)
  {
    hide SealedOk, ActiveOk, IdsOk, Coherent, Merge, Content, Within, Survives, ChosenBy, Lawful, Sound, Sealing,
         StaleOk, Apart, RenamedOk, Movable, Ordered, Sealable;
    victims, removed, start := {}, false, Now(s);
    var grey := s.TakeGrey();
    var live: Live := (k: Key) => k in grey || marked(k);
    if s.closed { return Some(Cancelled), victims, removed, start; }
    if s.failed { return Some(Rejected), victims, removed, start; }
    var ok := s.SealActive();
    if !ok { return Some(Rejected), victims, removed, start; }
    start := Now(s);
    err, victims, removed := CompactSealed(s, live, minDeadRatio, eligible, check, stuck);
  }

  ghost predicate ChosenBy(h: Held, victims: set<nat>, live: Live, minDeadRatio: real, eligible: nat -> bool) {
    |h.sealed| == |h.srcs| && forall i :: 0 <= i < |h.sealed| ==>
      (h.sealed[i].id in victims <==> eligible(h.sealed[i].id) && Selected(h.srcs[i].es, live, minDeadRatio))
  }

  method ListRows(s: Store, victims: set<nat>, ghost m: map<Key, Bytes>) returns (rows: seq<Candidate>)
    requires s.Valid() && s.Map() == m
    ensures (forall j :: 0 <= j < |rows| ==> RowOk(s.codec, m, rows[j])) && RowsCover(Now(s), victims, rows)
  {
    hide SealedFrom, Opened, ActiveOk, Merge, Content, Within, HasRow, RowOk;
    rows := VictimRows(s.codec, s.filter, s.sealed, victims, s.srcs, m);
  }
}
