/** Segment bodies (packstore/recover.go, packstore/packstore.go): the header and
    whole records, and the tail scan that finds them again after a crash. */
module Segments {
  import opened Base
  import opened Keys
  import opened Record
  import opened WirePack
  import opened SegmentFooter

  /** Where a record lies in the active segment, with its header fields. */
  datatype Loc = Loc(off: nat, flags: Byte, ulen: nat, slen: nat)

  ghost predicate AllFit(recs: seq<Rec>) {
    forall i :: 0 <= i < |recs| ==> Fits(recs[i])
  }

  /** The bytes of a segment that holds `recs` and is not sealed. */
  ghost function Body(c: Codec, recs: seq<Rec>): (b: Bytes)
    requires AllFit(recs)
    ensures |b| >= 8
  {
    MAGIC_HEADER + Records(c, recs)
  }

  ghost function LocAt(c: Codec, off: nat, o: Rec): Loc {
    var h := HeaderOf(c, o.key, o.data);
    Loc(off, h.flags, h.ulen, h.slen)
  }

  /** The in-memory index of a segment that holds `recs`. */
  ghost function Locs(c: Codec, recs: seq<Rec>): map<Key, Loc>
    requires AllFit(recs)
  {
    if recs == [] then map[]
    else
      var front, o := recs[..|recs| - 1], recs[|recs| - 1];
      Locs(c, front)[o.key := LocAt(c, |Body(c, front)|, o)]
  }

  lemma BodyAppend(c: Codec, recs: seq<Rec>, o: Rec)
    requires AllFit(recs) && Fits(o)
    ensures AllFit(recs + [o]) && Body(c, recs + [o]) == Body(c, recs) + RecordOf(c, o)
  {
    RecordsAppend(c, recs, o);
    assert MAGIC_HEADER + (Records(c, recs) + RecordOf(c, o)) == MAGIC_HEADER + Records(c, recs) + RecordOf(c, o);
  }

  lemma LocsAppend(c: Codec, recs: seq<Rec>, o: Rec)
    requires AllFit(recs) && Fits(o)
    ensures AllFit(recs + [o])
    ensures Locs(c, recs + [o]) == Locs(c, recs)[o.key := LocAt(c, |Body(c, recs)|, o)]
  {
    assert (recs + [o])[..|recs|] == recs;
  }

  // ----------------------------------------------------------------- scan

  lemma RecordFits(c: Codec, b: Bytes)
    requires ParseRecord(c, b).Success?
    ensures 46 + ParseRecord(c, b).value.slen <= |b|
  {
  }

  /** The walk over whole records from `off`: where it stops and what it indexed. */
  function Walk(c: Codec, b: Bytes, off: nat, index: map<Key, Loc>): (r: (nat, map<Key, Loc>))
    requires off <= |b|
    ensures off <= r.0 <= |b|
    decreases |b| - off
  {
    if off == |b| || b[off] == SEAL then (off, index)
    else
      var r := ParseRecord(c, b[off..]);
      if r.Failure? then (off, index)
      else
        var h := r.value;
        Walk(c, b, off + 46 + h.slen, index[h.key := Loc(off, h.flags, h.ulen, h.slen)])
  }

  datatype Scan = Scan(size: nat, index: map<Key, Loc>, sealed: bool)

  ghost predicate HasFooter(c: Codec, f: Filter, b: Bytes) { exists v :: FooterOf(c, f, b, v) }

  /** Tail-scans an active segment file. A file without a whole header is reset; a
      file whose records are followed by a valid footer is sealed; otherwise the
      valid part ends at the first byte that starts no record. */
  method ScanActive(c: Codec, f: Filter, b: Bytes) returns (r: Scan)
    ensures !(MAGIC_HEADER <= b) ==> r == Scan(0, map[], false)
    ensures MAGIC_HEADER <= b ==>
      var (end, index) := Walk(c, b, 8, map[]);
      if end < |b| && b[end] == SEAL && HasFooter(c, f, b) then r.sealed && r.size == |b|
      else r == Scan(end, index, false)
  {
    hide ParseRecord, FooterOf;
    if |b| < 8 || b[..8] != MAGIC_HEADER { return Scan(0, map[], false); }
    var off := 8;
    var index: map<Key, Loc> := map[];
    while off < |b|
      invariant 8 <= off <= |b| && Walk(c, b, 8, map[]) == Walk(c, b, off, index)
      decreases |b| - off
    {
      if b[off] == SEAL {
        var footer := ParseFooter(c, f, b);
        if footer.Success? { return Scan(|b|, index, true); }
        break;
      }
      var rec := ParseRecord(c, b[off..]);
      if rec.Failure? { break; }
      RecordFits(c, b[off..]);
      var h := rec.value;
      index := index[h.key := Loc(off, h.flags, h.ulen, h.slen)];
      off := off + 46 + h.slen;
    }
    return Scan(off, index, false);
  }

  /** What is left after the last whole record: nothing, the start of a footer, or
      bytes that are no record. */
  predicate Torn(c: Codec, tail: Bytes) {
    tail == [] || tail[0] == SEAL || ParseRecord(c, tail).Failure?
  }

  lemma Regroup(a: Bytes, b: Bytes, r: Bytes, p: Bytes, t: Bytes)
    ensures a + (b + r + p) == a + b + r + p
    ensures a + (b + r + p) + t == (a + b) + (r + (p + t))
    ensures ((a + b) + (r + (p + t)))[|a + b|..] == r + (p + t)
  {
  }

  lemma SplitSlices(recs: seq<Rec>, i: nat)
    requires 0 < i < |recs|
    ensures recs[1..][..i - 1] == recs[..i][1..] && recs[1..][i - 1] == recs[i] && recs[1..][i..] == recs[i + 1..]
    ensures recs[..i][0] == recs[0]
  {
  }

  lemma RecordAt(c: Codec, recs: seq<Rec>, tail: Bytes, i: nat)
    requires AllFit(recs) && i < |recs|
    ensures AllFit(recs[..i]) && AllFit(recs[i + 1..])
    ensures var off := |Body(c, recs[..i])|; var b := Body(c, recs) + tail;
            off <= |b| && b[off..] == RecordOf(c, recs[i]) + (Records(c, recs[i + 1..]) + tail)
  {
    RecordsSplit(c, recs, i);
    Regroup(MAGIC_HEADER, Records(c, recs[..i]), RecordOf(c, recs[i]), Records(c, recs[i + 1..]), tail);
  }

  lemma {:induction false} RecordsSplit(c: Codec, recs: seq<Rec>, i: nat)
    requires AllFit(recs) && i < |recs|
    ensures AllFit(recs[..i]) && AllFit(recs[i + 1..])
    ensures Records(c, recs) == Records(c, recs[..i]) + RecordOf(c, recs[i]) + Records(c, recs[i + 1..])
  {
    if i > 0 {
      RecordsSplit(c, recs[1..], i - 1);
      SplitSlices(recs, i);
      Regroup(RecordOf(c, recs[0]), Records(c, recs[..i][1..]), RecordOf(c, recs[i]), Records(c, recs[i + 1..]), []);
    }
  }

  lemma WalkStep(c: Codec, b: Bytes, off: nat, index: map<Key, Loc>, h: Header)
    requires off < |b| && b[off] != SEAL && ParseRecord(c, b[off..]) == Success(h)
    ensures off + 46 + h.slen <= |b|
    ensures Walk(c, b, off, index) == Walk(c, b, off + 46 + h.slen, index[h.key := Loc(off, h.flags, h.ulen, h.slen)])
  {
  }

  /** Walking past the record that starts at `off`. */
  lemma WalkRecord(c: Codec, b: Bytes, off: nat, index: map<Key, Loc>, o: Rec, rest: Bytes)
    requires Lawful(c) && Keys.Valid(o.key) && Fits(o)
    requires off <= |b| && b[off..] == RecordOf(c, o) + rest
    ensures off + |RecordOf(c, o)| <= |b|
    ensures Walk(c, b, off, index) == Walk(c, b, off + |RecordOf(c, o)|, index[o.key := LocAt(c, off, o)])
  {
    hide ParseRecord, Walk, FromBE, BE;
    RecordParses(c, o.key, o.data, rest);
    EncodedShape(c, o.key, o.data, rest);
    assert b[off] == b[off..][0];
    WalkStep(c, b, off, index, HeaderOf(c, o.key, o.data));
  }

  lemma WalkStops(c: Codec, b: Bytes, off: nat, index: map<Key, Loc>)
    requires off <= |b| && Torn(c, b[off..])
    ensures Walk(c, b, off, index) == (off, index)
  {
  }

  lemma BodyGrows(c: Codec, recs: seq<Rec>, i: nat)
    requires AllFit(recs) && i <= |recs|
    ensures AllFit(recs[..i]) && |Body(c, recs[..i])| <= |Body(c, recs)|
  {
    if i < |recs| { RecordsSplit(c, recs, i); } else { assert recs[..i] == recs; }
  }

  /** The walk gets past every record under a canonical key, whatever follows. */
  lemma {:induction false} WalkBody(c: Codec, recs: seq<Rec>, tail: Bytes, b: Bytes, i: nat)
    requires Lawful(c) && Packable(recs) && i <= |recs| && b == Body(c, recs) + tail
    ensures |Body(c, recs[..i])| <= |b|
    ensures Walk(c, b, |Body(c, recs[..i])|, Locs(c, recs[..i])) == Walk(c, b, |Body(c, recs)|, Locs(c, recs))
    decreases |recs| - i
  {
    hide Walk, RecordOf;
    if i == |recs| {
      assert recs[..i] == recs;
    } else {
      RecordAt(c, recs, tail, i);
      assert recs[..i + 1] == recs[..i] + [recs[i]];
      WalkRecord(c, b, |Body(c, recs[..i])|, Locs(c, recs[..i]), recs[i], Records(c, recs[i + 1..]) + tail);
      BodyAppend(c, recs[..i], recs[i]);
      LocsAppend(c, recs[..i], recs[i]);
      WalkBody(c, recs, tail, b, i + 1);
    }
  }

  lemma WalkFromHeader(c: Codec, recs: seq<Rec>, tail: Bytes)
    requires Lawful(c) && Packable(recs)
    ensures MAGIC_HEADER <= Body(c, recs) + tail
    ensures var b := Body(c, recs) + tail;
            Walk(c, b, 8, map[]) == Walk(c, b, |Body(c, recs)|, Locs(c, recs)) && b[|Body(c, recs)|..] == tail
  {
    hide Walk;
    HeaderThenRest(c, recs, tail);
    assert recs[..0] == [];
    WalkBody(c, recs, tail, Body(c, recs) + tail, 0);
  }

  lemma HeaderThenRest(c: Codec, recs: seq<Rec>, tail: Bytes)
    requires AllFit(recs)
    ensures MAGIC_HEADER <= Body(c, recs) + tail
    ensures Body(c, []) == MAGIC_HEADER
  {
    assert Body(c, recs) + tail == MAGIC_HEADER + (Records(c, recs) + tail);
  }

  /** The scan of a header, whole records and then a torn record or the start of a
      footer keeps every whole record at its offset and nothing else. */
  lemma ScanFindsRecords(c: Codec, recs: seq<Rec>, tail: Bytes)
    requires Lawful(c) && Packable(recs) && Torn(c, tail)
    ensures MAGIC_HEADER <= Body(c, recs) + tail
    ensures Walk(c, Body(c, recs) + tail, 8, map[]) == (|Body(c, recs)|, Locs(c, recs))
  {
    hide Torn;
    WalkFromHeader(c, recs, tail);
    WalkStops(c, Body(c, recs) + tail, |Body(c, recs)|, Locs(c, recs));
  }

  // -------------------------------------------------- what the scan gives up

  /** How many records come before the first under a non-canonical key. */
  ghost function CanonicalLength(recs: seq<Rec>): (n: nat)
    ensures n <= |recs| && (forall i :: 0 <= i < n ==> Keys.Valid(recs[i].key))
    ensures n < |recs| ==> !Keys.Valid(recs[n].key)
  {
    if recs == [] || !Keys.Valid(recs[0].key) then 0 else 1 + CanonicalLength(recs[1..])
  }

  /** What a scan can find of the records of a segment. */
  ghost function Scanned(recs: seq<Rec>): seq<Rec> { recs[..CanonicalLength(recs)] }

  /** The bytes from the first non-canonical record on start no record. */
  lemma BadRecordIsTorn(c: Codec, recs: seq<Rec>, tail: Bytes) returns (rest: Bytes)
    requires Lawful(c) && AllFit(recs) && CanonicalLength(recs) < |recs|
    ensures AllFit(Scanned(recs)) && Packable(Scanned(recs)) && |Body(c, Scanned(recs))| < |Body(c, recs)|
    ensures Body(c, recs) + tail == Body(c, Scanned(recs)) + rest
    ensures rest != [] && rest[0] == TAG_CHUNK && Torn(c, rest)
  {
    hide ParseRecord, FromBE, BE;
    var j := CanonicalLength(recs);
    var o := recs[j];
    RecordAt(c, recs, tail, j);
    RecordAt(c, recs, [], j);
    assert Body(c, recs) + [] == Body(c, recs);
    var more := Records(c, recs[j + 1..]) + tail;
    rest := RecordOf(c, o) + more;
    RecordParses(c, o.key, o.data, more);
    EncodedShape(c, o.key, o.data, more);
    SamePrefix(c, recs, tail, j);
  }

  lemma SamePrefix(c: Codec, recs: seq<Rec>, tail: Bytes, i: nat)
    requires AllFit(recs) && i <= |recs|
    ensures AllFit(recs[..i]) && |Body(c, recs[..i])| <= |Body(c, recs)|
    ensures Body(c, recs[..i]) <= Body(c, recs)
    ensures Body(c, recs) + tail == Body(c, recs[..i]) + (Body(c, recs) + tail)[|Body(c, recs[..i])|..]
  {
    if i < |recs| {
      RecordsSplit(c, recs, i);
      Regroup(MAGIC_HEADER, Records(c, recs[..i]), RecordOf(c, recs[i]), Records(c, recs[i + 1..]), tail);
    } else {
      assert recs[..i] == recs;
    }
  }

  /** A record under a non-canonical key ends the scan: it and everything after it,
      canonical or not, is cut away. */
  lemma ScanStopsAtBadKey(c: Codec, recs: seq<Rec>, tail: Bytes)
    requires Lawful(c) && AllFit(recs) && CanonicalLength(recs) < |recs|
    ensures AllFit(Scanned(recs)) && MAGIC_HEADER <= Body(c, recs) + tail
    ensures Walk(c, Body(c, recs) + tail, 8, map[]) == (|Body(c, Scanned(recs))|, Locs(c, Scanned(recs)))
    ensures |Body(c, Scanned(recs))| < |Body(c, recs)|
  {
    hide Torn, Walk;
    var rest := BadRecordIsTorn(c, recs, tail);
    ScanFindsRecords(c, Scanned(recs), rest);
  }

  /** The smallest loss: a canonical record behind a non-canonical one is not found. */
  lemma GoodRecordBehindBadIsLost(c: Codec, bad: Rec, good: Rec)
    requires Lawful(c) && Fits(bad) && Fits(good) && !Keys.Valid(bad.key) && Keys.Valid(good.key)
    ensures Walk(c, Body(c, [bad, good]), 8, map[]) == (8, map[])
  {
    hide Walk;
    var recs := [bad, good];
    assert CanonicalLength(recs) == 0 && Scanned(recs) == [];
    ScanStopsAtBadKey(c, recs, []);
    HeaderThenRest(c, [], []);
    assert Body(c, recs) + [] == Body(c, recs);
  }

  /** Bytes that start a record carry the walk on. */
  lemma WalkGoesOn(c: Codec, b: Bytes, off: nat, index: map<Key, Loc>)
    requires off <= |b| && !Torn(c, b[off..])
    ensures Walk(c, b, off, index).0 > off
  {
    hide ParseRecord;
    RecordFits(c, b[off..]);
  }

  /** The scan ends where the records do exactly when all their keys are canonical and
      what follows starts no record. */
  lemma ScanIsExactIff(c: Codec, recs: seq<Rec>, tail: Bytes)
    requires Lawful(c) && AllFit(recs)
    ensures |Body(c, recs) + tail| >= 8
    ensures Walk(c, Body(c, recs) + tail, 8, map[]).0 == |Body(c, recs)| <==> Packable(recs) && Torn(c, tail)
  {
    hide Walk, Torn;
    if CanonicalLength(recs) < |recs| {
      ScanStopsAtBadKey(c, recs, tail);
    } else {
      WalkFromHeader(c, recs, tail);
      if Torn(c, tail) {
        ScanFindsRecords(c, recs, tail);
      } else {
        WalkGoesOn(c, Body(c, recs) + tail, |Body(c, recs)|, Locs(c, recs));
      }
    }
  }

  /** Whatever follows canonical records, the scan loses none of their keys. */
  lemma {:induction false} WalkKeepsKeys(c: Codec, b: Bytes, off: nat, index: map<Key, Loc>)
    requires off <= |b|
    ensures index.Keys <= Walk(c, b, off, index).1.Keys
    decreases |b| - off
  {
    hide ParseRecord;
    if off < |b| && b[off] != SEAL {
      var r := ParseRecord(c, b[off..]);
      if r.Success? {
        RecordFits(c, b[off..]);
        var h := r.value;
        WalkKeepsKeys(c, b, off + 46 + h.slen, index[h.key := Loc(off, h.flags, h.ulen, h.slen)]);
      }
    }
  }

  lemma DirtyTailHidesNoKey(c: Codec, recs: seq<Rec>, tail: Bytes)
    requires Lawful(c) && Packable(recs)
    ensures |Body(c, recs) + tail| >= 8
    ensures Locs(c, recs).Keys <= Walk(c, Body(c, recs) + tail, 8, map[]).1.Keys
  {
    hide Walk;
    WalkFromHeader(c, recs, tail);
    WalkKeepsKeys(c, Body(c, recs) + tail, |Body(c, recs)|, Locs(c, recs));
  }

  /** A record cut short is torn. */
  lemma CutRecordIsTorn(c: Codec, o: Rec, n: nat)
    requires Lawful(c) && Fits(o) && n < |RecordOf(c, o)|
    ensures Torn(c, RecordOf(c, o)[..n]) && RecordOf(c, o)[0] == TAG_CHUNK
  {
    hide ParseRecord, FromBE, BE;
    PrefixFails(c, o.key, o.data, n);
    EncodedShape(c, o.key, o.data, []);
    assert RecordOf(c, o) + [] == RecordOf(c, o);
  }

  /** A body cut anywhere past the header is the body of its first records and a torn
      tail, and keeps every record that lies before the cut. */
  lemma {:induction false} CutBody(c: Codec, recs: seq<Rec>, n: nat) returns (j: nat, tail: Bytes)
    requires Lawful(c) && AllFit(recs) && 8 <= n <= |Body(c, recs)|
    ensures j <= |recs| && AllFit(recs[..j]) && Torn(c, tail) && (tail == [] || tail[0] == TAG_CHUNK)
    ensures Body(c, recs)[..n] == Body(c, recs[..j]) + tail
    ensures forall i :: 0 <= i <= |recs| && |BodyTo(c, recs, i)| <= n ==> i <= j
  {
    hide RecordOf, Torn;
    if n == |Body(c, recs)| {
      j, tail := |recs|, [];
      assert recs[..j] == recs;
      NothingIsTorn(c);
    } else if recs == [] {
      HeaderThenRest(c, [], []);
    } else {
      var front, o := recs[..|recs| - 1], recs[|recs| - 1];
      assert recs == front + [o];
      BodyAppend(c, front, o);
      if n < |Body(c, front)| {
        j, tail := CutBody(c, front, n);
        assert front[..j] == recs[..j];
        assert Body(c, recs)[..n] == Body(c, front)[..n];
        PrefixesOfFront(c, recs, front, j, n);
      } else {
        j, tail := |front|, RecordOf(c, o)[..n - |Body(c, front)|];
        CutRecordIsTorn(c, o, n - |Body(c, front)|);
        PrefixesBelow(c, recs, n);
      }
    }
  }

  /** The body of the first `i` records. */
  ghost function BodyTo(c: Codec, recs: seq<Rec>, i: nat): Bytes
    requires AllFit(recs) && i <= |recs|
  {
    Body(c, recs[..i])
  }

  lemma NothingIsTorn(c: Codec)
    ensures Torn(c, [])
  {
  }

  lemma PrefixesOfFront(c: Codec, recs: seq<Rec>, front: seq<Rec>, j: nat, n: nat)
    requires AllFit(recs) && recs != [] && front == recs[..|recs| - 1] && AllFit(front) && j <= |front|
    requires n < |Body(c, front)| <= |Body(c, recs)|
    requires forall i :: 0 <= i <= |front| && |BodyTo(c, front, i)| <= n ==> i <= j
    ensures forall i :: 0 <= i <= |recs| && |BodyTo(c, recs, i)| <= n ==> i <= j
  {
    hide Body;
    forall i | 0 <= i <= |recs| && |BodyTo(c, recs, i)| <= n ensures i <= j {
      assert recs[..|recs|] == recs;
      if i < |recs| {
        assert front[..i] == recs[..i];
        assert |BodyTo(c, front, i)| <= n;
      }
    }
  }

  lemma PrefixesBelow(c: Codec, recs: seq<Rec>, n: nat)
    requires AllFit(recs) && recs != [] && n < |Body(c, recs)|
    ensures forall i :: 0 <= i <= |recs| && |BodyTo(c, recs, i)| <= n ==> i <= |recs| - 1
  {
    assert recs[..|recs|] == recs;
  }

  // -------------------------------------------------------------- contents

  /** The objects a segment holds. */
  ghost function Content(recs: seq<Rec>): map<Key, Bytes> {
    if recs == [] then map[]
    else Content(recs[..|recs| - 1])[recs[|recs| - 1].key := recs[|recs| - 1].data]
  }

  /** No key twice: appends skip a key the segment already indexes. */
  ghost predicate DistinctRecs(recs: seq<Rec>) {
    forall i, j :: 0 <= i < j < |recs| ==> recs[i].key != recs[j].key
  }

  lemma {:induction false} EveryKeyLocated(c: Codec, recs: seq<Rec>, i: nat)
    requires AllFit(recs) && i < |recs|
    ensures recs[i].key in Locs(c, recs)
    decreases |recs|
  {
    var n := |recs| - 1;
    if i < n {
      EveryKeyLocated(c, recs[..n], i);
      assert recs[..n][i] == recs[i];
    }
  }

  lemma DistinctAppend(c: Codec, recs: seq<Rec>, o: Rec)
    requires AllFit(recs) && DistinctRecs(recs) && o.key !in Locs(c, recs)
    ensures DistinctRecs(recs + [o])
  {
    forall i | 0 <= i < |recs| ensures recs[i].key != o.key { EveryKeyLocated(c, recs, i); }
  }

  /** Distinct records are all held as they are. */
  lemma {:induction false} DistinctContent(recs: seq<Rec>, i: nat)
    requires DistinctRecs(recs) && i < |recs|
    ensures recs[i].key in Content(recs) && Content(recs)[recs[i].key] == recs[i].data
    decreases |recs|
  {
    var n := |recs| - 1;
    if i < n {
      DistinctContent(recs[..n], i);
      assert recs[..n][i] == recs[i];
    }
  }

  lemma {:induction false} ContentHasRecord(recs: seq<Rec>, k: Key) returns (i: nat)
    requires k in Content(recs)
    ensures i < |recs| && recs[i] == Rec(k, Content(recs)[k])
  {
    i := |recs| - 1;
    if recs[i].key != k { i := ContentHasRecord(recs[..i], k); }
  }

  lemma ContentAppend(recs: seq<Rec>, o: Rec)
    ensures Content(recs + [o]) == Content(recs)[o.key := o.data]
  {
    assert (recs + [o])[..|recs|] == recs;
  }

  /** `loc` locates the record of `k` and `data` in `body`. */
  ghost predicate Locates(c: Codec, body: Bytes, loc: Loc, k: Key, data: Bytes) {
    && |data| <= MAX_PAYLOAD
    && 8 <= loc.off && loc.off + 46 + loc.slen <= |body|
    && loc == LocAt(c, loc.off, Rec(k, data))
    && body[loc.off..loc.off + 46 + loc.slen] == RecordOf(c, Rec(k, data))
  }

  lemma LocatesInLonger(c: Codec, body: Bytes, more: Bytes, loc: Loc, k: Key, data: Bytes)
    requires Locates(c, body, loc, k, data)
    ensures Locates(c, body + more, loc, k, data)
  {
    assert (body + more)[loc.off..loc.off + 46 + loc.slen] == body[loc.off..loc.off + 46 + loc.slen];
  }

  lemma LocatesLast(c: Codec, body: Bytes, o: Rec)
    requires Lawful(c) && Fits(o) && |body| >= 8
    ensures Locates(c, body + RecordOf(c, o), LocAt(c, |body|, o), o.key, o.data)
  {
    EncodedShape(c, o.key, o.data, []);
    var rec := RecordOf(c, o);
    assert (body + rec)[|body|..|body| + |rec|] == rec;
  }

  /** The index locates exactly the objects held, each at its own record. */
  lemma {:induction false} LocsLocate(c: Codec, recs: seq<Rec>, k: Key)
    requires Lawful(c) && AllFit(recs)
    ensures k in Locs(c, recs) <==> k in Content(recs)
    ensures k in Locs(c, recs) ==> Locates(c, Body(c, recs), Locs(c, recs)[k], k, Content(recs)[k])
  {
    if recs != [] {
      var front, o := recs[..|recs| - 1], recs[|recs| - 1];
      assert recs == front + [o];
      BodyAppend(c, front, o);
      LocsAppend(c, front, o);
      ContentAppend(front, o);
      LocsLocate(c, front, k);
      if k == o.key {
        LocatesLast(c, Body(c, front), o);
      } else if k in Locs(c, front) {
        LocatesInLonger(c, Body(c, front), RecordOf(c, o), Locs(c, front)[k], k, Content(front)[k]);
      }
    }
  }

  /** Decoding a located record's stored bytes gives its data. */
  lemma LocatedDecodes(c: Codec, body: Bytes, loc: Loc, k: Key, data: Bytes)
    requires Lawful(c) && Locates(c, body, loc, k, data)
    ensures DecodePayload(c, loc.flags, loc.ulen, body[loc.off + 46..loc.off + 46 + loc.slen]) == Success(data)
    ensures body[loc.off + 33] == loc.flags && FromBE(body[loc.off + 34..loc.off + 38]) == loc.ulen
  {
    var rec := RecordOf(c, Rec(k, data));
    EncodedShape(c, k, data, []);
    assert rec + [] == rec;
    PayloadDecodes(c, k, data);
    SlicesOfRecord(body, rec, loc.off);
  }

  lemma SlicesOfRecord(body: Bytes, rec: Bytes, off: nat)
    requires |rec| >= 46 && off + |rec| <= |body| && body[off..off + |rec|] == rec
    ensures body[off + 46..off + |rec|] == rec[46..] && body[off + 33] == rec[33]
    ensures body[off + 34..off + 38] == rec[34..38]
  {
    SubSlice(body, off, off + |rec|, 34, 38);
    SubSlice(body, off, off + |rec|, 46, |rec|);
  }

  lemma SubSlice(s: Bytes, a: nat, b: nat, i: nat, j: nat)
    requires i <= j <= b - a && a <= b <= |s|
    ensures s[a..b][i..j] == s[a + i..a + j]
  {
    var l, r := s[a..b][i..j], s[a + i..a + j];
    assert |l| == |r|;
    forall m | 0 <= m < j - i ensures l[m] == r[m] { assert l[m] == s[a..b][i + m]; }
  }
}
