/** The scrub of a sealed segment (packstore/verify.go): every record re-hashed, the
    index re-derived and compared byte for byte. */
module Scrub {
  import opened Base
  import opened Keys
  import opened Record
  import opened WirePack
  import opened SegmentIndex
  import opened SegmentFooter
  import opened Segments
  import opened SealedSegments
  import opened PackStore

  /** What an object must satisfy beyond its framing. */
  type Check = (Key, Bytes) -> bool

  /** The key is the one its payload hashes to; leaf types also carry its length. */
  predicate Authentic(digest: Bytes -> Digest, k: Key, data: Bytes) {
    LengthBound(k);
    && NewFromHash(Type(k), Length(k), digest(data)) == Success(k)
    && (IsLeafType(k) ==> Length(k) == |data|)
  }

  /** The record at `off` of `body` parses, decodes, passes the object check and is in the
      filter. */
  predicate SoundRecord(c: Codec, f: Filter, check: Check, body: Bytes, filter: Bytes, off: nat)
    requires off <= |body|
  {
    var r := ParseRecord(c, body[off..]);
    && r.Success?
    && var h := r.value;
    && var d := DecodePayload(c, h.flags, h.ulen, body[off + 46..off + 46 + h.slen]);
    && d.Success? && check(h.key, d.value) && f.contains(filter, FilterKey(h.key))
  }

  function EntryAt(c: Codec, body: Bytes, off: nat): IndexEntry
    requires off <= |body| && ParseRecord(c, body[off..]).Success?
  {
    var h := ParseRecord(c, body[off..]).value;
    IndexEntry(h.key, off, h.slen)
  }

  type RowAt = (Bytes, nat) -> Option<IndexEntry>

  /** The row of the record at an offset, if the record there is sound. */
  function SoundRow(c: Codec, f: Filter, check: Check, filter: Bytes): RowAt {
    (body: Bytes, off: nat) =>
      if off <= |body| && SoundRecord(c, f, check, body, filter, off) then Some(EntryAt(c, body, off)) else None
  }

  /** The rows of the records that fill `body` exactly from `off`; none if they do
      not. */
  function Derived(row: RowAt, body: Bytes, off: nat): Option<seq<IndexEntry>>
    decreases |body| - off
  {
    if off >= |body| then if off == |body| then Some([]) else None
    else match row(body, off)
      case None => None
      case Some(e) => Prepend([e], Derived(row, body, off + 46 + e.slen))
  }

  /** Succeeds exactly when sound records fill the body and the stored index is the
      one they derive, unless cancelled. */
  method Verify(c: Codec, f: Filter, check: Check, g: Sealed, cancelled: nat -> bool) returns (ok: bool)
    requires Opened(c, f, g)
    ensures ok ==> Clean(c, f, check, g)
    ensures !ok && (forall i :: !cancelled(i)) ==> !Clean(c, f, check, g)
  {
    var row := SoundRow(c, f, check, g.view.filter);
    var entries := Collect(row, g.mm[..g.view.bodyLen], cancelled);
    if entries.None? || |entries.value| != g.view.keyCount { return false; }
    var rebuilt := BuildIndexSection(entries.value);
    return rebuilt == IndexSection(g);
  }

  method Collect(row: RowAt, body: Bytes, cancelled: nat -> bool) returns (r: Option<seq<IndexEntry>>)
    ensures r.Some? ==> r == Derived(row, body, 8)
    ensures r.None? && (forall i :: !cancelled(i)) ==> Derived(row, body, 8).None?
  {
    var off := 8;
    var entries: seq<IndexEntry> := [];
    PrependNothing(Derived(row, body, 8));
    while off < |body|
      invariant Derived(row, body, 8) == Prepend(entries, Derived(row, body, off))
      decreases |body| - off
    {
      if cancelled(|entries|) { return None; }
      var e := row(body, off);
      if e.None? { return None; }
      PrependStep(entries, e.value, Derived(row, body, off + 46 + e.value.slen));
      entries := entries + [e.value];
      off := off + 46 + e.value.slen;
    }
    assert entries + [] == entries;
    return if off == |body| then Some(entries) else None;
  }

  ghost predicate Clean(c: Codec, f: Filter, check: Check, g: Sealed)
    requires Opened(c, f, g)
  {
    var d := Derived(SoundRow(c, f, check, g.view.filter), g.mm[..g.view.bodyLen], 8);
    d.Some? && |d.value| == g.view.keyCount && IndexSection(g) == IndexBytes(Sort(d.value))
  }

  function Prepend(a: seq<IndexEntry>, d: Option<seq<IndexEntry>>): Option<seq<IndexEntry>> {
    match d
    case None => None
    case Some(b) => Some(a + b)
  }

  lemma PrependNothing(d: Option<seq<IndexEntry>>)
    ensures Prepend([], d) == d
  {
    if d.Some? { assert [] + d.value == d.value; }
  }

  lemma PrependStep(a: seq<IndexEntry>, e: IndexEntry, d: Option<seq<IndexEntry>>)
    ensures Prepend(a, Prepend([e], d)) == Prepend(a + [e], d)
  {
    if d.Some? { assert a + ([e] + d.value) == a + [e] + d.value; }
  }

  // ------------------------------------------------------- built segments

  ghost function RowOf(c: Codec, recs: seq<Rec>, i: nat): IndexEntry
    requires AllFit(recs) && i < |recs|
  {
    IndexEntry(recs[i].key, |Body(c, recs[..i])|, HeaderOf(c, recs[i].key, recs[i].data).slen)
  }

  /** The rows of `recs` from the `i`th on, in body order. */
  ghost function RowsFrom(c: Codec, recs: seq<Rec>, i: nat): seq<IndexEntry>
    requires AllFit(recs) && i <= |recs|
    decreases |recs| - i
  {
    if i == |recs| then [] else [RowOf(c, recs, i)] + RowsFrom(c, recs, i + 1)
  }

  ghost predicate AllPass(check: Check, recs: seq<Rec>) {
    forall i :: 0 <= i < |recs| ==> check(recs[i].key, recs[i].data)
  }

  lemma RecordIsSound(c: Codec, f: Filter, check: Check, recs: seq<Rec>, filter: Bytes, i: nat)
    requires Lawful(c) && Packable(recs) && i < |recs|
    requires check(recs[i].key, recs[i].data) && f.contains(filter, FilterKey(recs[i].key))
    ensures |Body(c, recs[..i])| <= |Body(c, recs)|
    ensures SoundRecord(c, f, check, Body(c, recs), filter, |Body(c, recs[..i])|)
    ensures EntryAt(c, Body(c, recs), |Body(c, recs[..i])|) == RowOf(c, recs, i)
  {
    hide ParseRecord, DecodePayload, SoundRecord, EntryAt;
    var body, off, o := Body(c, recs), |Body(c, recs[..i])|, recs[i];
    RecordAt(c, recs, [], i);
    assert body + [] == body;
    var rest := Records(c, recs[i + 1..]) + [];
    RecordParses(c, o.key, o.data, rest);
    HereLocates(c, body, off, o, rest);
    LocatedDecodes(c, body, LocAt(c, off, o), o.key, o.data);
    SoundWhen(c, f, check, body, filter, off, HeaderOf(c, o.key, o.data), o.data);
  }

  lemma SoundWhen(c: Codec, f: Filter, check: Check, body: Bytes, filter: Bytes, off: nat, h: Header, data: Bytes)
    requires off + 46 + h.slen <= |body| && ParseRecord(c, body[off..]) == Success(h)
    requires DecodePayload(c, h.flags, h.ulen, body[off + 46..off + 46 + h.slen]) == Success(data)
    requires check(h.key, data) && f.contains(filter, FilterKey(h.key))
    ensures SoundRecord(c, f, check, body, filter, off)
    ensures EntryAt(c, body, off) == IndexEntry(h.key, off, h.slen)
  {
  }

  lemma HereLocates(c: Codec, body: Bytes, off: nat, o: Rec, rest: Bytes)
    requires Lawful(c) && Fits(o) && 8 <= off <= |body| && body[off..] == RecordOf(c, o) + rest
    ensures Locates(c, body, LocAt(c, off, o), o.key, o.data)
  {
    EncodedShape(c, o.key, o.data, []);
    var n := |RecordOf(c, o)|;
    assert body[off..off + n] == body[off..][..n];
  }

  lemma {:induction false} BodyDerives(c: Codec, recs: seq<Rec>, row: RowAt, i: nat)
    requires Lawful(c) && AllFit(recs) && i <= |recs|
    requires forall j :: 0 <= j < |recs| ==> row(Body(c, recs), |Body(c, recs[..j])|) == Some(RowOf(c, recs, j))
    ensures Derived(row, Body(c, recs), |Body(c, recs[..i])|) == Some(RowsFrom(c, recs, i))
    decreases |recs| - i
  {
    if i == |recs| {
      assert recs[..i] == recs;
    } else {
      NextOffset(c, recs, i);
      BodyGrows(c, recs, i + 1);
      BodyDerives(c, recs, row, i + 1);
    }
  }

  lemma NextOffset(c: Codec, recs: seq<Rec>, i: nat)
    requires Lawful(c) && AllFit(recs) && i < |recs|
    ensures |Body(c, recs[..i + 1])| == |Body(c, recs[..i])| + 46 + RowOf(c, recs, i).slen
  {
    assert recs[..i + 1] == recs[..i] + [recs[i]];
    BodyAppend(c, recs[..i], recs[i]);
    EncodedShape(c, recs[i].key, recs[i].data, []);
  }

  // ------------------------------------------------------------- the scrub

  lemma {:induction false} RowsFromElements(c: Codec, recs: seq<Rec>, i: nat)
    requires AllFit(recs) && i <= |recs|
    ensures |RowsFrom(c, recs, i)| == |recs| - i
    ensures forall j :: 0 <= j < |recs| - i ==> RowsFrom(c, recs, i)[j] == RowOf(c, recs, i + j)
    decreases |recs| - i
  {
    if i < |recs| { RowsFromElements(c, recs, i + 1); }
  }

  lemma FrontSlices(recs: seq<Rec>, n: nat, i: nat)
    requires i < n <= |recs|
    ensures recs[..n][..i] == recs[..i] && recs[..n][i] == recs[i]
  {
  }

  lemma {:induction false} LocsRow(c: Codec, recs: seq<Rec>, i: nat)
    requires AllFit(recs) && DistinctRecs(recs) && i < |recs|
    ensures recs[i].key in Locs(c, recs) && EntryOf(recs[i].key, Locs(c, recs)[recs[i].key]) == RowOf(c, recs, i)
    decreases |recs|
  {
    var n := |recs| - 1;
    if i < n {
      LocsRow(c, recs[..n], i);
      FrontSlices(recs, n, i);
    }
  }

  lemma {:induction false} LocsKey(c: Codec, recs: seq<Rec>, k: Key) returns (i: nat)
    requires AllFit(recs) && k in Locs(c, recs)
    ensures i < |recs| && recs[i].key == k
    decreases |recs|
  {
    i := |recs| - 1;
    if recs[i].key != k { i := LocsKey(c, recs[..i], k); }
  }

  lemma {:induction false} LocsSize(c: Codec, recs: seq<Rec>)
    requires AllFit(recs) && DistinctRecs(recs)
    ensures |Locs(c, recs)| == |recs|
  {
    if recs != [] {
      var n := |recs| - 1;
      LocsSize(c, recs[..n]);
      if recs[n].key in Locs(c, recs[..n]) { var i := LocsKey(c, recs[..n], recs[n].key); assert false; }
    }
  }

  lemma RowsDistinct(c: Codec, recs: seq<Rec>)
    requires AllFit(recs) && DistinctRecs(recs)
    ensures DistinctKeys(RowsFrom(c, recs, 0)) && |RowsFrom(c, recs, 0)| == |Locs(c, recs)|
  {
    hide RowsFrom, Locs, Body;
    RowsFromElements(c, recs, 0);
    LocsSize(c, recs);
    var rows := RowsFrom(c, recs, 0);
    forall i, j | 0 <= i < j < |rows| ensures rows[i].key != rows[j].key {
      assert rows[i] == RowOf(c, recs, 0 + i) && rows[j] == RowOf(c, recs, 0 + j);
    }
  }

  lemma RowsCover(c: Codec, recs: seq<Rec>)
    requires AllFit(recs) && DistinctRecs(recs)
    ensures Covers(RowsFrom(c, recs, 0), Locs(c, recs))
  {
    RowsDistinct(c, recs);
    RowsFromElements(c, recs, 0);
    var rows, locs := RowsFrom(c, recs, 0), Locs(c, recs);
    forall e | e in rows ensures e.key in locs && e == EntryOf(e.key, locs[e.key]) {
      var i :| 0 <= i < |rows| && rows[i] == e;
      assert e == RowOf(c, recs, 0 + i);
      LocsRow(c, recs, i);
    }
    forall k | k in locs ensures EntryOf(k, locs[k]) in rows {
      var i := LocsKey(c, recs, k);
      LocsRow(c, recs, i);
      assert rows[i] == RowOf(c, recs, 0 + i);
    }
  }

  /** The rows the body derives sort to the index sealed, whatever order that was
      built in. */
  lemma RowsSortToIndex(c: Codec, recs: seq<Rec>, es: seq<IndexEntry>)
    requires AllFit(recs) && DistinctRecs(recs) && IndexOf(es, Locs(c, recs))
    ensures Sort(RowsFrom(c, recs, 0)) == es && |RowsFrom(c, recs, 0)| == |es|
  {
    RowsCover(c, recs);
    var rows, locs := RowsFrom(c, recs, 0), Locs(c, recs);
    CoversSorted(rows, locs);
    SortedUnique(Sort(rows), es);
  }

  /** A segment sealed from authentic records passes the scrub. */
  lemma SealedIsClean(c: Codec, f: Filter, check: Check, g: Sealed, src: Source)
    requires Lawful(c) && SealedFrom(c, f, g, src)
    requires Packable(src.recs) && DistinctRecs(src.recs) && AllPass(check, src.recs)
    ensures Clean(c, f, check, g)
  {
    var recs, row := src.recs, SoundRow(c, f, check, g.view.filter);
    forall j | 0 <= j < |recs| ensures row(Body(c, recs), |Body(c, recs[..j])|) == Some(RowOf(c, recs, j)) {
      LocsRow(c, recs, j);
      RecordIsSound(c, f, check, recs, g.view.filter, j);
    }
    assert recs[..0] == [];
    HeaderThenRest(c, recs, []);
    BodyDerives(c, recs, row, 0);
    RowsSortToIndex(c, recs, src.es);
  }

  // ----------------------------------------------------- only clean records

  ghost predicate PassesAt(check: Check, recs: seq<Rec>, j: nat)
    requires j < |recs|
  {
    Valid(recs[j].key) && check(recs[j].key, recs[j].data)
  }

  lemma SoundOnlyIf(c: Codec, f: Filter, check: Check, recs: seq<Rec>, filter: Bytes, i: nat)
    requires Lawful(c) && AllFit(recs) && i < |recs| && |Body(c, recs[..i])| <= |Body(c, recs)|
    requires SoundRecord(c, f, check, Body(c, recs), filter, |Body(c, recs[..i])|)
    ensures PassesAt(check, recs, i)
    ensures EntryAt(c, Body(c, recs), |Body(c, recs[..i])|) == RowOf(c, recs, i)
  {
    hide ParseRecord, DecodePayload;
    var body, off, o := Body(c, recs), |Body(c, recs[..i])|, recs[i];
    RecordAt(c, recs, [], i);
    assert body + [] == body;
    var rest := Records(c, recs[i + 1..]) + [];
    RecordParses(c, o.key, o.data, rest);
    HereLocates(c, body, off, o, rest);
    LocatedDecodes(c, body, LocAt(c, off, o), o.key, o.data);
  }

  lemma {:induction false} DerivedOnlyIf(c: Codec, f: Filter, check: Check, recs: seq<Rec>, filter: Bytes, i: nat)
    requires Lawful(c) && AllFit(recs) && i <= |recs|
    requires Derived(SoundRow(c, f, check, filter), Body(c, recs), |BodyTo(c, recs, i)|).Some?
    ensures forall j :: i <= j < |recs| ==> PassesAt(check, recs, j)
    decreases |recs| - i
  {
    hide Body, BodyTo, Derived, SoundRow, PassesAt;
    if i < |recs| {
      OneMorePasses(c, f, check, recs, filter, i);
      DerivedOnlyIf(c, f, check, recs, filter, i + 1);
    }
  }

  lemma OneMorePasses(c: Codec, f: Filter, check: Check, recs: seq<Rec>, filter: Bytes, i: nat)
    requires Lawful(c) && AllFit(recs) && i < |recs|
    requires Derived(SoundRow(c, f, check, filter), Body(c, recs), |BodyTo(c, recs, i)|).Some?
    ensures PassesAt(check, recs, i)
    ensures Derived(SoundRow(c, f, check, filter), Body(c, recs), |BodyTo(c, recs, i + 1)|).Some?
  {
    hide SoundRecord, EntryAt, Body, Derived, SoundRow, RowOf, PassesAt;
    NextOffset(c, recs, i);
    SamePrefix(c, recs, [], i + 1);
    DerivedStep(c, f, check, filter, Body(c, recs), |Body(c, recs[..i])|);
    SoundOnlyIf(c, f, check, recs, filter, i);
  }

  lemma DerivedStep(c: Codec, f: Filter, check: Check, filter: Bytes, body: Bytes, off: nat)
    requires off < |body| && Derived(SoundRow(c, f, check, filter), body, off).Some?
    ensures SoundRecord(c, f, check, body, filter, off)
    ensures Derived(SoundRow(c, f, check, filter), body, off + 46 + EntryAt(c, body, off).slen).Some?
  {
    hide ParseRecord, DecodePayload;
  }

  lemma CleanOnlyIf(c: Codec, f: Filter, check: Check, g: Sealed, src: Source)
    requires Lawful(c) && SealedFrom(c, f, g, src) && Clean(c, f, check, g)
    ensures RecordsPass(check, src.recs)
  {
    hide SoundRow, Derived, IndexOf, Locs;
    HeaderThenRest(c, src.recs, []);
    assert src.recs[..0] == [];
    DerivedOnlyIf(c, f, check, src.recs, g.view.filter, 0);
  }

  /** A sealed segment passes the scrub exactly when its keys are canonical and its
      objects pass the check. */
  lemma SealedIsCleanIff(c: Codec, f: Filter, check: Check, g: Sealed, src: Source)
    requires Lawful(c) && SealedFrom(c, f, g, src) && DistinctRecs(src.recs)
    ensures Clean(c, f, check, g) <==> Packable(src.recs) && AllPass(check, src.recs)
  {
    hide Clean, IndexOf, Locs, Body, IndexSection;
    if Clean(c, f, check, g) {
      CleanOnlyIf(c, f, check, g, src);
      PassingFits(c, f, check, g, src);
    } else if Packable(src.recs) && AllPass(check, src.recs) {
      SealedIsClean(c, f, check, g, src);
    }
  }

  /** What the sealed segments of a store hold all passes. */
  ghost predicate HeldPass(check: Check, m: map<Key, Bytes>) {
    forall k :: k in m ==> Valid(k) && check(k, m[k])
  }

  /** Every sealed segment of a store passes the scrub exactly when every object they
      hold has a canonical key and passes the check. */
  lemma StoreIsCleanIff(s: Store, check: Check)
    requires s.Valid()
    ensures forall i :: 0 <= i < |s.sealed| ==> Opened(s.codec, s.filter, s.sealed[i])
    ensures (forall i :: 0 <= i < |s.sealed| ==> Clean(s.codec, s.filter, check, s.sealed[i])) <==>
            HeldPass(check, Merge(s.srcs))
  {
    SourcesCleanIff(s.codec, s.filter, check, s.sealed, s.srcs, s.recs, s.Map());
  }

  lemma SourcesCleanIff(c: Codec, f: Filter, check: Check, sealed: seq<Sealed>, srcs: seq<Source>, recs: seq<Rec>,
                        m: map<Key, Bytes>)
    requires Lawful(c) && SealedOk(c, f, sealed, srcs) && Coherent(srcs, recs, m) && m == Merge(srcs) + Content(recs)
    ensures (forall i :: 0 <= i < |sealed| ==> Clean(c, f, check, sealed[i])) <==> HeldPass(check, Merge(srcs))
  {
    hide SealedFrom, Opened, Clean, Merge, Content;
    MergeWithin(srcs, m);
    forall i | 0 <= i < |sealed| ensures Clean(c, f, check, sealed[i]) <==> RecordsPass(check, srcs[i].recs) {
      SealedIsCleanIff(c, f, check, sealed[i], srcs[i]);
      PassingFits(c, f, check, sealed[i], srcs[i]);
    }
    if HeldPass(check, Merge(srcs)) {
      forall i | 0 <= i < |srcs| ensures RecordsPass(check, srcs[i].recs) {
        forall j | 0 <= j < |srcs[i].recs| ensures PassesAt(check, srcs[i].recs, j) {
          DistinctContent(srcs[i].recs, j);
          MergeCovers(srcs, i, srcs[i].recs[j].key);
        }
      }
    }
    if forall i :: 0 <= i < |sealed| ==> Clean(c, f, check, sealed[i]) {
      forall k | k in Merge(srcs) ensures Valid(k) && check(k, Merge(srcs)[k]) {
        var i := MergeSource(srcs, k);
        var j := ContentHasRecord(srcs[i].recs, k);
        assert RecordsPass(check, srcs[i].recs);
        assert PassesAt(check, srcs[i].recs, j);
      }
    }
  }

  ghost predicate RecordsPass(check: Check, recs: seq<Rec>) {
    forall j :: 0 <= j < |recs| ==> PassesAt(check, recs, j)
  }

  lemma PassingFits(c: Codec, f: Filter, check: Check, g: Sealed, src: Source)
    requires SealedFrom(c, f, g, src)
    ensures RecordsPass(check, src.recs) <==> Packable(src.recs) && AllPass(check, src.recs)
  {
    hide Opened, IndexSection, Locs, IndexOf;
    if Packable(src.recs) && AllPass(check, src.recs) {
      forall j | 0 <= j < |src.recs| ensures PassesAt(check, src.recs, j) { }
    } else if RecordsPass(check, src.recs) {
      forall j | 0 <= j < |src.recs|
        ensures Valid(src.recs[j].key) && check(src.recs[j].key, src.recs[j].data)
      {
        assert PassesAt(check, src.recs, j);
      }
    }
  }

  /** The check the store uses passes on every key made from its own payload. */
  lemma MadeKeysAreAuthentic(digest: Bytes -> Digest, t: nat, length: nat, data: Bytes)
    requires length < U64 && t <= XATTR_SET && (t == BLOB || t == XATTR_SET ==> length == |data|)
    ensures NewFromHash(t, length, digest(data)).Success?
    ensures Authentic(digest, NewFromHash(t, length, digest(data)).value, data)
  {
    NewKeyReadsBack(t, length, digest(data));
  }
}
