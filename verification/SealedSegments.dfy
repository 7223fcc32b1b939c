/** Sealed segments (packstore/footer.go): filter, index and record reads on an
    immutable image, and how a segment becomes one. */
module SealedSegments {
  import opened Base
  import opened Keys
  import opened Record
  import opened WirePack
  import opened SegmentIndex
  import opened SegmentFooter
  import opened Segments

  datatype Sealed = Sealed(id: nat, mm: Bytes, view: FooterView)

  /** The records and index rows a sealed image was built from. */
  datatype Source = Source(recs: seq<Rec>, es: seq<IndexEntry>)

  function EntryOf(k: Key, loc: Loc): IndexEntry { IndexEntry(k, loc.off, loc.slen) }

  /** `es` is the sorted index of the records located by `locs`. */
  ghost predicate IndexOf(es: seq<IndexEntry>, locs: map<Key, Loc>) {
    && Sorted(es) && |es| == |locs|
    && (forall e :: e in es ==> e.key in locs && e == EntryOf(e.key, locs[e.key]))
    && (forall k :: k in locs ==> EntryOf(k, locs[k]) in es)
  }

  /** Every image the store opens satisfies this: it parsed. */
  ghost predicate Opened(c: Codec, f: Filter, g: Sealed) { FooterOf(c, f, g.mm, g.view) }

  /** The index section of an image, where its footer says it is. */
  function IndexSection(g: Sealed): Bytes
    requires g.view.bodyLen + 1 + 1024 + 44 * g.view.keyCount <= |g.mm|
  {
    g.mm[g.view.bodyLen + 1..g.view.bodyLen + 1 + 1024 + 44 * g.view.keyCount]
  }

  /** The image is the sealed form of the segment that held `src.recs`. */
  ghost predicate SealedFrom(c: Codec, f: Filter, g: Sealed, src: Source) {
    && Opened(c, f, g) && AllFit(src.recs)
    && g.view.bodyLen == |Body(c, src.recs)| && g.mm[..g.view.bodyLen] == Body(c, src.recs)
    && IndexSection(g) == IndexBytes(src.es) && Indexes(g.view.index, src.es) && Fit(src.es)
    && IndexOf(src.es, Locs(c, src.recs))
    && forall k :: k in Locs(c, src.recs) ==> f.contains(g.view.filter, FilterKey(k))
  }

  /** Finds the row of every key held and of nothing else. */
  method Find(c: Codec, f: Filter, g: Sealed, k: Key, ghost src: Source) returns (r: Option<Slot>)
    requires Opened(c, f, g)
    ensures SealedFrom(c, f, g, src) ==>
              var locs := Locs(c, src.recs);
              r == if k in locs then Some(Slot(locs[k].off, locs[k].slen)) else None
  {
    if !f.contains(g.view.filter, FilterKey(k)) { return None; }
    r := Lookup(g.view.index, k, src.es);
    if SealedFrom(c, f, g, src) { FoundExactly(src.es, Locs(c, src.recs), k, r); }
  }

  lemma FoundExactly(es: seq<IndexEntry>, locs: map<Key, Loc>, k: Key, r: Option<Slot>)
    requires IndexOf(es, locs)
    requires r.Some? ==> IndexEntry(k, r.value.off, r.value.slen) in es
    requires r.None? ==> forall i :: 0 <= i < |es| ==> es[i].key != k
    ensures r == if k in locs then Some(Slot(locs[k].off, locs[k].slen)) else None
  {
  }

  method Has(c: Codec, f: Filter, g: Sealed, k: Key, ghost src: Source) returns (ok: bool)
    requires Lawful(c) && Opened(c, f, g)
    ensures SealedFrom(c, f, g, src) ==> ok == (k in Content(src.recs))
  {
    var slot := Find(c, f, g, k, src);
    ok := slot.Some?;
    if SealedFrom(c, f, g, src) { LocsLocate(c, src.recs, k); }
  }

  method StoredSize(c: Codec, f: Filter, g: Sealed, k: Key, ghost src: Source) returns (r: Option<nat>)
    requires Lawful(c) && Opened(c, f, g)
    ensures SealedFrom(c, f, g, src) ==>
              r == if k in Content(src.recs) then Some(|StoredForm(c, Content(src.recs)[k]).0|) else None
  {
    var slot := Find(c, f, g, k, src);
    r := if slot.Some? then Some(slot.value.slen) else None;
    if SealedFrom(c, f, g, src) { LocsLocate(c, src.recs, k); }
  }

  /** The bounds every read checks before touching the image. */
  predicate InBounds(bodyLen: nat, s: Slot) {
    8 <= s.off <= bodyLen && 46 + s.slen <= bodyLen - s.off
  }

  /** The payload a row points at; a row out of bounds is an error. */
  function PayloadAt(c: Codec, mm: Bytes, bodyLen: nat, s: Slot): Result<Bytes>
    requires bodyLen <= |mm|
  {
    if !InBounds(bodyLen, s) then Failure(Malformed)
    else DecodePayload(c, mm[s.off + 33], FromBE(mm[s.off + 34..s.off + 38]), mm[s.off + 46..s.off + 46 + s.slen])
  }

  function RecordBytesAt(mm: Bytes, bodyLen: nat, s: Slot): Result<Bytes>
    requires bodyLen <= |mm|
  {
    if !InBounds(bodyLen, s) then Failure(Malformed) else Success(mm[s.off..s.off + 46 + s.slen])
  }

  lemma LocatedReads(c: Codec, body: Bytes, mm: Bytes, loc: Loc, k: Key, data: Bytes)
    requires Lawful(c) && Locates(c, body, loc, k, data) && body <= mm
    ensures PayloadAt(c, mm, |body|, Slot(loc.off, loc.slen)) == Success(data)
    ensures RecordBytesAt(mm, |body|, Slot(loc.off, loc.slen)) == Success(RecordOf(c, Rec(k, data)))
  {
    assert mm == body + mm[|body|..];
    LocatesInLonger(c, body, mm[|body|..], loc, k, data);
    LocatedDecodes(c, mm, loc, k, data);
  }

  /** Reading through the index gives each object held, and its own record. */
  lemma ReadsBack(c: Codec, f: Filter, g: Sealed, k: Key, src: Source)
    requires Lawful(c) && SealedFrom(c, f, g, src)
    ensures g.view.bodyLen <= |g.mm|
    ensures k in Content(src.recs) <==> k in Locs(c, src.recs)
    ensures k in Content(src.recs) ==>
              var slot := Slot(Locs(c, src.recs)[k].off, Locs(c, src.recs)[k].slen);
              var data := Content(src.recs)[k];
              && |data| <= MAX_PAYLOAD && slot.slen == |StoredForm(c, data).0|
              && PayloadAt(c, g.mm, g.view.bodyLen, slot) == Success(data)
              && RecordBytesAt(g.mm, g.view.bodyLen, slot) == Success(RecordOf(c, Rec(k, data)))
  {
    LocsLocate(c, src.recs, k);
    if k in Locs(c, src.recs) {
      assert g.mm[..g.view.bodyLen] <= g.mm;
      LocatedReads(c, Body(c, src.recs), g.mm, Locs(c, src.recs)[k], k, Content(src.recs)[k]);
    }
  }

  method Get(c: Codec, f: Filter, g: Sealed, k: Key, ghost src: Source) returns (r: Result<Option<Bytes>>)
    requires Lawful(c) && Opened(c, f, g)
    ensures SealedFrom(c, f, g, src) ==>
              r == Success(if k in Content(src.recs) then Some(Content(src.recs)[k]) else None)
  {
    var slot := Find(c, f, g, k, src);
    if SealedFrom(c, f, g, src) { ReadsBack(c, f, g, k, src); }
    if slot.None? { return Success(None); }
    var data := PayloadAt(c, g.mm, g.view.bodyLen, slot.value);
    if data.Failure? { return Failure(data.error); }
    return Success(Some(data.value));
  }

  /** The whole record of every key held, as it was encoded. */
  method GetRecord(c: Codec, f: Filter, g: Sealed, k: Key, ghost src: Source) returns (r: Result<Option<Bytes>>)
    requires Lawful(c) && Opened(c, f, g)
    ensures SealedFrom(c, f, g, src) && k !in Content(src.recs) ==> r == Success(None)
    ensures SealedFrom(c, f, g, src) && k in Content(src.recs) ==>
              |Content(src.recs)[k]| <= MAX_PAYLOAD && r == Success(Some(RecordOf(c, Rec(k, Content(src.recs)[k]))))
  {
    var slot := Find(c, f, g, k, src);
    if SealedFrom(c, f, g, src) { ReadsBack(c, f, g, k, src); }
    if slot.None? { return Success(None); }
    var rec := RecordBytesAt(g.mm, g.view.bodyLen, slot.value);
    if rec.Failure? { return Failure(rec.error); }
    return Success(Some(rec.value));
  }

  // --------------------------------------------------------------- sealing

  const MAX_FILE: nat := 0x7FFF_FFFF_FFFF_FFFF

  function Tails(locs: map<Key, Loc>): set<Bytes> { set k | k in locs :: FilterKey(k) }

  /** Every located record once, in any order. */
  ghost predicate Covers(entries: seq<IndexEntry>, locs: map<Key, Loc>) {
    && DistinctKeys(entries) && |entries| == |locs|
    && (forall e :: e in entries ==> e.key in locs && e == EntryOf(e.key, locs[e.key]))
    && (forall k :: k in locs ==> EntryOf(k, locs[k]) in entries)
  }

  /** Lists an index in whatever order the map yields its keys. */
  method EntriesOf(locs: map<Key, Loc>) returns (entries: seq<IndexEntry>)
    ensures Covers(entries, locs)
  {
    var todo := locs.Keys;
    entries := [];
    while todo != {}
      invariant todo <= locs.Keys && DistinctKeys(entries) && |entries| + |todo| == |locs.Keys|
      invariant forall e :: e in entries ==> e.key in locs && e.key !in todo && e == EntryOf(e.key, locs[e.key])
      invariant forall k :: k in locs && k !in todo ==> EntryOf(k, locs[k]) in entries
      decreases |todo|
    {
      var k :| k in todo;
      assert forall e :: e in entries ==> e.key != k;
      entries := entries + [EntryOf(k, locs[k])];
      todo := todo - {k};
    }
  }

  lemma CoversSorted(entries: seq<IndexEntry>, locs: map<Key, Loc>)
    requires Covers(entries, locs)
    ensures IndexOf(Sort(entries), locs) && FilterKeys(entries) == Tails(locs)
  {
    SortSorts(entries);
    SameTails(entries, locs);
  }

  lemma SameTails(entries: seq<IndexEntry>, locs: map<Key, Loc>)
    requires Covers(entries, locs)
    ensures FilterKeys(entries) == Tails(locs)
  {
    forall t | t in Tails(locs) ensures t in FilterKeys(entries) {
      var k :| k in locs && FilterKey(k) == t;
      assert EntryOf(k, locs[k]) in entries;
    }
  }

  lemma LocsFit(c: Codec, recs: seq<Rec>, es: seq<IndexEntry>)
    requires Lawful(c) && AllFit(recs) && |Body(c, recs)| < U64 && IndexOf(es, Locs(c, recs))
    ensures Fit(es)
  {
    forall i | 0 <= i < |es| ensures es[i].off < U64 && es[i].slen < U32 {
      assert es[i] in es;
      LocsLocate(c, recs, es[i].key);
    }
  }

  lemma SectionOfImage(c: Codec, body: Bytes, idx: Bytes, filt: Bytes, n: nat, g: Sealed)
    requires g.mm == body + FooterBytes(c, |body|, idx, filt, n) && g.view.bodyLen == |body|
    requires g.view.keyCount == n && |idx| == 1024 + 44 * n
    ensures IndexSection(g) == idx && g.mm[..g.view.bodyLen] == body
  {
    ImageParts(body, idx, filt, Numbers(|body|, |idx|, |filt|, n), BE(c.crc(Covered(|body|, idx, filt, n)), 4));
  }

  lemma ImageIsSealedFrom(c: Codec, f: Filter, g: Sealed, src: Source, filt: Bytes)
    requires Lawful(c) && AllFit(src.recs) && IndexOf(src.es, Locs(c, src.recs)) && src.es != []
    requires |src.es| < U32 && |filt| >= 29 && f.parses(filt)
    requires forall t :: t in Tails(Locs(c, src.recs)) ==> f.contains(filt, t)
    requires |g.mm| <= MAX_FILE && g.mm == SealedImage(c, Body(c, src.recs), src.es, filt)
    requires Opened(c, f, g)
    ensures SealedFrom(c, f, g, src)
  {
    var body := Body(c, src.recs);
    SealedParses(c, f, body, src.es, filt);
    FooterUnique(c, f, g.mm, g.view, ViewOf(|body|, src.es, filt));
    LocsFit(c, src.recs, src.es);
    SectionOfImage(c, body, IndexBytes(src.es), filt, |src.es|, g);
    forall k | k in Locs(c, src.recs) ensures f.contains(g.view.filter, FilterKey(k)) {
      assert FilterKey(k) in Tails(Locs(c, src.recs));
    }
  }

  /** A sealed file written from `src`, if it is one that opens. */
  ghost predicate ImageOf(c: Codec, f: Filter, image: Bytes, src: Source) {
    forall v, id :: FooterOf(c, f, image, v) ==> SealedFrom(c, f, Sealed(id, image, v), src)
  }

  lemma ImageOfSealed(c: Codec, f: Filter, g: Sealed, src: Source)
    requires SealedFrom(c, f, g, src)
    ensures HasFooter(c, f, g.mm) && ImageOf(c, f, g.mm, src)
  {
    forall v, id | FooterOf(c, f, g.mm, v) ensures SealedFrom(c, f, Sealed(id, g.mm, v), src) {
      FooterUnique(c, f, g.mm, g.view, v);
      SameButNumber(c, f, g, src, id);
    }
  }

  lemma SameButNumber(c: Codec, f: Filter, g: Sealed, src: Source, id: nat)
    requires SealedFrom(c, f, g, src)
    ensures SealedFrom(c, f, Sealed(id, g.mm, g.view), src)
  {
    hide FooterOf, Locs, Body, IndexBytes, Indexes, Fit, IndexOf;
  }

  /** The filter builds and the sealed file is not too long to write. */
  predicate Writable(f: Filter, body: nat, locs: map<Key, Loc>) {
    var filt := f.build(Tails(locs));
    filt.Some? && body + 65 + 1024 + 44 * |locs| + |filt.value| <= MAX_FILE
  }

  /** And the keys fit the fanout, so that it opens. */
  predicate Sealable(f: Filter, body: nat, locs: map<Key, Loc>) { Writable(f, body, locs) && |locs| < U32 }

  /** Seals a segment from its in-memory index and opens the result. There is an image
      to write exactly when the filter builds and the file is not too long, and it opens
      exactly when the keys fit the fanout, and then reads as the records sealed. */
  method Seal(c: Codec, f: Filter, id: nat, body: Bytes, locs: map<Key, Loc>, ghost recs: seq<Rec>)
    returns (image: Option<Bytes>, r: Result<Sealed>, ghost src: Source)
    requires Lawful(c) && Sound(f) && locs != map[]
    requires AllFit(recs) && body == Body(c, recs) && locs == Locs(c, recs)
    ensures src.recs == recs && (image.Some? <==> Writable(f, |body|, locs))
    ensures image.Some? ==> body <= image.value && ImageOf(c, f, image.value, src)
    ensures image.Some? ==> (HasFooter(c, f, image.value) <==> |locs| < U32)
    ensures r.Success? <==> Sealable(f, |body|, locs)
    ensures r.Success? ==> r.value.id == id && image == Some(r.value.mm) && SealedFrom(c, f, r.value, src)
  {
    hide FooterOf, Locs, SealedFrom, Lawful, Tails, FooterBytes;
    var entries := EntriesOf(locs);
    CoversSorted(entries, locs);
    src := Source(recs, Sort(entries));
    var footer := BuildFooter(c, f, |body|, entries);
    if footer.Failure? { return None, Failure(footer.error), src; }
    var mm := body + footer.value;
    ghost var filt := f.build(Tails(locs)).value;
    assert mm == SealedImage(c, body, src.es, filt);
    if |mm| > MAX_FILE { return None, Failure(Rejected), src; }
    HeaderThenRest(c, recs, []);
    SealedParses(c, f, body, src.es, filt);
    var view := ParseFooter(c, f, mm);
    if view.Failure? { return Some(mm), Failure(view.error), src; }
    ImageIsSealedFrom(c, f, Sealed(id, mm, view.value), src, filt);
    ImageOfSealed(c, f, Sealed(id, mm, view.value), src);
    return Some(mm), Success(Sealed(id, mm, view.value)), src;
  }
}
