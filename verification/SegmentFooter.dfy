/** The footer of a sealed segment (packstore/footer.go): seal marker, index,
    filter and a fixed trailer with a checksum. */
module SegmentFooter {
  import opened Base
  import opened Keys
  import opened Record
  import opened SegmentIndex

  const SEAL: Byte := 0xF0
  const MAGIC_HEADER: Bytes := [0x41, 0x4D, 0x42, 0x45, 0x52, 0x53, 0x47, 1]
  const MAGIC_TRAILER: Bytes := [0x41, 0x4D, 0x42, 0x45, 0x52, 0x53, 0x47, 0x46]

  /** The approximate-membership filter over eight-byte key tails. */
  datatype Filter = Filter(build: set<Bytes> -> Option<Bytes>, parses: Bytes -> bool, contains: (Bytes, Bytes) -> bool)

  /** A built filter parses and has no false negatives. */
  ghost predicate Sound(f: Filter) {
    forall tails, b :: f.build(tails) == Some(b) ==>
      |b| >= 29 && f.parses(b) && forall t :: t in tails ==> f.contains(b, t)
  }

  function FilterKey(k: Key): Bytes { k[24..] }

  function FilterKeys(es: seq<IndexEntry>): set<Bytes> { set e | e in es :: FilterKey(e.key) }

  // ---------------------------------------------------------------- build

  /** The six trailer numbers: index offset and length, filter offset and length,
      key count, body length. */
  function Numbers(body: nat, idx: nat, filt: nat, n: nat): (s: Bytes)
    ensures |s| == 48
  {
    BE(body + 1, 8) + BE(idx, 8) + BE(body + 1 + idx, 8) + BE(filt, 8) + BE(n, 8) + BE(body, 8)
  }

  /** The checksummed part: everything before the checksum itself. */
  function Covered(body: nat, idx: Bytes, filt: Bytes, n: nat): (s: Bytes)
    ensures |s| == 49 + |idx| + |filt|
  {
    [SEAL] + idx + filt + Numbers(body, |idx|, |filt|, n)
  }

  function FooterBytes(c: Codec, body: nat, idx: Bytes, filt: Bytes, n: nat): (s: Bytes)
    ensures |s| == 65 + |idx| + |filt|
  {
    var covered := Covered(body, idx, filt, n);
    covered + BE(c.crc(covered), 4) + [0, 0, 0, 0] + MAGIC_TRAILER
  }

  method BuildFooter(c: Codec, f: Filter, body: nat, entries: seq<IndexEntry>) returns (r: Result<Bytes>)
    ensures entries == [] ==> r == Failure(Empty)
    ensures entries != [] && f.build(FilterKeys(entries)).None? ==> r == Failure(Rejected)
    ensures entries != [] && f.build(FilterKeys(entries)).Some? ==>
              r == Success(FooterBytes(c, body, IndexBytes(Sort(entries)), f.build(FilterKeys(entries)).value,
                                       |entries|))
  {
    if entries == [] { return Failure(Empty); }
    var idx := BuildIndexSection(entries);
    var filt := f.build(FilterKeys(entries));
    if filt.None? { return Failure(Rejected); }
    return Success(FooterBytes(c, body, idx, filt.value, |entries|));
  }

  // ---------------------------------------------------------------- parse

  datatype FooterView = FooterView(index: Parsed, filter: Bytes, keyCount: nat, bodyLen: nat)

  function Number(mm: Bytes, i: nat): nat
    requires |mm| >= 64 && i < 6
  {
    var tr := mm[|mm| - 64..];
    FromBE(tr[8 * i..8 * i + 8])
  }

  /** The trailer's numbers describe one another and the file length. */
  predicate Consistent(mm: Bytes)
    requires |mm| >= 64
  {
    var bodyLen, keyCount := Number(mm, 5), Number(mm, 4);
    var filterOff := bodyLen + 1 + 1024 + keyCount * 44;
    && 8 <= bodyLen < |mm| && keyCount < U32
    && Number(mm, 0) == bodyLen + 1 && Number(mm, 1) == 1024 + keyCount * 44
    && Number(mm, 2) == filterOff <= |mm| - 64 && Number(mm, 3) == |mm| - 64 - filterOff
  }

  predicate Framed(mm: Bytes) {
    && |mm| >= 1170 && mm[..8] == MAGIC_HEADER && mm[|mm| - 8..] == MAGIC_TRAILER
    && FromBE(mm[|mm| - 12..|mm| - 8]) == 0 && Consistent(mm)
  }

  predicate Checked(c: Codec, mm: Bytes, bodyLen: nat)
    requires |mm| >= 64 && bodyLen <= |mm| - 64
  {
    c.crc(mm[bodyLen..|mm| - 16]) == FromBE(mm[|mm| - 16..|mm| - 12]) && mm[bodyLen] == SEAL
  }

  /** The image is a segment whose footer is `v`. */
  ghost predicate FooterOf(c: Codec, f: Filter, mm: Bytes, v: FooterView) {
    && Framed(mm) && v.bodyLen == Number(mm, 5) && v.keyCount == Number(mm, 4)
    && var filterOff := v.bodyLen + 1 + 1024 + v.keyCount * 44;
    && Checked(c, mm, v.bodyLen)
    && ParsesTo(mm[v.bodyLen + 1..filterOff], v.keyCount, v.index)
    && v.filter == mm[filterOff..|mm| - 64] && f.parses(v.filter)
  }

  /** Accepts exactly the images that have a footer, and returns it. */
  method ParseFooter(c: Codec, f: Filter, mm: Bytes) returns (r: Result<FooterView>)
    ensures r.Success? ==> FooterOf(c, f, mm, r.value)
    ensures r.Failure? ==> forall v :: !FooterOf(c, f, mm, v)
  {
    hide FromBE, Number, ParsesTo;
    if !Framed(mm) { return Failure(Malformed); }
    var bodyLen, keyCount, filterOff := Number(mm, 5), Number(mm, 4), Number(mm, 2);
    if !Checked(c, mm, bodyLen) { return Failure(Malformed); }
    var index := ParseIndexSection(mm[bodyLen + 1..filterOff], keyCount);
    if index.Failure? { return Failure(Malformed); }
    if !f.parses(mm[filterOff..|mm| - 64]) { return Failure(Malformed); }
    return Success(FooterView(index.value, mm[filterOff..|mm| - 64], keyCount, bodyLen));
  }

  lemma FooterUnique(c: Codec, f: Filter, mm: Bytes, v: FooterView, w: FooterView)
    requires FooterOf(c, f, mm, v) && FooterOf(c, f, mm, w)
    ensures v == w
  {
    var filterOff := v.bodyLen + 1 + 1024 + v.keyCount * 44;
    ParseUnique(mm[v.bodyLen + 1..filterOff], v.keyCount, v.index, w.index);
  }

  // ------------------------------------------------------ built and parsed

  /** The image of a sealed segment: the body, then the footer over `es`. */
  function SealedImage(c: Codec, body: Bytes, es: seq<IndexEntry>, filt: Bytes): (mm: Bytes)
    ensures |mm| == |body| + 65 + |IndexBytes(es)| + |filt|
  {
    body + FooterBytes(c, |body|, IndexBytes(es), filt, |es|)
  }

  lemma SixParts(a: Bytes, b: Bytes, c: Bytes, d: Bytes, e: Bytes, f: Bytes)
    requires |a| == 8 && |b| == 8 && |c| == 8 && |d| == 8 && |e| == 8 && |f| == 8
    ensures var s := a + b + c + d + e + f;
            && |s| == 48 && s[0..8] == a && s[8..16] == b && s[16..24] == c
            && s[24..32] == d && s[32..40] == e && s[40..48] == f
  {
  }

  lemma NumbersReadBack(body: nat, idx: nat, filt: nat, n: nat)
    requires body + 1 + idx < U64 && filt < U64 && n < U64
    ensures var s := Numbers(body, idx, filt, n);
            && FromBE(s[0..8]) == body + 1 && FromBE(s[8..16]) == idx && FromBE(s[16..24]) == body + 1 + idx
            && FromBE(s[24..32]) == filt && FromBE(s[32..40]) == n && FromBE(s[40..48]) == body
  {
    hide BE, FromBE, Pow256;
    var s := Numbers(body, idx, filt, n);
    SixParts(BE(body + 1, 8), BE(idx, 8), BE(body + 1 + idx, 8), BE(filt, 8), BE(n, 8), BE(body, 8));
    Pow256Values();
    DecodeEncodeBE(body + 1, 8);
    DecodeEncodeBE(idx, 8);
    DecodeEncodeBE(body + 1 + idx, 8);
    DecodeEncodeBE(filt, 8);
    DecodeEncodeBE(n, 8);
    DecodeEncodeBE(body, 8);
  }

  /** Where the parts of an image lie. */
  lemma ImageParts(body: Bytes, idx: Bytes, filt: Bytes, numbers: Bytes, crc: Bytes)
    requires |numbers| == 48 && |crc| == 4
    ensures var covered := [SEAL] + idx + filt + numbers;
            var mm := body + (covered + crc + [0, 0, 0, 0] + MAGIC_TRAILER);
            && |mm| == |body| + 65 + |idx| + |filt|
            && mm[..|body|] == body && mm[|body|] == SEAL
            && mm[|body| + 1..|body| + 1 + |idx|] == idx
            && mm[|body| + 1 + |idx|..|mm| - 64] == filt
            && mm[|body|..|mm| - 16] == covered
            && mm[|mm| - 64..][..48] == numbers
            && mm[|mm| - 16..|mm| - 12] == crc
            && mm[|mm| - 12..|mm| - 8] == [0, 0, 0, 0]
            && mm[|mm| - 8..] == MAGIC_TRAILER
  {
  }

  lemma NumbersOfImage(mm: Bytes, numbers: Bytes)
    requires |mm| >= 64 && |numbers| == 48 && mm[|mm| - 64..][..48] == numbers
    ensures Number(mm, 0) == FromBE(numbers[0..8]) && Number(mm, 1) == FromBE(numbers[8..16])
    ensures Number(mm, 2) == FromBE(numbers[16..24]) && Number(mm, 3) == FromBE(numbers[24..32])
    ensures Number(mm, 4) == FromBE(numbers[32..40]) && Number(mm, 5) == FromBE(numbers[40..48])
  {
    var tr := mm[|mm| - 64..];
    forall i | 0 <= i < 6 ensures tr[8 * i..8 * i + 8] == numbers[8 * i..8 * i + 8] {
      assert tr[8 * i..8 * i + 8] == tr[..48][8 * i..8 * i + 8];
    }
  }

  lemma ImageNumbers(c: Codec, body: Bytes, idx: Bytes, filt: Bytes, n: nat)
    requires |body| + 65 + |idx| + |filt| < U64 && n < U64
    ensures var mm := body + FooterBytes(c, |body|, idx, filt, n);
            && Number(mm, 0) == |body| + 1 && Number(mm, 1) == |idx| && Number(mm, 2) == |body| + 1 + |idx|
            && Number(mm, 3) == |filt| && Number(mm, 4) == n && Number(mm, 5) == |body|
  {
    var numbers := Numbers(|body|, |idx|, |filt|, n);
    ImageParts(body, idx, filt, numbers, BE(c.crc(Covered(|body|, idx, filt, n)), 4));
    NumbersOfImage(body + FooterBytes(c, |body|, idx, filt, n), numbers);
    NumbersReadBack(|body|, |idx|, |filt|, n);
  }

  /** The footer every sealed segment carries. */
  function ViewOf(body: nat, es: seq<IndexEntry>, filt: Bytes): FooterView {
    FooterView(Parsed(Fan(es), Rows(es)), filt, |es|, body)
  }

  /** A segment sealed over a body with a header is accepted, as exactly the index
      and filter it was built from; the entry count must fit the fanout. */
  lemma SealedParses(c: Codec, f: Filter, body: Bytes, es: seq<IndexEntry>, filt: Bytes)
    requires Lawful(c) && |SealedImage(c, body, es, filt)| < U64
    requires |body| >= 8 && body[..8] == MAGIC_HEADER
    requires es != [] && |filt| >= 29 && f.parses(filt)
    ensures |es| < U32 ==> FooterOf(c, f, SealedImage(c, body, es, filt), ViewOf(|body|, es, filt))
    ensures |es| >= U32 ==> forall v :: !FooterOf(c, f, SealedImage(c, body, es, filt), v)
  {
    var idx := IndexBytes(es);
    if |es| < U32 {
      BuiltParses(es);
      FooterAccepted(c, f, body, idx, filt, |es|, Parsed(Fan(es), Rows(es)));
    } else {
      ImageNumbers(c, body, idx, filt, |es|);
    }
  }

  lemma FooterAccepted(c: Codec, f: Filter, body: Bytes, idx: Bytes, filt: Bytes, n: nat, p: Parsed)
    requires Lawful(c) && |body| + 65 + |idx| + |filt| < U64
    requires |body| >= 8 && body[..8] == MAGIC_HEADER
    requires |filt| >= 29 && f.parses(filt) && 0 < n && ParsesTo(idx, n, p)
    ensures FooterOf(c, f, body + FooterBytes(c, |body|, idx, filt, n), FooterView(p, filt, n, |body|))
  {
    Layout(c, body, idx, filt, n);
    LaidOutIsFooter(c, f, body + FooterBytes(c, |body|, idx, filt, n), |body|, idx, filt, n, p);
  }

  /** The parts of an image, by position. */
  ghost predicate LaidOut(c: Codec, mm: Bytes, body: nat, idx: Bytes, filt: Bytes, n: nat) {
    && |mm| == body + 65 + |idx| + |filt| && 8 <= body
    && mm[..8] == MAGIC_HEADER && mm[|mm| - 8..] == MAGIC_TRAILER && FromBE(mm[|mm| - 12..|mm| - 8]) == 0
    && Number(mm, 0) == body + 1 && Number(mm, 1) == |idx| && Number(mm, 2) == body + 1 + |idx|
    && Number(mm, 3) == |filt| && Number(mm, 4) == n && Number(mm, 5) == body
    && FromBE(mm[|mm| - 16..|mm| - 12]) == c.crc(mm[body..|mm| - 16]) && mm[body] == SEAL
    && mm[body + 1..body + 1 + |idx|] == idx && mm[body + 1 + |idx|..|mm| - 64] == filt
  }

  lemma Layout(c: Codec, body: Bytes, idx: Bytes, filt: Bytes, n: nat)
    requires Lawful(c) && |body| + 65 + |idx| + |filt| < U64 && n < U64
    requires |body| >= 8 && body[..8] == MAGIC_HEADER
    ensures LaidOut(c, body + FooterBytes(c, |body|, idx, filt, n), |body|, idx, filt, n)
  {
    var mm := body + FooterBytes(c, |body|, idx, filt, n);
    var covered := Covered(|body|, idx, filt, n);
    ImageNumbers(c, body, idx, filt, n);
    ImageParts(body, idx, filt, Numbers(|body|, |idx|, |filt|, n), BE(c.crc(covered), 4));
    SealChecks(c, covered);
    assert mm[..8] == mm[..|body|][..8];
  }

  lemma LaidOutIsFooter(c: Codec, f: Filter, mm: Bytes, body: nat, idx: Bytes, filt: Bytes, n: nat, p: Parsed)
    requires LaidOut(c, mm, body, idx, filt, n) && 0 < n && ParsesTo(idx, n, p)
    requires |filt| >= 29 && f.parses(filt)
    ensures FooterOf(c, f, mm, FooterView(p, filt, n, body))
  {
  }

  lemma SealChecks(c: Codec, covered: Bytes)
    requires Lawful(c)
    ensures FromBE(BE(c.crc(covered), 4)) == c.crc(covered) && FromBE([0, 0, 0, 0]) == 0
  {
    Pow256Values();
    DecodeEncodeBE(c.crc(covered), 4);
    assert BE(0, 4) == [0, 0, 0, 0];
    DecodeEncodeBE(0, 4);
  }
}
