/** The self-framing record of one object (amberpack/record.go): a 46-byte header
    with a checksum, then the payload, compressed when that helps. */
module Record {
  import opened Base
  import opened Keys

  const HEADER: nat := 46
  const TAG_CHUNK: Byte := 1
  const MAX_PAYLOAD: nat := 0x1000_0000

  /** The compressor and the checksum, as the record code uses them. */
  datatype Codec = Codec(compress: Bytes -> Bytes, decompress: Bytes -> Option<Bytes>, crc: Bytes -> nat)

  /** Decompression undoes compression; checksums are 32-bit. */
  ghost predicate Lawful(c: Codec) {
    && (forall d :: c.decompress(c.compress(d)) == Some(d))
    && (forall b :: c.crc(b) < U32)
  }

  /** The payload as stored, and whether it is compressed. */
  function StoredForm(c: Codec, data: Bytes): (Bytes, bool) {
    if |c.compress(data)| < |data| then (c.compress(data), true) else (data, false)
  }

  /** The header up to its checksum. */
  function Prefix(k: Key, flags: Byte, ulen: nat, slen: nat): (h: Bytes)
    ensures |h| == 42
  {
    [TAG_CHUNK] + k + [flags] + BE(ulen, 4) + BE(slen, 4)
  }

  /** The checksum covers the whole record with its own field zeroed. */
  function Checksum(c: Codec, prefix: Bytes, stored: Bytes): nat {
    c.crc(prefix + [0, 0, 0, 0] + stored)
  }

  function EncodeRecord(c: Codec, k: Key, data: Bytes): Result<Bytes> {
    if |data| > MAX_PAYLOAD then Failure(Rejected)
    else
      var (stored, compressed) := StoredForm(c, data);
      var prefix := Prefix(k, if compressed then 1 else 0, |data|, |stored|);
      Success(prefix + BE(Checksum(c, prefix, stored), 4) + stored)
  }

  datatype Header = Header(key: Key, flags: Byte, ulen: nat, slen: nat)

  /** Validates the record at the start of `b`, which may extend past it. */
  function ParseRecord(c: Codec, b: Bytes): Result<Header> {
    if |b| < HEADER || b[0] != TAG_CHUNK || b[33] > 1 then Failure(Malformed)
    else
      var flags, ulen, slen := b[33], FromBE(b[34..38]), FromBE(b[38..42]);
      if |b| < HEADER + slen then Failure(Malformed)
      else if flags == 0 && ulen != slen then Failure(Malformed)
      else if ulen > MAX_PAYLOAD then Failure(Malformed)
      else if flags == 1 && slen >= ulen then Failure(Malformed)
      else if Checksum(c, b[..42], b[HEADER..HEADER + slen]) != FromBE(b[42..46]) then Failure(Malformed)
      else match Parse(b[1..33])
        case Failure(e) => Failure(e)
        case Success(k) => Success(Header(k, flags, ulen, slen))
  }

  function DecodePayload(c: Codec, flags: Byte, ulen: nat, stored: Bytes): Result<Bytes> {
    if flags % 2 == 0 then Success(stored)
    else match c.decompress(stored)
      case None => Failure(Malformed)
      case Some(out) => if |out| != ulen then Failure(Malformed) else Success(out)
  }

  // ---------------------------------------------------------------- lemmas

  /** The fields of a header, read back from its bytes whatever follows. */
  lemma HeaderFields(k: Key, flags: Byte, ulen: nat, slen: nat, crc: nat, rest: Bytes)
    requires ulen < U32 && slen < U32 && crc < U32
    ensures var b := Prefix(k, flags, ulen, slen) + BE(crc, 4) + rest;
            && |b| == HEADER + |rest| && b[0] == TAG_CHUNK && b[1..33] == k && b[33] == flags
            && FromBE(b[34..38]) == ulen && FromBE(b[38..42]) == slen && FromBE(b[42..46]) == crc
            && b[..42] == Prefix(k, flags, ulen, slen) && b[46..] == rest
  {
    var p := Prefix(k, flags, ulen, slen);
    var b := p + BE(crc, 4) + rest;
    assert b[34..38] == BE(ulen, 4);
    assert b[38..42] == BE(slen, 4);
    assert b[42..46] == BE(crc, 4);
    Pow256Values();
    DecodeEncodeBE(ulen, 4);
    DecodeEncodeBE(slen, 4);
    DecodeEncodeBE(crc, 4);
  }

  /** The header a record of `data` carries. */
  function HeaderOf(c: Codec, k: Key, data: Bytes): Header {
    var (stored, compressed) := StoredForm(c, data);
    Header(k, if compressed then 1 else 0, |data|, |stored|)
  }

  lemma EncodedShape(c: Codec, k: Key, data: Bytes, tail: Bytes)
    requires Lawful(c) && |data| <= MAX_PAYLOAD
    ensures EncodeRecord(c, k, data).Success?
    ensures var h := HeaderOf(c, k, data);
            var rec := EncodeRecord(c, k, data).value;
            var b := rec + tail;
            && |rec| == HEADER + h.slen && b[0] == TAG_CHUNK && b[1..33] == k && b[33] == h.flags
            && FromBE(b[34..38]) == h.ulen && FromBE(b[38..42]) == h.slen
            && b[..42] == Prefix(k, h.flags, h.ulen, h.slen)
            && b[HEADER..HEADER + h.slen] == StoredForm(c, data).0
            && FromBE(b[42..46]) == Checksum(c, b[..42], b[HEADER..HEADER + h.slen])
            && h.slen <= h.ulen <= MAX_PAYLOAD
  {
    hide FromBE, BE;
    var (stored, compressed) := StoredForm(c, data);
    var h := HeaderOf(c, k, data);
    var prefix := Prefix(k, h.flags, h.ulen, h.slen);
    var crc := Checksum(c, prefix, stored);
    HeaderFields(k, h.flags, h.ulen, h.slen, crc, stored + tail);
    assert prefix + BE(crc, 4) + (stored + tail) == EncodeRecord(c, k, data).value + tail;
    assert (stored + tail)[..|stored|] == stored;
  }

  /** A written record parses, whatever follows it, exactly when its key is
      canonical, and then yields its own header. */
  lemma RecordParses(c: Codec, k: Key, data: Bytes, tail: Bytes)
    requires Lawful(c) && |data| <= MAX_PAYLOAD
    ensures EncodeRecord(c, k, data).Success?
    ensures Valid(k) ==> ParseRecord(c, EncodeRecord(c, k, data).value + tail) == Success(HeaderOf(c, k, data))
    ensures !Valid(k) ==> ParseRecord(c, EncodeRecord(c, k, data).value + tail).Failure?
  {
    EncodedShape(c, k, data, tail);
  }

  /** The stored payload decodes to the data it came from. */
  lemma PayloadDecodes(c: Codec, k: Key, data: Bytes)
    requires Lawful(c)
    ensures var h := HeaderOf(c, k, data);
            DecodePayload(c, h.flags, h.ulen, StoredForm(c, data).0) == Success(data)
  {
  }

  /** No proper prefix of a record parses. */
  lemma PrefixFails(c: Codec, k: Key, data: Bytes, n: nat)
    requires Lawful(c) && |data| <= MAX_PAYLOAD
    requires EncodeRecord(c, k, data).Success? && n < |EncodeRecord(c, k, data).value|
    ensures ParseRecord(c, EncodeRecord(c, k, data).value[..n]).Failure?
  {
    EncodedShape(c, k, data, []);
    var rec := EncodeRecord(c, k, data).value;
    assert rec + [] == rec;
    if n >= HEADER { assert rec[..n][38..42] == rec[38..42]; }
  }
}
