/** The wire pack (amberpack/pack.go): a magic, records, and an end marker, so
    that a truncated stream is told from a complete one. */
module WirePack {
  import opened Base
  import opened Keys
  import opened Record

  /** "AMBERPK" and the version byte. */
  const MAGIC: Bytes := [65, 77, 66, 69, 82, 80, 75, 3]
  const TAG_END: Byte := 0

  datatype Rec = Rec(key: Key, data: Bytes)

  predicate Fits(o: Rec) { |o.data| <= MAX_PAYLOAD }

  /** Objects a pack can carry: canonical keys, payloads within the limit. */
  predicate Packable(objs: seq<Rec>) {
    forall i :: 0 <= i < |objs| ==> Valid(objs[i].key) && Fits(objs[i])
  }

  function RecordOf(c: Codec, o: Rec): Bytes
    requires Fits(o)
  {
    EncodeRecord(c, o.key, o.data).value
  }

  function Records(c: Codec, objs: seq<Rec>): Bytes
    requires forall i :: 0 <= i < |objs| ==> Fits(objs[i])
  {
    if objs == [] then [] else RecordOf(c, objs[0]) + Records(c, objs[1..])
  }

  /** The bytes of a complete pack. */
  function Wire(c: Codec, objs: seq<Rec>): Bytes
    requires forall i :: 0 <= i < |objs| ==> Fits(objs[i])
  {
    MAGIC + Records(c, objs) + [TAG_END]
  }

  lemma {:induction false} RecordsAppend(c: Codec, a: seq<Rec>, o: Rec)
    requires (forall i :: 0 <= i < |a| ==> Fits(a[i])) && Fits(o)
    ensures Records(c, a + [o]) == Records(c, a) + RecordOf(c, o)
  {
    if a == [] {
      assert (a + [o])[1..] == [];
    } else {
      assert (a + [o])[1..] == a[1..] + [o];
      RecordsAppend(c, a[1..], o);
    }
  }

  // -------------------------------------------------------------- writer

  class Writer {
    const codec: Codec
    var out: Bytes
    var wroteHeader: bool
    ghost var objs: seq<Rec>   // what the records written so far hold

    /** The stream so far: nothing, or the magic and the records added. */
    ghost predicate Valid()
      reads this
    {
      && (forall i :: 0 <= i < |objs| ==> Fits(objs[i]))
      && out == (if wroteHeader then MAGIC + Records(codec, objs) else [])
      && (!wroteHeader ==> objs == [])
    }

    constructor (codec: Codec)
      ensures Valid() && objs == [] && this.codec == codec
    {
      this.codec := codec;
      out, wroteHeader, objs := [], false, [];
    }

    method EnsureHeader()
      requires Valid()
      modifies this
      ensures Valid() && wroteHeader && objs == old(objs)
    {
      if !wroteHeader {
        out := out + MAGIC;
        wroteHeader := true;
      }
    }

    /** Appends one object, or refuses an oversized one, which leaves the header
        behind and nothing else. */
    method Add(o: Rec) returns (ok: bool)
      requires Valid()
      modifies this
      ensures Valid() && wroteHeader && ok == Fits(o)
      ensures objs == if ok then old(objs) + [o] else old(objs)
    {
      hide Records, StoredForm, Prefix, Checksum;
      EnsureHeader();
      ok := EncodeRecord(codec, o.key, o.data).Success?;
      if ok {
        RecordsAppend(codec, objs, o);
        out := out + EncodeRecord(codec, o.key, o.data).value;
        objs := objs + [o];
      }
    }

    /** The end marker completes the stream. */
    method Close()
      requires Valid()
      modifies this
      ensures objs == old(objs) && out == Wire(codec, old(objs))
    {
      EnsureHeader();
      out := out + [TAG_END];
    }
  }

  // -------------------------------------------------------------- reader

  /** The objects a reader yields, and whether it then ended cleanly rather than
      with its one error. */
  datatype Outcome = Outcome(objects: seq<Rec>, clean: bool)

  /** One record off the front of the stream: its object and its length. */
  function ReadOne(c: Codec, b: Bytes): Option<(Rec, nat)> {
    if |b| < HEADER || b[0] != TAG_CHUNK then None
    else
      var slen := FromBE(b[38..42]);
      if slen > MAX_PAYLOAD || |b| < HEADER + slen then None
      else match ParseRecord(c, b[..HEADER + slen])
        case Failure(_) => None
        case Success(h) =>
          match DecodePayload(c, h.flags, h.ulen, b[HEADER..HEADER + slen])
          case Failure(_) => None
          case Success(data) => Some((Rec(h.key, data), HEADER + slen))
  }

  function ReadRecords(c: Codec, b: Bytes): Outcome {
    if b != [] && b[0] == TAG_END then Outcome([], true)
    else match ReadOne(c, b)
      case None => Outcome([], false)
      case Some((o, n)) =>
        var rest := ReadRecords(c, b[n..]);
        Outcome([o] + rest.objects, rest.clean)
  }

  function ReadAll(c: Codec, b: Bytes): Outcome {
    if |b| < 8 || b[..8] != MAGIC then Outcome([], false) else ReadRecords(c, b[8..])
  }

  /** The reader loop consumes the stream record by record. */
  method ReadPack(c: Codec, b: Bytes) returns (r: Outcome)
    ensures r == ReadAll(c, b)
  {
    if |b| < 8 || b[..8] != MAGIC { return Outcome([], false); }
    var rest, out := b[8..], [];
    while rest != [] && rest[0] != TAG_END
      invariant ReadAll(c, b) == Outcome(out + ReadRecords(c, rest).objects, ReadRecords(c, rest).clean)
      decreases |rest|
    {
      match ReadOne(c, rest)
      case None =>
        assert out + [] == out;
        return Outcome(out, false);
      case Some((o, n)) =>
        assert out + ([o] + ReadRecords(c, rest[n..]).objects) == (out + [o]) + ReadRecords(c, rest[n..]).objects;
        out := out + [o];
        rest := rest[n..];
    }
    assert out + [] == out;
    return Outcome(out, rest != []);
  }

  // ---------------------------------------------------------- properties

  lemma ReadOneBack(c: Codec, o: Rec, tail: Bytes)
    requires Lawful(c) && Valid(o.key) && Fits(o)
    ensures ReadOne(c, RecordOf(c, o) + tail) == Some((o, |RecordOf(c, o)|))
    ensures (RecordOf(c, o) + tail)[|RecordOf(c, o)|..] == tail
  {
    var rec := RecordOf(c, o);
    EncodedShape(c, o.key, o.data, tail);
    RecordParses(c, o.key, o.data, []);
    PayloadDecodes(c, o.key, o.data);
    assert (rec + tail)[..|rec|] == rec + [];
  }

  /** A record at the front is read, and reading goes on after it. */
  lemma ReadStep(c: Codec, o: Rec, tail: Bytes)
    requires Lawful(c) && Valid(o.key) && Fits(o)
    ensures ReadRecords(c, RecordOf(c, o) + tail)
            == Outcome([o] + ReadRecords(c, tail).objects, ReadRecords(c, tail).clean)
  {
    ReadOneBack(c, o, tail);
    EncodedShape(c, o.key, o.data, tail);
    assert (RecordOf(c, o) + tail)[0] == TAG_CHUNK;
  }

  lemma {:induction false} RecordsReadBack(c: Codec, objs: seq<Rec>, tail: Bytes)
    requires Lawful(c) && Packable(objs)
    ensures ReadRecords(c, Records(c, objs) + [TAG_END] + tail) == Outcome(objs, true)
  {
    if objs == [] {
      assert (Records(c, objs) + [TAG_END] + tail)[0] == TAG_END;
    } else {
      var rec, rest := RecordOf(c, objs[0]), Records(c, objs[1..]);
      assert Records(c, objs) + [TAG_END] + tail == rec + (rest + [TAG_END] + tail);
      ReadStep(c, objs[0], rest + [TAG_END] + tail);
      RecordsReadBack(c, objs[1..], tail);
    }
  }

  /** A complete pack reads back as the objects written, whatever follows it. */
  lemma PackReadsBack(c: Codec, objs: seq<Rec>, tail: Bytes)
    requires Lawful(c) && Packable(objs)
    ensures ReadAll(c, Wire(c, objs) + tail) == Outcome(objs, true)
  {
    hide ReadRecords, Records;
    var b := Wire(c, objs) + tail;
    RecordsReadBack(c, objs, tail);
    assert b[..8] == MAGIC;
    assert b[8..] == Records(c, objs) + [TAG_END] + tail;
  }

  /** A cut through a record is never read as one. */
  lemma CutRecord(c: Codec, o: Rec, n: nat)
    requires Lawful(c) && Fits(o) && n < |RecordOf(c, o)|
    ensures ReadRecords(c, RecordOf(c, o)[..n]) == Outcome([], false)
  {
    EncodedShape(c, o.key, o.data, []);
    var rec := RecordOf(c, o);
    assert rec + [] == rec;
    var b := rec[..n];
    if n > 0 { assert b[0] == TAG_CHUNK; }
    if n >= HEADER { assert b[38..42] == rec[38..42]; }
  }

  lemma TakeCons(objs: seq<Rec>, j: nat)
    requires objs != [] && j < |objs|
    ensures [objs[0]] + objs[1..][..j] == objs[..j + 1]
  {
  }

  lemma CutWithin(rec: Bytes, rest: Bytes, n: nat)
    requires n < |rec|
    ensures (rec + rest)[..n] == rec[..n]
  {
  }

  lemma CutPast(rec: Bytes, rest: Bytes, n: nat)
    requires |rec| <= n <= |rec| + |rest|
    ensures (rec + rest)[..n] == rec + rest[..n - |rec|]
  {
  }

  lemma {:induction false} CutRecords(c: Codec, objs: seq<Rec>, n: nat) returns (j: nat)
    requires Lawful(c) && Packable(objs) && n <= |Records(c, objs)|
    ensures j <= |objs| && ReadRecords(c, Records(c, objs)[..n]) == Outcome(objs[..j], false)
  {
    if objs == [] {
      j := 0;
    } else {
      var rec, rest := RecordOf(c, objs[0]), Records(c, objs[1..]);
      if n < |rec| {
        CutRecord(c, objs[0], n);
        CutWithin(rec, rest, n);
        j := 0;
      } else {
        j := CutRecords(c, objs[1..], n - |rec|);
        var tail := rest[..n - |rec|];
        CutPast(rec, rest, n);
        ReadStep(c, objs[0], tail);
        TakeCons(objs, j);
        j := j + 1;
      }
    }
  }

  /** Truncation is always detected: every proper prefix of a pack yields some of
      its first objects and then the error, never a clean end. */
  lemma TruncationDetected(c: Codec, objs: seq<Rec>, n: nat) returns (j: nat)
    requires Lawful(c) && Packable(objs) && n < |Wire(c, objs)|
    ensures j <= |objs| && ReadAll(c, Wire(c, objs)[..n]) == Outcome(objs[..j], false)
  {
    var b := Wire(c, objs)[..n];
    if n < 8 {
      j := 0;
    } else {
      assert b[..8] == MAGIC && b[8..] == Records(c, objs)[..n - 8];
      j := CutRecords(c, objs, n - 8);
    }
  }
}
