/** The 32-byte content key (key/key.go): a header byte carrying the object type
    and the width of the length field, the length, and a truncated digest. */
module Keys {
  import opened Base

  const SIZE: nat := 32

  type Key = k: Bytes | |k| == 32 witness seq(32, _ => 0)
  type Digest = d: Bytes | |d| == 32 witness seq(32, _ => 0)

  const BLOB: nat := 0
  const FILE_NODE: nat := 1
  const DIR_LEAF: nat := 2
  const DIR_NODE: nat := 3
  const XATTR_SET: nat := 4

  function Type(k: Key): nat { k[0] / 16 }

  function LengthSize(k: Key): (n: nat)
    ensures 1 <= n <= 8
  { k[0] % 8 + 1 }

  function Length(k: Key): nat { FromBE(k[1..1 + LengthSize(k)]) }

  function Hash(k: Key): Bytes { k[1 + LengthSize(k)..] }

  /** Blob and XattrSet objects name no other object. */
  predicate IsLeafType(k: Key) { Type(k) == BLOB || Type(k) == XATTR_SET }

  /** The byte width `bits.Len64` rounds up to. */
  function LengthSizeFor(length: nat): (w: nat)
    ensures w >= 1
  {
    if length < 256 then 1 else 1 + LengthSizeFor(length / 256)
  }

  /** Reserved bit clear, a defined type, a minimally encoded length. */
  predicate Valid(k: Key) {
    && (k[0] / 8) % 2 == 0
    && Type(k) <= XATTR_SET
    && !(k[1] == 0 && !(LengthSize(k) == 1 && Length(k) == 0))
  }

  function Parse(b: Bytes): Result<Key> {
    if |b| != SIZE then Failure(Malformed)
    else if !Valid(b) then Failure(Malformed)
    else Success(b)
  }

  function NewFromHash(t: nat, length: nat, digest: Digest): Result<Key>
    requires length < U64
  {
    if t > XATTR_SET then Failure(Malformed)
    else
      var w := LengthSizeFor(length);
      LengthField(length);
      Success([t * 16 + (w - 1)] + BE(length, 8)[8 - w..] + digest[..SIZE - 1 - w])
  }

  // ---------------------------------------------------------------- lemmas

  /** The chosen width holds the length, and no shorter one does. */
  lemma {:induction false} LengthSizeBounds(length: nat, w: nat)
    requires w >= 1 && length < Pow256(w)
    ensures LengthSizeFor(length) <= w
    ensures length < Pow256(LengthSizeFor(length))
    ensures length > 0 ==> length >= Pow256(LengthSizeFor(length) - 1)
    decreases w
  {
    Pow256Values();
    if length >= 256 {
      assert w > 1;
      LengthSizeBounds(length / 256, w - 1);
    }
  }

  /** Dropping leading bytes keeps the low-order ones. */
  lemma {:induction false} BESuffix(n: nat, w: nat, v: nat)
    requires v <= w
    ensures BE(n, w)[w - v..] == BE(n, v)
  {
    if v > 0 { BESuffix(n / 256, w - 1, v - 1); }
  }

  /** The leading byte of a width-`w` number is zero exactly when it fits one
      byte less. */
  lemma {:induction false} LeadingByte(s: Bytes)
    requires s != []
    ensures s[0] == 0 <==> FromBE(s) < Pow256(|s| - 1)
  {
    if |s| > 1 { LeadingByte(s[..|s| - 1]); }
  }

  /** A value with a non-zero leading byte needs its full width. */
  lemma {:induction false} WidthIsMinimal(n: nat, w: nat)
    requires w >= 1 && n < Pow256(w)
    requires w > 1 ==> n >= Pow256(w - 1)
    ensures LengthSizeFor(n) == w
  {
    Pow256Values();
    if w > 1 {
      assert n >= 256 by { Pow256AtLeast(w - 1); }
      if w > 2 { assert n / 256 >= Pow256(w - 2); }
      WidthIsMinimal(n / 256, w - 1);
    }
  }

  lemma {:induction false} Pow256AtLeast(w: nat)
    requires w >= 1
    ensures Pow256(w) >= 256
  {
    if w > 1 { Pow256AtLeast(w - 1); }
  }

  /** The pieces of an assembled key, whatever width its length field has. */
  lemma AssembledFields(t: nat, field: Bytes, rest: Bytes)
    requires t <= XATTR_SET && 1 <= |field| <= 8 && |rest| == SIZE - 1 - |field|
    ensures var k: Key := [t * 16 + (|field| - 1)] + field + rest;
            Type(k) == t && LengthSize(k) == |field| && (k[0] / 8) % 2 == 0
            && k[1..1 + |field|] == field && Hash(k) == rest && k[1] == field[0]
  {
  }

  /** The minimal encoding of a length decodes to it and has a leading zero only
      for the length zero. */
  lemma LengthField(length: nat)
    requires length < U64
    ensures LengthSizeFor(length) <= 8
    ensures var w := LengthSizeFor(length);
            var field := BE(length, 8)[8 - w..];
            |field| == w && FromBE(field) == length && (field[0] == 0 ==> w == 1 && length == 0)
  {
    Pow256Values();
    LengthSizeBounds(length, 8);
    var w := LengthSizeFor(length);
    BESuffix(length, 8, w);
    DecodeEncodeBE(length, w);
    LeadingByte(BE(length, w));
  }

  /** Every key the constructor assembles is canonical and carries exactly the
      type, the length and the leading digest bytes it was given. */
  lemma NewKeyReadsBack(t: nat, length: nat, digest: Digest)
    requires t <= XATTR_SET && length < U64
    ensures NewFromHash(t, length, digest).Success?
    ensures var k := NewFromHash(t, length, digest).value;
            && Valid(k)
            && Type(k) == t
            && Length(k) == length
            && LengthSize(k) == LengthSizeFor(length)
            && Hash(k) == digest[..SIZE - 1 - LengthSize(k)]
            && Parse(k) == Success(k)
  {
    LengthField(length);
    var w := LengthSizeFor(length);
    AssembledFields(t, BE(length, 8)[8 - w..], digest[..SIZE - 1 - w]);
  }

  /** A canonical length field is the minimal encoding of its value. */
  lemma CanonicalField(field: Bytes)
    requires 1 <= |field| <= 8 && (field[0] == 0 ==> |field| == 1)
    ensures FromBE(field) < U64
    ensures LengthSizeFor(FromBE(field)) == |field| && BE(FromBE(field), 8)[8 - |field|..] == field
  {
    Pow256Values();
    FromBEBound(field);
    Pow256Monotone(|field|, 8);
    LeadingByte(field);
    WidthIsMinimal(FromBE(field), |field|);
    BESuffix(FromBE(field), 8, |field|);
    EncodeDecodeBE(field);
  }

  lemma ValidIsConstructed(k: Key, pad: Bytes)
    requires |pad| == 1 + LengthSize(k) && Valid(k)
    ensures Length(k) < U64 && NewFromHash(Type(k), Length(k), Hash(k) + pad) == Success(k)
  {
    hide LengthSizeFor, BE, FromBE;
    var w := LengthSize(k);
    CanonicalField(k[1..1 + w]);
    assert (Hash(k) + pad)[..SIZE - 1 - w] == Hash(k);
    assert k == [k[0]] + k[1..1 + w] + k[1 + w..];
  }

  /** Canonical keys are exactly the constructor's range: a key passes `Valid` if
      and only if rebuilding it from its own type, length and digest bytes gives
      it back. */
  lemma ValidIffConstructed(k: Key, pad: Bytes)
    requires |pad| == 1 + LengthSize(k)
    ensures Length(k) < U64
    ensures Valid(k) <==> NewFromHash(Type(k), Length(k), Hash(k) + pad) == Success(k)
  {
    Pow256Values();
    FromBEBound(k[1..1 + LengthSize(k)]);
    Pow256Monotone(LengthSize(k), 8);
    if Valid(k) {
      ValidIsConstructed(k, pad);
    } else if NewFromHash(Type(k), Length(k), Hash(k) + pad) == Success(k) {
      NewKeyReadsBack(Type(k), Length(k), Hash(k) + pad);
    }
  }

  lemma {:induction false} Pow256Monotone(v: nat, w: nat)
    requires v <= w
    ensures Pow256(v) <= Pow256(w)
    decreases w
  {
    if v < w { Pow256Monotone(v, w - 1); }
  }

  /** Two objects of one type and length share a key exactly when their digests
      agree on the bytes the key keeps. */
  lemma SameKeyIffSamePrefix(t: nat, length: nat, d: Digest, e: Digest)
    requires t <= XATTR_SET && length < U64
    ensures LengthSizeFor(length) <= 8
    ensures NewFromHash(t, length, d) == NewFromHash(t, length, e)
            <==> d[..SIZE - 1 - LengthSizeFor(length)] == e[..SIZE - 1 - LengthSizeFor(length)]
  {
    LengthField(length);
    NewKeyReadsBack(t, length, d);
    NewKeyReadsBack(t, length, e);
  }

  /** A key's length is a 64-bit number. */
  lemma LengthBound(k: Key)
    ensures Length(k) < U64
  {
    FromBEBound(k[1..1 + LengthSize(k)]);
    Pow256Monotone(LengthSize(k), 8);
    Pow256Values();
  }
}
