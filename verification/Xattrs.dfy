/** Extended attributes as canonical CBOR (cborx/cborx.go): a map from byte strings
    to byte strings, keys in the bytewise order of their encodings, as section
    4.2.1 of RFC 8949 asks. */
module Xattrs {
  import opened Base

  // -------------------------------------------------------------------- heads

  const MAP: nat := 5
  const BYTES: nat := 2

  /** The shortest head carrying `n` with the given major type. */
  function Head(major: nat, n: nat): Bytes
    requires major < 8 && n < U64
  {
    if n < 24 then [major * 32 + n]
    else if n < 0x100 then [major * 32 + 24] + BE(n, 1)
    else if n < 0x1_0000 then [major * 32 + 25] + BE(n, 2)
    else if n < U32 then [major * 32 + 26] + BE(n, 4)
    else [major * 32 + 27] + BE(n, 8)
  }

  datatype HeadRead = HeadRead(major: nat, arg: nat, rest: Bytes)

  function ReadArg(major: nat, b: Bytes, w: nat): Result<HeadRead> {
    if |b| < w then Failure(Malformed) else Success(HeadRead(major, FromBE(b[..w]), b[w..]))
  }

  function ReadHead(b: Bytes): Result<HeadRead> {
    if b == [] then Failure(Malformed)
    else
      var major, info, rest := b[0] / 32, b[0] % 32, b[1..];
      if info < 24 then Success(HeadRead(major, info, rest))
      else if info == 24 then ReadArg(major, rest, 1)
      else if info == 25 then ReadArg(major, rest, 2)
      else if info == 26 then ReadArg(major, rest, 4)
      else if info == 27 then ReadArg(major, rest, 8)
      else Failure(Malformed)
  }

  lemma ArgReadsBack(major: nat, n: nat, w: nat, rest: Bytes)
    requires n < Pow256(w)
    ensures ReadArg(major, BE(n, w) + rest, w) == Success(HeadRead(major, n, rest))
  {
    assert (BE(n, w) + rest)[..w] == BE(n, w);
    DecodeEncodeBE(n, w);
  }

  lemma ReadHeadByInfo(x: Byte, rest: Bytes)
    ensures ([x] + rest)[1..] == rest && ([x] + rest)[0] == x
  {
  }

  /** A head reads back, whatever follows it. */
  lemma HeadReadsBack(major: nat, n: nat, rest: Bytes)
    requires major < 8 && n < U64
    ensures ReadHead(Head(major, n) + rest) == Success(HeadRead(major, n, rest))
  {
    hide BE, FromBE, ReadArg;
    Pow256Values();
    if n < 24 {
      ReadHeadByInfo(major * 32 + n, rest);
    } else {
      var w := if n < 0x100 then 1 else if n < 0x1_0000 then 2 else if n < U32 then 4 else 8;
      var info := if n < 0x100 then 24 else if n < 0x1_0000 then 25 else if n < U32 then 26 else 27;
      assert Head(major, n) + rest == [major * 32 + info] + (BE(n, w) + rest);
      ReadHeadByInfo(major * 32 + info, BE(n, w) + rest);
      ArgReadsBack(major, n, w, rest);
    }
  }

  // ------------------------------------------------------------- byte strings

  function ByteString(s: Bytes): Bytes
    requires |s| < U64
  {
    Head(BYTES, |s|) + s
  }

  function ReadByteString(b: Bytes): Result<(Bytes, Bytes)> {
    var h := ReadHead(b);
    if h.Failure? then Failure(h.error)
    else if h.value.major != BYTES || |h.value.rest| < h.value.arg then Failure(Malformed)
    else Success((h.value.rest[..h.value.arg], h.value.rest[h.value.arg..]))
  }

  lemma ByteStringReadsBack(s: Bytes, rest: Bytes)
    requires |s| < U64
    ensures ReadByteString(ByteString(s) + rest) == Success((s, rest))
  {
    hide Head, ReadHead;
    assert ByteString(s) + rest == Head(BYTES, |s|) + (s + rest);
    HeadReadsBack(BYTES, |s|, s + rest);
  }

  /** The order the encoder sorts by. */
  predicate Before(a: Bytes, b: Bytes)
    requires |a| < U64 && |b| < U64
  {
    Less(ByteString(a), ByteString(b))
  }

  lemma FirstByteDecides(x: Byte, y: Byte, a: Bytes, b: Bytes)
    requires x < y
    ensures Less([x] + a, [y] + b)
  {
    assert ([x] + a)[0] == x && ([y] + b)[0] == y;
  }

  lemma SameWidthHeads(info: Byte, m: nat, n: nat, w: nat, a: Bytes, b: Bytes)
    requires m < n < Pow256(w)
    ensures Less([info] + BE(m, w) + a, [info] + BE(n, w) + b)
  {
    hide BE, Less;
    BEMonotone(m, n, w);
    LessIrreflexive(BE(m, w));
    LessByPrefix(BE(m, w), BE(n, w), a, b);
    LessAfterPrefix([info], BE(m, w) + a, BE(n, w) + b);
    assert [info] + BE(m, w) + a == [info] + (BE(m, w) + a);
    assert [info] + BE(n, w) + b == [info] + (BE(n, w) + b);
  }

  /** A shorter string's head sorts first, across all five head sizes. */
  lemma ShorterSortsFirst(m: nat, n: nat, a: Bytes, b: Bytes)
    requires m < n < U64
    ensures Less(Head(BYTES, m) + a, Head(BYTES, n) + b)
  {
    hide BE, Less;
    Pow256Values();
    if n < 24 {
      FirstByteDecides(64 + m, 64 + n, a, b);
    } else if m >= 24 && Width(m) == Width(n) {
      SameWidthHeads(Info(n), m, n, Width(n), a, b);
    } else {
      WiderSortsLater(m, n, a, b);
    }
  }

  function Width(n: nat): nat {
    if n < 24 then 0 else if n < 0x100 then 1 else if n < 0x1_0000 then 2 else if n < U32 then 4 else 8
  }

  function Info(n: nat): Byte {
    if n < 24 then 64 + n else if n < 0x100 then 88 else if n < 0x1_0000 then 89 else if n < U32 then 90 else 91
  }

  lemma WiderSortsLater(m: nat, n: nat, a: Bytes, b: Bytes)
    requires m < n < U64 && n >= 24 && (m < 24 || Width(m) != Width(n))
    ensures Less(Head(BYTES, m) + a, Head(BYTES, n) + b)
  {
    hide BE, Less;
    HeadSplits(m, a);
    HeadSplits(n, b);
    FirstByteDecides(Info(m), Info(n), BE(m, Width(m)) + a, BE(n, Width(n)) + b);
  }

  lemma HeadSplits(n: nat, a: Bytes)
    requires n < U64
    ensures Head(BYTES, n) + a == [Info(n)] + (BE(n, Width(n)) + a)
  {
    if n < 24 { assert BE(n, 0) == []; }
    hide BE;
    if n < 24 { assert [Info(n)] + ([] + a) == [Info(n)] + a; }
    else { assert [Info(n)] + BE(n, Width(n)) + a == [Info(n)] + (BE(n, Width(n)) + a); }
  }

  /** The bytewise order of encoded keys is shorter first, then bytewise. */
  lemma OrderIsLengthThenBytes(a: Bytes, b: Bytes)
    requires |a| < U64 && |b| < U64
    ensures Before(a, b) <==> |a| < |b| || (|a| == |b| && Less(a, b))
  {
    hide Head, Less;
    if |a| == |b| {
      LessAfterPrefix(Head(BYTES, |a|), a, b);
    } else if |a| < |b| {
      ShorterSortsFirst(|a|, |b|, a, b);
    } else {
      ShorterSortsFirst(|b|, |a|, b, a);
      LessAsymmetric(ByteString(b), ByteString(a));
    }
  }

  // -------------------------------------------------------------------- maps

  type Attrs = map<Bytes, Bytes>

  /** Lengths a program can hold. */
  ghost predicate Fits(m: Attrs) {
    |m| < U64 && forall n :: n in m ==> |n| < U64 && |m[n]| < U64
  }

  ghost predicate Names(m: Attrs, names: seq<Bytes>) {
    && |names| == |m| && (forall n :: n in names <==> n in m)
    && forall i, j :: 0 <= i < j < |names| ==> names[i] != names[j]
  }

  ghost predicate Short(names: seq<Bytes>) {
    forall i :: 0 <= i < |names| ==> |names[i]| < U64
  }

  ghost predicate Ordered(names: seq<Bytes>)
    requires Short(names)
  {
    forall i, j :: 0 <= i < j < |names| ==> Before(names[i], names[j])
  }

  function Pairs(m: Attrs, names: seq<Bytes>): Bytes
    requires forall i :: 0 <= i < |names| ==> names[i] in m && |names[i]| < U64 && |m[names[i]]| < U64
  {
    if names == [] then []
    else Pairs(m, names[..|names| - 1]) + (ByteString(names[|names| - 1]) + ByteString(m[names[|names| - 1]]))
  }

  /** The encoding of `m`: its names once each, in order. */
  ghost predicate Encodes(m: Attrs, names: seq<Bytes>, out: Bytes)
    requires Fits(m)
  {
    Names(m, names) && Short(names) && Ordered(names) && out == Head(MAP, |m|) + Pairs(m, names)
  }

  // ----------------------------------------------------------------- encoding

  /** Puts a name in its place. */
  method Place(names: seq<Bytes>, n: Bytes) returns (r: seq<Bytes>)
    requires Short(names) && Ordered(names) && |n| < U64 && n !in names
    ensures Short(r) && Ordered(r) && |r| == |names| + 1 && forall x :: x in r <==> x in names || x == n
  {
    hide Before;
    var i := |names|;
    while i > 0 && Before(n, names[i - 1])
      invariant 0 <= i <= |names| && forall j :: i <= j < |names| ==> Before(n, names[j])
    {
      i := i - 1;
    }
    r := names[..i] + [n] + names[i..];
    PlacedHolds(names, n, i);
    PlacedOrdered(names, n, i);
  }

  lemma PlacedHolds(names: seq<Bytes>, n: Bytes, i: nat)
    requires i <= |names| && Short(names) && |n| < U64
    ensures Short(names[..i] + [n] + names[i..])
    ensures forall x :: x in names[..i] + [n] + names[i..] <==> x in names || x == n
  {
    assert names == names[..i] + names[i..];
  }

  lemma BeforeTotal(a: Bytes, b: Bytes)
    requires |a| < U64 && |b| < U64 && a != b && !Before(a, b)
    ensures Before(b, a)
  {
    OrderIsLengthThenBytes(a, b);
    OrderIsLengthThenBytes(b, a);
    LessTotal(a, b);
  }

  lemma BeforeTransitive(a: Bytes, b: Bytes, c: Bytes)
    requires |a| < U64 && |b| < U64 && |c| < U64 && Before(a, b) && Before(b, c)
    ensures Before(a, c)
  {
    LessTransitive(ByteString(a), ByteString(b), ByteString(c));
  }

  lemma PlacedOrdered(names: seq<Bytes>, n: Bytes, i: nat)
    requires Short(names) && Ordered(names) && |n| < U64 && n !in names && i <= |names|
    requires i > 0 ==> !Before(n, names[i - 1])
    requires forall j :: i <= j < |names| ==> Before(n, names[j])
    requires Short(names[..i] + [n] + names[i..])
    ensures Ordered(names[..i] + [n] + names[i..])
  {
    hide Before;
    forall j | 0 <= j < i ensures Before(names[j], n) {
      BeforeTotal(n, names[i - 1]);
      if j < i - 1 { BeforeTransitive(names[j], names[i - 1], n); }
    }
  }

  /** Lists a map's names in the encoder's order, from any order of the map. */
  method SortedNames(m: Attrs) returns (names: seq<Bytes>)
    requires Fits(m)
    ensures Names(m, names) && Short(names) && Ordered(names)
  {
    hide Before;
    names := [];
    var todo := m.Keys;
    while todo != {}
      invariant todo <= m.Keys && Short(names) && Ordered(names) && |names| + |todo| == |m.Keys|
      invariant forall n :: n in names <==> n in m.Keys - todo
      decreases |todo|
    {
      var n :| n in todo;
      names := Place(names, n);
      todo := todo - {n};
    }
    OrderedDistinct(names);
  }

  lemma OrderedDistinct(names: seq<Bytes>)
    requires Short(names) && Ordered(names)
    ensures forall i, j :: 0 <= i < j < |names| ==> names[i] != names[j]
  {
    hide Less;
    forall i, j | 0 <= i < j < |names| ensures names[i] != names[j] { LessIrreflexive(ByteString(names[i])); }
  }

  /** Encodes a map: canonical, whatever order the map yields its names in. */
  method EncodeXattrs(m: Attrs) returns (out: Bytes, ghost names: seq<Bytes>)
    requires Fits(m)
    ensures Encodes(m, names, out) && Decode(out) == Success(m)
  {
    hide Before, Ordered, Head, ByteString, Pairs, Decode;
    var sorted := SortedNames(m);
    names := sorted;
    out := Head(MAP, |m|);
    NoPairs(m);
    for i := 0 to |sorted|
      invariant forall j :: 0 <= j < |sorted| ==> sorted[j] in m && |sorted[j]| < U64 && |m[sorted[j]]| < U64
      invariant out == Head(MAP, |m|) + Pairs(m, sorted[..i])
    {
      PairsNext(m, sorted, i);
      out := out + (ByteString(sorted[i]) + ByteString(m[sorted[i]]));
    }
    assert sorted[..|sorted|] == sorted;
    DecodeEncode(m, names, out);
  }

  lemma NoPairs(m: Attrs)
    ensures Pairs(m, []) == []
  {
  }

  lemma PairsNext(m: Attrs, names: seq<Bytes>, i: nat)
    requires i < |names| && forall j :: 0 <= j < |names| ==> names[j] in m && |names[j]| < U64 && |m[names[j]]| < U64
    ensures Pairs(m, names[..i + 1]) == Pairs(m, names[..i]) + (ByteString(names[i]) + ByteString(m[names[i]]))
  {
    hide ByteString;
    assert names[..i + 1][..i] == names[..i];
  }

  // ----------------------------------------------------------------- decoding

  /** Reads `n` pairs into `m`; what is left must be nothing. */
  function ReadPairs(b: Bytes, n: nat, m: Attrs): Result<Attrs> {
    if n == 0 then if b == [] then Success(m) else Failure(Malformed)
    else
      var name := ReadByteString(b);
      if name.Failure? then Failure(name.error)
      else
        var val := ReadByteString(name.value.1);
        if val.Failure? then Failure(val.error)
        else ReadPairs(val.value.1, n - 1, m[name.value.0 := val.value.0])
  }

  function Decode(b: Bytes): Result<Attrs> {
    var h := ReadHead(b);
    if h.Failure? then Failure(h.error)
    else if h.value.major != MAP || h.value.arg > |h.value.rest| / 2 then Failure(Malformed)
    else ReadPairs(h.value.rest, h.value.arg, map[])
  }

  method DecodeXattrs(b: Bytes) returns (r: Result<Attrs>)
    ensures r == Decode(b)
  {
    hide ReadHead;
    var h := ReadHead(b);
    if h.Failure? { return Failure(h.error); }
    if h.value.major != MAP || h.value.arg > |h.value.rest| / 2 { return Failure(Malformed); }
    var n, rest := h.value.arg, h.value.rest;
    var m: Attrs := map[];
    for i := 0 to n
      invariant ReadPairs(rest, n - i, m) == Decode(b)
    {
      var name := ReadByteString(rest);
      if name.Failure? { return Failure(name.error); }
      var val := ReadByteString(name.value.1);
      if val.Failure? { return Failure(val.error); }
      m := m[name.value.0 := val.value.0];
      rest := val.value.1;
    }
    if rest != [] { return Failure(Malformed); }
    return Success(m);
  }

  // --------------------------------------------------------------- round trip

  /** The names from the `i`th on, with their values. */
  ghost function Rest(m: Attrs, names: seq<Bytes>, i: nat): map<Bytes, Bytes>
    requires i <= |names| && forall j :: 0 <= j < |names| ==> names[j] in m
  {
    map n | n in names[i..] :: m[n]
  }

  lemma {:induction false} PairsSplit(m: Attrs, names: seq<Bytes>)
    requires names != [] && forall i :: 0 <= i < |names| ==> names[i] in m && |names[i]| < U64 && |m[names[i]]| < U64
    ensures Pairs(m, names) == ByteString(names[0]) + ByteString(m[names[0]]) + Pairs(m, names[1..])
    decreases |names|
  {
    hide ByteString;
    var front, last := names[..|names| - 1], names[|names| - 1];
    if |names| == 1 {
      assert front == [] && names[1..] == [];
      assert Pairs(m, front) == [];
    } else {
      PairsSplit(m, front);
      assert front[1..] == names[1..][..|names| - 2];
      assert names[1..][|names| - 2] == last;
      Regroup(ByteString(names[0]) + ByteString(m[names[0]]), Pairs(m, front[1..]),
              ByteString(last) + ByteString(m[last]));
    }
  }

  lemma Regroup(a: Bytes, b: Bytes, c: Bytes)
    ensures a + b + c == a + (b + c)
  {
  }

  lemma {:induction false} PairsReadBack(m: Attrs, names: seq<Bytes>, acc: Attrs)
    requires forall i :: 0 <= i < |names| ==> names[i] in m && |names[i]| < U64 && |m[names[i]]| < U64
    requires forall i, j :: 0 <= i < j < |names| ==> names[i] != names[j]
    ensures ReadPairs(Pairs(m, names), |names|, acc) == Success(acc + Rest(m, names, 0))
    decreases |names|
  {
    hide ByteString, ReadByteString;
    if names == [] {
      assert Rest(m, names, 0) == map[];
      assert acc + map[] == acc;
    } else {
      var k, v := names[0], m[names[0]];
      var tail := Pairs(m, names[1..]);
      PairsSplit(m, names);
      Regroup(ByteString(k), ByteString(v), tail);
      ByteStringReadsBack(k, ByteString(v) + tail);
      ByteStringReadsBack(v, tail);
      PairsReadBack(m, names[1..], acc[k := v]);
      RestStep(m, names, acc);
    }
  }

  lemma RestStep(m: Attrs, names: seq<Bytes>, acc: Attrs)
    requires names != [] && forall i :: 0 <= i < |names| ==> names[i] in m
    requires forall i, j :: 0 <= i < j < |names| ==> names[i] != names[j]
    ensures acc[names[0] := m[names[0]]] + Rest(m, names[1..], 0) == acc + Rest(m, names, 0)
  {
    assert names[0..] == names && names[1..][0..] == names[1..];
    assert forall n :: n in names <==> n == names[0] || n in names[1..];
  }

  lemma {:induction false} PairsLength(m: Attrs, names: seq<Bytes>)
    requires forall i :: 0 <= i < |names| ==> names[i] in m && |names[i]| < U64 && |m[names[i]]| < U64
    ensures |Pairs(m, names)| >= 2 * |names|
  {
    if names != [] { PairsLength(m, names[..|names| - 1]); }
  }

  /** Decoding an encoding gives the map back. */
  lemma DecodeEncode(m: Attrs, names: seq<Bytes>, out: Bytes)
    requires Fits(m) && Encodes(m, names, out)
    ensures Decode(out) == Success(m)
  {
    hide Head, ReadHead, Pairs, ReadPairs, Ordered;
    assert forall i :: 0 <= i < |names| ==> names[i] in m;
    HeadReadsBack(MAP, |m|, Pairs(m, names));
    PairsLength(m, names);
    PairsReadBack(m, names, map[]);
    RestIsAll(m, names);
  }

  lemma RestIsAll(m: Attrs, names: seq<Bytes>)
    requires Names(m, names) && forall i :: 0 <= i < |names| ==> names[i] in m
    ensures map[] + Rest(m, names, 0) == m
  {
    assert names[0..] == names;
  }

  /** Different maps have different encodings. */
  lemma EncodingIsInjective(m: Attrs, names: seq<Bytes>, m': Attrs, names': seq<Bytes>, out: Bytes)
    requires Fits(m) && Fits(m') && Encodes(m, names, out) && Encodes(m', names', out)
    ensures m == m'
  {
    hide Encodes, Decode;
    DecodeEncode(m, names, out);
    DecodeEncode(m', names', out);
  }

  /** A map has one encoding. */
  lemma EncodingIsUnique(m: Attrs, names: seq<Bytes>, out: Bytes, names': seq<Bytes>, out': Bytes)
    requires Fits(m) && Encodes(m, names, out) && Encodes(m, names', out')
    ensures out == out'
  {
    hide Before, Pairs, Head;
    SortedUnique(names, names');
  }

  lemma {:induction false} SortedUnique(a: seq<Bytes>, b: seq<Bytes>)
    requires Short(a) && Short(b) && Ordered(a) && Ordered(b) && forall n :: n in a <==> n in b
    ensures a == b
    decreases |a|
  {
    hide Before;
    assert a != [] ==> a[0] in b;
    assert b != [] ==> b[0] in a;
    if a != [] && b != [] {
      FirstsAgree(a, b);
      TailsAgree(a, b);
      SortedUnique(a[1..], b[1..]);
      assert a == [a[0]] + a[1..] && b == [b[0]] + b[1..];
    }
  }

  lemma FirstsAgree(a: seq<Bytes>, b: seq<Bytes>)
    requires Short(a) && Short(b) && Ordered(a) && Ordered(b) && a != [] && b != [] && forall n :: n in a <==> n in b
    ensures a[0] == b[0]
  {
    hide ByteString, Less;
    assert b[0] in a;
    var i :| 0 <= i < |a| && a[i] == b[0];
    assert a[0] in b;
    var j :| 0 <= j < |b| && b[j] == a[0];
    if i > 0 && j > 0 { LessAsymmetric(ByteString(a[0]), ByteString(b[0])); }
  }

  lemma TailsAgree(a: seq<Bytes>, b: seq<Bytes>)
    requires Short(a) && Short(b) && Ordered(a) && Ordered(b) && a != [] && b != [] && a[0] == b[0]
    requires forall n :: n in a <==> n in b
    ensures forall n :: n in a[1..] <==> n in b[1..]
  {
    OrderedDistinct(a);
    OrderedDistinct(b);
    hide Before;
    forall n ensures n in a[1..] <==> n in a && n != a[0] { InTail(a, n); }
    forall n ensures n in b[1..] <==> n in b && n != b[0] { InTail(b, n); }
  }

  lemma InTail(a: seq<Bytes>, n: Bytes)
    requires a != [] && forall i, j :: 0 <= i < j < |a| ==> a[i] != a[j]
    ensures n in a[1..] <==> n in a && n != a[0]
  {
    assert a == [a[0]] + a[1..];
    if n in a[1..] { var i :| 0 <= i < |a[1..]| && a[1..][i] == n; assert a[i + 1] == n; }
  }
}
