/** Bytes, big-endian integers, bytewise order and the result types every other
    module uses. */
module Base {

  type Byte = b: int | 0 <= b < 256
  type Bytes = seq<Byte>

  const U32: nat := 0x1_0000_0000
  const U64: nat := 0x1_0000_0000_0000_0000

  /** Wrap-around of 64-bit unsigned arithmetic. */
  function Low64(n: nat): (r: nat)
    ensures r < U64
  {
    n % 0x1_0000_0000_0000_0000
  }

  /** Wrapping at every step gives the wrapped total. */
  lemma Low64Step(s: nat, l: nat, a: nat, b: nat, wrapped: nat, exact: nat)
    requires Low64(s) == Low64(a) && l == Low64(b) && wrapped == s + l && exact == a + b
    ensures Low64(wrapped) == Low64(exact)
  {
  }

  datatype Option<+T> = None | Some(value: T)

  /** The error classes callers of the store can tell apart. */
  datatype Error =
    | NotFound | Malformed | Missing | Rejected | Cancelled | Empty

  datatype Result<+T> = Success(value: T) | Failure(error: Error)

  function Min(a: nat, b: nat): nat {
    if a < b then a else b
  }

  // ------------------------------------------------------------------ order

  /** `bytes.Compare(a, b) < 0`. */
  predicate Less(a: Bytes, b: Bytes)
    decreases |a|
  {
    if b == [] then false
    else if a == [] then true
    else if a[0] != b[0] then a[0] < b[0]
    else Less(a[1..], b[1..])
  }

  lemma {:induction false} LessIrreflexive(a: Bytes)
    ensures !Less(a, a)
  {
    if a != [] { LessIrreflexive(a[1..]); }
  }

  lemma {:induction false} LessTransitive(a: Bytes, b: Bytes, c: Bytes)
    requires Less(a, b) && Less(b, c)
    ensures Less(a, c)
    decreases |a|
  {
    if a != [] && a[0] == b[0] && b[0] == c[0] { LessTransitive(a[1..], b[1..], c[1..]); }
  }

  lemma {:induction false} LessTotal(a: Bytes, b: Bytes)
    ensures Less(a, b) || Less(b, a) || a == b
    decreases |a|
  {
    if a != [] && b != [] && a[0] == b[0] {
      LessTotal(a[1..], b[1..]);
      if a[1..] == b[1..] { assert a == [a[0]] + a[1..] == [b[0]] + b[1..] == b; }
    }
  }

  lemma LessAsymmetric(a: Bytes, b: Bytes)
    requires Less(a, b)
    ensures !Less(b, a) && a != b
  {
    LessIrreflexive(a);
    if Less(b, a) { LessTransitive(a, b, a); }
  }

  /** A common prefix does not affect the order. */
  lemma {:induction false} LessAfterPrefix(p: Bytes, a: Bytes, b: Bytes)
    ensures Less(p + a, p + b) == Less(a, b)
    decreases |p|
  {
    if p == [] {
      assert p + a == a && p + b == b;
    } else {
      assert (p + a)[1..] == p[1..] + a && (p + b)[1..] == p[1..] + b;
      LessAfterPrefix(p[1..], a, b);
    }
  }

  /** The first differing byte of two equally long prefixes decides. */
  lemma {:induction false} LessByPrefix(p: Bytes, q: Bytes, a: Bytes, b: Bytes)
    requires |p| == |q| && p != q
    ensures Less(p + a, q + b) == Less(p, q)
    decreases |p|
  {
    assert (p + a)[1..] == p[1..] + a && (q + b)[1..] == q[1..] + b;
    if p[0] == q[0] {
      assert p == [p[0]] + p[1..] && q == [q[0]] + q[1..];
      LessByPrefix(p[1..], q[1..], a, b);
    }
  }

  // ------------------------------------------------------------- big endian

  function Pow256(w: nat): (p: nat)
    ensures p > 0
  {
    if w == 0 then 1 else 256 * Pow256(w - 1)
  }

  /** The low `w` bytes of `n`, most significant first. */
  function BE(n: nat, w: nat): (s: Bytes)
    ensures |s| == w
  {
    if w == 0 then [] else BE(n / 256, w - 1) + [n % 256]
  }

  function FromBE(s: Bytes): nat {
    if s == [] then 0 else FromBE(s[..|s| - 1]) * 256 + s[|s| - 1]
  }

  lemma {:induction false} FromBEBound(s: Bytes)
    ensures FromBE(s) < Pow256(|s|)
  {
    if s != [] { FromBEBound(s[..|s| - 1]); }
  }

  lemma {:induction false} DecodeEncodeBE(n: nat, w: nat)
    requires n < Pow256(w)
    ensures FromBE(BE(n, w)) == n
  {
    if w > 0 {
      DecodeEncodeBE(n / 256, w - 1);
      assert BE(n, w)[..w - 1] == BE(n / 256, w - 1);
    }
  }

  lemma {:induction false} EncodeDecodeBE(s: Bytes)
    ensures BE(FromBE(s), |s|) == s
  {
    if s != [] { EncodeDecodeBE(s[..|s| - 1]); }
  }

  /** Fixed-width big-endian encoding preserves order. */
  lemma {:induction false} BEMonotone(m: nat, n: nat, w: nat)
    requires m < n < Pow256(w)
    ensures Less(BE(m, w), BE(n, w))
  {
    if w > 0 {
      if m / 256 < n / 256 {
        BEMonotone(m / 256, n / 256, w - 1);
        LessAsymmetric(BE(m / 256, w - 1), BE(n / 256, w - 1));
        LessByPrefix(BE(m / 256, w - 1), BE(n / 256, w - 1), [m % 256], [n % 256]);
      } else {
        LessAfterPrefix(BE(m / 256, w - 1), [m % 256], [n % 256]);
      }
    }
  }

  lemma Pow256Values()
    ensures Pow256(1) == 0x100 && Pow256(2) == 0x1_0000 && Pow256(4) == U32 && Pow256(8) == U64
  {
    assert Pow256(3) == 256 * Pow256(2);
    assert Pow256(5) == 256 * Pow256(4);
    assert Pow256(6) == 256 * Pow256(5);
    assert Pow256(7) == 256 * Pow256(6);
  }

  // ----------------------------------------------------------- sort.Search

  /** The standard library's binary search: any answer lies on a false/true
      edge of `f`, so for a monotone `f` it is the first true index. */
  method Search(n: nat, f: nat -> bool) returns (i: nat)
    ensures i <= n
    ensures i < n ==> f(i)
    ensures i > 0 ==> !f(i - 1)
  {
    i := 0;
    var j := n;
    while i < j
      invariant i <= j <= n
      invariant j < n ==> f(j)
      invariant i > 0 ==> !f(i - 1)
    {
      var h := (i + j) / 2;
      if !f(h) { i := h + 1; } else { j := h; }
    }
  }
}
