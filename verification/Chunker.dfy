/** The item chunker (chunkers/item.go): where a run of index items ends. */
module Chunker {
  import opened Base

  function Pow2(n: nat): (p: nat)
    ensures p > 0
  {
    if n == 0 then 1 else 2 * Pow2(n - 1)
  }

  /** Two's complement wrap-around of a 64-bit `int`. */
  function Wrap64(x: int): int {
    var m := x % U64;
    if m >= U64 / 2 then m - U64 else m
  }

  /** Division truncating toward zero. */
  function Quarter(x: int): int { if x >= 0 then x / 4 else -((-x) / 4) }

  datatype ItemChunker = ItemChunker(minRun: int, maxRun: int, mask: nat) {

    /** `sum` is the first eight digest bytes of the item's encoding. */
    predicate IsBoundary(sum: nat, runLen: int) {
      if runLen >= maxRun then true
      else if runLen < minRun then false
      else sum % (mask + 1) == 0
    }

    /** A run is never closed before it holds two items. */
    predicate Usable() { 2 <= minRun && 2 <= maxRun }
  }

  function New(bits: nat): ItemChunker {
    var avg := if bits >= 64 then 0 else Wrap64(Pow2(bits));
    var quarter := Quarter(avg);
    ItemChunker(
      if quarter < 2 then 2 else quarter,
      Wrap64(avg * 4),
      if bits == 0 then 0 else if bits >= 64 then U64 - 1 else Pow2(bits) - 1)
  }

  lemma {:induction false} Pow2Monotone(m: nat, n: nat)
    requires m <= n
    ensures Pow2(m) <= Pow2(n)
    decreases n
  {
    if m < n { Pow2Monotone(m, n - 1); }
  }

  lemma {:induction false} Pow2Split(m: nat, n: nat)
    ensures Pow2(m + n) == Pow2(m) * Pow2(n)
    decreases n
  {
    if n > 0 {
      Pow2Split(m, n - 1);
      assert Pow2(m + n) == 2 * Pow2(m + (n - 1));
    }
  }

  lemma Pow2Double(n: nat, v: nat)
    requires Pow2(n) == v
    ensures Pow2(n + n) == v * v
  {
    Pow2Split(n, n);
  }

  lemma Pow2Sixty()
    ensures Pow2(60) == 0x1000_0000_0000_0000
  {
    assert Pow2(1) == 2 && Pow2(2) == 4 && Pow2(3) == 8;
    Pow2Double(3, 8);
    assert Pow2(7) == 2 * Pow2(6);
    Pow2Double(7, 128);
    assert Pow2(15) == 2 * Pow2(14);
    Pow2Double(15, 0x8000);
    Pow2Double(30, 0x4000_0000);
  }

  lemma BoundsFit(avg: nat)
    requires 1 <= avg <= 0x1000_0000_0000_0000
    ensures Wrap64(avg) == avg && Wrap64(avg * 4) == avg * 4
    ensures (if avg / 4 < 2 then 2 else avg / 4) <= avg * 4
  {
  }

  lemma BoundsWrap(bits: nat)
    requires bits > 60
    ensures New(bits).maxRun <= 0
  {
    Pow2Sixty();
    if bits < 64 {
      assert Pow2(bits) == 2 * Pow2(bits - 1);
      assert bits > 61 ==> Pow2(bits - 1) == 2 * Pow2(bits - 2);
      assert bits > 62 ==> Pow2(bits - 2) == 2 * Pow2(bits - 3);
    }
  }

  /** The constructor's bounds are usable, and in order, exactly up to 2^60: past
      that four times the average wraps, and every single item closes its run. */
  lemma UsableIffBitsFit(bits: nat)
    ensures bits <= 60 <==> New(bits).Usable()
    ensures bits <= 60 ==> New(bits).minRun <= New(bits).maxRun && New(bits).maxRun == 4 * Pow2(bits)
    ensures bits <= 60 <==> exists sum: nat :: !New(bits).IsBoundary(sum, 1)
  {
    if bits <= 60 {
      Pow2Sixty();
      Pow2Monotone(bits, 60);
      BoundsFit(Pow2(bits));
      assert !New(bits).IsBoundary(1, 1);
    } else {
      BoundsWrap(bits);
    }
  }
}
