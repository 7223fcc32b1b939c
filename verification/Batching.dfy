/** Byte-balanced batches of keys (remotesync/batch.go), with its 64-bit sums. */
module Batching {
  import opened Base
  import opened Keys

  const MAX_KEYS: nat := 8192

  /** The estimated size of the object behind a key, a 64-bit number. */
  type SizeOf = Key -> nat

  ghost predicate Sized(size: SizeOf, keys: seq<Key>) {
    forall i :: 0 <= i < |keys| ==> size(keys[i]) < U64
  }

  /** Batches closed, the batch being filled, and its running sum. */
  datatype State = State(out: seq<seq<Key>>, cur: seq<Key>, bytes: nat)

  /** One sum of the batcher: 64-bit as in the program, or exact. */
  function Sum(a: nat, b: nat, exact: bool): nat {
    if exact then a + b else Low64(a + b)
  }

  /** The key closes the current batch. */
  predicate Closes(st: State, s: nat, target: nat, exact: bool) {
    |st.cur| > 0 && (Sum(st.bytes, s, exact) > target || |st.cur| >= MAX_KEYS)
  }

  function Step(st: State, k: Key, s: nat, target: nat, exact: bool): State {
    if Closes(st, s, target, exact) then State(st.out + [st.cur], [k], Sum(0, s, exact))
    else State(st.out, st.cur + [k], Sum(st.bytes, s, exact))
  }

  function Run(keys: seq<Key>, size: SizeOf, target: nat, exact: bool): State {
    if keys == [] then State([], [], 0)
    else
      var k := keys[|keys| - 1];
      Step(Run(keys[..|keys| - 1], size, target, exact), k, size(k), target, exact)
  }

  function Done(st: State): seq<seq<Key>> {
    if st.cur == [] then st.out else st.out + [st.cur]
  }

  /** Accumulates keys into batches, as the program does. */
  class Batcher {
    const target: nat
    const size: SizeOf
    var cur: seq<Key>
    var bytes: nat

    constructor (target: nat, size: SizeOf)
      ensures this.target == target && this.size == size && cur == [] && bytes == 0
    {
      this.target, this.size := target, size;
      cur, bytes := [], 0;
    }

    /** Returns the batch the key would have overflowed, if it does. */
    method Add(k: Key, ghost out: seq<seq<Key>>) returns (full: Option<seq<Key>>)
      requires cur == [] ==> bytes == 0
      modifies this
      ensures State(if full.Some? then out + [full.value] else out, cur, bytes)
              == Step(State(out, old(cur), old(bytes)), k, size(k), target, false)
    {
      var s := size(k);
      full := None;
      if |cur| > 0 && (Low64(bytes + s) > target || |cur| >= MAX_KEYS) {
        full := Some(cur);
        cur, bytes := [], 0;
      }
      cur := cur + [k];
      bytes := Low64(bytes + s);
    }

    method Flush() returns (last: Option<seq<Key>>)
      modifies this
      ensures cur == [] && bytes == 0 && last == if old(cur) == [] then None else Some(old(cur))
    {
      last := if cur == [] then None else Some(cur);
      cur, bytes := [], 0;
    }
  }

  method Batches(keys: seq<Key>, target: nat, size: SizeOf) returns (out: seq<seq<Key>>)
    ensures out == Done(Run(keys, size, target, false))
  {
    var b := new Batcher(target, size);
    out := [];
    for i := 0 to |keys|
      invariant b.target == target && b.size == size && (b.cur == [] ==> b.bytes == 0)
      invariant State(out, b.cur, b.bytes) == Run(keys[..i], size, target, false)
    {
      assert keys[..i + 1][..i] == keys[..i];
      var full := b.Add(keys[i], out);
      if full.Some? { out := out + [full.value]; }
    }
    assert keys[..|keys|] == keys;
    var last := b.Flush();
    if last.Some? { out := out + [last.value]; }
  }

  // ------------------------------------------------ nothing lost or reordered

  function Concat(bs: seq<seq<Key>>): seq<Key> {
    if bs == [] then [] else Concat(bs[..|bs| - 1]) + bs[|bs| - 1]
  }

  lemma ConcatSnoc(bs: seq<seq<Key>>, b: seq<Key>)
    ensures Concat(bs + [b]) == Concat(bs) + b
  {
    assert (bs + [b])[..|bs|] == bs;
  }

  ghost predicate WellSized(bs: seq<seq<Key>>) {
    forall i :: 0 <= i < |bs| ==> 0 < |bs[i]| <= MAX_KEYS
  }

  lemma {:induction false} RunKeepsKeys(keys: seq<Key>, size: SizeOf, target: nat, exact: bool)
    ensures var st := Run(keys, size, target, exact);
            && Concat(st.out) + st.cur == keys && WellSized(st.out)
            && |st.cur| <= MAX_KEYS && (keys != [] ==> st.cur != [])
  {
    if keys != [] {
      var front, k := keys[..|keys| - 1], keys[|keys| - 1];
      RunKeepsKeys(front, size, target, exact);
      StepKeepsKeys(Run(front, size, target, exact), front, k, size(k), target, exact);
      assert keys == front + [k];
    }
  }

  lemma StepKeepsKeys(st: State, front: seq<Key>, k: Key, s: nat, target: nat, exact: bool)
    requires Concat(st.out) + st.cur == front && WellSized(st.out) && |st.cur| <= MAX_KEYS
    ensures var next := Step(st, k, s, target, exact);
            Concat(next.out) + next.cur == front + [k] && WellSized(next.out) && 0 < |next.cur| <= MAX_KEYS
  {
    hide Concat, Sum;
    ConcatSnoc(st.out, st.cur);
    assert Concat(st.out) + (st.cur + [k]) == Concat(st.out) + st.cur + [k];
  }

  /** The batches concatenate to the keys, in order, and none is empty or holds more
      than the key limit. */
  lemma BatchesKeepKeys(keys: seq<Key>, size: SizeOf, target: nat, exact: bool)
    ensures var out := Done(Run(keys, size, target, exact));
            Concat(out) == keys && WellSized(out) && (keys != [] ==> out != [])
  {
    hide Run, Concat;
    RunKeepsKeys(keys, size, target, exact);
    DoneKeepsKeys(Run(keys, size, target, exact), keys);
  }

  lemma DoneKeepsKeys(st: State, keys: seq<Key>)
    requires Concat(st.out) + st.cur == keys && WellSized(st.out) && |st.cur| <= MAX_KEYS
    requires keys != [] ==> st.cur != []
    ensures Concat(Done(st)) == keys && WellSized(Done(st)) && (keys != [] ==> Done(st) != [])
  {
    hide Concat;
    ConcatSnoc(st.out, st.cur);
    NothingConcats();
    assert st.cur == [] ==> Concat(st.out) + st.cur == Concat(st.out);
  }

  lemma NothingConcats()
    ensures Concat([]) == []
  {
  }

  // --------------------------------------------------------- the byte limit

  function Total(b: seq<Key>, size: SizeOf): nat {
    if b == [] then 0 else Total(b[..|b| - 1], size) + size(b[|b| - 1])
  }

  lemma TotalSnoc(b: seq<Key>, k: Key, size: SizeOf)
    ensures Total(b + [k], size) == Total(b, size) + size(k)
  {
    assert (b + [k])[..|b|] == b;
  }

  /** The batch is within the target, or a single oversized object. */
  ghost predicate Within(b: seq<Key>, size: SizeOf, target: nat) {
    |b| <= 1 || Total(b, size) <= target
  }

  ghost predicate AllWithin(bs: seq<seq<Key>>, size: SizeOf, target: nat) {
    forall i :: 0 <= i < |bs| ==> Within(bs[i], size, target)
  }

  /** With exact sums every batch is within the target, and the running sum is the
      batch's total. */
  lemma {:induction false} ExactWithin(keys: seq<Key>, size: SizeOf, target: nat)
    ensures var st := Run(keys, size, target, true);
            && AllWithin(st.out, size, target) && Within(st.cur, size, target) && st.bytes == Total(st.cur, size)
  {
    if keys != [] {
      var front, k := keys[..|keys| - 1], keys[|keys| - 1];
      ExactWithin(front, size, target);
      var st := Run(front, size, target, true);
      TotalSnoc(st.cur, k, size);
      TotalSnoc([], k, size);
      assert [] + [k] == [k];
    }
  }

  /** A 64-bit sum that overflows and lands back within the target. */
  predicate WrapsBack(st: State, s: nat, target: nat) {
    0 < |st.cur| < MAX_KEYS && U64 <= st.bytes + s <= U64 + target
  }

  /** No step of the exact run overflows back into the target. */
  ghost predicate NoWrap(keys: seq<Key>, size: SizeOf, target: nat) {
    forall i :: 0 <= i < |keys| ==> !WrapsBack(Run(keys[..i], size, target, true), size(keys[i]), target)
  }

  lemma NoWrapFront(keys: seq<Key>, size: SizeOf, target: nat)
    requires keys != [] && NoWrap(keys, size, target)
    ensures NoWrap(keys[..|keys| - 1], size, target)
    ensures !WrapsBack(Run(keys[..|keys| - 1], size, target, true), size(keys[|keys| - 1]), target)
  {
    var front := keys[..|keys| - 1];
    forall i | 0 <= i < |front| ensures !WrapsBack(Run(front[..i], size, target, true), size(front[i]), target) {
      assert front[..i] == keys[..i];
    }
  }

  lemma Bytes64(keys: seq<Key>, size: SizeOf, target: nat)
    requires Sized(size, keys) && target < U64
    ensures Run(keys, size, target, true).bytes < U64
  {
    ExactWithin(keys, size, target);
    RunKeepsKeys(keys, size, target, true);
    var st := Run(keys, size, target, true);
    if |st.cur| == 1 {
      var k := st.cur[0];
      assert k == keys[|keys| - 1];
      TotalSnoc([], k, size);
      assert st.cur == [] + [k];
    }
  }

  lemma StepAgrees(st: State, k: Key, s: nat, target: nat)
    requires st.bytes < U64 && s < U64 && target < U64 && !WrapsBack(st, s, target) && |st.cur| <= MAX_KEYS
    requires st.cur == [] ==> st.bytes == 0
    ensures Step(st, k, s, target, false) == Step(st, k, s, target, true)
  {
  }

  /** Without such an overflow the 64-bit run is the exact one. */
  lemma {:induction false} RunsAgree(keys: seq<Key>, size: SizeOf, target: nat)
    requires Sized(size, keys) && target < U64 && NoWrap(keys, size, target)
    ensures Run(keys, size, target, false) == Run(keys, size, target, true)
  {
    if keys != [] {
      var front, k := keys[..|keys| - 1], keys[|keys| - 1];
      NoWrapFront(keys, size, target);
      RunsAgree(front, size, target);
      Bytes64(front, size, target);
      RunKeepsKeys(front, size, target, true);
      ExactWithin(front, size, target);
      StepAgrees(Run(front, size, target, true), k, size(k), target);
    }
  }

  /** Some batch of two or more objects is past the target. */
  ghost predicate Spoiled(st: State, size: SizeOf, target: nat) {
    !AllWithin(st.out, size, target) || !Within(st.cur, size, target)
  }

  lemma SpoiledStays(st: State, k: Key, size: SizeOf, target: nat, exact: bool)
    requires Spoiled(st, size, target)
    ensures Spoiled(Step(st, k, size(k), target, exact), size, target)
  {
    var next := Step(st, k, size(k), target, exact);
    TotalSnoc(st.cur, k, size);
    if i :| 0 <= i < |st.out| && !Within(st.out[i], size, target) {
      assert next.out[i] == st.out[i];
    } else if Closes(st, size(k), target, exact) {
      assert next.out[|st.out|] == st.cur;
    }
  }

  lemma {:induction false} SpoiledToTheEnd(keys: seq<Key>, i: nat, size: SizeOf, target: nat)
    requires i <= |keys| && Spoiled(Run(keys[..i], size, target, false), size, target)
    ensures Spoiled(Run(keys, size, target, false), size, target)
    decreases |keys|
  {
    if i == |keys| {
      assert keys[..i] == keys;
    } else {
      var front := keys[..|keys| - 1];
      assert front[..i] == keys[..i];
      SpoiledToTheEnd(front, i, size, target);
      SpoiledStays(Run(front, size, target, false), keys[|keys| - 1], size, target, false);
    }
  }

  lemma {:induction false} FirstWrap(keys: seq<Key>, size: SizeOf, target: nat) returns (i: nat)
    requires !NoWrap(keys, size, target)
    ensures i < |keys| && NoWrap(keys[..i], size, target)
    ensures WrapsBack(Run(keys[..i], size, target, true), size(keys[i]), target)
  {
    hide Run, Step, WrapsBack;
    var front := keys[..|keys| - 1];
    if NoWrap(front, size, target) {
      i := |keys| - 1;
      LastWraps(keys, size, target);
    } else {
      i := FirstWrap(front, size, target);
      assert front[..i] == keys[..i];
    }
  }

  lemma LastWraps(keys: seq<Key>, size: SizeOf, target: nat)
    requires keys != [] && NoWrap(keys[..|keys| - 1], size, target) && !NoWrap(keys, size, target)
    ensures var i := |keys| - 1; WrapsBack(Run(keys[..i], size, target, true), size(keys[i]), target)
  {
    hide Run, Step, WrapsBack;
    var front := keys[..|keys| - 1];
    forall j | 0 <= j < |front| ensures !WrapsBack(Run(keys[..j], size, target, true), size(keys[j]), target) {
      SameFront(keys, j);
      assert !WrapsBack(Run(front[..j], size, target, true), size(front[j]), target);
    }
  }

  lemma SameFront(keys: seq<Key>, j: nat)
    requires j < |keys| - 1
    ensures keys[..|keys| - 1][..j] == keys[..j] && keys[..|keys| - 1][j] == keys[j]
  {
  }

  lemma WrapSpoils(keys: seq<Key>, i: nat, size: SizeOf, target: nat)
    requires i < |keys| && Sized(size, keys) && target < U64 && NoWrap(keys[..i], size, target)
    requires WrapsBack(Run(keys[..i], size, target, true), size(keys[i]), target)
    ensures Spoiled(Run(keys[..i + 1], size, target, false), size, target)
  {
    hide NoWrap, Spoiled, Within, AllWithin, Total, Sum, Closes;
    RunsAgree(keys[..i], size, target);
    ExactWithin(keys[..i], size, target);
    Bytes64(keys[..i], size, target);
    assert keys[..i + 1][..i] == keys[..i];
    WrapStep(Run(keys[..i], size, target, true), keys[i], size, target);
  }

  lemma WrapStep(st: State, k: Key, size: SizeOf, target: nat)
    requires WrapsBack(st, size(k), target) && st.bytes == Total(st.cur, size) < U64 && size(k) < U64 && target < U64
    ensures Spoiled(Step(st, k, size(k), target, false), size, target)
  {
    TotalSnoc(st.cur, k, size);
  }

  /** Every batch of the 64-bit batcher is within the target, unless it is a single
      object, exactly when no step of the exact run overflows back into it. */
  lemma LimitHoldsIffNoWrap(keys: seq<Key>, size: SizeOf, target: nat)
    requires Sized(size, keys) && target < U64
    ensures AllWithin(Done(Run(keys, size, target, false)), size, target) <==> NoWrap(keys, size, target)
  {
    hide Run, NoWrap;
    if NoWrap(keys, size, target) {
      RunsAgree(keys, size, target);
      ExactWithin(keys, size, target);
    } else {
      var i := FirstWrap(keys, size, target);
      WrapSpoils(keys, i, size, target);
      SpoiledToTheEnd(keys, i + 1, size, target);
    }
    SpoiledShows(Run(keys, size, target, false), size, target);
  }

  lemma SpoiledShows(st: State, size: SizeOf, target: nat)
    ensures Spoiled(st, size, target) <==> !AllWithin(Done(st), size, target)
  {
    if i :| 0 <= i < |st.out| && !Within(st.out[i], size, target) {
      assert Done(st)[i] == st.out[i];
    } else if st.cur != [] {
      assert Done(st)[|st.out|] == st.cur;
    }
  }

  /** Sizes and target below 2^63 never overflow. */
  lemma SmallSizesDoNotWrap(keys: seq<Key>, size: SizeOf, target: nat)
    requires target < 0x8000_0000_0000_0000 && forall i :: 0 <= i < |keys| ==> size(keys[i]) < 0x8000_0000_0000_0000
    ensures NoWrap(keys, size, target)
  {
    forall i | 0 <= i < |keys| ensures !WrapsBack(Run(keys[..i], size, target, true), size(keys[i]), target) {
      SmallBytes(keys[..i], size, target);
    }
  }

  lemma SmallBytes(keys: seq<Key>, size: SizeOf, target: nat)
    requires target < 0x8000_0000_0000_0000 && forall i :: 0 <= i < |keys| ==> size(keys[i]) < 0x8000_0000_0000_0000
    ensures Run(keys, size, target, true).bytes < 0x8000_0000_0000_0000
  {
    ExactWithin(keys, size, target);
    RunKeepsKeys(keys, size, target, true);
    var st := Run(keys, size, target, true);
    if |st.cur| == 1 {
      TotalSnoc([], st.cur[0], size);
      assert st.cur == [] + [st.cur[0]];
      assert st.cur[0] == keys[|keys| - 1];
    }
  }

  /** Two objects of size 2^63 share a batch whose target is one byte. */
  lemma OverflowBreaksTheLimit(k: Key)
    ensures var size := (_: Key) => 0x8000_0000_0000_0000;
            var out := Done(Run([k, k], size, 1, false));
            out == [[k, k]] && !AllWithin(out, size, 1)
  {
    var size := (_: Key) => 0x8000_0000_0000_0000;
    assert [k, k][..1] == [k] && [k][..0] == [];
    assert Run([], size, 1, false) == State([], [], 0);
    assert Run([k], size, 1, false) == State([], [k], 0x8000_0000_0000_0000);
    assert Run([k, k], size, 1, false) == State([], [k, k], 0);
    TotalSnoc([], k, size);
    TotalSnoc([k], k, size);
    assert [] + [k] == [k] && [k] + [k] == [k, k];
    assert !Within([[k, k]][0], size, 1);
  }

  /** A batch ends only where the next object would pass the target or the key limit
      is reached. */
  ghost predicate Greedy(bs: seq<seq<Key>>, size: SizeOf, target: nat) {
    forall i :: 0 <= i < |bs| - 1 ==> Greedily(bs, i, size, target)
  }

  ghost predicate Greedily(bs: seq<seq<Key>>, i: nat, size: SizeOf, target: nat)
    requires i + 1 < |bs|
  {
    bs[i + 1] != [] && (Total(bs[i], size) + size(bs[i + 1][0]) > target || |bs[i]| >= MAX_KEYS)
  }

  lemma {:induction false} BatchesApproachTarget(keys: seq<Key>, size: SizeOf, target: nat)
    ensures Greedy(Done(Run(keys, size, target, true)), size, target)
  {
    if keys != [] {
      var front, k := keys[..|keys| - 1], keys[|keys| - 1];
      BatchesApproachTarget(front, size, target);
      ExactWithin(front, size, target);
      RunKeepsKeys(front, size, target, true);
      GreedyStep(Run(front, size, target, true), k, size, target);
    }
  }

  lemma GreedyStep(st: State, k: Key, size: SizeOf, target: nat)
    requires Greedy(Done(st), size, target) && st.bytes == Total(st.cur, size) && (st.cur == [] ==> st.out == [])
    ensures Greedy(Done(Step(st, k, size(k), target, true)), size, target)
  {
    var was, now := Done(st), Done(Step(st, k, size(k), target, true));
    forall i | 0 <= i < |now| - 1 ensures Greedily(now, i, size, target) {
      if i < |was| - 1 { assert Greedily(was, i, size, target); }
    }
  }
}
