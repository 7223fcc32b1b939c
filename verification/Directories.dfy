/** Directory listings below a key: what they are, and collecting them whole
    (fstree/collect.go). */
module Directories {
  import opened Base
  import opened Keys
  import opened ObjectGraph
  import opened TreeReaders

  /** The entries of a run of leaf bodies. */
  function Entries(ps: seq<Payload>): seq<Entry> {
    if ps == [] then []
    else Entries(ps[..|ps| - 1]) + (if ps[|ps| - 1].EntryList? then ps[|ps| - 1].entries else [])
  }

  lemma {:induction false} EntriesAppend(a: seq<Payload>, b: seq<Payload>)
    ensures Entries(a + b) == Entries(a) + Entries(b)
    decreases |b|
  {
    if b == [] {
      assert a + b == a;
    } else {
      EntriesAppend(a, b[..|b| - 1]);
      assert (a + b)[..|a + b| - 1] == a + b[..|b| - 1];
    }
  }

  /** The names strictly increase. */
  ghost predicate Increasing(es: seq<Entry>) {
    forall i, j :: 0 <= i < j < |es| ==> Less(es[i].name, es[j].name)
  }

  lemma IncreasingParts(a: seq<Entry>, b: seq<Entry>)
    requires Increasing(a + b)
    ensures Increasing(a) && Increasing(b)
  {
    forall i, j | 0 <= i < j < |a| ensures Less(a[i].name, a[j].name) {
      assert (a + b)[i] == a[i] && (a + b)[j] == a[j];
    }
    forall i, j | 0 <= i < j < |b| ensures Less(b[i].name, b[j].name) {
      assert (a + b)[|a| + i] == b[i] && (a + b)[|a| + j] == b[j];
    }
  }

  /** It is enough that a new name sorts after the last one. */
  lemma IncreasingSnoc(es: seq<Entry>, e: Entry)
    requires Increasing(es) && (es != [] ==> Less(es[|es| - 1].name, e.name))
    ensures Increasing(es + [e])
  {
    forall i | 0 <= i < |es| ensures Less(es[i].name, e.name) {
      if i < |es| - 1 { LessTransitive(es[i].name, es[|es| - 1].name, e.name); }
    }
  }

  // ------------------------------------------------------------- collect

  /** Appends one leaf's entries, refusing the first that does not sort after its
      predecessor. */
  method CollectLeaf(es: seq<Entry>, out: seq<Entry>) returns (r: Result<seq<Entry>>)
    requires Increasing(out)
    ensures r.Success? <==> Increasing(out + es)
    ensures r.Success? ==> r.value == out + es
  {
    var acc := out;
    for i := 0 to |es|
      invariant acc == out + es[..i] && Increasing(acc)
    {
      assert out + es == acc + es[i..];
      if |acc| > 0 && !Less(acc[|acc| - 1].name, es[i].name) {
        var n := |acc| - 1;
        assert (out + es)[n] == acc[n] && (out + es)[n + 1] == es[i];
        assert !Less((out + es)[n].name, (out + es)[n + 1].name);
        return Failure(Malformed);
      }
      IncreasingSnoc(acc, es[i]);
      acc := acc + [es[i]];
    }
    assert es[..|es|] == es;
    return Success(acc);
  }

  /** The directory's entries, appended to `out`: it succeeds exactly when every
      object below `k` is present and decodes and the names strictly increase
      throughout. */
  method CollectInto(store: Objects, k: Key, out: seq<Entry>, ghost rank: Key -> nat)
    returns (r: Result<seq<Entry>>)
    requires Acyclic(store, rank) && Increasing(out)
    ensures r.Success? <==> BodiesAt(store, rank, true, k).Success?
                            && Increasing(out + Entries(BodiesAt(store, rank, true, k).value))
    ensures r.Success? ==> r.value == out + Entries(BodiesAt(store, rank, true, k).value)
    decreases rank(k), 1
  {
    if k !in store { return Failure(Missing); }
    if Type(k) == DIR_LEAF {
      if !store[k].EntryList? { return Failure(Malformed); }
      assert Entries([store[k]]) == store[k].entries by { assert [store[k]][..0] == []; }
      r := CollectLeaf(store[k].entries, out);
      return;
    }
    if Type(k) != DIR_NODE { return Failure(Malformed); }
    var kids := ListChildren(k, store[k]);
    if kids.Failure? { return Failure(Malformed); }
    KidsRankLower(store, rank, k);
    r := CollectAll(store, kids.value, out, rank, rank(k));
  }

  /** What the children visited so far contribute. */
  ghost predicate CollectedSoFar(store: Objects, rank: Key -> nat, bound: nat, ks: seq<Key>, i: nat,
                                 done: seq<Payload>)
    requires Acyclic(store, rank) && i <= |ks| && forall j :: 0 <= j < |ks| ==> rank(ks[j]) < bound
  {
    BodiesBelow(store, rank, true, bound, ks[..i]) == Success(done)
  }

  lemma CollectStep(store: Objects, rank: Key -> nat, bound: nat, ks: seq<Key>, i: nat,
                    done: seq<Payload>, out: seq<Entry>)
    requires Acyclic(store, rank) && i < |ks| && forall j :: 0 <= j < |ks| ==> rank(ks[j]) < bound
    requires CollectedSoFar(store, rank, bound, ks, i, done)
    ensures var last := BodiesAt(store, rank, true, ks[i]);
            if last.Success? then
              && CollectedSoFar(store, rank, bound, ks, i + 1, done + last.value)
              && out + Entries(done) + Entries(last.value) == out + Entries(done + last.value)
            else BodiesBelow(store, rank, true, bound, ks).Failure?
  {
    BodiesBelowNext(store, rank, true, bound, ks, i, done);
    if BodiesAt(store, rank, true, ks[i]).Success? {
      EntriesAppend(done, BodiesAt(store, rank, true, ks[i]).value);
    }
  }

  /** Whether a run of children reads as a listing that may follow `out`. */
  ghost predicate Listable(store: Objects, rank: Key -> nat, bound: nat, ks: seq<Key>, out: seq<Entry>)
    requires Acyclic(store, rank) && forall j :: 0 <= j < |ks| ==> rank(ks[j]) < bound
  {
    var b := BodiesBelow(store, rank, true, bound, ks);
    b.Success? && Increasing(out + Entries(b.value))
  }

  lemma ListableFront(store: Objects, rank: Key -> nat, bound: nat, ks: seq<Key>, k: Key, out: seq<Entry>)
    requires Acyclic(store, rank) && rank(k) < bound && forall j :: 0 <= j < |ks| ==> rank(ks[j]) < bound
    requires Listable(store, rank, bound, ks + [k], out)
    ensures Listable(store, rank, bound, ks, out)
  {
    BodiesBelowSnoc(store, rank, true, bound, ks, k);
    IncreasingFront(out, BodiesBelow(store, rank, true, bound, ks).value, BodiesAt(store, rank, true, k).value);
  }

  lemma IncreasingFront(out: seq<Entry>, a: seq<Payload>, b: seq<Payload>)
    requires Increasing(out + Entries(a + b))
    ensures Increasing(out + Entries(a))
  {
    EntriesAppend(a, b);
    assert out + Entries(a + b) == (out + Entries(a)) + Entries(b);
    IncreasingParts(out + Entries(a), Entries(b));
  }

  /** A failure or disorder among the first children is one of the whole run. */
  lemma {:induction false} ListablePrefix(store: Objects, rank: Key -> nat, bound: nat, ks: seq<Key>, i: nat,
                                          out: seq<Entry>)
    requires Acyclic(store, rank) && i <= |ks| && forall j :: 0 <= j < |ks| ==> rank(ks[j]) < bound
    requires Listable(store, rank, bound, ks, out)
    ensures Listable(store, rank, bound, ks[..i], out)
    decreases |ks|
  {
    if i < |ks| {
      var front := ks[..|ks| - 1];
      assert ks == front + [ks[|ks| - 1]];
      ListableFront(store, rank, bound, front, ks[|ks| - 1], out);
      ListablePrefix(store, rank, bound, front, i, out);
      assert front[..i] == ks[..i];
    } else {
      assert ks[..i] == ks;
    }
  }

  method CollectAll(store: Objects, ks: seq<Key>, out: seq<Entry>, ghost rank: Key -> nat, ghost bound: nat)
    returns (r: Result<seq<Entry>>)
    requires Acyclic(store, rank) && Increasing(out)
    requires forall i :: 0 <= i < |ks| ==> rank(ks[i]) < bound
    ensures r.Success? <==> Listable(store, rank, bound, ks, out)
    ensures r.Success? ==> r.value == out + Entries(BodiesBelow(store, rank, true, bound, ks).value)
    decreases bound, 0
  {
    var acc := out;
    ghost var done: seq<Payload> := [];
    for i := 0 to |ks|
      invariant CollectedSoFar(store, rank, bound, ks, i, done)
      invariant acc == out + Entries(done) && Increasing(acc)
    {
      CollectStep(store, rank, bound, ks, i, done, out);
      if Listable(store, rank, bound, ks, out) { ListablePrefix(store, rank, bound, ks, i + 1, out); }
      var next := CollectInto(store, ks[i], acc, rank);
      if next.Failure? { return next; }
      acc := next.value;
      done := done + BodiesAt(store, rank, true, ks[i]).value;
    }
    assert ks[..|ks|] == ks;
    return Success(acc);
  }

  /** The whole listing of a directory. */
  method CollectEntries(store: Objects, k: Key, ghost rank: Key -> nat) returns (r: Result<seq<Entry>>)
    requires Acyclic(store, rank)
    ensures r.Success? <==> BodiesAt(store, rank, true, k).Success?
                            && Increasing(Entries(BodiesAt(store, rank, true, k).value))
    ensures r.Success? ==> r.value == Entries(BodiesAt(store, rank, true, k).value)
  {
    r := CollectInto(store, k, [], rank);
    if BodiesAt(store, rank, true, k).Success? {
      var es := Entries(BodiesAt(store, rank, true, k).value);
      assert [] + es == es;
    }
  }
}
