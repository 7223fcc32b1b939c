/** Bulk writes (packstore/packstore.go, packstore/parallel.go): in order from one
    iterator, or from it by concurrent writers in any order. */
module StoreWrites {
  import opened Base
  import opened Keys
  import opened Record
  import opened WirePack
  import opened PackStore

  /** The map after storing `objs` in order, present keys left alone. */
  ghost function AddAll(m: map<Key, Bytes>, objs: seq<Rec>): map<Key, Bytes> {
    if objs == [] then m
    else
      var before, o := AddAll(m, objs[..|objs| - 1]), objs[|objs| - 1];
      if o.key in before then before else before[o.key := o.data]
  }

  /** The objects an iterator yields before its first error. */
  ghost function Yielded(items: seq<Option<Rec>>): seq<Rec> {
    if items == [] || items[0].None? then [] else [items[0].value] + Yielded(items[1..])
  }

  ghost predicate NoError(items: seq<Option<Rec>>) {
    forall i :: 0 <= i < |items| ==> items[i].Some?
  }

  lemma {:induction false} YieldedAt(items: seq<Option<Rec>>, i: nat)
    requires i < |items| && NoError(items[..i])
    ensures items[i].None? ==> Yielded(items) == Yielded(items[..i])
    ensures items[i].Some? ==>
              NoError(items[..i + 1]) && Yielded(items[..i + 1]) == Yielded(items[..i]) + [items[i].value]
    ensures Yielded(items[..i]) <= Yielded(items) && |Yielded(items[..i])| == i
  {
    if i > 0 {
      assert items[0] == items[..i][0];
      assert items[1..][..i - 1] == items[..i][1..];
      var cut := items[1..][..i - 1];
      forall j | 0 <= j < |cut| ensures cut[j].Some? { assert items[..i][j + 1].Some?; }
      YieldedAt(items[1..], i - 1);
      assert items[1..][..i] == items[..i + 1][1..];
    } else {
      assert items[..1] == [items[0]];
    }
  }

  /** Everything that joined the map passed the check. */
  ghost predicate Checked(m: map<Key, Bytes>, m': map<Key, Bytes>, check: (Key, Bytes) -> bool) {
    forall k :: k in m' && k !in m ==> check(k, m'[k])
  }

  lemma CheckedStep(m: map<Key, Bytes>, m': map<Key, Bytes>, o: Rec, check: (Key, Bytes) -> bool)
    requires Checked(m, m', check) && check(o.key, o.data)
    ensures Checked(m, AddAll(m', [o]), check)
  {
    assert [o][..0] == [];
  }

  /** The check of a batch: none. */
  predicate Any(k: Key, data: Bytes) { true }

  /** An object the store takes: it passes the check and is not too long. */
  ghost predicate Storable(check: (Key, Bytes) -> bool, o: Rec) { check(o.key, o.data) && |o.data| <= MAX_PAYLOAD }

  /** Stores one object without syncing: observe, probe, encode, append. */
  method StoreOne(s: Store, o: Rec, check: (Key, Bytes) -> bool) returns (err: Option<Error>, stored: bool)
    requires s.Valid()
    modifies s
    ensures s.Valid() && s.closed == old(s.closed) && s.capturing == old(s.capturing)
    ensures s.grey == if s.capturing then old(s.grey) + {o.key} else old(s.grey)
    ensures err.None? ==> s.Map() == AddAll(old(s.Map()), [o]) && stored == (o.key !in old(s.Map()))
    ensures err.Some? ==> !stored && (s.Map() == old(s.Map()) || s.Map() == AddAll(old(s.Map()), [o]))
    ensures s.Map() != old(s.Map()) ==> check(o.key, o.data)
    ensures err.None? ==> (o.key in old(s.Map()) || Storable(check, o)) && s.failed == old(s.failed)
    ensures s.healthy && !s.closed && !old(s.failed) && err.Some? ==>
              s.failed || (o.key !in old(s.Map()) && !Storable(check, o))
  {
    hide EncodeRecord, RecordOf, SealedOk, ActiveOk, Coherent, IdsOk, StaleOk, Apart, RenamedOk, Stuck, Ordered;
    assert AddAll(s.Map(), [o]) == if o.key in s.Map() then s.Map() else s.Map()[o.key := o.data] by {
      assert [o][..0] == [];
    }
    s.Observe(o.key);
    var has := s.Has(o.key);
    if has.Failure? { return Some(has.error), false; }
    if has.value { return None, false; }
    if !check(o.key, o.data) { return Some(Rejected), false; }
    EncodeSucceeds(s.codec, o.key, o.data);
    var rec := EncodeRecord(s.codec, o.key, o.data);
    if rec.Failure? { return Some(rec.error), false; }
    err := s.AppendLocked(o.key, rec.value, false, o.data);
    return err, err.None?;
  }

  /** While the barrier is on, every key handled is grey. */
  ghost predicate Greyed(s: Store, seen: set<Key>, order: seq<Rec>)
    reads s
  {
    s.capturing ==> seen <= s.grey && forall i :: 0 <= i < |order| ==> order[i].key in s.grey
  }

  /** One writer's handling of one object, skipping a key already claimed. */
  method HandleOne(s: Store, o: Rec, seen: set<Key>, check: (Key, Bytes) -> bool,
                   ghost m: map<Key, Bytes>, ghost order: seq<Rec>)
    returns (err: Option<Error>, isNew: bool, claimed: set<Key>, ghost handled: seq<Rec>)
    requires s.Valid() && s.Map() == AddAll(m, order) && Checked(m, s.Map(), check)
    requires forall k :: k in seen ==> k in s.Map()
    requires Greyed(s, seen, order)
    modifies s
    ensures s.capturing == old(s.capturing) && (err.None? ==> Greyed(s, claimed, handled))
    ensures s.Valid() && s.closed == old(s.closed) && s.Map() == AddAll(m, handled) && Checked(m, s.Map(), check)
    ensures handled == order + [o] || (err.Some? && handled == order)
    ensures err.None? ==> (o.key in old(s.Map()) || Storable(check, o)) && s.failed == old(s.failed)
    ensures s.healthy && !s.closed && !old(s.failed) && err.Some? ==>
              s.failed || (o.key !in old(s.Map()) && !Storable(check, o))
    ensures err.None? ==>
              && |s.Map()| == |old(s.Map())| + (if isNew then 1 else 0)
              && forall k :: k in claimed ==> k in s.Map()
  {
    hide Store.Valid, Store.Map, Checked, Storable, AddAll;
    AddLast(m, order, o);
    if check(o.key, o.data) { CheckedStep(m, s.Map(), o, check); }
    handled, claimed := order + [o], seen;
    if o.key in seen { return None, false, claimed, handled; }
    claimed := seen + {o.key};
    err, isNew := StoreOne(s, o, check);
    if err.Some? && s.Map() == AddAll(m, order) { handled := order; }
  }

  /** Stores every object the iterator yields, in order, each absent key once; an
      error leaves a prefix stored. */
  method WriteBatch(s: Store, items: seq<Option<Rec>>) returns (err: Option<Error>, ghost order: seq<Rec>)
    requires s.Valid()
    modifies s
    ensures s.Valid() && s.closed == old(s.closed)
    ensures s.Map() == AddAll(old(s.Map()), order) && order <= Yielded(items)
    ensures err.None? ==> NoError(items) && order == Yielded(items)
    ensures err.None? && s.capturing ==> forall i :: 0 <= i < |order| ==> order[i].key in s.grey
    ensures s.healthy && !s.closed && !old(s.failed) ==>
              (err.None? <==> !s.failed && NoError(items) && Taken(old(s.Map()), Yielded(items), |Yielded(items)|))
  {
    hide Yielded, AddAll, Store.Valid, Store.Map, Storable, Checked, NoError, Taken;
    ghost var objs, m := Yielded(items), s.Map();
    var seen: set<Key>, appended := {}, false;
    order := [];
    RunStarts(m, objs, items, Any);
    for i := 0 to |items|
      invariant s.Valid() && s.closed == old(s.closed) && NoError(items[..i])
      invariant i <= |objs| && order == objs[..i] && s.Map() == AddAll(m, order) && Checked(m, s.Map(), Any)
      invariant (forall k :: k in seen ==> k in s.Map()) && Greyed(s, seen, order)
      invariant s.failed == old(s.failed) && Taken(m, objs, i)
    {
      Progress(items, i);
      if items[i].None? {
        NotAll(items, i);
        if appended { var _ := s.SyncActive(); }
        return Some(Rejected), order;
      }
      var isNew;
      err, isNew, seen, order := HandleOne(s, items[i].value, seen, Any, m, order);
      OneMoreTaken(m, objs, i);
      if err.Some? {
        if appended { var _ := s.SyncActive(); }
        return;
      }
      appended := appended || isNew;
    }
    WholeRun(items);
    err := s.SyncActive();
  }

  /** Each of the first `n` objects can be stored, or its key is there when it comes. */
  ghost predicate Taken(m: map<Key, Bytes>, objs: seq<Rec>, n: nat) {
    forall i :: 0 <= i < n && i < |objs| ==>
      Storable(Any, objs[i]) || objs[i].key in AddAll(m, objs[..i])
  }

  lemma OneMoreTaken(m: map<Key, Bytes>, objs: seq<Rec>, i: nat)
    requires i < |objs| && Taken(m, objs, i)
    ensures objs[..i + 1] == objs[..i] + [objs[i]]
    ensures Storable(Any, objs[i]) || objs[i].key in AddAll(m, objs[..i]) <==> Taken(m, objs, i + 1)
    ensures !Taken(m, objs, i + 1) ==> !Taken(m, objs, |objs|)
  {
    hide Storable, AddAll;
  }

  lemma Progress(items: seq<Option<Rec>>, i: nat)
    requires i < |items| && NoError(items[..i]) && i <= |Yielded(items)|
    ensures items[i].Some? ==> NoError(items[..i + 1]) && i < |Yielded(items)| && Yielded(items)[i] == items[i].value
  {
    if items[i].Some? {
      YieldedAt(items, i);
      if i + 1 < |items| { YieldedAt(items, i + 1); } else { assert items[..i + 1] == items; }
    }
  }

  lemma WholeRun(items: seq<Option<Rec>>)
    requires NoError(items[..|items|])
    ensures NoError(items) && |Yielded(items)| == |items|
  {
    assert items[..|items|] == items;
    AllYielded(items);
  }

  lemma {:induction false} AllYielded(items: seq<Option<Rec>>)
    requires NoError(items)
    ensures |Yielded(items)| == |items|
  {
    if items != [] { AllYielded(items[1..]); }
  }

  // ---------------------------------------------------- concurrent writers

  /** Some writer takes some object from the channel and handles it. */
  method HandleNext(s: Store, channel: seq<Rec>, ghost items: seq<Option<Rec>>, seen: set<Key>,
                    check: (Key, Bytes) -> bool, ghost m: map<Key, Bytes>, ghost order: seq<Rec>,
                    ghost objs: seq<Rec>, ghost next: nat)
    returns (err: Option<Error>, isNew: bool, claimed: set<Key>, rest: seq<Rec>, ghost handled: seq<Rec>)
    requires s.Valid() && s.Map() == AddAll(m, order) && Checked(m, s.Map(), check) && channel != []
    requires (forall k :: k in seen ==> k in s.Map()) && (forall o :: o in channel ==> Some(o) in items)
    requires Greyed(s, seen, order) && Accounted(order, channel, objs, next)
    modifies s
    ensures s.Valid() && s.closed == old(s.closed) && s.capturing == old(s.capturing)
    ensures s.Map() == AddAll(m, handled) && Checked(m, s.Map(), check) && multiset(handled) <= multiset(objs)
    ensures |rest| == |channel| - 1 && forall o :: o in rest ==> Some(o) in items
    ensures err.None? ==>
              && Greyed(s, claimed, handled) && s.failed == old(s.failed) && Accounted(handled, rest, objs, next)
              && |s.Map()| == |old(s.Map())| + (if isNew then 1 else 0) && forall k :: k in claimed ==> k in s.Map()
    ensures s.healthy && !s.closed && !old(s.failed) && err.Some? ==>
              s.failed || exists o :: Some(o) in items && !Storable(check, o)
  {
    hide Store.Valid, Store.Map, Checked, Storable, AddAll, Accounted;
    AccountedBound(order, channel, objs, next);
    var i: nat :| i < |channel|;
    var o := channel[i];
    assert Some(o) in items;
    Handled(order, channel, objs, next, i);
    rest := channel[..i] + channel[i + 1..];
    s.Observe(o.key);
    err, isNew, claimed, handled := HandleOne(s, o, seen, check, m, order);
  }

  /** The iterator feeds a channel that any number of writers drain, so objects are
      handled in some order of their own, each key at most once; `order` is that
      order. An error stops the run with what was handled so far stored. */
  method WriteParallel(s: Store, items: seq<Option<Rec>>, check: (Key, Bytes) -> bool)
    returns (err: Option<Error>, stored: nat, deduped: nat, ghost order: seq<Rec>)
    requires s.Valid()
    modifies s
    ensures s.Valid() && s.closed == old(s.closed)
    ensures s.Map() == AddAll(old(s.Map()), order) && multiset(order) <= multiset(Yielded(items))
    ensures err.None? ==> NoError(items) && multiset(order) == multiset(Yielded(items))
    ensures Checked(old(s.Map()), s.Map(), check)
    ensures err.None? && s.capturing ==> forall i :: 0 <= i < |order| ==> order[i].key in s.grey
    ensures err.None? ==> stored + deduped == |items| && |s.Map()| == |old(s.Map())| + stored
    ensures s.healthy && !s.closed && !old(s.failed) && NoError(items) && err.Some? ==>
              s.failed || exists o :: Some(o) in items && !Storable(check, o)
  {
    hide Checked, NoError, Storable, Yielded, AddAll, Accounted, Store.Valid, Store.Map;
    ghost var objs, m := Yielded(items), s.Map();
    var channel: seq<Rec>, next, seen: set<Key> := [], 0, {};
    stored, deduped, order := 0, 0, [];
    RunStarts(m, objs, items, check);
    while next < |items| || channel != []
      invariant s.Valid() && s.closed == old(s.closed) && next <= |items| && NoError(items[..next]) && next <= |objs|
      invariant Accounted(order, channel, objs, next)
      invariant s.Map() == AddAll(m, order) && Checked(m, s.Map(), check) && (forall k :: k in seen ==> k in s.Map())
      invariant stored + deduped + |channel| == next && |s.Map()| == |m| + stored && Greyed(s, seen, order)
      invariant s.failed == old(s.failed) && forall o :: o in channel ==> Some(o) in items
      decreases |items| - next, |channel|
    {
      AccountedBound(order, channel, objs, next);
      var deliver: bool := *;
      if channel == [] || (next < |items| && deliver) {
        Progress(items, next);
        if items[next].None? {
          NotAll(items, next);
          var _ := s.SyncActive();
          return Some(Rejected), stored, deduped, order;
        }
        Delivered(order, channel, objs, next);
        channel := channel + [items[next].value];
        next := next + 1;
      } else {
        var isNew;
        err, isNew, seen, channel, order := HandleNext(s, channel, items, seen, check, m, order, objs, next);
        if err.Some? {
          var _ := s.SyncActive();
          return;
        }
        if isNew { stored := stored + 1; } else { deduped := deduped + 1; }
      }
    }
    WholeRun(items);
    AccountedBound(order, channel, objs, next);
    err := s.SyncActive();
  }

  lemma RunStarts(m: map<Key, Bytes>, objs: seq<Rec>, items: seq<Option<Rec>>, check: (Key, Bytes) -> bool)
    ensures AddAll(m, []) == m && Checked(m, m, check) && NoError(items[..0]) && Accounted([], [], objs, 0)
    ensures Taken(m, objs, 0)
  {
    assert objs[..0] == [];
  }

  lemma NotAll(items: seq<Option<Rec>>, i: nat)
    requires i < |items| && items[i].None?
    ensures !NoError(items)
  {
  }

  /** The first `next` objects are each handled or in the channel. */
  ghost predicate Accounted(order: seq<Rec>, channel: seq<Rec>, objs: seq<Rec>, next: nat) {
    next <= |objs| && multiset(order) + multiset(channel) == multiset(objs[..next])
  }

  lemma AccountedBound(order: seq<Rec>, channel: seq<Rec>, objs: seq<Rec>, next: nat)
    requires Accounted(order, channel, objs, next)
    ensures multiset(order) <= multiset(objs)
    ensures next == |objs| && channel == [] ==> multiset(order) == multiset(objs)
  {
    assert objs == objs[..next] + objs[next..];
  }

  lemma Delivered(order: seq<Rec>, channel: seq<Rec>, objs: seq<Rec>, next: nat)
    requires Accounted(order, channel, objs, next) && next < |objs|
    ensures Accounted(order, channel + [objs[next]], objs, next + 1)
  {
    assert objs[..next + 1] == objs[..next] + [objs[next]];
  }

  lemma Handled(order: seq<Rec>, channel: seq<Rec>, objs: seq<Rec>, next: nat, i: nat)
    requires Accounted(order, channel, objs, next) && i < |channel|
    ensures Accounted(order + [channel[i]], channel[..i] + channel[i + 1..], objs, next)
    ensures multiset(order + [channel[i]]) <= multiset(objs)
  {
    assert channel == channel[..i] + [channel[i]] + channel[i + 1..];
    AccountedBound(order + [channel[i]], channel[..i] + channel[i + 1..], objs, next);
  }

  lemma AddLast(m: map<Key, Bytes>, order: seq<Rec>, o: Rec)
    ensures AddAll(m, order + [o]) == AddAll(AddAll(m, order), [o])
    ensures AddAll(AddAll(m, order), [o]) ==
            if o.key in AddAll(m, order) then AddAll(m, order) else AddAll(m, order)[o.key := o.data]
  {
    assert (order + [o])[..|order|] == order && [o][..0] == [];
  }

  /** Equal keys carry equal data. */
  ghost predicate Consistent(objs: seq<Rec>) {
    forall i, j :: 0 <= i < |objs| && 0 <= j < |objs| && objs[i].key == objs[j].key ==> objs[i].data == objs[j].data
  }

  /** What storing adds: exactly the keys of the objects, old values first. */
  lemma {:induction false} AddAllHolds(m: map<Key, Bytes>, objs: seq<Rec>, k: Key)
    requires Consistent(objs)
    ensures k in AddAll(m, objs) <==> k in m || exists i :: 0 <= i < |objs| && objs[i].key == k
    ensures k in m ==> AddAll(m, objs)[k] == m[k]
    ensures forall i :: 0 <= i < |objs| && objs[i].key == k && k !in m ==> AddAll(m, objs)[k] == objs[i].data
  {
    if objs != [] { AddAllHolds(m, objs[..|objs| - 1], k); }
  }

  /** Any order of handling the same consistent objects stores the same map. */
  lemma OrderIrrelevant(m: map<Key, Bytes>, a: seq<Rec>, b: seq<Rec>)
    requires Consistent(a) && multiset(a) == multiset(b)
    ensures AddAll(m, a) == AddAll(m, b)
  {
    forall o | o in a ensures o in b { assert multiset(b)[o] > 0; }
    forall o | o in b ensures o in a { assert multiset(a)[o] > 0; }
    SameConsistent(a, b);
    forall k: Key ensures k in AddAll(m, a) <==> k in AddAll(m, b)
                  ensures k in AddAll(m, a) ==> AddAll(m, a)[k] == AddAll(m, b)[k] {
      AddAllHolds(m, a, k);
      AddAllHolds(m, b, k);
      SameKeys(a, b, k);
    }
  }

  lemma SameConsistent(a: seq<Rec>, b: seq<Rec>)
    requires Consistent(a) && forall o :: o in b ==> o in a
    ensures Consistent(b)
  {
    forall i, j | 0 <= i < |b| && 0 <= j < |b| && b[i].key == b[j].key ensures b[i].data == b[j].data {
      assert b[i] in a && b[j] in a;
    }
  }

  lemma SameKeys(a: seq<Rec>, b: seq<Rec>, k: Key)
    requires forall o :: o in a <==> o in b
    ensures (exists i :: 0 <= i < |a| && a[i].key == k) <==> (exists i :: 0 <= i < |b| && b[i].key == k)
    ensures forall i :: 0 <= i < |a| && a[i].key == k ==> exists j :: 0 <= j < |b| && b[j] == a[i]
  {
    forall i | 0 <= i < |a| && a[i].key == k ensures exists j :: 0 <= j < |b| && b[j] == a[i] { assert a[i] in b; }
    if j :| 0 <= j < |b| && b[j].key == k { assert b[j] in a; }
  }
}
