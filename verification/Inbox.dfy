/** The inbox's counting barrier (inbox/inbox.go). Each method of the inbox but Commit
    is one file operation or one critical section under the inbox's mutex, so any
    interleaving of committers, workers and waiters is a sequence of these calls. */
module Inboxes {
  import opened Base
  import opened Keys

  type Worker = nat

  datatype Item = Item(name: Bytes, root: Key)

  /** How many queued items have the root. */
  ghost function Queued(work: seq<Item>, root: Key): nat {
    if work == [] then 0 else (if work[0].root == root then 1 else 0) + Queued(work[1..], root)
  }

  ghost function Holders(busy: map<Worker, Item>, root: Key): set<Worker> {
    set w | w in busy && busy[w].root == root
  }

  function Group(groups: map<Key, nat>, root: Key): nat {
    if root in groups then groups[root] else 0
  }

  lemma {:induction false} QueuedAppend(work: seq<Item>, x: Item, root: Key)
    ensures Queued(work + [x], root) == Queued(work, root) + (if x.root == root then 1 else 0)
  {
    if work == [] {
      assert (work + [x])[1..] == [];
    } else {
      assert (work + [x])[1..] == work[1..] + [x];
      QueuedAppend(work[1..], x, root);
    }
  }

  lemma {:induction false} QueuedSome(work: seq<Item>, i: nat)
    requires i < |work|
    ensures Queued(work, work[i].root) > 0
  {
    if i > 0 {
      QueuedSome(work[1..], i - 1);
      assert work[1..][i - 1] == work[i];
    }
  }

  /** Which enqueueing each queued item, and each item in hand, came from. */
  datatype Tickets = Tickets(queue: seq<nat>, hand: map<Worker, nat>, handled: set<nat>)

  ghost predicate Matched(ts: Tickets, work: seq<Item>, busy: map<Worker, Item>) {
    |ts.queue| == |work| && ts.hand.Keys == busy.Keys
  }

  /** The entry enqueued as the `t`th is queued, in hand, or done. */
  ghost predicate Tracked(t: nat, root: Key, ts: Tickets, work: seq<Item>, busy: map<Worker, Item>)
    requires Matched(ts, work, busy)
  {
    || t in ts.handled
    || (exists i :: 0 <= i < |work| && ts.queue[i] == t && work[i].root == root)
    || (exists w :: w in busy && ts.hand[w] == t && busy[w].root == root)
  }

  ghost predicate NoneLost(log: seq<Item>, ts: Tickets, work: seq<Item>, busy: map<Worker, Item>) {
    Matched(ts, work, busy) && forall t :: 0 <= t < |log| ==> Tracked(t, log[t].root, ts, work, busy)
  }

  ghost predicate Counts(groups: map<Key, nat>, work: seq<Item>, busy: map<Worker, Item>) {
    forall root :: Group(groups, root) == Queued(work, root) + |Holders(busy, root)|
  }

  /** The entries of a directory whose root can be read, in order. */
  ghost function Readable(entries: seq<(Bytes, Option<Key>)>): seq<Item> {
    if entries == [] then []
    else
      var last := entries[|entries| - 1];
      Readable(entries[..|entries| - 1]) + (if last.1.Some? then [Item(last.0, last.1.value)] else [])
  }

  /** The files that stay after an open: those, and the unreadable ones that are stuck. */
  ghost function Staying(entries: seq<(Bytes, Option<Key>)>, stuck: set<Bytes>): map<Bytes, Option<Key>> {
    if entries == [] then map[]
    else
      var (name, root) := entries[|entries| - 1];
      var before := Staying(entries[..|entries| - 1], stuck);
      if root.Some? || name in stuck then before[name := root] else before
  }

  /** Every readable file was counted, or its committer is about to count it. */
  ghost predicate Listed(dir: map<Bytes, Option<Key>>, log: seq<Item>, pending: multiset<Item>) {
    forall name :: name in dir && dir[name].Some? ==>
      Item(name, dir[name].value) in log || Item(name, dir[name].value) in pending
  }

  class Inbox {
    var dir: map<Bytes, Option<Key>>  // the files by name, with the root each is tagged with
    var pending: multiset<Item>     // published by committers that have not counted them yet
    var work: seq<Item>
    var groups: map<Key, nat>
    var closed: bool
    var busy: map<Worker, Item>     // what each worker has in hand
    ghost var log: seq<Item>        // every entry ever enqueued
    ghost var tickets: Tickets      // which of them are queued, in hand or handled

    /** Every root's count is its queued and in-hand entries, and no entry is lost. */
    ghost predicate Valid()
      reads this
    {
      Counts(groups, work, busy) && NoneLost(log, tickets, work, busy) && Listed(dir, log, pending)
    }

    /** Every entry of that root enqueued so far has been handled. */
    ghost predicate AllHandled(root: Key)
      reads this
    {
      forall t :: 0 <= t < |log| && log[t].root == root ==> t in tickets.handled
    }

    /** Opens on a directory: entries whose root can be read are enqueued in order, the
        others set aside, except those that cannot be moved. */
    constructor (entries: seq<(Bytes, Option<Key>)>, stuck: set<Bytes>)
      ensures Valid() && !closed && busy == map[] && tickets.handled == {} && pending == multiset{}
      ensures entries == [] ==> groups == map[]
      ensures work == log == Readable(entries)
      ensures dir == Staying(entries, stuck)
    {
      work, groups, closed, busy, log := [], map[], false, map[], [];
      tickets, dir, pending := Tickets([], map[], {}), map[], multiset{};
      new;
      NothingCounted();
      hide Counts, NoneLost;
      for i := 0 to |entries|
        invariant Valid() && !closed && busy == map[] && tickets.handled == {} && pending == multiset{}
        invariant i == 0 ==> groups == map[]
        invariant work == log == Readable(entries[..i])
        invariant dir == Staying(entries[..i], stuck)
      {
        var (name, root) := entries[i];
        assert entries[..i + 1][..i] == entries[..i];
        if root.Some? {
          Enqueue(Item(name, root.value));
          dir := dir[name := root];
        } else if name in stuck {
          dir := dir[name := root];
        }
      }
      assert entries[..|entries|] == entries;
    }

    method Enqueue(x: Item)
      requires Valid()
      modifies this`work, this`groups, this`log, this`tickets
      ensures Valid() && log == old(log) + [x] && work == old(work) + [x] && tickets.handled == old(tickets).handled
      ensures groups == old(groups)[x.root := Group(old(groups), x.root) + 1]
    {
      hide Queued, Holders, Tracked;
      EnqueueCounts(groups, work, busy, x);
      EnqueueTracks(log, tickets, work, busy, x);
      tickets := tickets.(queue := tickets.queue + [|log|]);
      groups := groups[x.root := Group(groups, x.root) + 1];
      work := work + [x];
      log := log + [x];
    }

    /** A committer looks for the body among the files, by name alone. */
    method Look(name: Bytes, root: Key) returns (found: bool)
      requires Valid()
      ensures found <==> name in dir
      ensures found && dir[name] == Some(root) ==> Item(name, root) in log || Item(name, root) in pending
    {
      found := name in dir;
    }

    /** A committer that did not find it renames its staged file into place. */
    method Publish(name: Bytes, root: Key)
      requires Valid()
      modifies this`dir, this`pending
      ensures Valid() && dir == old(dir)[name := Some(root)] && pending == old(pending) + multiset{Item(name, root)}
    {
      dir, pending := dir[name := Some(root)], pending + multiset{Item(name, root)};
    }

    /** And then counts it. */
    method Count(x: Item)
      requires Valid() && x in pending
      modifies this`work, this`groups, this`log, this`tickets, this`pending
      ensures Valid() && pending == old(pending) - multiset{x} && log == old(log) + [x]
      ensures work == old(work) + [x] && tickets.handled == old(tickets).handled
      ensures groups == old(groups)[x.root := Group(old(groups), x.root) + 1]
    {
      Enqueue(x);
      pending := pending - multiset{x};
    }

    /** A commit that nothing overlaps. The barrier of its root covers it exactly if it
        was added or had been counted under that root; a file found under another root
        leaves all counts as they were. */
    method Commit(name: Bytes, root: Key) returns (added: bool)
      requires Valid()
      modifies this`dir, this`pending, this`work, this`groups, this`log, this`tickets
      ensures Valid() && (added <==> name !in old(dir)) && pending == old(pending)
      ensures Item(name, root) in log <==> added || Item(name, root) in old(log)
      ensures added ==> log == old(log) + [Item(name, root)] && dir == old(dir)[name := Some(root)]
      ensures added ==> groups == old(groups)[root := Group(old(groups), root) + 1]
      ensures tickets.handled == old(tickets).handled
      ensures !added ==> log == old(log) && groups == old(groups) && dir == old(dir) && work == old(work)
      ensures old(pending) == multiset{} && !added && old(dir)[name] == Some(root) ==> Item(name, root) in log
    {
      var found := Look(name, root);
      if found { return false; }
      Publish(name, root);
      Count(Item(name, root));
      return true;
    }

    /** A worker takes the oldest entry. */
    method Take(w: Worker) returns (item: Option<Item>)
      requires Valid() && w !in busy
      modifies this`work, this`busy, this`tickets
      ensures Valid() && log == old(log)
      ensures item.None? <==> old(work) == []
      ensures item.Some? ==> w in busy && busy[w] == item.value == old(work)[0]
      ensures tickets.handled == old(tickets).handled
    {
      hide Queued, Holders, Tracked;
      if work == [] { return None; }
      item := Some(work[0]);
      TakeCounts(groups, work, busy, w);
      TakeTracks(log, tickets, work, busy, w);
      tickets := tickets.(queue := tickets.queue[1..], hand := tickets.hand[w := tickets.queue[0]]);
      busy := busy[w := work[0]];
      work := work[1..];
    }

    /** A worker is through with its entry's file, which goes if it can be removed or set
        aside. */
    method Process(w: Worker, gone: bool)
      requires Valid() && w in busy
      modifies this`dir
      ensures Valid() && dir == if gone then old(dir) - {busy[w].name} else old(dir)
    {
      if gone { dir := dir - {busy[w].name}; }
    }

    /** A worker has handled its entry: the count goes down, and it was never zero. */
    method Finish(w: Worker) returns (counted: bool)
      requires Valid() && w in busy
      modifies this`groups, this`busy, this`tickets
      ensures Valid() && counted && w !in busy && w in old(tickets).hand
      ensures tickets.handled == old(tickets).handled + {old(tickets).hand[w]}
    {
      hide Queued, Holders, Tracked;
      var item := busy[w];
      FinishCounts(groups, work, busy, w);
      FinishTracks(log, tickets, work, busy, w);
      var n := Group(groups, item.root);
      counted := n > 0;
      if n > 0 {
        if n == 1 { groups := groups - {item.root}; } else { groups := groups[item.root := n - 1]; }
      }
      tickets := Tickets(tickets.queue, tickets.hand - {w}, tickets.handled + {tickets.hand[w]});
      busy := busy - {w};
    }

    /** The barrier's test: a waiter goes on exactly when the count is zero, and then
        everything enqueued for the root has been handled. */
    method WaitFor(root: Key) returns (goesOn: bool)
      requires Valid()
      ensures goesOn <==> Group(groups, root) == 0
      ensures goesOn ==> AllHandled(root)
    {
      hide Queued, Holders, Tracked;
      goesOn := Group(groups, root) == 0;
      forall t | 0 <= t < |log| && log[t].root == root ensures goesOn ==> t in tickets.handled {
        TrackedCounts(t, root, tickets, work, busy);
      }
    }

    method Close()
      requires Valid()
      modifies this`closed
      ensures Valid() && closed
    {
      closed := true;
    }
  }

  /** A body queued under one root lets a commit of the same body under another succeed
      uncounted: that root's waiters go on before it is handled. */
  method OtherRootGoesOn(name: Bytes, a: Key, b: Key) returns (ib: Inbox, added: bool, goesOn: bool)
    requires a != b
    ensures fresh(ib) && ib.Valid() && !added && goesOn
    ensures ib.log == [Item(name, a)] && 0 !in ib.tickets.handled && ib.dir == map[name := Some(a)]
  {
    ib := new Inbox([], {});
    added := ib.Commit(name, a);
    added := ib.Commit(name, b);
    goesOn := ib.WaitFor(b);
  }

  /** A commit that overlaps another of the same body, between its rename and its count,
      succeeds before anything is counted: its waiters go on at once. */
  method OverlapGoesOn(name: Bytes, root: Key) returns (ib: Inbox, found: bool, goesOn: bool)
    ensures fresh(ib) && ib.Valid() && found && goesOn && ib.log == []
    ensures ib.dir == map[name := Some(root)] && Item(name, root) in ib.pending
  {
    ib := new Inbox([], {});
    ib.Publish(name, root);
    found := ib.Look(name, root);
    goesOn := ib.WaitFor(root);
  }

  lemma NothingCounted()
    ensures Counts(map[], [], map[]) && NoneLost([], Tickets([], map[], {}), [], map[])
  {
    assert forall root :: Holders(map[], root) == {};
  }

  /** What is neither queued nor in hand is done. */
  lemma TrackedCounts(t: nat, root: Key, ts: Tickets, work: seq<Item>, busy: map<Worker, Item>)
    requires Matched(ts, work, busy) && Tracked(t, root, ts, work, busy)
    ensures t in ts.handled || Queued(work, root) > 0 || |Holders(busy, root)| > 0
  {
    if i :| 0 <= i < |work| && ts.queue[i] == t && work[i].root == root { QueuedSome(work, i); }
    if w :| w in busy && ts.hand[w] == t && busy[w].root == root { assert w in Holders(busy, root); }
  }

  lemma EnqueueCounts(groups: map<Key, nat>, work: seq<Item>, busy: map<Worker, Item>, x: Item)
    requires Counts(groups, work, busy)
    ensures Counts(groups[x.root := Group(groups, x.root) + 1], work + [x], busy)
  {
    hide Queued, Holders;
    var now := groups[x.root := Group(groups, x.root) + 1];
    forall r ensures Group(now, r) == Queued(work + [x], r) + |Holders(busy, r)| { QueuedAppend(work, x, r); }
  }

  lemma EnqueueTracks(log: seq<Item>, ts: Tickets, work: seq<Item>, busy: map<Worker, Item>, x: Item)
    requires NoneLost(log, ts, work, busy)
    ensures NoneLost(log + [x], ts.(queue := ts.queue + [|log|]), work + [x], busy)
  {
    var ts', work', log' := ts.(queue := ts.queue + [|log|]), work + [x], log + [x];
    forall t | 0 <= t < |log'| ensures Tracked(t, log'[t].root, ts', work', busy) {
      if t < |log| {
        assert Tracked(t, log[t].root, ts, work, busy);
        if i :| 0 <= i < |work| && ts.queue[i] == t && work[i].root == log[t].root {
          assert work'[i] == work[i] && ts'.queue[i] == t;
        }
      } else {
        assert work'[|work|] == x && ts'.queue[|work|] == t;
      }
    }
  }

  lemma TakeCounts(groups: map<Key, nat>, work: seq<Item>, busy: map<Worker, Item>, w: Worker)
    requires Counts(groups, work, busy) && work != [] && w !in busy
    ensures Counts(groups, work[1..], busy[w := work[0]])
  {
    hide Holders;
    var now := busy[w := work[0]];
    forall root ensures Group(groups, root) == Queued(work[1..], root) + |Holders(now, root)| {
      HoldersTake(busy, w, work[0], root);
    }
  }

  lemma HoldersTake(busy: map<Worker, Item>, w: Worker, x: Item, root: Key)
    requires w !in busy
    ensures |Holders(busy[w := x], root)| == |Holders(busy, root)| + (if x.root == root then 1 else 0)
  {
    assert Holders(busy[w := x], root) == if x.root == root then Holders(busy, root) + {w} else Holders(busy, root);
  }

  lemma TakeTracks(log: seq<Item>, ts: Tickets, work: seq<Item>, busy: map<Worker, Item>, w: Worker)
    requires NoneLost(log, ts, work, busy) && work != [] && w !in busy
    ensures NoneLost(log, ts.(queue := ts.queue[1..], hand := ts.hand[w := ts.queue[0]]), work[1..], busy[w := work[0]])
  {
    var ts' := ts.(queue := ts.queue[1..], hand := ts.hand[w := ts.queue[0]]);
    var work', busy' := work[1..], busy[w := work[0]];
    forall t | 0 <= t < |log| ensures Tracked(t, log[t].root, ts', work', busy') {
      assert Tracked(t, log[t].root, ts, work, busy);
      if i :| 0 <= i < |work| && ts.queue[i] == t && work[i].root == log[t].root {
        if i == 0 { assert busy'[w] == work[0]; } else { assert work'[i - 1] == work[i] && ts'.queue[i - 1] == t; }
      } else if v :| v in busy && ts.hand[v] == t && busy[v].root == log[t].root {
        assert busy'[v] == busy[v] && ts'.hand[v] == t;
      }
    }
  }

  lemma FinishCounts(groups: map<Key, nat>, work: seq<Item>, busy: map<Worker, Item>, w: Worker)
    requires Counts(groups, work, busy) && w in busy
    ensures var root := busy[w].root; var n := Group(groups, root);
            n > 0 && Counts(if n == 1 then groups - {root} else groups[root := n - 1], work, busy - {w})
  {
    hide Queued, Holders;
    var root := busy[w].root;
    var n := Group(groups, root);
    HoldersFinish(busy, w, root);
    var now := if n == 1 then groups - {root} else groups[root := n - 1];
    forall r ensures Group(now, r) == Queued(work, r) + |Holders(busy - {w}, r)| { HoldersFinish(busy, w, r); }
  }

  lemma HoldersFinish(busy: map<Worker, Item>, w: Worker, root: Key)
    requires w in busy
    ensures |Holders(busy, root)| == |Holders(busy - {w}, root)| + (if busy[w].root == root then 1 else 0)
  {
    if busy[w].root == root {
      assert Holders(busy - {w}, root) == Holders(busy, root) - {w};
      assert w in Holders(busy, root);
    } else {
      assert Holders(busy - {w}, root) == Holders(busy, root);
    }
  }

  lemma FinishTracks(log: seq<Item>, ts: Tickets, work: seq<Item>, busy: map<Worker, Item>, w: Worker)
    requires NoneLost(log, ts, work, busy) && w in busy
    ensures NoneLost(log, Tickets(ts.queue, ts.hand - {w}, ts.handled + {ts.hand[w]}), work, busy - {w})
  {
    var ts', busy' := Tickets(ts.queue, ts.hand - {w}, ts.handled + {ts.hand[w]}), busy - {w};
    forall t | 0 <= t < |log| ensures Tracked(t, log[t].root, ts', work, busy') {
      assert Tracked(t, log[t].root, ts, work, busy);
      if v :| v in busy && ts.hand[v] == t && busy[v].root == log[t].root {
        if v != w { assert busy'[v] == busy[v] && ts'.hand[v] == t; }
      }
    }
  }
}
