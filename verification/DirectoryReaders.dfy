/** Name lookup (fstree/lookup.go) and paged listing (fstree/list.go) over any
    store, and what they answer on a directory the store represents. */
module DirectoryReaders {
  import opened Base
  import opened Keys
  import opened ObjectGraph
  import opened Trees
  import opened IndexBuilding
  import opened TreeReaders
  import opened Directories
  import opened DirectoryTrees

  /** `store` holds the directory `t` under `k`. */
  ghost predicate Stores(store: Objects, k: Key, t: Tree) {
    Represents(store, true, t) && t.key == k && Directory(t)
  }

  lemma StoresNode(store: Objects, k: Key, t: Tree)
    requires Stores(store, k, t) && t.Node?
    ensures Type(k) == DIR_NODE && store[k] == PairList(PairsOf(t.kids))
    ensures AllSeparated(t.kids) && Increasing(EntriesOf(t.kids))
    ensures forall i :: 0 <= i < |t.kids| ==> Parse(t.kids[i].key) == Success(t.kids[i].key)
    ensures forall i :: 0 <= i < |t.kids| ==> Stores(store, t.kids[i].key, t.kids[i])
  {
    EntriesOfOne(t);
    forall i | 0 <= i < |t.kids| ensures Stores(store, t.kids[i].key, t.kids[i]) {
      KidIsDirectory(t, i);
    }
  }

  lemma StoresLeaf(store: Objects, k: Key, t: Tree)
    requires Stores(store, k, t) && t.Leaf?
    ensures Type(k) == DIR_LEAF && store[k] == t.body && t.body.EntryList?
    ensures EntriesOf([t]) == t.body.entries && Increasing(t.body.entries)
  {
    EntriesOfOne(t);
  }

  function LookupResult(found: Option<Entry>): Result<Entry> {
    match found case Some(e) => Success(e) case None => Failure(NotFound)
  }

  method LookupLeaf(es: seq<Entry>, name: Bytes) returns (r: Result<Entry>)
    ensures r.Success? ==> r.value.name == name && r.value in es
    ensures Increasing(es) ==> r == LookupResult(FindIn(es, name))
  {
    var i := Search(|es|, (i: nat) => i >= |es| || !Less(es[i].name, name));
    if Increasing(es) { SearchInLeaf(es, i, name); }
    if i < |es| && es[i].name == name { return Success(es[i]); }
    return Failure(NotFound);
  }

  /** Follows one separator per level down to the only leaf that can hold the
      name. Whatever it returns has the name asked for; on a stored directory it
      answers exactly as a linear search of the whole listing, present or not. */
  method LookupEntry(store: Objects, dir: Key, name: Bytes, ghost rank: Key -> nat, ghost t: Tree)
    returns (r: Result<Entry>)
    requires Acyclic(store, rank)
    ensures r.Success? ==> r.value.name == name
    ensures Stores(store, dir, t) ==> r == LookupResult(FindIn(EntriesOf([t]), name))
  {
    var k := dir;
    ghost var cur := t;
    while true
      invariant Stores(store, dir, t) ==>
                  Stores(store, k, cur) && FindIn(EntriesOf([cur]), name) == FindIn(EntriesOf([t]), name)
      decreases rank(k)
    {
      if k !in store { return Failure(Missing); }
      if Type(k) == DIR_LEAF && store[k].EntryList? {
        if Stores(store, dir, t) { LeafUnderStores(store, k, cur); }
        r := LookupLeaf(store[k].entries, name);
        return;
      }
      if Type(k) != DIR_NODE || !store[k].PairList? { return Failure(Malformed); }
      var pairs := store[k].pairs;
      var i := Search(|pairs|, (i: nat) => i >= |pairs| || !Less(pairs[i].sepName, name));
      if Stores(store, dir, t) { DescentStep(store, k, cur, name, i); }
      if i == |pairs| { return Failure(NotFound); }
      var child := Parse(pairs[i].childKey);
      if child.Failure? { return Failure(Malformed); }
      assert child.value in IndexRefs(store[k]) by { assert PairRefs(pairs)[i] == child.value; }
      k := child.value;
      cur := if cur.Node? && i < |cur.kids| then cur.kids[i] else cur;
    }
  }

  lemma LeafUnderStores(store: Objects, k: Key, t: Tree)
    requires Stores(store, k, t) && Type(k) == DIR_LEAF
    ensures t.Leaf? && store[k] == t.body && EntriesOf([t]) == t.body.entries && Increasing(t.body.entries)
  {
    if t.Node? { StoresNode(store, k, t); assert false; }
    StoresLeaf(store, k, t);
  }

  /** One step of the descent keeps the answer. */
  lemma DescentStep(store: Objects, k: Key, t: Tree, name: Bytes, i: nat)
    requires Stores(store, k, t) && Type(k) == DIR_NODE && store[k].PairList? && i <= |store[k].pairs|
    requires i > 0 ==> Less(store[k].pairs[i - 1].sepName, name)
    requires i < |store[k].pairs| ==> !Less(store[k].pairs[i].sepName, name)
    ensures t.Node? && |store[k].pairs| == |t.kids|
    ensures i < |t.kids| ==>
              && Parse(store[k].pairs[i].childKey) == Success(t.kids[i].key)
              && Stores(store, t.kids[i].key, t.kids[i])
              && FindIn(EntriesOf([t.kids[i]]), name) == FindIn(EntriesOf([t]), name)
    ensures i == |t.kids| ==> FindIn(EntriesOf([t]), name) == None
  {
    if t.Leaf? { StoresLeaf(store, k, t); assert false; }
    StoresNode(store, k, t);
    EntriesOfOne(t);
    SearchDescends(t.kids, i, name);
  }

  // --------------------------------------------------------------- listing

  datatype Page = Page(entries: seq<Entry>, more: bool)

  /** A page begun with `out` and filled from the qualifying entries `q`. */
  function PageOf(out: seq<Entry>, q: seq<Entry>, limit: nat): Page
    requires |out| <= limit
  {
    Page(TopUp(out, q, limit), |out| + |q| > limit)
  }

  /** A page fills from one part and then, if there is room, from the next. */
  lemma PageSplit(out: seq<Entry>, a: seq<Entry>, b: seq<Entry>, limit: nat)
    requires |out| <= limit
    ensures |out| + |a| > limit ==> PageOf(out, a + b, limit) == PageOf(out, a, limit)
    ensures |out| + |a| <= limit ==> PageOf(out, a, limit) == Page(out + a, false)
    ensures |out| + |a| <= limit ==> PageOf(out, a + b, limit) == PageOf(out + a, b, limit)
  {
    if |out| + |a| > limit {
      assert (a + b)[..limit - |out|] == a[..limit - |out|];
    } else {
      assert a[..Min(limit - |out|, |a|)] == a;
      var n := Min(limit - |out| - |a|, |b|);
      assert (a + b)[..|a| + n] == a + b[..n];
      assert out + (a + b[..n]) == (out + a) + b[..n];
    }
  }

  /** The part of one leaf after the cursor, as far as the page has room. */
  method ListLeaf(es: seq<Entry>, cursor: Bytes, limit: nat, out: seq<Entry>) returns (page: Page)
    requires |out| <= limit
    ensures out <= page.entries && |page.entries| <= limit && (page.more ==> |page.entries| == limit)
    ensures Increasing(es) ==> page == PageOf(out, After(es, cursor), limit)
  {
    var start := Search(|es|, (i: nat) => i >= |es| || Less(cursor, es[i].name));
    if Increasing(es) { PagedLeaf(es, start, cursor); }
    page := FillPage(es[start..], limit, out);
  }

  method FillPage(q: seq<Entry>, limit: nat, out: seq<Entry>) returns (page: Page)
    requires |out| <= limit
    ensures page == PageOf(out, q, limit)
  {
    var acc, i := out, 0;
    while i < |q|
      invariant 0 <= i <= |q| && acc == out + q[..i] && |acc| <= limit
    {
      if |acc| == limit { return Page(acc, true); }
      acc := acc + [q[i]];
      i := i + 1;
    }
    assert q[..i] == q;
    return Page(acc, false);
  }

  /** Appends the qualifying entries of the subtree at `k` until the page is full.
      A page never overflows, and more entries are announced only on a full page;
      on a stored directory the page is exactly the first qualifying entries and
      `more` says whether another exists. */
  method ListInto(store: Objects, k: Key, cursor: Bytes, limit: nat, out: seq<Entry>,
                  ghost rank: Key -> nat, ghost t: Tree) returns (r: Result<Page>)
    requires Acyclic(store, rank) && |out| <= limit
    ensures r.Success? ==> out <= r.value.entries && |r.value.entries| <= limit
                           && (r.value.more ==> |r.value.entries| == limit)
    ensures Stores(store, k, t) ==> r == Success(PageOf(out, After(EntriesOf([t]), cursor), limit))
    decreases rank(k), 1, 0
  {
    if k !in store { return Failure(Missing); }
    if Type(k) == DIR_LEAF && store[k].EntryList? {
      if Stores(store, k, t) { LeafUnderStores(store, k, t); }
      var page := ListLeaf(store[k].entries, cursor, limit, out);
      return Success(page);
    }
    if Type(k) != DIR_NODE || !store[k].PairList? {
      if Stores(store, k, t) { StoredShape(store, k, t); }
      return Failure(Malformed);
    }
    if Stores(store, k, t) { NodeUnderStores(store, k, t); }
    r := ListPairs(store, k, store[k].pairs, cursor, limit, out, rank, t);
  }

  lemma StoredShape(store: Objects, k: Key, t: Tree)
    requires Stores(store, k, t)
    ensures (Type(k) == DIR_LEAF && store[k].EntryList?) || (Type(k) == DIR_NODE && store[k].PairList?)
  {
    if t.Leaf? { StoresLeaf(store, k, t); } else { StoresNode(store, k, t); }
  }

  lemma NodeUnderStores(store: Objects, k: Key, t: Tree)
    requires Stores(store, k, t) && Type(k) == DIR_NODE
    ensures t.Node?
  {
    if t.Leaf? { StoresLeaf(store, k, t); assert false; }
  }

  /** What the subtrees `from..i` of a node contribute to the page. */
  ghost function RunAfter(kids: seq<Tree>, from: nat, i: nat, cursor: Bytes): seq<Entry>
    requires from <= i <= |kids|
  {
    After(EntriesOf(kids[from..i]), cursor)
  }

  lemma AfterRuns(a: seq<Tree>, b: seq<Tree>, cursor: Bytes)
    ensures After(EntriesOf(a + b), cursor) == After(EntriesOf(a), cursor) + After(EntriesOf(b), cursor)
  {
    EntriesOfAppend(a, b);
    AfterAppend(EntriesOf(a), EntriesOf(b), cursor);
  }

  lemma RunAfterStep(kids: seq<Tree>, from: nat, i: nat, cursor: Bytes)
    requires from <= i < |kids|
    ensures RunAfter(kids, from, i + 1, cursor)
            == RunAfter(kids, from, i, cursor) + After(EntriesOf([kids[i]]), cursor)
  {
    assert kids[from..i + 1] == kids[from..i] + [kids[i]];
    AfterRuns(kids[from..i], [kids[i]], cursor);
  }

  lemma RunAfterSplit(kids: seq<Tree>, from: nat, i: nat, to: nat, cursor: Bytes)
    requires from <= i <= to <= |kids|
    ensures RunAfter(kids, from, to, cursor) == RunAfter(kids, from, i, cursor) + RunAfter(kids, i, to, cursor)
  {
    assert kids[from..to] == kids[from..i] + kids[i..to];
    AfterRuns(kids[from..i], kids[i..to], cursor);
  }

  /** The whole node is the run not skipped, split anywhere. */
  lemma RunAfterWhole(kids: seq<Tree>, from: nat, i: nat, cursor: Bytes)
    requires AllSeparated(kids) && Increasing(EntriesOf(kids)) && from <= i <= |kids|
    requires from > 0 ==> !Less(cursor, kids[from - 1].sep)
    ensures After(EntriesOf(kids), cursor)
            == RunAfter(kids, from, i, cursor) + RunAfter(kids, i, |kids|, cursor)
  {
    SkippedRun(kids, from, cursor);
    assert kids[0..|kids|] == kids && kids[0..from] == kids[..from];
    RunAfterSplit(kids, 0, from, |kids|, cursor);
    RunAfterSplit(kids, from, i, |kids|, cursor);
  }

  /** A node's page so far: the subtrees `from..i`, with those before `from`
      skipped. */
  ghost predicate Filled(store: Objects, k: Key, t: Tree, cursor: Bytes, from: nat, i: nat,
                         out: seq<Entry>, acc: seq<Entry>)
  {
    Stores(store, k, t) ==>
      && t.Node? && from <= i <= |t.kids| && (from > 0 ==> !Less(cursor, t.kids[from - 1].sep))
      && acc == out + RunAfter(t.kids, from, i, cursor)
  }

  method ListPairs(store: Objects, k: Key, pairs: seq<DirPair>, cursor: Bytes, limit: nat, out: seq<Entry>,
                   ghost rank: Key -> nat, ghost t: Tree) returns (r: Result<Page>)
    requires Acyclic(store, rank) && |out| <= limit
    requires k in store && store[k] == PairList(pairs) && (Stores(store, k, t) ==> t.Node?)
    ensures r.Success? ==> out <= r.value.entries && |r.value.entries| <= limit
                           && (r.value.more ==> |r.value.entries| == limit)
    ensures Stores(store, k, t) ==> r == Success(PageOf(out, After(EntriesOf([t]), cursor), limit))
    decreases rank(k), 0, |pairs| + 1
  {
    var start := Search(|pairs|, (i: nat) => i >= |pairs| || Less(cursor, pairs[i].sepName));
    FilledAtStart(store, k, t, pairs, cursor, start, out);
    var acc, i := out, start;
    while i < |pairs|
      invariant start <= i <= |pairs| && out <= acc && |acc| <= limit
      invariant Filled(store, k, t, cursor, start, i, out, acc)
    {
      var next := ListPair(store, k, pairs, i, cursor, limit, start, out, acc, rank, t);
      if next.Failure? || next.value.more { return next; }
      acc := next.value.entries;
      i := i + 1;
    }
    FilledAtEnd(store, k, t, pairs, cursor, start, limit, out, acc);
    return Success(Page(acc, false));
  }

  lemma FilledAtStart(store: Objects, k: Key, t: Tree, pairs: seq<DirPair>, cursor: Bytes, from: nat, out: seq<Entry>)
    requires k in store && store[k] == PairList(pairs) && (Stores(store, k, t) ==> t.Node?)
    requires from <= |pairs| && (from > 0 ==> !Less(cursor, pairs[from - 1].sepName))
    ensures Filled(store, k, t, cursor, from, from, out, out)
  {
    if Stores(store, k, t) {
      StoresNode(store, k, t);
      assert t.kids[from..from] == [];
    }
  }

  lemma FilledAtEnd(store: Objects, k: Key, t: Tree, pairs: seq<DirPair>, cursor: Bytes, from: nat, limit: nat,
                    out: seq<Entry>, acc: seq<Entry>)
    requires k in store && store[k] == PairList(pairs) && |out| <= limit && |acc| <= limit
    requires Filled(store, k, t, cursor, from, |pairs|, out, acc)
    ensures Stores(store, k, t) ==> Page(acc, false) == PageOf(out, After(EntriesOf([t]), cursor), limit)
  {
    if Stores(store, k, t) {
      StoresNode(store, k, t);
      EntriesOfOne(t);
      ListEnd(t.kids, from, cursor, limit, out);
    }
  }

  /** Descends into one child of a node. */
  method ListPair(store: Objects, k: Key, pairs: seq<DirPair>, i: nat, cursor: Bytes, limit: nat,
                  ghost from: nat, ghost out: seq<Entry>, acc: seq<Entry>, ghost rank: Key -> nat, ghost t: Tree)
    returns (r: Result<Page>)
    requires Acyclic(store, rank) && |out| <= limit && |acc| <= limit && i < |pairs|
    requires k in store && store[k] == PairList(pairs)
    requires Filled(store, k, t, cursor, from, i, out, acc)
    ensures r.Success? ==> acc <= r.value.entries && |r.value.entries| <= limit
                           && (r.value.more ==> |r.value.entries| == limit)
    ensures Stores(store, k, t) ==> r.Success?
    ensures r.Success? && !r.value.more ==> Filled(store, k, t, cursor, from, i + 1, out, r.value.entries)
    ensures Stores(store, k, t) && r.value.more ==>
              r.value == PageOf(out, After(EntriesOf([t]), cursor), limit)
    decreases rank(k), 0, |pairs|
  {
    if Stores(store, k, t) {
      StoresNode(store, k, t);
      EntriesOfOne(t);
      ListStep(t.kids, from, i, cursor, limit, out);
    }
    var child := Parse(pairs[i].childKey);
    if child.Failure? { return Failure(Malformed); }
    assert child.value in IndexRefs(store[k]) by { assert PairRefs(pairs)[i] == child.value; }
    ghost var kid := if Stores(store, k, t) then t.kids[i] else t;
    r := ListInto(store, child.value, cursor, limit, acc, rank, kid);
  }

  /** Filling from `b` after `a`, with `c` still to come. */
  lemma PageChain(out: seq<Entry>, a: seq<Entry>, b: seq<Entry>, c: seq<Entry>, limit: nat)
    requires |out + a| <= limit
    ensures var page := PageOf(out + a, b, limit);
            if page.more then page == PageOf(out, (a + b) + c, limit)
            else page.entries == out + (a + b)
  {
    PageSplit(out, a, b, limit);
    PageSplit(out, a + b, c, limit);
    PageSplit(out + a, b, [], limit);
    assert out + (a + b) == (out + a) + b;
  }

  /** One child more: its page either completes the node's page or extends it. */
  lemma ListStep(kids: seq<Tree>, from: nat, i: nat, cursor: Bytes, limit: nat, out: seq<Entry>)
    requires AllSeparated(kids) && Increasing(EntriesOf(kids)) && from <= i < |kids|
    requires from > 0 ==> !Less(cursor, kids[from - 1].sep)
    requires |out + RunAfter(kids, from, i, cursor)| <= limit
    ensures var acc := out + RunAfter(kids, from, i, cursor);
            var page := PageOf(acc, After(EntriesOf([kids[i]]), cursor), limit);
            if page.more then page == PageOf(out, After(EntriesOf(kids), cursor), limit)
            else page.entries == out + RunAfter(kids, from, i + 1, cursor)
  {
    RunAfterStep(kids, from, i, cursor);
    RunAfterWhole(kids, from, i + 1, cursor);
    PageChain(out, RunAfter(kids, from, i, cursor), After(EntriesOf([kids[i]]), cursor),
              RunAfter(kids, i + 1, |kids|, cursor), limit);
  }

  lemma ListEnd(kids: seq<Tree>, from: nat, cursor: Bytes, limit: nat, out: seq<Entry>)
    requires AllSeparated(kids) && Increasing(EntriesOf(kids)) && from <= |kids|
    requires from > 0 ==> !Less(cursor, kids[from - 1].sep)
    requires |out + RunAfter(kids, from, |kids|, cursor)| <= limit
    ensures PageOf(out, After(EntriesOf(kids), cursor), limit)
            == Page(out + RunAfter(kids, from, |kids|, cursor), false)
  {
    RunAfterWhole(kids, from, |kids|, cursor);
    var a := RunAfter(kids, from, |kids|, cursor);
    assert RunAfter(kids, |kids|, |kids|, cursor) == [] by { assert kids[|kids|..|kids|] == []; }
    assert a + [] == a;
    PageSplit(out, a, [], limit);
  }

  /** The exported paging call. */
  method ListEntries(store: Objects, dir: Key, cursor: Bytes, limit: int, ghost rank: Key -> nat, ghost t: Tree)
    returns (r: Result<Page>)
    requires Acyclic(store, rank)
    ensures limit <= 0 ==> r == Failure(Rejected)
    ensures r.Success? ==> |r.value.entries| <= limit && (r.value.more ==> |r.value.entries| == limit)
    ensures limit > 0 && Stores(store, dir, t) ==>
              var q := After(EntriesOf([t]), cursor);
              r == Success(Page(if |q| <= limit then q else q[..limit], |q| > limit))
  {
    if limit <= 0 { return Failure(Rejected); }
    r := ListInto(store, dir, cursor, limit, [], rank, t);
    if Stores(store, dir, t) {
      var q := After(EntriesOf([t]), cursor);
      assert [] + q[..Min(limit, |q|)] == q[..Min(limit, |q|)] && (|q| <= limit ==> q[..|q|] == q);
    }
  }
}
