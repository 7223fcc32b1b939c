/** Directory trees with separators: what a well-separated tree lists, and why a
    search guided by separators misses nothing. */
module DirectoryTrees {
  import opened Base
  import opened ObjectGraph
  import opened Trees
  import opened TreeReaders
  import opened Directories

  /** The entries below a run of subtrees. */
  function EntriesOf(ts: seq<Tree>): seq<Entry> {
    if ts == [] then []
    else (match ts[0]
          case Leaf(_, _, b) => if b.EntryList? then b.entries else []
          case Node(_, _, kids) => EntriesOf(kids))
         + EntriesOf(ts[1..])
  }

  lemma EntriesOfOne(t: Tree)
    ensures EntriesOf([t]) ==
            match t
            case Leaf(_, _, b) => if b.EntryList? then b.entries else []
            case Node(_, _, kids) => EntriesOf(kids)
  {
    assert [t][1..] == [];
  }

  lemma {:induction false} EntriesOfAppend(a: seq<Tree>, b: seq<Tree>)
    ensures EntriesOf(a + b) == EntriesOf(a) + EntriesOf(b)
    decreases |a|
  {
    if a == [] {
      assert a + b == b;
    } else {
      assert (a + b)[1..] == a[1..] + b;
      EntriesOfAppend(a[1..], b);
    }
  }

  /** The listing of a tree is that of its leaf bodies. */
  lemma {:induction false} EntriesOfLeaves(ts: seq<Tree>)
    ensures forall i :: 0 <= i < |Leaves(ts)| ==> Leaves(ts)[i].Leaf?
    ensures EntriesOf(ts) == Entries(BodiesOf(Leaves(ts)))
  {
    LeavesAreLeaves(ts);
    if ts != [] {
      EntriesOfLeaves(ts[1..]);
      LeavesOfOne(ts[0]);
      assert ts == [ts[0]] + ts[1..];
      BodiesOfSum([ts[0]], ts[1..]);
      EntriesAppend(BodiesOf(Leaves([ts[0]])), BodiesOf(Leaves(ts[1..])));
      match ts[0]
      case Leaf(_, _, b) =>
        assert BodiesOf([ts[0]]) == [b];
        assert Entries([b]) == (if b.EntryList? then b.entries else []) by { assert [b][..0] == []; }
      case Node(_, _, kids) => EntriesOfLeaves(kids);
    }
  }

  /** Each separator is the last name below it, and no leaf is empty. */
  ghost predicate Separated(t: Tree) {
    match t
    case Leaf(_, sep, b) =>
      b.EntryList? && b.entries != [] && sep == b.entries[|b.entries| - 1].name
    case Node(_, sep, kids) =>
      && kids != [] && sep == kids[|kids| - 1].sep
      && forall i :: 0 <= i < |kids| ==> Separated(kids[i])
  }

  ghost predicate AllSeparated(ts: seq<Tree>) {
    forall i :: 0 <= i < |ts| ==> Separated(ts[i])
  }

  /** A directory: one empty leaf, or well separated, in strict name order. */
  ghost predicate Directory(t: Tree) {
    && (Separated(t) || (t.Leaf? && t.body == EntryList([])))
    && Increasing(EntriesOf([t]))
  }

  function LastName(es: seq<Entry>): Bytes
    requires es != []
  {
    es[|es| - 1].name
  }

  /** A subtree's separator is its last name, whatever its depth. */
  lemma {:induction false} SeparatorIsLast(t: Tree)
    requires Separated(t)
    ensures EntriesOf([t]) != [] && LastName(EntriesOf([t])) == t.sep
    decreases t
  {
    EntriesOfOne(t);
    if t.Node? {
      var kids := t.kids;
      var front, last := kids[..|kids| - 1], kids[|kids| - 1];
      SeparatorIsLast(last);
      EntriesOfAppend(front, [last]);
      assert kids == front + [last];
    }
  }

  lemma RunEndsAtSeparator(ts: seq<Tree>)
    requires ts != [] && AllSeparated(ts)
    ensures EntriesOf(ts) != [] && LastName(EntriesOf(ts)) == ts[|ts| - 1].sep
  {
    SeparatorIsLast(ts[|ts| - 1]);
    EntriesOfAppend(ts[..|ts| - 1], [ts[|ts| - 1]]);
    assert ts == ts[..|ts| - 1] + [ts[|ts| - 1]];
  }

  /** Nothing in an ordered listing sorts after its last name. */
  lemma NoneAfterLast(es: seq<Entry>, e: Entry)
    requires Increasing(es) && e in es
    ensures e.name == LastName(es) || Less(e.name, LastName(es))
  {
    var i :| 0 <= i < |es| && es[i] == e;
    if i < |es| - 1 { assert Less(es[i].name, es[|es| - 1].name); }
  }

  /** In an ordered listing everything in the second part sorts after everything
      in the first. */
  lemma PartsOrdered(a: seq<Entry>, b: seq<Entry>, x: Entry, y: Entry)
    requires Increasing(a + b) && x in a && y in b
    ensures Less(x.name, y.name)
  {
    var i :| 0 <= i < |a| && a[i] == x;
    var j :| 0 <= j < |b| && b[j] == y;
    assert (a + b)[i] == x && (a + b)[|a| + j] == y;
    assert Less((a + b)[i].name, (a + b)[|a| + j].name);
  }

  lemma {:induction false} KidIsDirectory(t: Tree, i: nat)
    requires Directory(t) && t.Node? && i < |t.kids|
    ensures Directory(t.kids[i])
  {
    EntriesOfOne(t);
    SplitRun(t.kids, i);
    IncreasingParts(EntriesOf(t.kids[..i]), EntriesOf([t.kids[i]]) + EntriesOf(t.kids[i + 1..]));
    IncreasingParts(EntriesOf([t.kids[i]]), EntriesOf(t.kids[i + 1..]));
  }

  lemma SplitRun(ts: seq<Tree>, i: nat)
    requires i < |ts|
    ensures EntriesOf(ts) == EntriesOf(ts[..i]) + (EntriesOf([ts[i]]) + EntriesOf(ts[i + 1..]))
  {
    hide EntriesOf;
    var tail := ts[i..];
    EntriesOfAppend(ts[..i], tail);
    assert ts[..i] + tail == ts;
    EntriesOfAppend([ts[i]], ts[i + 1..]);
    assert [ts[i]] + ts[i + 1..] == tail;
  }

  // -------------------------------------------------------- linear search

  /** The reference lookup: the first entry of that name, by linear search. */
  function FindIn(es: seq<Entry>, name: Bytes): Option<Entry> {
    if es == [] then None
    else if es[0].name == name then Some(es[0])
    else FindIn(es[1..], name)
  }

  lemma {:induction false} FindAppend(a: seq<Entry>, b: seq<Entry>, name: Bytes)
    ensures FindIn(a + b, name) == if FindIn(a, name).Some? then FindIn(a, name) else FindIn(b, name)
  {
    if a == [] {
      assert a + b == b;
    } else {
      assert (a + b)[1..] == a[1..] + b;
      FindAppend(a[1..], b, name);
    }
  }

  lemma {:induction false} FindAbsent(es: seq<Entry>, name: Bytes)
    requires forall e :: e in es ==> e.name != name
    ensures FindIn(es, name) == None
  {
    if es != [] { FindAbsent(es[1..], name); }
  }

  lemma {:induction false} FindInside(es: seq<Entry>, i: nat, name: Bytes)
    requires i < |es| && es[i].name == name && forall j :: 0 <= j < i ==> es[j].name != name
    ensures FindIn(es, name) == Some(es[i])
  {
    if i > 0 { FindInside(es[1..], i - 1, name); }
  }

  /** The subtrees before the first separator not below `name` hold only smaller
      names. */
  lemma LeftOfSeparator(ts: seq<Tree>, i: nat, name: Bytes)
    requires AllSeparated(ts) && Increasing(EntriesOf(ts)) && i <= |ts|
    requires i > 0 ==> Less(ts[i - 1].sep, name)
    ensures forall e :: e in EntriesOf(ts[..i]) ==> Less(e.name, name)
  {
    if i > 0 {
      var left := EntriesOf(ts[..i]);
      EntriesOfAppend(ts[..i], ts[i..]);
      assert ts == ts[..i] + ts[i..];
      IncreasingParts(left, EntriesOf(ts[i..]));
      RunEndsAtSeparator(ts[..i]);
      forall e | e in left ensures Less(e.name, name) {
        NoneAfterLast(left, e);
        if e.name != LastName(left) { LessTransitive(e.name, LastName(left), name); }
      }
    }
  }

  /** The subtrees after one whose separator is not below `name` hold only greater
      names. */
  lemma RightOfSeparator(ts: seq<Tree>, i: nat, name: Bytes)
    requires AllSeparated(ts) && Increasing(EntriesOf(ts)) && i < |ts|
    requires !Less(ts[i].sep, name)
    ensures forall e :: e in EntriesOf(ts[i + 1..]) ==> Less(name, e.name)
  {
    var mid, right := EntriesOf([ts[i]]), EntriesOf(ts[i + 1..]);
    SplitRun(ts, i);
    IncreasingParts(EntriesOf(ts[..i]), mid + right);
    SeparatorIsLast(ts[i]);
    forall e | e in right ensures Less(name, e.name) {
      PartsOrdered(mid, right, mid[|mid| - 1], e);
      LessTotal(ts[i].sep, name);
      if ts[i].sep != name { LessTransitive(name, ts[i].sep, e.name); }
    }
  }

  /** The separator descent: only the first subtree whose separator is not below
      `name` can hold it. */
  lemma SearchDescends(ts: seq<Tree>, i: nat, name: Bytes)
    requires AllSeparated(ts) && Increasing(EntriesOf(ts)) && i <= |ts|
    requires i > 0 ==> Less(ts[i - 1].sep, name)
    requires i < |ts| ==> !Less(ts[i].sep, name)
    ensures FindIn(EntriesOf(ts), name) == if i < |ts| then FindIn(EntriesOf([ts[i]]), name) else None
  {
    LeftOfSeparator(ts, i, name);
    var left := EntriesOf(ts[..i]);
    forall e | e in left ensures e.name != name { LessAsymmetric(e.name, name); }
    FindAbsent(left, name);
    if i == |ts| {
      assert ts[..i] == ts;
    } else {
      RightOfSeparator(ts, i, name);
      var mid, right := EntriesOf([ts[i]]), EntriesOf(ts[i + 1..]);
      forall e | e in right ensures e.name != name { LessAsymmetric(name, e.name); }
      FindAbsent(right, name);
      SplitRun(ts, i);
      FindAppend(left, mid + right, name);
      FindAppend(mid, right, name);
    }
  }

  /** The leaf search: between the last smaller and the first not smaller name. */
  lemma SearchInLeaf(es: seq<Entry>, i: nat, name: Bytes)
    requires Increasing(es) && i <= |es|
    requires i > 0 ==> Less(es[i - 1].name, name)
    requires i < |es| ==> !Less(es[i].name, name)
    ensures FindIn(es, name) == if i < |es| && es[i].name == name then Some(es[i]) else None
  {
    forall j | 0 <= j < |es| && j != i ensures es[j].name != name {
      if j < i {
        if j < i - 1 {
          assert Less(es[j].name, es[i - 1].name);
          LessTransitive(es[j].name, es[i - 1].name, name);
        }
        LessAsymmetric(es[j].name, name);
      } else {
        assert Less(es[i].name, es[j].name);
        LessTotal(es[i].name, name);
        if es[i].name != name { LessTransitive(name, es[i].name, es[j].name); }
        LessAsymmetric(es[i].name, es[j].name);
        LessIrreflexive(name);
      }
    }
    if i < |es| && es[i].name == name { FindInside(es, i, name); } else { FindAbsent(es, name); }
  }

  // --------------------------------------------------------------- paging

  /** The entries whose names sort strictly after the cursor. */
  function After(es: seq<Entry>, cursor: Bytes): seq<Entry> {
    if es == [] then []
    else (if Less(cursor, es[0].name) then [es[0]] else []) + After(es[1..], cursor)
  }

  lemma {:induction false} AfterAppend(a: seq<Entry>, b: seq<Entry>, cursor: Bytes)
    ensures After(a + b, cursor) == After(a, cursor) + After(b, cursor)
  {
    if a == [] {
      assert a + b == b;
    } else {
      var head := if Less(cursor, a[0].name) then [a[0]] else [];
      var rest := a[1..];
      assert (a + b)[1..] == rest + b && (a + b)[0] == a[0];
      AfterAppend(rest, b, cursor);
      assert head + (After(rest, cursor) + After(b, cursor)) == (head + After(rest, cursor)) + After(b, cursor);
    }
  }

  lemma {:induction false} AfterNone(es: seq<Entry>, cursor: Bytes)
    requires forall e :: e in es ==> !Less(cursor, e.name)
    ensures After(es, cursor) == []
  {
    if es != [] { AfterNone(es[1..], cursor); }
  }

  lemma {:induction false} AfterAll(es: seq<Entry>, cursor: Bytes)
    requires forall e :: e in es ==> Less(cursor, e.name)
    ensures After(es, cursor) == es
  {
    if es != [] { AfterAll(es[1..], cursor); }
  }

  /** The subtrees whose separators are not after the cursor list nothing. */
  lemma SkippedRun(ts: seq<Tree>, i: nat, cursor: Bytes)
    requires AllSeparated(ts) && Increasing(EntriesOf(ts)) && i <= |ts|
    requires i > 0 ==> !Less(cursor, ts[i - 1].sep)
    ensures After(EntriesOf(ts[..i]), cursor) == []
  {
    var left := EntriesOf(ts[..i]);
    if i > 0 {
      EntriesOfAppend(ts[..i], ts[i..]);
      assert ts == ts[..i] + ts[i..];
      IncreasingParts(left, EntriesOf(ts[i..]));
      RunEndsAtSeparator(ts[..i]);
      forall e | e in left ensures !Less(cursor, e.name) {
        NoneAfterLast(left, e);
        if Less(cursor, e.name) && e.name != LastName(left) {
          LessTransitive(cursor, e.name, LastName(left));
        }
      }
    }
    AfterNone(left, cursor);
  }

  lemma NotAfterCursor(es: seq<Entry>, i: nat, cursor: Bytes, j: nat)
    requires Increasing(es) && j < i <= |es| && !Less(cursor, es[i - 1].name)
    ensures !Less(cursor, es[j].name)
  {
    if j < i - 1 && Less(cursor, es[j].name) {
      assert Less(es[j].name, es[i - 1].name);
      LessTransitive(cursor, es[j].name, es[i - 1].name);
    }
  }

  lemma AfterCursor(es: seq<Entry>, i: nat, cursor: Bytes, j: nat)
    requires Increasing(es) && i <= j < |es| && Less(cursor, es[i].name)
    ensures Less(cursor, es[j].name)
  {
    if i < j { assert Less(es[i].name, es[j].name); LessTransitive(cursor, es[i].name, es[j].name); }
  }

  lemma LowPart(es: seq<Entry>, i: nat, cursor: Bytes)
    requires Increasing(es) && i <= |es| && (i > 0 ==> !Less(cursor, es[i - 1].name))
    ensures After(es[..i], cursor) == []
  {
    var low := es[..i];
    forall e | e in low ensures !Less(cursor, e.name) {
      var j :| 0 <= j < i && low[j] == e;
      NotAfterCursor(es, i, cursor, j);
    }
    AfterNone(low, cursor);
  }

  lemma HighPart(es: seq<Entry>, i: nat, cursor: Bytes)
    requires Increasing(es) && i <= |es| && (i < |es| ==> Less(cursor, es[i].name))
    ensures After(es[i..], cursor) == es[i..]
  {
    var high := es[i..];
    forall e | e in high ensures Less(cursor, e.name) {
      var j :| 0 <= j < |high| && high[j] == e;
      AfterCursor(es, i, cursor, i + j);
    }
    AfterAll(high, cursor);
  }

  /** In a leaf, everything from the first name after the cursor is listed. */
  lemma PagedLeaf(es: seq<Entry>, i: nat, cursor: Bytes)
    requires Increasing(es) && i <= |es|
    requires i > 0 ==> !Less(cursor, es[i - 1].name)
    requires i < |es| ==> Less(cursor, es[i].name)
    ensures After(es, cursor) == es[i..]
  {
    assert es[..i] + es[i..] == es;
    AfterAppend(es[..i], es[i..], cursor);
    assert After(es[..i], cursor) == [] by { LowPart(es, i, cursor); }
    assert After(es[i..], cursor) == es[i..] by { HighPart(es, i, cursor); }
  }

  /** `out` topped up from `q` to at most `limit` entries. */
  function TopUp(out: seq<Entry>, q: seq<Entry>, limit: nat): seq<Entry>
    requires |out| <= limit
  {
    out + q[..Min(limit - |out|, |q|)]
  }

  /** Paging by the last name seen, page after page. */
  ghost function Pages(es: seq<Entry>, cursor: Bytes, limit: nat): seq<Entry>
    requires limit > 0 && Increasing(es)
    decreases |After(es, cursor)|
  {
    var q := After(es, cursor);
    var page := TopUp([], q, limit);
    if |q| <= limit then page
    else
      NextPage(es, cursor, limit);
      page + Pages(es, LastName(page), limit)
  }

  lemma {:induction false} AfterIsSuffix(es: seq<Entry>, cursor: Bytes) returns (i: nat)
    requires Increasing(es)
    ensures i <= |es| && After(es, cursor) == es[i..]
  {
    if es == [] {
      i := 0;
    } else if Less(cursor, es[0].name) {
      HighPart(es, 0, cursor);
      assert es[0..] == es;
      i := 0;
    } else {
      i := AfterIsSuffix(es[1..], cursor);
      assert es[1..][i..] == es[i + 1..];
      i := i + 1;
    }
  }

  /** The next page starts exactly where this one stopped. */
  lemma NextPage(es: seq<Entry>, cursor: Bytes, limit: nat)
    requires limit > 0 && Increasing(es) && |After(es, cursor)| > limit
    ensures TopUp([], After(es, cursor), limit) == After(es, cursor)[..limit]
    ensures After(es, LastName(After(es, cursor)[..limit])) == After(es, cursor)[limit..]
  {
    hide After, TopUp, Increasing;
    var i := AfterIsSuffix(es, cursor);
    var q := After(es, cursor);
    TopUpEmpty(q, limit);
    Slices(es, q, i, limit);
    AfterName(es, i + limit - 1);
  }

  lemma TopUpEmpty(q: seq<Entry>, limit: nat)
    requires |q| > limit
    ensures TopUp([], q, limit) == q[..limit]
  {
  }

  lemma Slices(es: seq<Entry>, q: seq<Entry>, i: nat, limit: nat)
    requires i <= |es| && q == es[i..] && 0 < limit < |q|
    ensures LastName(q[..limit]) == es[i + limit - 1].name && q[limit..] == es[i + limit - 1 + 1..]
  {
  }

  /** What follows a name in an ordered listing. */
  lemma AfterName(es: seq<Entry>, i: nat)
    requires Increasing(es) && i < |es|
    ensures After(es, es[i].name) == es[i + 1..]
  {
    LessIrreflexive(es[i].name);
    if i + 1 < |es| { assert Less(es[i].name, es[i + 1].name); }
    PagedLeaf(es, i + 1, es[i].name);
  }

  /** Paging enumerates the listing exactly once, in order, from the cursor on. */
  lemma {:induction false} PagesEnumerate(es: seq<Entry>, cursor: Bytes, limit: nat)
    requires limit > 0 && Increasing(es)
    ensures Pages(es, cursor, limit) == After(es, cursor)
    decreases |After(es, cursor)|
  {
    var q := After(es, cursor);
    if |q| > limit {
      NextPage(es, cursor, limit);
      PagesEnumerate(es, LastName(q[..limit]), limit);
      assert q[..limit] + q[limit..] == q;
    }
  }

  /** From the empty cursor every entry is listed but one with an empty name. */
  lemma {:induction false} AllNonEmptyNames(es: seq<Entry>)
    requires Increasing(es)
    ensures After(es, []) == if es != [] && es[0].name == [] then es[1..] else es
  {
    forall j | 1 <= j < |es| ensures es[j].name != [] { assert Less(es[0].name, es[j].name); }
    if es != [] {
      if es[0].name == [] { PagedLeaf(es, 1, []); } else { PagedLeaf(es, 0, []); }
    }
  }
}
