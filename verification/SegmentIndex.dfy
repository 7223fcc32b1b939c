/** The index section of a sealed segment (packstore/footer.go): rows sorted by
    last key byte and key behind a 256-way fanout, searched by bucket. */
module SegmentIndex {
  import opened Base
  import opened Keys

  datatype IndexEntry = IndexEntry(key: Key, off: nat, slen: nat)

  /** The key's last byte: the hash tail, evenly spread. */
  function Tail(k: Key): Byte { k[31] }

  predicate KeyBefore(a: Key, b: Key) {
    Tail(a) < Tail(b) || (Tail(a) == Tail(b) && Less(a, b))
  }

  ghost predicate Sorted(es: seq<IndexEntry>) {
    forall i, j :: 0 <= i < j < |es| ==> KeyBefore(es[i].key, es[j].key)
  }

  ghost predicate DistinctKeys(es: seq<IndexEntry>) {
    forall i, j :: 0 <= i < j < |es| ==> es[i].key != es[j].key
  }

  ghost predicate SameEntries(a: seq<IndexEntry>, b: seq<IndexEntry>) {
    forall e :: e in a <==> e in b
  }

  // -------------------------------------------------------------- sorting

  lemma BeforeTotal(a: Key, b: Key)
    requires a != b
    ensures KeyBefore(a, b) || KeyBefore(b, a)
  {
    LessTotal(a, b);
  }

  lemma BeforeTransitive(a: Key, b: Key, c: Key)
    requires KeyBefore(a, b) && KeyBefore(b, c)
    ensures KeyBefore(a, c)
  {
    if Tail(a) == Tail(b) == Tail(c) { LessTransitive(a, b, c); }
  }

  lemma BeforeAsymmetric(a: Key, b: Key)
    requires KeyBefore(a, b)
    ensures !KeyBefore(b, a) && a != b
  {
    if Tail(a) == Tail(b) { LessAsymmetric(a, b); }
  }

  function Insert(e: IndexEntry, es: seq<IndexEntry>): seq<IndexEntry> {
    if es == [] || KeyBefore(e.key, es[0].key) then [e] + es else [es[0]] + Insert(e, es[1..])
  }

  /** The library sort, by insertion. */
  function Sort(es: seq<IndexEntry>): seq<IndexEntry> {
    if es == [] then [] else Insert(es[0], Sort(es[1..]))
  }

  lemma {:induction false} InsertHolds(e: IndexEntry, es: seq<IndexEntry>)
    ensures |Insert(e, es)| == |es| + 1
    ensures forall x :: x in Insert(e, es) <==> x == e || x in es
  {
    if !(es == [] || KeyBefore(e.key, es[0].key)) {
      InsertHolds(e, es[1..]);
      assert es == [es[0]] + es[1..];
    }
  }

  lemma ConsSorted(e: IndexEntry, es: seq<IndexEntry>)
    requires Sorted(es) && forall x :: x in es ==> KeyBefore(e.key, x.key)
    ensures Sorted([e] + es)
  {
    assert forall i :: 0 <= i < |es| ==> es[i] in es;
  }

  lemma {:induction false} InsertSorts(e: IndexEntry, es: seq<IndexEntry>)
    requires Sorted(es) && forall x :: x in es ==> x.key != e.key
    ensures Sorted(Insert(e, es))
  {
    if es == [] {
    } else if KeyBefore(e.key, es[0].key) {
      forall x | x in es ensures KeyBefore(e.key, x.key) {
        var i :| 0 <= i < |es| && es[i] == x;
        if i > 0 { BeforeTransitive(e.key, es[0].key, x.key); }
      }
      ConsSorted(e, es);
    } else {
      assert es[0] in es;
      BeforeTotal(e.key, es[0].key);
      InsertSorts(e, es[1..]);
      InsertHolds(e, es[1..]);
      forall x | x in Insert(e, es[1..]) ensures KeyBefore(es[0].key, x.key) {
        if x != e {
          var i :| 0 <= i < |es[1..]| && es[1..][i] == x;
          assert es[i + 1] == x;
        }
      }
      ConsSorted(es[0], Insert(e, es[1..]));
    }
  }

  /** Sorting keeps the entries and orders them. */
  lemma {:induction false} SortSorts(es: seq<IndexEntry>)
    requires DistinctKeys(es)
    ensures Sorted(Sort(es)) && SameEntries(Sort(es), es) && |Sort(es)| == |es|
  {
    if es != [] {
      SortSorts(es[1..]);
      InsertHolds(es[0], Sort(es[1..]));
      forall x | x in Sort(es[1..]) ensures x.key != es[0].key {
        assert x in es[1..];
        var i :| 0 <= i < |es[1..]| && es[1..][i] == x;
        assert es[i + 1] == x;
      }
      InsertSorts(es[0], Sort(es[1..]));
    }
  }

  /** There is only one way to sort given entries. */
  lemma {:induction false} SortedUnique(a: seq<IndexEntry>, b: seq<IndexEntry>)
    requires Sorted(a) && Sorted(b) && SameEntries(a, b)
    ensures a == b
  {
    assert a != [] ==> a[0] in b;
    assert b != [] ==> b[0] in a;
    if a != [] && b != [] {
      FirstAgrees(a, b);
      TailsAgree(a, b);
      SortedUnique(a[1..], b[1..]);
    }
  }

  lemma FirstAgrees(a: seq<IndexEntry>, b: seq<IndexEntry>)
    requires Sorted(a) && Sorted(b) && SameEntries(a, b) && a != [] && b != []
    ensures a[0] == b[0]
  {
    assert a[0] in b && b[0] in a;
    var i :| 0 <= i < |b| && b[i] == a[0];
    var j :| 0 <= j < |a| && a[j] == b[0];
    if i > 0 && j > 0 { BeforeAsymmetric(b[0].key, b[i].key); }
  }

  lemma TailsAgree(a: seq<IndexEntry>, b: seq<IndexEntry>)
    requires Sorted(a) && Sorted(b) && SameEntries(a, b) && a != [] && b != [] && a[0] == b[0]
    ensures SameEntries(a[1..], b[1..])
  {
    HeadNotInTail(a);
    HeadNotInTail(b);
    forall e ensures e in a[1..] <==> e in b[1..] {
      assert e in a <==> e == a[0] || e in a[1..] by { assert a == [a[0]] + a[1..]; }
      assert e in b <==> e == b[0] || e in b[1..] by { assert b == [b[0]] + b[1..]; }
    }
  }

  lemma HeadNotInTail(a: seq<IndexEntry>)
    requires Sorted(a) && a != []
    ensures a[0] !in a[1..]
  {
    if a[0] in a[1..] {
      var i :| 0 <= i < |a[1..]| && a[1..][i] == a[0];
      BeforeAsymmetric(a[0].key, a[i + 1].key);
    }
  }

  /** The index does not depend on the order the entries came in. */
  lemma SortIgnoresOrder(a: seq<IndexEntry>, b: seq<IndexEntry>)
    requires DistinctKeys(a) && DistinctKeys(b) && SameEntries(a, b)
    ensures Sort(a) == Sort(b)
  {
    SortSorts(a);
    SortSorts(b);
    SortedUnique(Sort(a), Sort(b));
  }

  // ---------------------------------------------------------------- bytes

  // A fanout of 256 four-byte counts (1024 bytes), then rows of 44 bytes: the
  // key, an eight-byte offset and a four-byte stored length.

  /** How many keys have a last byte of at most `b`. */
  function CountUpTo(es: seq<IndexEntry>, b: int): nat {
    if es == [] then 0
    else CountUpTo(es[..|es| - 1], b) + (if Tail(es[|es| - 1].key) <= b then 1 else 0)
  }

  function CountAt(es: seq<IndexEntry>, b: int): nat {
    if es == [] then 0
    else CountAt(es[..|es| - 1], b) + (if Tail(es[|es| - 1].key) == b then 1 else 0)
  }

  /** The first `n` cumulative counts, four bytes each. */
  function FanoutBytes(es: seq<IndexEntry>, n: nat): (s: Bytes)
    ensures |s| == 4 * n
  {
    if n == 0 then [] else FanoutBytes(es, n - 1) + BE(CountUpTo(es, n - 1), 4)
  }

  function Row(e: IndexEntry): (s: Bytes)
    ensures |s| == 44
  {
    e.key + BE(e.off, 8) + BE(e.slen, 4)
  }

  function Rows(es: seq<IndexEntry>): (s: Bytes)
    ensures |s| == 44 * |es|
  {
    if es == [] then [] else Rows(es[..|es| - 1]) + Row(es[|es| - 1])
  }

  function IndexBytes(es: seq<IndexEntry>): Bytes { FanoutBytes(es, 256) + Rows(es) }

  lemma {:induction false} CountSplits(es: seq<IndexEntry>, b: int)
    ensures CountUpTo(es, b) == CountUpTo(es, b - 1) + CountAt(es, b)
  {
    if es != [] { CountSplits(es[..|es| - 1], b); }
  }

  lemma {:induction false} CountNone(es: seq<IndexEntry>)
    ensures CountUpTo(es, -1) == 0
  {
    if es != [] { CountNone(es[..|es| - 1]); }
  }

  lemma {:induction false} CountBounds(es: seq<IndexEntry>, a: int, b: int)
    requires a <= b
    ensures CountUpTo(es, a) <= CountUpTo(es, b) <= |es|
    ensures b >= 255 ==> CountUpTo(es, b) == |es|
  {
    if es != [] { CountBounds(es[..|es| - 1], a, b); }
  }

  method CountTails(es: seq<IndexEntry>) returns (totals: seq<nat>)
    ensures |totals| == 256 && forall b :: 0 <= b < 256 ==> totals[b] == CountAt(es, b)
  {
    var counts := new nat[256](_ => 0);
    for i := 0 to |es|
      invariant forall b :: 0 <= b < 256 ==> counts[b] == CountAt(es[..i], b)
    {
      assert es[..i + 1][..i] == es[..i];
      var t := Tail(es[i].key);
      counts[t] := counts[t] + 1;
    }
    assert es[..|es|] == es;
    totals := counts[..];
  }

  /** Serializes the index: the bytes are those of the sorted entries. */
  method BuildIndexSection(entries: seq<IndexEntry>) returns (out: Bytes)
    ensures out == IndexBytes(Sort(entries))
  {
    hide BE, Row, Sort;
    var es := Sort(entries);
    var counts := CountTails(es);
    var cum := 0;
    out := [];
    CountNone(es);
    for b := 0 to 256
      invariant cum == CountUpTo(es, b - 1) && out == FanoutBytes(es, b)
    {
      CountSplits(es, b);
      cum := cum + counts[b];
      out := out + BE(cum, 4);
    }
    for i := 0 to |es|
      invariant out == FanoutBytes(es, 256) + Rows(es[..i])
    {
      assert es[..i + 1][..i] == es[..i];
      out := out + Row(es[i]);
    }
    assert es[..|es|] == es;
  }

  /** A parsed index: the fanout decoded, the rows left as bytes. */
  datatype Parsed = Parsed(fanout: seq<nat>, rows: Bytes)

  ghost predicate Monotone(fan: seq<nat>) {
    forall i, j :: 0 <= i <= j < |fan| ==> fan[i] <= fan[j]
  }

  function Field(b: Bytes, i: nat): nat
    requires 4 * i + 4 <= |b|
  {
    FromBE(b[4 * i..4 * i + 4])
  }

  /** A well-formed parse of `b`: consistent lengths, a monotone fanout that ends
      at the key count. */
  ghost predicate ParsesTo(b: Bytes, keyCount: nat, p: Parsed) {
    && keyCount < U32 && |b| == 1024 + keyCount * 44
    && |p.fanout| == 256 && (forall i :: 0 <= i < 256 ==> p.fanout[i] == Field(b, i))
    && Monotone(p.fanout) && p.fanout[255] == keyCount && p.rows == b[1024..]
  }

  lemma NotMonotone(b: Bytes, keyCount: nat, i: nat)
    requires 0 < i < 256 && |b| >= 1024 && Field(b, i) < Field(b, i - 1)
    ensures forall p :: !ParsesTo(b, keyCount, p)
  {
    forall p: Parsed ensures !ParsesTo(b, keyCount, p) {
      assert |p.fanout| == 256 && Monotone(p.fanout) ==> p.fanout[i - 1] <= p.fanout[i];
    }
  }

  /** Accepts exactly the sections that have a well-formed parse, and returns it. */
  method ParseIndexSection(b: Bytes, keyCount: nat) returns (r: Result<Parsed>)
    ensures r.Success? ==> ParsesTo(b, keyCount, r.value)
    ensures r.Failure? ==> forall p :: !ParsesTo(b, keyCount, p)
  {
    if keyCount >= U32 || |b| != 1024 + keyCount * 44 { return Failure(Malformed); }
    var fan: seq<nat> := [];
    for i := 0 to 256
      invariant |fan| == i && Monotone(fan) && forall j :: 0 <= j < i ==> fan[j] == Field(b, j)
    {
      var next := Field(b, i);
      if i > 0 && next < fan[i - 1] {
        NotMonotone(b, keyCount, i);
        return Failure(Malformed);
      }
      fan := fan + [next];
    }
    if fan[255] != keyCount { return Failure(Malformed); }
    return Success(Parsed(fan, b[1024..]));
  }

  // ------------------------------------------------------ built and parsed

  function Fan(es: seq<IndexEntry>): (f: seq<nat>)
    ensures |f| == 256 && forall b :: 0 <= b < 256 ==> f[b] == CountUpTo(es, b)
  {
    seq(256, b requires 0 <= b < 256 => CountUpTo(es, b))
  }

  /** The parse of a built index. */
  ghost predicate Indexes(p: Parsed, es: seq<IndexEntry>) {
    Sorted(es) && |es| < U32 && p == Parsed(Fan(es), Rows(es))
  }

  lemma {:induction false} FanoutField(es: seq<IndexEntry>, n: nat, b: nat)
    requires b < n
    ensures FanoutBytes(es, n)[4 * b..4 * b + 4] == BE(CountUpTo(es, b), 4)
    decreases n
  {
    if b < n - 1 {
      FanoutField(es, n - 1, b);
      assert FanoutBytes(es, n)[4 * b..4 * b + 4] == FanoutBytes(es, n - 1)[4 * b..4 * b + 4];
    }
  }

  lemma BuiltField(es: seq<IndexEntry>, i: nat)
    requires |es| < U32 && i < 256
    ensures Field(IndexBytes(es), i) == CountUpTo(es, i)
  {
    FanoutField(es, 256, i);
    assert IndexBytes(es)[4 * i..4 * i + 4] == FanoutBytes(es, 256)[4 * i..4 * i + 4];
    CountBounds(es, i, i);
    Pow256Values();
    DecodeEncodeBE(CountUpTo(es, i), 4);
  }

  lemma FanMonotone(es: seq<IndexEntry>)
    ensures Monotone(Fan(es)) && Fan(es)[255] == |es|
  {
    forall i, j | 0 <= i <= j < 256 ensures Fan(es)[i] <= Fan(es)[j] { CountBounds(es, i, j); }
    CountBounds(es, 255, 255);
  }

  /** A built index of fewer than 2^32 entries parses to its own fanout and rows. */
  lemma BuiltParses(es: seq<IndexEntry>)
    requires |es| < U32
    ensures ParsesTo(IndexBytes(es), |es|, Parsed(Fan(es), Rows(es)))
  {
    forall i | 0 <= i < 256 ensures Fan(es)[i] == Field(IndexBytes(es), i) { BuiltField(es, i); }
    FanMonotone(es);
  }

  lemma ParseUnique(b: Bytes, keyCount: nat, p: Parsed, q: Parsed)
    requires ParsesTo(b, keyCount, p) && ParsesTo(b, keyCount, q)
    ensures p == q
  {
    assert p.fanout == q.fanout;
  }

  // --------------------------------------------------------------- search

  function RowKey(rows: Bytes, i: nat): Bytes
    requires 44 * i + 44 <= |rows|
  {
    rows[44 * i..44 * i + 32]
  }

  lemma {:induction false} RowAt(es: seq<IndexEntry>, i: nat)
    requires i < |es|
    ensures 44 * i + 44 <= |Rows(es)|
    ensures Rows(es)[44 * i..44 * i + 44] == Row(es[i]) && RowKey(Rows(es), i) == es[i].key
    decreases |es|
  {
    var front := es[..|es| - 1];
    if i < |es| - 1 {
      RowAt(front, i);
      SliceOfPrefix(Rows(front), Row(es[|es| - 1]), 44 * i, 44);
    }
    KeyOfRow(Rows(es), es[i], i);
  }

  lemma SliceOfPrefix(a: Bytes, b: Bytes, at: nat, n: nat)
    requires at + n <= |a|
    ensures (a + b)[at..at + n] == a[at..at + n]
  {
  }

  lemma KeyOfRow(rows: Bytes, e: IndexEntry, i: nat)
    requires 44 * i + 44 <= |rows| && rows[44 * i..44 * i + 44] == Row(e)
    ensures RowKey(rows, i) == e.key
  {
    assert RowKey(rows, i) == rows[44 * i..44 * i + 44][..32];
  }

  /** In sorted order the keys with last byte at most `b` come first. */
  lemma {:induction false} Bucket(es: seq<IndexEntry>, b: int, i: nat)
    requires Sorted(es) && i < |es|
    ensures Tail(es[i].key) <= b <==> i < CountUpTo(es, b)
    decreases |es|
  {
    var n := |es| - 1;
    CountBounds(es[..n], b, b);
    if i < n {
      Bucket(es[..n], b, i);
    } else if Tail(es[n].key) <= b {
      AllCounted(es, b);
    }
  }

  lemma {:induction false} AllCounted(es: seq<IndexEntry>, b: int)
    requires Sorted(es) && es != [] && Tail(es[|es| - 1].key) <= b
    ensures CountUpTo(es, b) == |es|
  {
    if |es| > 1 { AllCounted(es[..|es| - 1], b); }
  }

  /** Looks a key up: its fanout bucket, then binary search on the rows. All
      accesses are in bounds for any well-formed parse, and a hit always carries
      the key; on a built index it finds exactly the keys present. */
  method SearchPos(p: Parsed, k: Key, ghost es: seq<IndexEntry>) returns (pos: nat, ok: bool)
    requires |p.fanout| == 256 && Monotone(p.fanout) && |p.rows| == 44 * p.fanout[255]
    ensures ok ==> pos < p.fanout[255] && RowKey(p.rows, pos) == k
    ensures Indexes(p, es) && ok ==> pos < |es| && es[pos].key == k
    ensures Indexes(p, es) && !ok ==> forall i :: 0 <= i < |es| ==> es[i].key != k
  {
    var b := Tail(k);
    var lo := if b > 0 then p.fanout[b - 1] else 0;
    var hi := p.fanout[b];
    assert lo <= hi <= p.fanout[255];
    var n := hi - lo;
    var i := Search(n, (i: nat) => i >= n || !Less(RowKey(p.rows, lo + i), k));
    ok := i < n && RowKey(p.rows, lo + i) == k;
    pos := if ok then lo + i else 0;
    if Indexes(p, es) { SearchExact(p, es, k, lo, n, i); }
  }

  lemma SearchExact(p: Parsed, es: seq<IndexEntry>, k: Key, lo: nat, n: nat, i: nat)
    requires Indexes(p, es) && i <= n && lo + n <= |es|
    requires lo == if Tail(k) > 0 then p.fanout[Tail(k) - 1] else 0
    requires lo + n == p.fanout[Tail(k)]
    requires i > 0 ==> Less(RowKey(p.rows, lo + i - 1), k)
    requires i < n ==> !Less(RowKey(p.rows, lo + i), k)
    ensures i < n ==> RowKey(p.rows, lo + i) == es[lo + i].key
    ensures forall j :: 0 <= j < |es| && es[j].key == k ==> i < n && j == lo + i
  {
    CountNone(es);
    if i < n { RowAt(es, lo + i); }
    if i > 0 { RowAt(es, lo + i - 1); }
    BucketSearch(es, k, lo, n, i);
  }

  lemma BucketSearch(es: seq<IndexEntry>, k: Key, lo: nat, n: nat, i: nat)
    requires Sorted(es) && lo == CountUpTo(es, Tail(k) - 1) && lo + n == CountUpTo(es, Tail(k)) <= |es| && i <= n
    requires i > 0 ==> Less(es[lo + i - 1].key, k)
    requires i < n ==> !Less(es[lo + i].key, k)
    ensures forall j :: 0 <= j < |es| && es[j].key == k ==> i < n && j == lo + i
  {
    forall j | 0 <= j < |es| && es[j].key == k ensures i < n && j == lo + i {
      Bucket(es, Tail(k), j);
      Bucket(es, Tail(k) - 1, j);
      if i > 0 { NotLessAfter(es, k, j, lo + i - 1); }
      if i < n { LessBefore(es, k, j, lo + i); }
    }
  }

  lemma NotLessAfter(es: seq<IndexEntry>, k: Key, j: nat, m: nat)
    requires Sorted(es) && j < |es| && m < |es| && es[j].key == k && m < CountUpTo(es, Tail(k))
    ensures j <= m ==> !Less(es[m].key, k)
  {
    Bucket(es, Tail(k), m);
    LessIrreflexive(k);
    if j < m { LessAsymmetric(k, es[m].key); }
  }

  lemma LessBefore(es: seq<IndexEntry>, k: Key, j: nat, m: nat)
    requires Sorted(es) && j < |es| && m < |es| && es[j].key == k && CountUpTo(es, Tail(k) - 1) <= m
    ensures m < j ==> Less(es[m].key, k)
  {
    Bucket(es, Tail(k) - 1, m);
  }

  datatype Slot = Slot(off: nat, slen: nat)

  /** The offset and length fit the row's fields. */
  ghost predicate Fit(es: seq<IndexEntry>) {
    forall i :: 0 <= i < |es| ==> es[i].off < U64 && es[i].slen < U32
  }

  /** Finds the stored offset and length of every key present and nothing else. */
  method Lookup(p: Parsed, k: Key, ghost es: seq<IndexEntry>) returns (r: Option<Slot>)
    requires |p.fanout| == 256 && Monotone(p.fanout) && |p.rows| == 44 * p.fanout[255]
    ensures Indexes(p, es) && Fit(es) && r.Some? ==> IndexEntry(k, r.value.off, r.value.slen) in es
    ensures Indexes(p, es) && r.None? ==> forall i :: 0 <= i < |es| ==> es[i].key != k
  {
    var pos, ok := SearchPos(p, k, es);
    if !ok { return None; }
    var row := p.rows[44 * pos..44 * pos + 44];
    r := Some(Slot(FromBE(row[32..40]), FromBE(row[40..44])));
    if Indexes(p, es) && Fit(es) {
      RowAt(es, pos);
      RowFields(es[pos]);
      assert es[pos] == IndexEntry(k, r.value.off, r.value.slen);
    }
  }

  lemma RowFields(e: IndexEntry)
    requires e.off < U64 && e.slen < U32
    ensures FromBE(Row(e)[32..40]) == e.off && FromBE(Row(e)[40..44]) == e.slen
  {
    assert Row(e)[32..40] == BE(e.off, 8);
    assert Row(e)[40..44] == BE(e.slen, 4);
    Pow256Values();
    DecodeEncodeBE(e.off, 8);
    DecodeEncodeBE(e.slen, 4);
  }
}
