/** The mark set (packstore/markset.go): one bit per sealed record, slotted by its
    index position, and a map for the active segment. */
module MarkSets {
  import opened Keys
  import opened Record
  import opened SegmentIndex
  import opened SegmentFooter
  import opened Segments
  import opened SealedSegments
  import opened PackStore

  // ------------------------------------------------------------------- bits

  function TestBit(w: nat, i: nat): bool {
    if i == 0 then w % 2 == 1 else TestBit(w / 2, i - 1)
  }

  function SetBit(w: nat, i: nat): nat {
    if i == 0 then (if w % 2 == 1 then w else w + 1) else 2 * SetBit(w / 2, i - 1) + w % 2
  }

  /** Setting a bit sets that bit and no other. */
  lemma {:induction false} SetThenTest(w: nat, i: nat, j: nat)
    ensures TestBit(SetBit(w, i), j) == (i == j || TestBit(w, j))
  {
    if i > 0 {
      var half := SetBit(w / 2, i - 1);
      assert (2 * half + w % 2) / 2 == half && (2 * half + w % 2) % 2 == w % 2;
      if j > 0 { SetThenTest(w / 2, i - 1, j - 1); }
    }
  }

  /** A word stays a word: bits below its width do not carry out of it. */
  lemma {:induction false} SetBitFits(w: nat, i: nat, n: nat)
    requires i < n && w < Width(n)
    ensures SetBit(w, i) < Width(n)
  {
    if i > 0 { SetBitFits(w / 2, i - 1, n - 1); }
  }

  function Width(n: nat): (p: nat)
    ensures p > 0
    ensures n > 0 ==> p % 2 == 0
  {
    if n == 0 then 1 else 2 * Width(n - 1)
  }

  lemma {:induction false} ZeroHasNoBits(i: nat)
    ensures !TestBit(0, i)
  {
    if i > 0 { ZeroHasNoBits(i - 1); }
  }

  // ----------------------------------------------------------------- finding

  ghost predicate HasKey(es: seq<IndexEntry>, k: Key) {
    exists p :: 0 <= p < |es| && es[p].key == k
  }

  /** Finds a key's index position in a sealed segment. */
  method FindPos(c: Codec, f: Filter, g: Sealed, k: Key, ghost src: Source) returns (pos: nat, ok: bool)
    requires SealedFrom(c, f, g, src)
    ensures ok ==> pos < |src.es| && src.es[pos].key == k
    ensures !ok ==> !HasKey(src.es, k)
  {
    if !f.contains(g.view.filter, FilterKey(k)) {
      NotFiltered(c, f, g, k, src);
      return 0, false;
    }
    SearchShape(c, f, g, src);
    hide SealedFrom;
    pos, ok := SearchPos(g.view.index, k, src.es);
  }

  lemma NotFiltered(c: Codec, f: Filter, g: Sealed, k: Key, src: Source)
    requires SealedFrom(c, f, g, src) && !f.contains(g.view.filter, FilterKey(k))
    ensures !HasKey(src.es, k)
  {
    hide FooterOf, Locs, Body, IndexBytes, Indexes, Fit;
    forall p | 0 <= p < |src.es| ensures src.es[p].key != k { assert src.es[p] in src.es; }
  }

  lemma SearchShape(c: Codec, f: Filter, g: Sealed, src: Source)
    requires SealedFrom(c, f, g, src)
    ensures Indexes(g.view.index, src.es)
    ensures |g.view.index.fanout| == 256 && Monotone(g.view.index.fanout)
            && |g.view.index.rows| == 44 * g.view.index.fanout[255]
  {
    hide Locs, Body, IndexBytes, Indexes, Fit, IndexOf;
  }

  // ------------------------------------------------------------------ slots

  /** The newest sealed copy of a key is in segment `i`. */
  ghost predicate Newest(srcs: seq<Source>, i: nat, k: Key) {
    i < |srcs| && HasKey(srcs[i].es, k) && forall j :: i < j < |srcs| ==> !HasKey(srcs[j].es, k)
  }

  ghost predicate InSealed(srcs: seq<Source>, k: Key) {
    exists i :: 0 <= i < |srcs| && HasKey(srcs[i].es, k)
  }

  /** One word per 64 records of each segment, every word 64 bits wide. */
  ghost predicate Sized(bits: seq<seq<nat>>, srcs: seq<Source>) {
    && |bits| == |srcs|
    && (forall i :: 0 <= i < |srcs| ==> |bits[i]| == (|srcs[i].es| + 63) / 64)
    && (forall i, w :: 0 <= i < |bits| && 0 <= w < |bits[i]| ==> bits[i][w] < Width(64))
  }

  predicate Bit(bits: seq<seq<nat>>, i: nat, p: nat)
    requires i < |bits| && p / 64 < |bits[i]|
  {
    TestBit(bits[i][p / 64], p % 64)
  }

  /** The bit of every newest sealed copy, of keys not active, tells whether the key
      is marked. */
  ghost predicate SlotsTell(bits: seq<seq<nat>>, srcs: seq<Source>, active: map<Key, bool>, marks: set<Key>)
    requires Sized(bits, srcs)
  {
    forall i, p :: 0 <= i < |srcs| && 0 <= p < |srcs[i].es| ==> Tells(bits, srcs, active, marks, i, p)
  }

  ghost predicate Tells(bits: seq<seq<nat>>, srcs: seq<Source>, active: map<Key, bool>, marks: set<Key>, i: nat, p: nat)
    requires Sized(bits, srcs) && i < |srcs| && p < |srcs[i].es|
  {
    var k := srcs[i].es[p].key;
    k !in active && Newest(srcs, i, k) ==> (Bit(bits, i, p) <==> k in marks)
  }

  ghost predicate Distinct(srcs: seq<Source>) {
    forall i :: 0 <= i < |srcs| ==> DistinctKeys(srcs[i].es)
  }

  function WithBit(bits: seq<seq<nat>>, i: nat, p: nat): seq<seq<nat>>
    requires i < |bits| && p / 64 < |bits[i]|
  {
    var words: seq<nat> := bits[i][p / 64 := SetBit(bits[i][p / 64], p % 64)];
    bits[i := words]
  }

  lemma WithBitSized(bits: seq<seq<nat>>, srcs: seq<Source>, i: nat, p: nat)
    requires Sized(bits, srcs) && i < |srcs| && p < |srcs[i].es|
    ensures Sized(WithBit(bits, i, p), srcs)
  {
    SetBitFits(bits[i][p / 64], p % 64, 64);
  }

  lemma WithBitTests(bits: seq<seq<nat>>, i: nat, p: nat, j: nat, q: nat)
    requires i < |bits| && p / 64 < |bits[i]| && j < |bits| && q / 64 < |bits[j]|
    ensures Bit(WithBit(bits, i, p), j, q) == ((i == j && p == q) || Bit(bits, j, q))
  {
    hide TestBit, SetBit;
    if i == j && p / 64 == q / 64 { SetThenTest(bits[i][p / 64], p % 64, q % 64); }
  }

  /** Setting the slot of a key marks that key and no other. */
  lemma MarkTells(bits: seq<seq<nat>>, srcs: seq<Source>, active: map<Key, bool>, marks: set<Key>, i: nat, p: nat)
    requires Sized(bits, srcs) && SlotsTell(bits, srcs, active, marks) && Distinct(srcs)
    requires i < |srcs| && p < |srcs[i].es| && srcs[i].es[p].key !in active && Newest(srcs, i, srcs[i].es[p].key)
    ensures Sized(WithBit(bits, i, p), srcs)
    ensures SlotsTell(WithBit(bits, i, p), srcs, active, marks + {srcs[i].es[p].key})
  {
    var k := srcs[i].es[p].key;
    WithBitSized(bits, srcs, i, p);
    forall j, q | 0 <= j < |srcs| && 0 <= q < |srcs[j].es|
      ensures Tells(WithBit(bits, i, p), srcs, active, marks + {k}, j, q) {
      assert Tells(bits, srcs, active, marks, j, q);
      OneSlot(srcs, i, p, j, q);
      WithBitTests(bits, i, p, j, q);
    }
  }

  lemma OneSlot(srcs: seq<Source>, i: nat, p: nat, j: nat, q: nat)
    requires Distinct(srcs) && i < |srcs| && p < |srcs[i].es| && j < |srcs| && q < |srcs[j].es|
    requires Newest(srcs, i, srcs[i].es[p].key)
    ensures Newest(srcs, j, srcs[j].es[q].key) && srcs[j].es[q].key == srcs[i].es[p].key ==> i == j && p == q
  {
  }

  class MarkSet {
    const codec: Codec
    const filter: Filter
    const segs: seq<Sealed>
    var bits: seq<seq<nat>>
    var active: map<Key, bool>
    var marked: nat

    ghost const srcs: seq<Source>
    ghost var marks: set<Key>

    ghost predicate Valid()
      reads this
    {
      && SealedOk(codec, filter, segs, srcs) && Distinct(srcs) && Sized(bits, srcs)
      && (forall k :: k in active ==> (active[k] <==> k in marks))
      && SlotsTell(bits, srcs, active, marks)
      && (forall k :: k in marks ==> Present(k))
      && marked == |marks|
    }

    /** The key is in the snapshot. */
    ghost predicate Present(k: Key)
      reads this
    {
      k in active || InSealed(srcs, k)
    }

    /** Finds a key newest first, as reads do. */
    method Locate(k: Key) returns (seg: nat, pos: nat, inActive: bool, ok: bool)
      requires Valid()
      ensures ok <==> Present(k)
      ensures inActive <==> k in active
      ensures ok && !inActive ==>
                seg < |srcs| && pos < |srcs[seg].es| && srcs[seg].es[pos].key == k && Newest(srcs, seg, k)
    {
      hide SealedFrom, Opened, Sized, SlotsTell, HasKey;
      seg, pos, inActive := 0, 0, false;
      if k in active { return 0, 0, true, true; }
      var i := |segs|;
      while i > 0
        invariant 0 <= i <= |segs| && forall j :: i <= j < |segs| ==> !HasKey(srcs[j].es, k)
      {
        i := i - 1;
        pos, ok := FindPos(codec, filter, segs[i], k, srcs[i]);
        if ok {
          KeyAt(srcs[i].es, pos);
          return i, pos, false, true;
        }
      }
      return 0, 0, false, false;
    }

    /** Holds exactly for the marked keys. */
    method Contains(k: Key) returns (r: bool)
      requires Valid()
      ensures r <==> k in marks
    {
      hide SealedOk, Newest, Distinct, TestBit;
      var seg, pos, inActive, ok := Locate(k);
      if !ok { return false; }
      if inActive { return active[k]; }
      assert Tells(bits, srcs, active, marks, seg, pos);
      return Bit(bits, seg, pos);
    }

    /** Marks a key of the snapshot, reporting whether that was the first time. */
    method Mark(k: Key) returns (newly: bool, present: bool)
      requires Valid()
      modifies this
      ensures Valid() && (forall x :: Present(x) <==> old(Present(x)))
      ensures present <==> old(Present(k))
      ensures newly <==> present && k !in old(marks)
      ensures marks == if present then old(marks) + {k} else old(marks)
    {
      hide SealedOk, Newest, Distinct, TestBit, SetBit, Width, InSealed, SlotsTell, WithBit, Sized, Bit;
      var seg, pos, inActive, ok := Locate(k);
      if !ok { return false, false; }
      if inActive {
        newly := !active[k];
        ActiveMarkTells(bits, srcs, active, marks, k);
        active := active[k := true];
      } else {
        SlotTells(bits, srcs, active, marks, seg, pos);
        newly := !Bit(bits, seg, pos);
        MarkTells(bits, srcs, active, marks, seg, pos);
        bits := WithBit(bits, seg, pos);
      }
      assert newly <==> k !in marks;
      assert |marks + {k}| == |marks| + (if newly then 1 else 0) by { if !newly { assert marks + {k} == marks; } }
      if newly { marked := marked + 1; }
      marks := marks + {k};
      return newly, true;
    }

    /** How many distinct keys are marked. */
    method Marked() returns (n: nat)
      requires Valid()
      ensures n == |marks|
    {
      return marked;
    }

    /** A snapshot of a store with nothing marked: it knows exactly the keys stored. */
    constructor (s: Store)
      requires s.Valid()
      ensures Valid() && marks == {} && forall k :: Present(k) <==> k in s.Map()
    {
      hide SealedOk, Distinct, Sized, SlotsTell, InSealed, Store.Map, ActiveOk, IdsOk, Coherent, Lawful, Sound;
      codec, filter, segs, srcs := s.codec, s.filter, s.sealed, s.srcs;
      marked, marks := 0, {};
      active := if s.active.Some? then map k | k in s.active.value.index :: false else map[];
      bits := NewBits(s.sealed);
      new;
      SnapshotOk(s, bits);
      SnapshotPresent(s);
      forall k ensures Present(k) <==> k in s.Map() { assert k in s.Map() <==> InActive(s, k) || InSealed(s.srcs, k); }
    }
  }

  /** Cleared words, enough for each segment's records. */
  function NewBits(sealed: seq<Sealed>): (bits: seq<seq<nat>>)
    ensures |bits| == |sealed|
    ensures forall i :: 0 <= i < |bits| ==> |bits[i]| == (sealed[i].view.keyCount + 63) / 64
    ensures forall i, w :: 0 <= i < |bits| && 0 <= w < |bits[i]| ==> bits[i][w] == 0
  {
    seq(|sealed|, i requires 0 <= i < |sealed| => seq((sealed[i].view.keyCount + 63) / 64, _ => 0))
  }

  lemma KeyAt(es: seq<IndexEntry>, p: nat)
    requires p < |es|
    ensures HasKey(es, es[p].key)
  {
  }

  lemma SlotTells(bits: seq<seq<nat>>, srcs: seq<Source>, active: map<Key, bool>, marks: set<Key>, i: nat, p: nat)
    requires Sized(bits, srcs) && SlotsTell(bits, srcs, active, marks) && i < |srcs| && p < |srcs[i].es|
    requires srcs[i].es[p].key !in active && Newest(srcs, i, srcs[i].es[p].key)
    ensures i < |bits| && p / 64 < |bits[i]| && (Bit(bits, i, p) <==> srcs[i].es[p].key in marks)
  {
    hide TestBit, Newest;
    assert Tells(bits, srcs, active, marks, i, p);
  }

  lemma ActiveMarkTells(bits: seq<seq<nat>>, srcs: seq<Source>, active: map<Key, bool>, marks: set<Key>, k: Key)
    requires Sized(bits, srcs) && SlotsTell(bits, srcs, active, marks) && k in active
    ensures SlotsTell(bits, srcs, active[k := true], marks + {k})
  {
    hide Newest, TestBit;
    var now, grown := active[k := true], marks + {k};
    forall i, p | 0 <= i < |srcs| && 0 <= p < |srcs[i].es| ensures Tells(bits, srcs, now, grown, i, p) {
      assert Tells(bits, srcs, active, marks, i, p);
    }
  }

  ghost predicate InActive(s: Store, k: Key)
    reads s
  {
    s.active.Some? && k in s.active.value.index
  }

  lemma SnapshotOk(s: Store, bits: seq<seq<nat>>)
    requires s.Valid()
    requires |bits| == |s.sealed|
    requires forall i :: 0 <= i < |bits| ==> |bits[i]| == (s.sealed[i].view.keyCount + 63) / 64
    requires forall i, w :: 0 <= i < |bits| && 0 <= w < |bits[i]| ==> bits[i][w] == 0
    ensures Distinct(s.srcs) && Sized(bits, s.srcs) && forall active :: SlotsTell(bits, s.srcs, active, {})
  {
    hide SealedFrom, Opened, Merge, Content, Coherent, ActiveOk, TestBit, Newest, Width;
    forall i | 0 <= i < |s.srcs| ensures DistinctKeys(s.srcs[i].es) && |s.srcs[i].es| == s.sealed[i].view.keyCount {
      IndexDistinct(s.codec, s.filter, s.sealed[i], s.srcs[i]);
    }
    forall i, p | 0 <= i < |s.srcs| && 0 <= p < |s.srcs[i].es| ensures !Bit(bits, i, p) { ZeroHasNoBits(p % 64); }
  }

  lemma IndexDistinct(c: Codec, f: Filter, g: Sealed, src: Source)
    requires SealedFrom(c, f, g, src)
    ensures DistinctKeys(src.es) && |src.es| == g.view.keyCount
  {
    hide Locs, Body, IndexBytes, IndexOf;
    SortedDistinct(src.es);
  }

  lemma SortedDistinct(es: seq<IndexEntry>)
    requires Sorted(es)
    ensures DistinctKeys(es)
  {
    forall i, j | 0 <= i < j < |es| ensures es[i].key != es[j].key { BeforeAsymmetric(es[i].key, es[j].key); }
  }

  lemma SnapshotPresent(s: Store)
    requires s.Valid()
    ensures forall k :: k in s.Map() <==> InActive(s, k) || InSealed(s.srcs, k)
  {
    hide SealedFrom, Opened, Merge, Content, Coherent, HasKey;
    forall k ensures k in s.Map() <==> InActive(s, k) || InSealed(s.srcs, k) {
      if s.active.Some? { ActiveReads(s.codec, s.active.value, s.recs, k); } else { NothingInEmpty(); }
      forall i | 0 <= i < |s.srcs| ensures HasKey(s.srcs[i].es, k) <==> k in Content(s.srcs[i].recs) {
        KeysOfIndex(s.codec, s.filter, s.sealed[i], s.srcs[i], k);
      }
      if k in Merge(s.srcs) { var i := MergeSource(s.srcs, k); }
      if i :| 0 <= i < |s.srcs| && HasKey(s.srcs[i].es, k) { MergeCovers(s.srcs, i, k); }
    }
  }

  lemma NothingInEmpty()
    ensures Content([]) == map[]
  {
  }

  lemma KeysOfIndex(c: Codec, f: Filter, g: Sealed, src: Source, k: Key)
    requires Lawful(c) && SealedFrom(c, f, g, src)
    ensures HasKey(src.es, k) <==> k in Content(src.recs)
  {
    hide FooterOf, Body, IndexBytes, Indexes, Fit, Locates;
    LocsLocate(c, src.recs, k);
    if k in Locs(c, src.recs) { assert EntryOf(k, Locs(c, src.recs)[k]) in src.es; }
    if p :| 0 <= p < |src.es| && src.es[p].key == k { assert src.es[p] in src.es; }
  }
}
