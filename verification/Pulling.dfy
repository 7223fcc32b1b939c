/** Completing a tree from a remote (remotesync/pull.go, packstore/missing.go). The
    server's answers are given: a listing, then one response per batch asked for. */
module Pulling {
  import opened Base
  import opened Keys
  import opened Graphs
  import opened ObjectGraph
  import opened Walks
  import opened WirePack
  import opened PackStore
  import opened StoreWrites
  import opened Marking
  import opened Batching

  // ---------------------------------------------------------------- missing

  /** The keys the map lacks, in order and with repetitions. */
  function Absent(m: map<Key, Bytes>, keys: seq<Key>): seq<Key> {
    if keys == [] then []
    else
      var k := keys[|keys| - 1];
      Absent(m, keys[..|keys| - 1]) + (if k in m then [] else [k])
  }

  lemma {:induction false} AbsentJoins(m: map<Key, Bytes>, a: seq<Key>, b: seq<Key>)
    ensures Absent(m, a + b) == Absent(m, a) + Absent(m, b)
    decreases |b|
  {
    if b == [] {
      assert a + b == a;
    } else {
      AbsentJoins(m, a, b[..|b| - 1]);
      assert (a + b)[..|a + b| - 1] == a + b[..|b| - 1];
    }
  }

  /** One worker's share. */
  method MissingChunk(s: Store, chunk: seq<Key>) returns (r: Result<seq<Key>>)
    requires s.Valid()
    ensures !s.closed ==> r == Success(Absent(s.Map(), chunk))
    ensures s.closed && chunk != [] ==> r.Failure?
  {
    hide Store.Valid, Store.Map;
    var miss: seq<Key> := [];
    for i := 0 to |chunk|
      invariant miss == Absent(s.Map(), chunk[..i]) && (s.closed ==> i == 0)
    {
      assert chunk[..i + 1][..i] == chunk[..i];
      var has := s.Has(chunk[i]);
      if has.Failure? { return Failure(has.error); }
      if !has.value { miss := miss + [chunk[i]]; }
    }
    assert chunk[..|chunk|] == chunk;
    return Success(miss);
  }

  function Clamp(n: nat, len: nat): nat { if n < len then n else len }

  lemma ChunksCover(len: nat, workers: nat)
    requires workers > 0
    ensures workers * ((len + workers - 1) / workers) >= len
  {
  }

  lemma ChunkStep(keys: seq<Key>, lo: nat, hi: nat)
    requires lo <= hi <= |keys|
    ensures keys[..hi] == keys[..lo] + keys[lo..hi]
  {
  }

  /** The keys absent from the store, in order and with repetitions, whatever the
      number of workers the list is cut between. */
  method Missing(s: Store, keys: seq<Key>, procs: nat) returns (r: Result<seq<Key>>)
    requires s.Valid() && procs > 0
    ensures !s.closed ==> r == Success(Absent(s.Map(), keys))
    ensures s.closed && keys != [] ==> r.Failure?
  {
    hide Store.Valid, Store.Map;
    var most := (|keys| + 63) / 64;
    var workers := if most < procs then most else procs;
    if workers == 0 { return Success([]); }
    var chunkLen := (|keys| + workers - 1) / workers;
    ChunksCover(|keys|, workers);
    var missing: seq<Key>, lo := [], 0;
    for i := 0 to workers
      invariant lo == Clamp(i * chunkLen, |keys|)
      invariant !s.closed ==> missing == Absent(s.Map(), keys[..lo])
      invariant s.closed ==> lo == 0
    {
      var hi := Clamp((i + 1) * chunkLen, |keys|);
      assert (i + 1) * chunkLen == i * chunkLen + chunkLen;
      ChunkStep(keys, lo, hi);
      AbsentJoins(s.Map(), keys[..lo], keys[lo..hi]);
      var part := MissingChunk(s, keys[lo..hi]);
      if part.Failure? { return Failure(part.error); }
      missing := missing + part.value;
      lo := hi;
    }
    assert keys[..|keys|] == keys;
    return Success(missing);
  }

  // ---------------------------------------------------------- the local walk

  /** The keys reachable from the root through what is stored, and not stored, each
      once. On an open store it fails exactly when a reachable stored body does not
      decode. */
  method LocalMissing(s: Store, decode: Decoder, root: Key) returns (r: Result<seq<Key>>)
    requires s.Valid()
    ensures var objs := Decoded(s.Map(), decode);
            r.Success? <==> !s.closed && forall k :: Reaches(Edges(objs), root, k) && k in objs ==> k in Edges(objs)
    ensures var objs := Decoded(s.Map(), decode);
            r.Success? ==>
              && Walks.Distinct(r.value)
              && forall k :: k in r.value <==> Reaches(Edges(objs), root, k) && k !in objs
  {
    hide Edges, Next, Reaches, Universe, Decoded, Store.Valid, Store.Map, Walks.Distinct;
    ghost var objs := Decoded(s.Map(), decode);
    ghost var u := Universe(Edges(objs), root);
    var seen: set<Key>, missing: seq<Key>, frontier := {}, [], [root];
    ProbeStarts(objs, root);
    while frontier != []
      invariant seen <= u && Probing(objs, root, seen, missing, frontier) && (s.closed ==> seen == {})
      decreases u - seen, |frontier|
    {
      var next: seq<Key> := [];
      ghost var before := seen;
      assert frontier[0..] + next == frontier;
      for i := 0 to |frontier|
        invariant before <= seen <= u && (before == seen ==> next == []) && (s.closed ==> i == 0 && seen == {})
        invariant Probing(objs, root, seen, missing, frontier[i..] + next)
      {
        var k := frontier[i];
        ghost var rest := frontier[i + 1..] + next;
        assert frontier[i..] + next == [k] + rest;
        DecodedKeys(s.Map(), decode, k);
        if k in seen {
          ProbeSkips(objs, root, seen, missing, k, rest);
          continue;
        }
        var has := s.Has(k);
        if has.Failure? { return Failure(has.error); }
        if !has.value {
          ProbeMisses(objs, root, seen, missing, k, rest);
          seen, missing := seen + {k}, missing + [k];
          continue;
        }
        var kids := Kids(s, decode, k);
        if kids.Failure? {
          assert k in [k] + rest;
          return Failure(kids.error);
        }
        ProbeDescends(objs, root, seen, missing, k, rest, kids.value);
        assert rest + kids.value == frontier[i + 1..] + (next + kids.value);
        seen, next := seen + {k}, next + kids.value;
      }
      assert frontier[|frontier|..] + next == next;
      frontier := next;
    }
    ProbeEnds(objs, root, seen, missing);
    return Success(missing);
  }

  /** The children of a stored key; a leaf is not read. */
  method Kids(s: Store, decode: Decoder, k: Key) returns (r: Result<seq<Key>>)
    requires s.Valid() && !s.closed && k in s.Map()
    ensures r.Success? <==> k in Edges(Decoded(s.Map(), decode))
    ensures r.Success? ==> r.value == Next(Edges(Decoded(s.Map(), decode)), k)
  {
    hide Edges, Next, Decoded, Store.Valid, Store.Map;
    if IsLeafType(k) {
      DecodedKeys(s.Map(), decode, k);
      LeafHasNoEdges(Decoded(s.Map(), decode), k);
      return Success([]);
    }
    r := ReadNode(s, decode, k);
  }

  // ------------------------------------------------------------------- pull

  type Responses = seq<Result<seq<Rec>>>

  function Items(objs: seq<Rec>): (items: seq<Option<Rec>>)
    ensures |items| == |objs|
  {
    seq(|objs|, i requires 0 <= i < |objs| => Some(objs[i]))
  }

  /** Nothing is lost or changed, and what joins passes the object check. */
  ghost predicate GrewBy(m: map<Key, Bytes>, m': map<Key, Bytes>, check: (Key, Bytes) -> bool) {
    (forall k :: k in m ==> k in m' && m'[k] == m[k]) && Checked(m, m', check)
  }

  lemma {:induction false} AddAllKeeps(m: map<Key, Bytes>, objs: seq<Rec>)
    ensures forall k :: k in m ==> k in AddAll(m, objs) && AddAll(m, objs)[k] == m[k]
  {
    if objs != [] { AddAllKeeps(m, objs[..|objs| - 1]); }
  }

  lemma GrowsAgain(m: map<Key, Bytes>, m': map<Key, Bytes>, order: seq<Rec>, check: (Key, Bytes) -> bool)
    requires GrewBy(m, m', check) && Checked(m', AddAll(m', order), check)
    ensures GrewBy(m, AddAll(m', order), check)
  {
    AddAllKeeps(m', order);
  }

  /** Asks for the keys in batches and stores what comes back, checked. Each batch
      uses one response; with none left the connection is lost. */
  method FetchAll(s: Store, keys: seq<Key>, target: nat, size: SizeOf, check: (Key, Bytes) -> bool,
                  responses: Responses, used: nat)
    returns (err: Option<Error>, now: nat)
    requires s.Valid() && used <= |responses|
    modifies s
    ensures s.Valid() && s.closed == old(s.closed) && GrewBy(old(s.Map()), s.Map(), check)
    ensures used <= now <= |responses| && (err.None? && keys != [] ==> now > used)
  {
    hide Store.Valid, Store.Map, AddAll, Run, Concat;
    BatchesKeepKeys(keys, size, target, false);
    var batches := Batches(keys, target, size);
    now := used;
    for i := 0 to |batches|
      invariant s.Valid() && s.closed == old(s.closed) && GrewBy(old(s.Map()), s.Map(), check)
      invariant now == used + i <= |responses|
    {
      if now == |responses| { return Some(Cancelled), now; }
      var response := responses[now];
      now := now + 1;
      if response.Failure? { return Some(response.error), now; }
      ghost var m := s.Map();
      var stored, deduped;
      ghost var order;
      err, stored, deduped, order := WriteParallel(s, Items(response.value), check);
      GrowsAgain(old(s.Map()), m, order, check);
      if err.Some? { return err, now; }
    }
    return None, now;
  }

  /** Completes the tree under the root: the server's list is fetched first, then
      whatever a local walk still finds missing, until it finds nothing. Whatever
      the server listed and sent, success means the tree is complete. */
  method Pull(s: Store, decode: Decoder, root: Key, procs: nat, target: nat, size: SizeOf, check: (Key, Bytes) -> bool,
              listing: Result<seq<Key>>, responses: Responses) returns (err: Option<Error>)
    requires s.Valid() && procs > 0
    modifies s
    ensures s.Valid() && s.closed == old(s.closed) && GrewBy(old(s.Map()), s.Map(), check)
    ensures err.None? ==> Complete(Decoded(s.Map(), decode), root)
  {
    hide Store.Valid, Store.Map, Decoded, Edges, Reaches, Complete;
    if listing.Failure? { return Some(listing.error); }
    var toFetch := Missing(s, listing.value, procs);
    if toFetch.Failure? { return Some(toFetch.error); }
    var used := 0;
    while true
      invariant s.Valid() && s.closed == old(s.closed) && GrewBy(old(s.Map()), s.Map(), check)
      invariant used <= |responses| && toFetch.Success?
      decreases |responses| - used, toFetch.value == []
    {
      if toFetch.value != [] {
        err, used := FetchAll(s, toFetch.value, target, size, check, responses, used);
        if err.Some? { return; }
      }
      toFetch := LocalMissing(s, decode, root);
      if toFetch.Failure? { return Some(toFetch.error); }
      if toFetch.value == [] {
        NothingMissingIffComplete(Decoded(s.Map(), decode), root, []);
        return None;
      }
    }
  }
}
