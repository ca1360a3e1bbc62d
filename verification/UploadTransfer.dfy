/**
 The other half of a transfer: the host's chunk store (`upload_chunk`, `download_chunk`,
 `finalize_device_upload`) and the agent's upload loop (`_upload_local_path`), up to the whole
 way from one device over the host to another.
 */
module UploadTransfer {
  import opened Wrappers
  import opened FiniteSets
  import opened Chunks
  import opened DownloadTransfer

  const CHUNK_SIZE: nat := 8 * 1024 * 1024

  /** The host's record: the part file, the chunk rows with their hashes, the whole-file hash. */
  datatype Store = Store(part: Option<Bytes>, rows: map<nat, Hash>, sha256: Hash, failed: bool)

  const EMPTY := Store(None, map[], "", false)

  datatype Answer = Unavailable | ChunkInvalid | TooLarge | SizeMismatch | HashMismatch | Lost | Failure | Stored

  /** A chunk request; the host may die after some bytes were written and before the row is committed. */
  datatype Put = Put(chunk: nat, body: Bytes, header: Hash, death: Option<nat>)

  function ExpectedLength(g: Geometry, k: nat): nat {
    var rest := if g.size > g.Start(k) then g.size - g.Start(k) else 0;
    if g.chunkSize < rest then g.chunkSize else rest
  }

  /** What is refused before anything is written. */
  function Refusal(t: Transfer, s: Store, p: Put): Option<Answer> {
    if s.failed then Some(Unavailable)
    else if t.g.chunks > 0 && p.chunk >= t.g.chunks then Some(ChunkInvalid)
    else if |p.body| > CHUNK_SIZE then Some(TooLarge)
    else if t.g.size > 0 && |p.body| != ExpectedLength(t.g, p.chunk) then Some(SizeMismatch)
    else if p.header != "" && t.hash(p.body) != p.header then Some(HashMismatch)
    else None
  }

  /** After the row is there: the last chunk triggers the size and hash checks. */
  function Settled(t: Transfer, s: Store): (Store, Answer)
    requires s.part.Some?
  {
    if t.g.chunks == 0 || |s.rows| < t.g.chunks then (s, Stored)
    else if |s.part.value| != t.g.size || (s.sha256 != "" && t.hash(s.part.value) != s.sha256)
    then (Store(None, map[], s.sha256, true), Failure)
    else (s.(sha256 := t.hash(s.part.value)), Stored)
  }

  /** `upload_chunk`. */
  function Receive(t: Transfer, s: Store, p: Put): (Store, Answer) {
    if Refusal(t, s, p).Some? then (s, Refusal(t, s, p).value)
    else if p.death.Some? then
      (s.(part := Some(WriteAt(OrEmpty(s.part), t.g.Start(p.chunk), Take(p.body, p.death.value)))), Lost)
    else
      var part := WriteAt(OrEmpty(s.part), t.g.Start(p.chunk), p.body);
      Settled(t, s.(part := Some(part), rows := s.rows[p.chunk := t.hash(p.body)]))
  }

  /** How long a chunk is: a whole one, or what is left of the file. */
  function LeftFor(g: Geometry, k: nat): int {
    if (k + 1) * g.chunkSize <= g.size then g.chunkSize
    else if k * g.chunkSize < g.size then g.size - k * g.chunkSize else 0
  }

  /** What a request does, field by field; a stored one may complete the file, which is then checked. */
  lemma ReceiveMeans(t: Transfer, s: Store, p: Put, after: Store, answer: Answer)
    requires (after, answer) == Receive(t, s, p)
    ensures answer == Unavailable <==> s.failed
    ensures answer == ChunkInvalid <==> !s.failed && t.g.chunks > 0 && p.chunk >= t.g.chunks
    ensures p.chunk < t.g.chunks && !s.failed ==>
      && (answer == TooLarge <==> |p.body| > 8388608)
      && (answer == SizeMismatch <==>
            |p.body| <= 8388608 && t.g.size > 0 && |p.body| != LeftFor(t.g, p.chunk))
      && (answer == HashMismatch <==>
            |p.body| <= 8388608 && (t.g.size > 0 ==> |p.body| == LeftFor(t.g, p.chunk))
            && p.header != "" && t.hash(p.body) != p.header)
    ensures answer in {Unavailable, ChunkInvalid, TooLarge, SizeMismatch, HashMismatch} ==> after == s
    ensures answer == Lost ==>
      p.death.Some? && after.rows == s.rows
      && after.part == Some(WriteAt(OrEmpty(s.part), p.chunk * t.g.chunkSize, Take(p.body, p.death.value)))
    ensures answer in {Stored, Failure} ==>
      var part := WriteAt(OrEmpty(s.part), p.chunk * t.g.chunkSize, p.body);
      var rows := s.rows[p.chunk := t.hash(p.body)];
      var complete := t.g.chunks > 0 && |rows| >= t.g.chunks;
      var right := |part| == t.g.size && (s.sha256 == "" || s.sha256 == t.hash(part));
      && (answer == Failure <==> complete && !right)
      && after == (if complete && !right then Store(None, map[], s.sha256, true)
                   else Store(Some(part), rows, if complete then t.hash(part) else s.sha256, false))
  {
  }

  function AfterPuts(t: Transfer, s: Store, puts: seq<Put>): Store {
    if puts == [] then s
    else Receive(t, AfterPuts(t, s, puts[..|puts| - 1]), puts[|puts| - 1]).0
  }

  // ---------------------------------------------------------------- what the store holds

  /** The setting: the source does not change, and is described by the geometry and the hash. */
  ghost predicate Describes(t: Transfer, src: Bytes) {
    t.g.Valid() && |src| == t.g.size && t.g.chunkSize <= CHUNK_SIZE
  }

  ghost predicate Covered(g: Geometry, src: Bytes, part: Bytes, k: nat)
    requires g.size == |src|
  {
    g.End(k) <= |part| && forall i: nat :: Holds(g, k, i) ==> part[i] == src[i]
  }

  /** Every row is backed by the source's bytes on disk; nothing lies past the source's end. */
  ghost predicate Holding(t: Transfer, src: Bytes, s: Store)
    requires Describes(t, src)
  {
    && !s.failed && (s.sha256 == "" || s.sha256 == t.hash(src))
    && |OrEmpty(s.part)| <= t.g.size
    && forall k: nat :: k in s.rows ==> k < t.g.chunks && s.part.Some? && Covered(t.g, src, s.part.value, k)
  }

  /** A request made from the source, whichever chunk and however it ends. */
  ghost predicate FromSource(t: Transfer, src: Bytes, p: Put)
    requires Describes(t, src)
  {
    p.chunk < t.g.chunks && p.body == Chunk(t.g, src, p.chunk) && (p.header == "" || p.header == t.hash(p.body))
  }

  lemma SourceIsNotRefused(t: Transfer, src: Bytes, s: Store, p: Put)
    requires Describes(t, src) && FromSource(t, src, p) && !s.failed
    ensures Refusal(t, s, p).None?
  {
    RangeFacts(t.g, p.chunk);
  }

  /** Writing (part of) a chunk of the source over a part file damages no covered chunk. */
  lemma WriteKeepsCovered(g: Geometry, src: Bytes, part: Bytes, k: nat, n: nat, q: nat)
    requires g.Valid() && |src| == g.size && k < g.chunks && q < g.chunks && |part| <= g.size
    requires Covered(g, src, part, q)
    ensures Covered(g, src, WriteAt(part, g.Start(k), Take(Chunk(g, src, k), n)), q)
  {
    RangeFacts(g, k);
    RangeFacts(g, q);
    var data := Take(Chunk(g, src, k), n);
    var r := WriteAt(part, g.Start(k), data);
    forall i: nat | Holds(g, q, i) ensures r[i] == src[i] {
      if g.Start(k) <= i < g.Start(k) + |data| {
        assert data[i - g.Start(k)] == src[i];
      } else {
        assert r[i] == part[i];
      }
    }
  }

  lemma WriteCovers(g: Geometry, src: Bytes, part: Bytes, k: nat)
    requires g.Valid() && |src| == g.size && k < g.chunks
    ensures Covered(g, src, WriteAt(part, g.Start(k), Chunk(g, src, k)), k)
  {
    RangeFacts(g, k);
  }

  lemma WriteStaysWithin(g: Geometry, src: Bytes, part: Bytes, k: nat, n: nat)
    requires g.Valid() && |src| == g.size && k < g.chunks && |part| <= g.size
    ensures |WriteAt(part, g.Start(k), Take(Chunk(g, src, k), n))| <= g.size
  {
    RangeFacts(g, k);
  }

  // ---------------------------------------------------------------- all rows: the part file is the source

  lemma CoveredEverywhere(g: Geometry, src: Bytes, part: Bytes)
    requires g.Valid() && |src| == g.size && g.chunks > 0 && |part| <= g.size
    requires forall k: nat :: k < g.chunks ==> Covered(g, src, part, k)
    ensures part == src
  {
    RangeFacts(g, g.chunks - 1);
    assert Covered(g, src, part, g.chunks - 1);
    forall i | 0 <= i < g.size ensures part[i] == src[i] {
      RangesPartition(g, i);
      var k: nat :| Holds(g, k, i);
      assert Covered(g, src, part, k);
    }
  }

  /** As many rows as chunks: then the part file is exactly the source. */
  lemma FullStoreIsTheSource(t: Transfer, src: Bytes, s: Store)
    requires Describes(t, src) && Holding(t, src, s) && t.g.chunks > 0 && |s.rows| >= t.g.chunks
    ensures s.part == Some(src)
  {
    assert |s.rows.Keys| == |s.rows|;
    AllBelow(s.rows.Keys, t.g.chunks);
    assert 0 in s.rows.Keys;
    CoveredEverywhere(t.g, src, s.part.value);
  }

  /** Any request made from the source keeps the store; one that is answered adds its row. */
  lemma ReceiveKeepsHolding(t: Transfer, src: Bytes, s: Store, p: Put)
    requires Describes(t, src) && Holding(t, src, s) && FromSource(t, src, p)
    ensures Holding(t, src, Receive(t, s, p).0)
    ensures s.rows.Keys <= Receive(t, s, p).0.rows.Keys
    ensures p.death.None? ==> Receive(t, s, p).1 == Stored && p.chunk in Receive(t, s, p).0.rows
  {
    SourceIsNotRefused(t, src, s, p);
    var old_, k := OrEmpty(s.part), p.chunk;
    var n := if p.death.Some? then p.death.value else |p.body|;
    var part := WriteAt(old_, t.g.Start(k), Take(p.body, n));
    assert p.death.None? ==> Take(p.body, n) == p.body;
    WriteStaysWithin(t.g, src, old_, k, n);
    forall q: nat | q in s.rows ensures Covered(t.g, src, part, q) {
      WriteKeepsCovered(t.g, src, old_, k, n, q);
    }
    if p.death.None? {
      WriteCovers(t.g, src, old_, k);
      var stored := s.(part := Some(part), rows := s.rows[k := t.hash(p.body)]);
      assert Holding(t, src, stored);
      if |stored.rows| >= t.g.chunks {
        FullStoreIsTheSource(t, src, stored);
      }
    }
  }

  /** Over any run of requests made from the source: in any order, repeated, or cut short by a crash. */
  lemma {:induction false} StoreAlwaysHolds(t: Transfer, src: Bytes, s: Store, puts: seq<Put>)
    requires Describes(t, src) && Holding(t, src, s)
    requires forall i :: 0 <= i < |puts| ==> FromSource(t, src, puts[i])
    ensures Holding(t, src, AfterPuts(t, s, puts))
  {
    if puts == [] {
    } else {
      var n := |puts| - 1;
      StoreAlwaysHolds(t, src, s, puts[..n]);
      ReceiveKeepsHolding(t, src, AfterPuts(t, s, puts[..n]), puts[n]);
    }
  }

  // ---------------------------------------------------------------- the agent's loop and the host's other calls

  /** What becomes of one chunk request: answered, never sent, or lost on the way back or in a crash. */
  datatype Fate = Answered | NotSent | AnswerLost | HostDied(written: nat)

  class Host {
    var store: Store

    constructor ()
      ensures store == EMPTY
    {
      store := EMPTY;
    }

    method PutChunk(t: Transfer, p: Put) returns (answer: Answer)
      modifies this
      ensures (store, answer) == Receive(t, old(store), p)
    {
      var refusal := Refusal(t, store, p);
      if refusal.Some? {
        return refusal.value;
      }
      var written := if p.death.Some? then Take(p.body, p.death.value) else p.body;
      store := store.(part := Some(WriteAt(OrEmpty(store.part), t.g.Start(p.chunk), written)));
      if p.death.Some? {
        return Lost;
      }
      store := store.(rows := store.rows[p.chunk := t.hash(p.body)]);
      answer := Stored;
      if t.g.chunks > 0 && |store.rows| >= t.g.chunks {
        if |store.part.value| != t.g.size || (store.sha256 != "" && t.hash(store.part.value) != store.sha256) {
          store, answer := Store(None, map[], store.sha256, true), Failure;
        } else {
          store := store.(sha256 := t.hash(store.part.value));
        }
      }
    }

    /**
     `_upload_local_path` up to the finalize call: every chunk the host does not list is read from
     the source and sent. However the requests fare the store holds; once all are answered, the
     part file is the source.
     */
    method Upload(t: Transfer, src: Bytes, fates: nat -> Fate) returns (done: bool)
      requires Describes(t, src) && Holding(t, src, store)
      modifies this
      ensures Holding(t, src, store) && old(store.rows.Keys) <= store.rows.Keys
      ensures (forall k: nat :: k < t.g.chunks ==> fates(k) == Answered) ==> done
      ensures done ==> forall k: nat :: k < t.g.chunks ==> k in store.rows
    {
      var completed := store.rows.Keys;
      for k := 0 to t.g.chunks
        invariant Holding(t, src, store) && completed <= store.rows.Keys
        invariant forall j: nat :: j < k ==> j in store.rows
      {
        if k !in completed {
          if fates(k) == NotSent {
            return false;
          }
          var body := Chunk(t.g, src, k);
          var death := if fates(k).HostDied? then Some(fates(k).written) else None;
          ghost var before := store;
          var p := Put(k, body, t.hash(body), death);
          var answer := PutChunk(t, p);
          ReceiveKeepsHolding(t, src, before, p);
          if fates(k) != Answered || answer != Stored {
            return false;
          }
        }
      }
      return true;
    }

    /** `finalize_device_upload`: the delivered file, if the part file is complete. */
    method Finalize(t: Transfer) returns (delivered: Option<Bytes>)
      modifies this
      ensures delivered.Some? <==> (
        var part := if t.g.size == 0 then Some(OrEmpty(old(store.part))) else old(store.part);
        part.Some? && |part.value| == t.g.size && |old(store.rows)| >= t.g.chunks
        && (old(store.sha256) == "" || old(store.sha256) == t.hash(part.value)))
      ensures delivered.Some? ==> delivered.value == OrEmpty(old(store.part))
      ensures delivered.Some? ==> store == old(store).(part := delivered, sha256 := t.hash(delivered.value))
      ensures delivered.None? ==> (
        || store == old(store) || store == Store(None, map[], old(store.sha256), true)
        || (t.g.size == 0 && store == old(store).(part := Some([]))))
    {
      if t.g.size == 0 && store.part.None? {
        store := store.(part := Some([]));
      }
      if store.part.None? || |store.part.value| != t.g.size || |store.rows| < t.g.chunks {
        return None;
      }
      var total := t.hash(store.part.value);
      if store.sha256 != "" && store.sha256 != total {
        store := Store(None, map[], store.sha256, true);
        return None;
      }
      store := store.(sha256 := total);
      return store.part;
    }

    /** `download_chunk`. */
    function Serve(t: Transfer): nat -> Reply
      reads this
    {
      var part := store.part;
      (k: nat) => Served(t, part, k)
    }
  }

  function Served(t: Transfer, part: Option<Bytes>, k: nat): Reply {
    if part.None? || t.g.Start(k) >= |part.value| then Failed
    else
      var lo, hi := t.g.Start(k), t.g.Start(k) + t.g.chunkSize;
      var content := part.value[lo..if hi < |part.value| then hi else |part.value|];
      Reply(content, t.hash(content))
  }

  /** A chunk is served as far as the part file has it, with its hash; none is from the end of the file on. */
  lemma ServedMeans(t: Transfer, part: Bytes, k: nat)
    ensures Served(t, None, k) == Failed
    ensures k * t.g.chunkSize >= |part| ==> Served(t, Some(part), k) == Failed
    ensures k * t.g.chunkSize < |part| ==>
      var body := if (k + 1) * t.g.chunkSize < |part| then part[k * t.g.chunkSize..(k + 1) * t.g.chunkSize]
                  else part[k * t.g.chunkSize..];
      Served(t, Some(part), k) == Reply(body, t.hash(body))
  {
    NextStart(t.g, k);
    assert k * t.g.chunkSize < |part| ==> part[k * t.g.chunkSize..|part|] == part[k * t.g.chunkSize..];
  }

  /** Once the part file is the source, the host serves every chunk whole and with its hash. */
  lemma ServedIsWhole(t: Transfer, src: Bytes)
    requires Describes(t, src)
    ensures forall k: nat :: k < t.g.chunks ==>
      Served(t, Some(src), k) == Reply(Chunk(t.g, src, k), t.hash(Chunk(t.g, src, k)))
  {
    forall k: nat | k < t.g.chunks
      ensures Served(t, Some(src), k) == Reply(Chunk(t.g, src, k), t.hash(Chunk(t.g, src, k)))
    {
      RangeFacts(t.g, k);
    }
  }

  /** Every chunk has its row: as many rows as chunks, and the part file is the source. */
  lemma AllRows(t: Transfer, src: Bytes, s: Store)
    requires Describes(t, src) && Holding(t, src, s) && forall k: nat :: k < t.g.chunks ==> k in s.rows
    ensures |s.rows| >= t.g.chunks
    ensures OrEmpty(s.part) == src && (s.part.Some? || t.g.size == 0)
  {
    EmptyGeometry(t.g);
    assert |s.rows.Keys| == |s.rows|;
    AtLeast(s.rows.Keys, t.g.chunks);
    if t.g.chunks > 0 {
      FullStoreIsTheSource(t, src, s);
    }
  }

  /** Any earlier requests, an upload whose requests are all answered, and the finalize call. */
  method UploadWhole(t: Transfer, src: Bytes, puts: seq<Put>, fates: nat -> Fate)
    returns (host: Host, delivered: Option<Bytes>)
    requires Describes(t, src)
    requires forall i :: 0 <= i < |puts| ==> FromSource(t, src, puts[i])
    requires forall k: nat :: k < t.g.chunks ==> fates(k) == Answered
    ensures delivered == Some(src) && host.store.part == Some(src) && host.store.sha256 == t.hash(src)
  {
    host := new Host();
    for i := 0 to |puts|
      invariant fresh(host) && Holding(t, src, host.store)
    {
      ghost var before := host.store;
      var _ := host.PutChunk(t, puts[i]);
      ReceiveKeepsHolding(t, src, before, puts[i]);
    }
    var _ := host.Upload(t, src, fates);
    AllRows(t, src, host.store);
    delivered := host.Finalize(t);
  }

  /** What the host serves from the finished part file. */
  lemma ServedIsUninterrupted(t: Transfer, src: Bytes, a: Attempt)
    requires Describes(t, src) && a.death.None?
    requires forall k: nat :: a.replies(k) == Served(t, Some(src), k)
    ensures Uninterrupted(t, src, a)
  {
    ServedIsWhole(t, src);
  }

  /**
   The whole way: after any earlier upload requests, an upload whose requests are all answered,
   the finalize call, any earlier download attempts that saw only the host's chunks, and one
   uninterrupted download save exactly the source.
   */
  method Relay(t: Transfer, src: Bytes, puts: seq<Put>, fates: nat -> Fate, attempts: seq<Attempt>,
               names: nat -> string)
    returns (files: map<string, Bytes>, outcome: Outcome)
    requires Describes(t, src) && CollisionFree(t.hash) && t.expected == t.hash(src)
    requires forall i :: 0 <= i < |puts| ==> FromSource(t, src, puts[i])
    requires forall k: nat :: k < t.g.chunks ==> fates(k) == Answered
    requires forall i :: 0 <= i < |attempts| ==> HonestHeaders(t, src, attempts[i])
    ensures outcome.Saved? && files == map[outcome.name := src]
  {
    var host, _ := UploadWhole(t, src, puts, fates);
    var last := Attempt(host.Serve(t), None);
    ServedIsUninterrupted(t, src, last);
    ResumedDownloadIsTheSource(t, src, attempts, last);
    var receiver := new Receiver(AfterAttempts(t, None, attempts), map[]);
    assert names(0) !in receiver.files;
    outcome := receiver.Download(t, last, Some(names));
    files := receiver.files;
  }
}
