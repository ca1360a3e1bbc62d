/**
 `download_transfer`: resuming a download from a part file over any number of attempts that may
 be refused, interrupted, or killed in the middle of a write.
 */
module DownloadTransfer {
  import opened Wrappers
  import opened Chunks

  type Hash = string

  /** What the network gives for one chunk request; an absent header is the empty string. */
  datatype Reply = Failed | Reply(body: Bytes, header: Hash)

  /** The process may die at one chunk, after `written` bytes of it reached the file. */
  datatype Death = Death(chunk: nat, written: nat)

  datatype Attempt = Attempt(replies: nat -> Reply, death: Option<Death>)

  datatype Outcome =
    Fetched | Interrupted | ChunkRefused | Died | SizeWrong | HashWrong | NoTarget | Saved(name: string)

  /** The expected whole-file hash, "" when the host named none. */
  datatype Transfer = Transfer(g: Geometry, hash: Bytes -> Hash, expected: Hash)

  // ---------------------------------------------------------------- one attempt, as a function

  function Take(body: Bytes, n: nat): Bytes {
    if n < |body| then body[..n] else body
  }

  predicate Refused(t: Transfer, reply: Reply)
    requires reply.Reply?
  {
    |reply.body| > t.g.chunkSize || (reply.header != "" && t.hash(reply.body) != reply.header)
  }

  /** The loop over the chunks from k on, with the part file f. */
  function FetchFrom(t: Transfer, a: Attempt, f: Bytes, k: nat): (r: (Bytes, Outcome))
    requires k <= t.g.chunks
    ensures !r.1.Saved? && !r.1.NoTarget?
    decreases t.g.chunks - k
  {
    if k == t.g.chunks then (f, Fetched)
    else if |f| >= t.g.End(k) then FetchFrom(t, a, f, k + 1)
    else
      match a.replies(k)
      case Failed => (f, Interrupted)
      case Reply(body, header) =>
        if Refused(t, a.replies(k)) then (f, ChunkRefused)
        else if a.death.Some? && a.death.value.chunk == k
        then (WriteAt(f, t.g.Start(k), Take(body, a.death.value.written)), Died)
        else FetchFrom(t, a, WriteAt(f, t.g.Start(k), body), k + 1)
  }

  function OrEmpty(part: Option<Bytes>): Bytes {
    if part.Some? then part.value else []
  }

  /** The part file after an attempt, and how far the attempt got before naming a target. */
  function Fetch(t: Transfer, a: Attempt, part: Option<Bytes>): (Option<Bytes>, Outcome) {
    var (f, outcome) := FetchFrom(t, a, OrEmpty(part), 0);
    if outcome != Fetched then (Some(f), outcome)
    else if |f| != t.g.size then (Some(f), SizeWrong)
    else if t.expected != "" && t.hash(f) != t.expected then (None, HashWrong)
    else (Some(f), Fetched)
  }

  /** The part file after a run of attempts, none of which got as far as a target. */
  function AfterAttempts(t: Transfer, part: Option<Bytes>, attempts: seq<Attempt>): Option<Bytes> {
    if attempts == [] then part
    else Fetch(t, attempts[|attempts| - 1], AfterAttempts(t, part, attempts[..|attempts| - 1])).0
  }

  // ---------------------------------------------------------------- the method

  const NAME_LIMIT: nat := 10000

  /** The receive directory with its one part file for this transfer. */
  class Receiver {
    var part: Option<Bytes>
    var files: map<string, Bytes>

    constructor (part: Option<Bytes>, files: map<string, Bytes>)
      ensures this.part == part && this.files == files
    {
      this.part, this.files := part, files;
    }

    /** Lines 1583-1625. */
    method FetchChunks(t: Transfer, a: Attempt) returns (outcome: Outcome)
      modifies this`part
      ensures part == Some(FetchFrom(t, a, OrEmpty(old(part)), 0).0)
      ensures outcome == FetchFrom(t, a, OrEmpty(old(part)), 0).1
    {
      ghost var start := OrEmpty(part);
      var f := OrEmpty(part);
      part := Some(f);
      for k := 0 to t.g.chunks
        invariant part == Some(f)
        invariant FetchFrom(t, a, f, k) == FetchFrom(t, a, start, 0)
      {
        if |f| < t.g.End(k) {
          match a.replies(k) {
            case Failed =>
              return Interrupted;
            case Reply(body, header) =>
              if |body| > t.g.chunkSize || (header != "" && t.hash(body) != header) {
                return ChunkRefused;
              }
              if a.death.Some? && a.death.value.chunk == k {
                part := Some(WriteAt(f, t.g.Start(k), Take(body, a.death.value.written)));
                return Died;
              }
              f := WriteAt(f, t.g.Start(k), body);
              part := Some(f);
          }
        }
      }
      return Fetched;
    }

    /** `_non_overwriting_target`: `names(0)` is the safe name, `names(i)` carries the number i. */
    method FreeName(names: nat -> string) returns (name: Option<string>)
      ensures name.Some? ==> (exists i: nat :: (
        i < 10000 && name.value == names(i) && names(i) !in files && forall j: nat :: j < i ==> names(j) in files))
      ensures name.None? <==> forall i: nat :: i < 10000 ==> names(i) in files
    {
      for i := 0 to NAME_LIMIT
        invariant forall j: nat :: j < i ==> names(j) in files
      {
        if names(i) !in files {
          return Some(names(i));
        }
      }
      return None;
    }

    /**
     `download_transfer`. Only an attempt that fetched every chunk names a target; what it saves
     is the part file, has the expected size and hash, and replaces no file. A wrong whole-file
     hash removes the part file. `names` is absent when the name is not a valid file name.
     */
    method Download(t: Transfer, a: Attempt, names: Option<nat -> string>) returns (outcome: Outcome)
      modifies this
      ensures Fetch(t, a, old(part)).1 != Fetched ==>
        outcome == Fetch(t, a, old(part)).1 && part == Fetch(t, a, old(part)).0 && files == old(files)
      ensures Fetch(t, a, old(part)).1 == Fetched ==> outcome.Saved? || outcome.NoTarget?
      ensures outcome.Saved? <==> (
        Fetch(t, a, old(part)).1 == Fetched && names.Some?
        && exists i: nat :: i < 10000 && names.value(i) !in old(files))
      ensures outcome.Saved? ==>
        var f := Fetch(t, a, old(part)).0;
        && f.Some? && |f.value| == t.g.size && (t.expected != "" ==> t.hash(f.value) == t.expected)
        && outcome.name !in old(files) && files == old(files)[outcome.name := f.value] && part == None
      ensures outcome.NoTarget? ==> files == old(files) && part == Fetch(t, a, old(part)).0
    {
      outcome := FetchChunks(t, a);
      if outcome != Fetched {
        return;
      }
      if |part.value| != t.g.size {
        return SizeWrong;
      }
      if t.expected != "" && t.hash(part.value) != t.expected {
        part := None;
        return HashWrong;
      }
      if names.None? {
        return NoTarget;
      }
      var name := FreeName(names.value);
      if name.None? {
        return NoTarget;
      }
      files := files[name.value := part.value];
      part := None;
      return Saved(name.value);
    }
  }

  // ---------------------------------------------------------------- honest hosts

  /** Every chunk comes with the hash of the source's chunk; the bytes themselves may be damaged. */
  ghost predicate HonestHeaders(t: Transfer, src: Bytes, a: Attempt)
    requires t.g.Valid() && |src| == t.g.size
  {
    forall k: nat :: k < t.g.chunks && a.replies(k).Reply? ==> a.replies(k).header == t.hash(Chunk(t.g, src, k))
  }

  /** Every chunk arrives whole and the process lives. */
  ghost predicate Uninterrupted(t: Transfer, src: Bytes, a: Attempt)
    requires t.g.Valid() && |src| == t.g.size
  {
    && a.death.None?
    && forall k: nat :: k < t.g.chunks ==>
      a.replies(k).Reply? && a.replies(k).body == Chunk(t.g, src, k)
      && (a.replies(k).header == "" || a.replies(k).header == t.hash(Chunk(t.g, src, k)))
  }

  /** No two byte strings share a hash, and no hash is the empty string. */
  ghost predicate CollisionFree(hash: Bytes -> Hash) {
    (forall x, y :: hash(x) == hash(y) ==> x == y) && forall x :: hash(x) != ""
  }

  predicate IsPart(src: Bytes, part: Option<Bytes>) {
    part.Some? ==> part.value <= src
  }

  // ---------------------------------------------------------------- which replies are refused

  /** The first chunk the file does not reach. */
  ghost predicate FirstMissing(t: Transfer, f: Bytes, k: nat) {
    k < t.g.chunks && |f| < t.g.End(k) && forall j: nat :: j < k ==> |f| >= t.g.End(j)
  }

  lemma {:induction false} SkipsTo(t: Transfer, a: Attempt, f: Bytes, j: nat, k: nat)
    requires FirstMissing(t, f, k) && j <= k
    ensures FetchFrom(t, a, f, j) == FetchFrom(t, a, f, k)
    decreases k - j
  {
    if j < k {
      SkipsTo(t, a, f, j + 1, k);
    }
  }

  /**
   The first reply that is asked for ends the attempt, and leaves the part file as it is, when it is
   longer than a chunk or its hash is not the one that came with it. Any other is written at its place,
   as far as the process lives.
   */
  lemma FirstReply(t: Transfer, a: Attempt, part: Option<Bytes>, k: nat, body: Bytes, header: Hash)
    requires FirstMissing(t, OrEmpty(part), k) && a.replies(k) == Reply(body, header)
    ensures |body| > t.g.chunkSize || (header != "" && t.hash(body) != header) ==>
      Fetch(t, a, part) == (Some(OrEmpty(part)), ChunkRefused)
    ensures forall written: nat ::
      (&& |body| <= t.g.chunkSize && (header == "" || t.hash(body) == header)
       && a.death == Some(Death(k, written)) && written <= |body|) ==>
        Fetch(t, a, part) == (Some(WriteAt(OrEmpty(part), k * t.g.chunkSize, body[..written])), Died)
    ensures |body| <= t.g.chunkSize && (header == "" || t.hash(body) == header) && a.death.None? ==>
      FetchFrom(t, a, OrEmpty(part), 0) == FetchFrom(t, a, WriteAt(OrEmpty(part), k * t.g.chunkSize, body), k + 1)
  {
    SkipsTo(t, a, OrEmpty(part), 0, k);
    assert body[..|body|] == body;
  }

  // ---------------------------------------------------------------- the part file stays a prefix

  lemma AcceptedIsTheChunk(t: Transfer, src: Bytes, a: Attempt, k: nat)
    requires t.g.Valid() && |src| == t.g.size && CollisionFree(t.hash)
    requires HonestHeaders(t, src, a) && k < t.g.chunks && a.replies(k).Reply? && !Refused(t, a.replies(k))
    ensures a.replies(k).body == Chunk(t.g, src, k)
  {
  }

  lemma TakeOfSlice(src: Bytes, lo: nat, hi: nat, n: nat)
    requires lo <= hi <= |src|
    ensures var d := Take(src[lo..hi], n); lo + |d| <= hi && src[lo..lo + |d|] == d
  {
  }

  /** From a prefix that reaches chunk k, the rest of the loop leads to a longer prefix. */
  lemma {:induction false} FetchKeepsPrefix(t: Transfer, src: Bytes, a: Attempt, f: Bytes, k: nat)
    requires t.g.Valid() && |src| == t.g.size && CollisionFree(t.hash) && HonestHeaders(t, src, a)
    requires k <= t.g.chunks && f <= src && (k < t.g.chunks ==> t.g.Start(k) <= |f|)
    ensures f <= FetchFrom(t, a, f, k).0 <= src
    decreases t.g.chunks - k
  {
    if k < t.g.chunks {
      RangeFacts(t.g, k);
      var lo, hi := t.g.Start(k), t.g.End(k);
      if |f| >= hi {
        FetchKeepsPrefix(t, src, a, f, k + 1);
      } else if a.replies(k).Reply? && !Refused(t, a.replies(k)) {
        AcceptedIsTheChunk(t, src, a, k);
        var body := a.replies(k).body;
        if a.death.Some? && a.death.value.chunk == k {
          TakeOfSlice(src, lo, hi, a.death.value.written);
          WriteKeepsPrefix(src, f, lo, Take(body, a.death.value.written));
        } else {
          WriteKeepsPrefix(src, f, lo, body);
          FetchKeepsPrefix(t, src, a, WriteAt(f, lo, body), k + 1);
        }
      }
    }
  }

  lemma AttemptKeepsPrefix(t: Transfer, src: Bytes, a: Attempt, part: Option<Bytes>)
    requires t.g.Valid() && |src| == t.g.size && CollisionFree(t.hash) && HonestHeaders(t, src, a)
    requires IsPart(src, part)
    ensures IsPart(src, Fetch(t, a, part).0)
    ensures Fetch(t, a, part).0.Some? ==> OrEmpty(part) <= Fetch(t, a, part).0.value
  {
    assert t.g.Start(0) == 0;
    FetchKeepsPrefix(t, src, a, OrEmpty(part), 0);
  }

  /** From any number of interrupted attempts, torn writes included, the part file is a prefix of the source. */
  lemma {:induction false} PartIsAlwaysPrefix(t: Transfer, src: Bytes, part: Option<Bytes>, attempts: seq<Attempt>)
    requires t.g.Valid() && |src| == t.g.size && CollisionFree(t.hash) && IsPart(src, part)
    requires forall i :: 0 <= i < |attempts| ==> HonestHeaders(t, src, attempts[i])
    ensures IsPart(src, AfterAttempts(t, part, attempts))
  {
    if attempts == [] {
    } else {
      var n := |attempts| - 1;
      PartIsAlwaysPrefix(t, src, part, attempts[..n]);
      AttemptKeepsPrefix(t, src, attempts[n], AfterAttempts(t, part, attempts[..n]));
    }
  }

  // ---------------------------------------------------------------- an uninterrupted attempt finishes

  /** Whatever the part file holds, if it is not too long it ends with exactly the size. */
  lemma {:induction false} WholeFetch(t: Transfer, src: Bytes, a: Attempt, f: Bytes, k: nat)
    requires t.g.Valid() && |src| == t.g.size && Uninterrupted(t, src, a)
    requires k <= t.g.chunks && |f| <= t.g.size
    requires if k < t.g.chunks then t.g.Start(k) <= |f| else |f| == t.g.size
    ensures FetchFrom(t, a, f, k).1 == Fetched && |FetchFrom(t, a, f, k).0| == t.g.size
    ensures f <= src ==> FetchFrom(t, a, f, k).0 == src
    decreases t.g.chunks - k
  {
    if k < t.g.chunks {
      RangeFacts(t.g, k);
      var lo, hi := t.g.Start(k), t.g.End(k);
      if |f| >= hi {
        WholeFetch(t, src, a, f, k + 1);
      } else {
        var body := a.replies(k).body;
        if f <= src {
          WriteKeepsPrefix(src, f, lo, body);
        }
        WholeFetch(t, src, a, WriteAt(f, lo, body), k + 1);
      }
    }
  }

  lemma EmptyGeometry(g: Geometry)
    requires g.Valid()
    ensures g.Start(0) == 0 && (g.chunks == 0 <==> g.size == 0)
  {
  }

  /** After any run of honest attempts, one uninterrupted attempt fetches exactly the source. */
  lemma ResumedDownloadIsTheSource(t: Transfer, src: Bytes, attempts: seq<Attempt>, last: Attempt)
    requires t.g.Valid() && |src| == t.g.size && CollisionFree(t.hash)
    requires t.expected == "" || t.expected == t.hash(src)
    requires forall i :: 0 <= i < |attempts| ==> HonestHeaders(t, src, attempts[i])
    requires Uninterrupted(t, src, last)
    ensures Fetch(t, last, AfterAttempts(t, None, attempts)) == (Some(src), Fetched)
  {
    PartIsAlwaysPrefix(t, src, None, attempts);
    EmptyGeometry(t.g);
    WholeFetch(t, src, last, OrEmpty(AfterAttempts(t, None, attempts)), 0);
  }

  /** When the whole-file hash is known, only the source is ever accepted, whatever the host sends. */
  lemma FetchedIsTheSource(t: Transfer, src: Bytes, a: Attempt, part: Option<Bytes>)
    requires CollisionFree(t.hash) && t.expected == t.hash(src)
    ensures Fetch(t, a, part).1 == Fetched ==> Fetch(t, a, part).0 == Some(src)
  {
    var (f, outcome) := FetchFrom(t, a, OrEmpty(part), 0);
    assert t.hash(f) == t.hash(src) ==> f == src;
  }

  // ---------------------------------------------------------------- hosts that send no chunk hash

  /** A part file longer than the source can never be completed: every attempt leaves it as it is. */
  lemma {:induction false} TooLongIsSkipped(t: Transfer, a: Attempt, f: Bytes, k: nat)
    requires k <= t.g.chunks && |f| > t.g.size
    ensures FetchFrom(t, a, f, k) == (f, Fetched)
    decreases t.g.chunks - k
  {
    if k < t.g.chunks {
      TooLongIsSkipped(t, a, f, k + 1);
    }
  }

  lemma {:induction false} TooLongIsStuck(t: Transfer, part: Option<Bytes>, attempts: seq<Attempt>)
    requires part.Some? && |part.value| > t.g.size
    ensures AfterAttempts(t, part, attempts) == part
    ensures attempts != [] ==>
      Fetch(t, attempts[|attempts| - 1], AfterAttempts(t, part, attempts[..|attempts| - 1])).1 == SizeWrong
  {
    if attempts == [] {
    } else {
      var n := |attempts| - 1;
      TooLongIsStuck(t, part, attempts[..n]);
      TooLongIsSkipped(t, attempts[n], part.value, 0);
    }
  }

  /**
   With a known whole-file hash, two uninterrupted attempts repair any leftover part file exactly
   when it is not longer than the source: the removal after a wrong hash is what makes it so.
   */
  lemma TwoAttemptsRepair(t: Transfer, src: Bytes, part: Option<Bytes>, first: Attempt, second: Attempt)
    requires t.g.Valid() && |src| == t.g.size && CollisionFree(t.hash) && t.expected == t.hash(src)
    requires Uninterrupted(t, src, first) && Uninterrupted(t, src, second)
    ensures (|OrEmpty(part)| <= t.g.size)
       <==> (Fetch(t, first, part) == (Some(src), Fetched)
             || Fetch(t, second, Fetch(t, first, part).0) == (Some(src), Fetched))
  {
    EmptyGeometry(t.g);
    if |OrEmpty(part)| <= t.g.size {
      WholeFetch(t, src, first, OrEmpty(part), 0);
      WholeFetch(t, src, second, [], 0);
    } else {
      TooLongIsSkipped(t, first, part.value, 0);
      TooLongIsSkipped(t, second, part.value, 0);
    }
  }

  /**
   With neither hash the length check alone does not help: a short reply leaves a gap that the
   next chunk fills with a zero, and a file of the right size but other content is accepted.
   */
  lemma NoHashesNoGuarantee(hash: Bytes -> Hash) returns (a: Attempt)
    ensures var t := Transfer(Geometry(1, 2, 2), hash, "");
      t.g.Valid() && (forall k :: a.replies(k).Reply? && a.replies(k).header == "" && |a.replies(k).body| <= 1)
      && Fetch(t, a, None) == (Some([0, 9]), Fetched) && a.replies(0).body == []
  {
    a := Attempt(k => Reply(if k == 0 then [] else [9], ""), None);
    var t := Transfer(Geometry(1, 2, 2), hash, "");
    assert FetchFrom(t, a, [], 2) == ([], Fetched);
    assert t.g.Start(1) == 1 && t.g.End(0) == 1 && t.g.End(1) == 2;
    assert WriteAt([], 0, []) == [] && WriteAt([], 1, [9]) == [0, 9];
    assert FetchFrom(t, a, [0, 9], 2) == ([0, 9], Fetched);
    assert FetchFrom(t, a, [], 1) == ([0, 9], Fetched);
  }
}
