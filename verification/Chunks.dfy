/**
 Chunk geometry of a file transfer: the check of the host's metadata, the byte ranges it
 leads to, and positioned writes into a file.
 */
module Chunks {
  import opened Wrappers

  const MAX_TRANSFER_BYTES: nat := 20 * 1024 * 1024 * 1024
  const MAX_TRANSFER_CHUNK_BYTES: nat := 16 * 1024 * 1024

  /** A metadata field as `int(...)` reads it. */
  datatype Field = Whole(n: int) | Unreadable

  datatype Geometry = Geometry(chunkSize: nat, chunks: nat, size: nat) {
    /** The chunks reach the end of the file, and the last of them is needed for that. */
    predicate Valid() {
      && 0 < chunkSize <= MAX_TRANSFER_CHUNK_BYTES
      && size <= MAX_TRANSFER_BYTES
      && size <= chunks * chunkSize
      && (chunks > 0 ==> (chunks - 1) * chunkSize < size)
    }

    function Start(k: nat): nat {
      k * chunkSize
    }

    function End(k: nat): nat {
      if Start(k) + chunkSize < size then Start(k) + chunkSize else size
    }
  }

  function FieldOf(status: map<string, Field>, fallback: map<string, Field>, key: string): Field {
    if key in status then status[key] else if key in fallback then fallback[key] else Whole(0)
  }

  function ExpectedChunks(size: int, chunkSize: int): int {
    if chunkSize > 0 && size != 0 then (size + chunkSize - 1) / chunkSize else 0
  }

  /** `_validated_transfer_geometry`. */
  function ValidatedGeometry(status: map<string, Field>, fallback: map<string, Field>): Option<Geometry> {
    var chunkSize := FieldOf(status, fallback, "chunk_size");
    var chunks := FieldOf(status, fallback, "total_chunks");
    var size := FieldOf(status, fallback, "size_bytes");
    if chunkSize.Unreadable? || chunks.Unreadable? || size.Unreadable? then None
    else if
      || chunkSize.n <= 0 || chunkSize.n > MAX_TRANSFER_CHUNK_BYTES
      || size.n < 0 || size.n > MAX_TRANSFER_BYTES
      || chunks.n < 0 || chunks.n != ExpectedChunks(size.n, chunkSize.n)
    then None
    else Some(Geometry(chunkSize.n, chunks.n, size.n))
  }

  /** The rounded-up quotient is the number of chunks that just covers the file. */
  lemma RoundedUp(size: nat, chunkSize: nat, chunks: nat)
    requires chunkSize > 0
    ensures chunks == ExpectedChunks(size, chunkSize)
       <==> size <= chunks * chunkSize && (chunks > 0 ==> (chunks - 1) * chunkSize < size)
  {
    if size > 0 {
      var q := (size + chunkSize - 1) / chunkSize;
      assert size + chunkSize - 1 == q * chunkSize + (size + chunkSize - 1) % chunkSize;
      assert (q - 1) * chunkSize == q * chunkSize - chunkSize;
      if chunks < q {
        TimesMonotone(chunks, q - 1, chunkSize);
      } else if chunks > q {
        TimesMonotone(q, chunks - 1, chunkSize);
      }
    } else if chunks > 0 {
      TimesMonotone(0, chunks - 1, chunkSize);
    }
  }

  lemma TimesMonotone(a: nat, b: nat, c: nat)
    requires a <= b
    ensures a * c <= b * c
  {
  }

  /** The number the host names, or else the command does, or else zero. */
  predicate Names(status: map<string, Field>, fallback: map<string, Field>, key: string, n: int) {
    || (key in status && status[key] == Whole(n))
    || (key !in status && key in fallback && fallback[key] == Whole(n))
    || (key !in status && key !in fallback && n == 0)
  }

  /** Accepted are exactly the readable metadata whose chunks just cover the file, within the limits. */
  lemma AcceptedGeometry(status: map<string, Field>, fallback: map<string, Field>, g: Geometry)
    ensures ValidatedGeometry(status, fallback) == Some(g)
       <==> (&& Names(status, fallback, "chunk_size", g.chunkSize)
             && Names(status, fallback, "total_chunks", g.chunks)
             && Names(status, fallback, "size_bytes", g.size)
             && 0 < g.chunkSize <= 16777216 && g.size <= 21474836480
             && g.size <= g.chunks * g.chunkSize && (g.chunks > 0 ==> (g.chunks - 1) * g.chunkSize < g.size))
    ensures ValidatedGeometry(status, fallback) == Some(g) ==> g.Valid()
  {
    if g.chunkSize > 0 {
      RoundedUp(g.size, g.chunkSize, g.chunks);
    }
  }

  // ---------------------------------------------------------------- the ranges

  lemma NextStart(g: Geometry, k: nat)
    ensures g.Start(k + 1) == g.Start(k) + g.chunkSize
  {
    assert (k + 1) * g.chunkSize == k * g.chunkSize + g.chunkSize;
  }

  /** Each chunk of a valid geometry is a nonempty range of at most a chunk size, and ends where the next starts. */
  lemma RangeFacts(g: Geometry, k: nat)
    requires g.Valid() && k < g.chunks
    ensures g.Start(k) < g.End(k) <= g.size && g.End(k) - g.Start(k) <= g.chunkSize
    ensures g.Start(k) == k * g.chunkSize
    ensures k + 1 < g.chunks ==> g.End(k) == g.Start(k + 1) && g.End(k) - g.Start(k) == g.chunkSize
    ensures k + 1 == g.chunks ==> g.End(k) == g.size
  {
    NextStart(g, k);
    TimesMonotone(k, g.chunks - 1, g.chunkSize);
    if k + 1 < g.chunks {
      TimesMonotone(k + 1, g.chunks - 1, g.chunkSize);
    }
  }

  /** Chunk k holds position i. */
  predicate Holds(g: Geometry, k: nat, i: nat) {
    k < g.chunks && g.Start(k) <= i < g.End(k)
  }

  lemma OneHolds(g: Geometry, k: nat, q: nat, i: nat)
    requires Holds(g, k, i) && Holds(g, q, i)
    ensures k == q
  {
    NextStart(g, k);
    NextStart(g, q);
    if k < q {
      TimesMonotone(k + 1, q, g.chunkSize);
    } else if k > q {
      TimesMonotone(q + 1, k, g.chunkSize);
    }
  }

  lemma Divide(i: nat, c: nat) returns (q: nat)
    requires c > 0
    ensures q * c <= i < q * c + c
  {
    q := 0;
    while q * c + c <= i
      invariant q * c <= i
      decreases i - q * c
    {
      q := q + 1;
    }
  }

  /** The ranges partition the file: every position lies in exactly one of them. */
  lemma RangesPartition(g: Geometry, i: nat)
    requires g.Valid() && i < g.size
    ensures exists k: nat :: Holds(g, k, i)
    ensures forall k: nat, q: nat :: Holds(g, k, i) && Holds(g, q, i) ==> k == q
  {
    var q := Divide(i, g.chunkSize);
    if q >= g.chunks {
      TimesMonotone(g.chunks, q, g.chunkSize);
    }
    assert Holds(g, q, i);
    forall k: nat, q: nat | Holds(g, k, i) && Holds(g, q, i) ensures k == q {
      OneHolds(g, k, q, i);
    }
  }

  function Chunk(g: Geometry, src: Bytes, k: nat): Bytes
    requires g.Valid() && |src| == g.size && k < g.chunks
  {
    RangeFacts(g, k);
    src[g.Start(k)..g.End(k)]
  }

  // ---------------------------------------------------------------- positioned writes

  /** `seek` and `write`: a gap before the offset reads as zeros; writing nothing changes nothing. */
  function WriteAt(f: Bytes, offset: nat, data: Bytes): (r: Bytes)
    ensures data == [] ==> r == f
    ensures data != [] ==> |r| == if offset + |data| > |f| then offset + |data| else |f|
    ensures forall i :: 0 <= i < |r| ==>
      r[i] == if offset <= i < offset + |data| then data[i - offset] else if i < |f| then f[i] else 0
  {
    if data == [] then f
    else
      var n := if offset + |data| > |f| then offset + |data| else |f|;
      seq(n, i requires 0 <= i < n =>
        if offset <= i < offset + |data| then data[i - offset] else if i < |f| then f[i] else 0)
  }

  /** Writing (part of) the right bytes at the right place keeps a prefix a prefix. */
  lemma WriteKeepsPrefix(src: Bytes, f: Bytes, offset: nat, data: Bytes)
    requires f <= src && offset <= |f| && offset + |data| <= |src|
    requires src[offset..offset + |data|] == data
    ensures WriteAt(f, offset, data) <= src && |WriteAt(f, offset, data)| >= |f|
    ensures |WriteAt(f, offset, data)| >= offset + |data|
  {
    var r := WriteAt(f, offset, data);
    assert forall i :: 0 <= i < |data| ==> data[i] == src[offset + i];
    assert forall i :: 0 <= i < |r| ==> r[i] == src[i];
  }
}
