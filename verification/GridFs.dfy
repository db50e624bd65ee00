/** GridFS files as chunks: the flat file, the store, the one-shot uploader and the chunk count. */
module GridFs {
  import opened Bytes
  import opened Sequences
  import opened BsonFormat
  import opened BsonObject
  import opened GridFsMeta

  /** Cutting a byte sequence into chunks. */

  function Chunks(data: bytes, cs: nat): seq<bytes>
    requires cs > 0
    decreases |data|
  {
    if data == [] then []
    else if |data| <= cs then [data]
    else [data[..cs]] + Chunks(data[cs..], cs)
  }

  ghost predicate AllOfSize(parts: seq<bytes>, cs: nat) {
    forall p | p in parts :: |p| == cs
  }

  lemma {:induction false} ChunksCons(p: bytes, rest: bytes, cs: nat)
    requires cs > 0 && |p| == cs
    ensures Chunks(p + rest, cs) == [p] + Chunks(rest, cs)
  {
    var data := p + rest;
    if rest == [] {
      assert data == p && Chunks(rest, cs) == [];
    } else {
      assert data[..cs] == p && data[cs..] == rest;
    }
  }

  lemma {:induction false} ChunksOfTail(tail: bytes, cs: nat)
    requires cs > 0 && |tail| <= cs
    ensures Chunks(tail, cs) == if tail == [] then [] else [tail]
  {
  }

  // Full chunks followed by a shorter, possibly empty, tail are the chunks of what they hold.
  lemma {:induction false} ChunksOfParts(parts: seq<bytes>, tail: bytes, cs: nat)
    requires cs > 0 && AllOfSize(parts, cs) && |tail| <= cs
    ensures Chunks(Concat(parts) + tail, cs) == parts + if tail == [] then [] else [tail]
  {
    hide Chunks;
    if parts == [] {
      assert Concat(parts) + tail == tail;
      ChunksOfTail(tail, cs);
    } else {
      var p, rest := parts[0], parts[1..];
      assert p in parts && AllOfSize(rest, cs);
      ChunksOfParts(rest, tail, cs);
      ChunksCons(p, Concat(rest) + tail, cs);
      assert Concat(parts) + tail == p + (Concat(rest) + tail);
      assert parts == [p] + rest;
    }
  }

  // Reading the chunks in order gives the data back.
  lemma {:induction false} ConcatChunks(data: bytes, cs: nat)
    requires cs > 0
    ensures Concat(Chunks(data, cs)) == data
    decreases |data|
  {
    if |data| > cs {
      ConcatChunks(data[cs..], cs);
      assert Chunks(data, cs)[1..] == Chunks(data[cs..], cs);
      assert data[..cs] + data[cs..] == data;
    } else if data != [] {
      assert Concat([data]) == data + Concat([]);
    }
  }

  function Min(a: int, b: int): int { if a < b then a else b }

  // Chunk i is data[i * cs..min((i + 1) * cs, |data|)], and the chunks cover the data.
  lemma {:induction false} ChunkAt(data: bytes, cs: nat, i: nat)
    requires cs > 0 && i < |Chunks(data, cs)|
    ensures 0 <= i * cs < |data|
    ensures Chunks(data, cs)[i] == data[i * cs..Min((i + 1) * cs, |data|)]
    ensures |Chunks(data, cs)[i]| == Min(cs, |data| - i * cs)
    decreases i
  {
    if i > 0 {
      var from, to := (i - 1) * cs, Min((i - 1 + 1) * cs, |data| - cs);
      ChunkAt(data[cs..], cs, i - 1);
      assert from + cs == i * cs && (i - 1 + 1) * cs == i * cs && (i + 1) * cs == i * cs + cs;
      assert Chunks(data, cs)[i] == Chunks(data[cs..], cs)[i - 1] == data[cs..][from..to];
      SubSlice(data, cs, |data|, from, to);
      assert data[cs..] == data[cs..|data|];
    }
  }

  // The number of chunks is the length divided by the chunk size, rounded up.
  lemma {:induction false} ChunkCount(data: bytes, cs: nat)
    requires cs > 0
    ensures |Chunks(data, cs)| * cs >= |data|
    ensures data != [] ==> (|Chunks(data, cs)| - 1) * cs < |data|
    decreases |data|
  {
    if |data| > cs {
      ChunkCount(data[cs..], cs);
      var n := |Chunks(data[cs..], cs)|;
      assert (n + 1) * cs == n * cs + cs && n * cs == (n - 1) * cs + cs;
    }
  }

  // mongo_sync_gridfs_file_get_chunks, over exact quotients.
  function FileGetChunks(length: nat, chunkSize: nat): int
    requires chunkSize > 0
  {
    var count := length as real / chunkSize as real;
    var truncated := count.Floor;
    if count - truncated as real > 0.0 then (count + 1.0).Floor else truncated
  }

  lemma DivideMonotone(a: real, b: real, c: real)
    requires c > 0.0 && a < b
    ensures a / c < b / c
  {
  }

  lemma QuotientBounds(x: real, c: real, n: real)
    requires c > 0.0 && n * c <= x < n * c + c
    ensures n <= x / c < n + 1.0
    ensures x / c == n <==> x == n * c
  {
    var r := x - n * c;
    assert x / c == n + r / c;
    DivideMonotone(r, c, c);
    assert c / c == 1.0;
  }

  lemma CastProduct(m: nat, n: nat)
    ensures (m * n) as real == m as real * n as real
  {
  }

  lemma {:induction false} FloorOfQuotient(length: nat, cs: nat, n: nat)
    requires cs > 0 && n * cs <= length < n * cs + cs
    ensures (length as real / cs as real).Floor == n
    ensures length as real / cs as real == n as real <==> length == n * cs
  {
    CastProduct(n, cs);
    QuotientBounds(length as real, cs as real, n as real);
  }

  // The advertised chunk count is the number of chunks an uploader stores.
  lemma {:induction false} ChunkCountAdvertised(data: bytes, cs: nat)
    requires cs > 0
    ensures FileGetChunks(|data|, cs) == |Chunks(data, cs)|
  {
    var k := |Chunks(data, cs)|;
    ChunkCount(data, cs);
    assert k * cs == (k - 1) * cs + cs;
    if |data| == k * cs {
      FloorOfQuotient(|data|, cs, k);
    } else {
      FloorOfQuotient(|data|, cs, k - 1);
    }
  }

  /** The store */

  // A chunk document: binary subtype and payload.
  datatype Chunk = Chunk(subtype: byte, data: bytes)

  const GENERIC: byte := 0
  const LEGACY: byte := 2  // BSON_BINARY_SUBTYPE_BINARY

  type ChunkMap = map<(bytes, int), Chunk>

  // The file's chunks are exactly the parts, numbered from 0.
  ghost predicate Holds(chunks: ChunkMap, id: bytes, parts: seq<bytes>) {
    && (forall n: int :: (id, n) in chunks <==> 0 <= n < |parts|)
    && (forall n: int | 0 <= n < |parts| :: chunks[(id, n)] == Chunk(GENERIC, parts[n]))
  }

  // The file's chunks are some first ones of the parts.
  ghost predicate HoldsFirst(chunks: ChunkMap, id: bytes, parts: seq<bytes>) {
    exists k | 0 <= k <= |parts| :: Holds(chunks, id, parts[..k])
  }

  // Nothing changes for other files.
  ghost predicate SameElsewhere(before: ChunkMap, after: ChunkMap, id: bytes) {
    forall k: (bytes, int) | k.0 != id :: (k in before <==> k in after) && (k in before ==> before[k] == after[k])
  }

  class Store {
    const digest: bytes -> bytes  // the MD5 checksum, printed
    var chunkSize: int
    var chunks: ChunkMap
    var files: map<bytes, bytes>  // the file documents, by the id of their chunks
    var outcomes: seq<bool>  // whether the next inserts succeed; none left means success

    constructor (digest: bytes -> bytes, outcomes: seq<bool>)
      ensures chunkSize == 256 * 1024 && chunks == map[] && files == map[] && this.outcomes == outcomes
      ensures this.digest == digest
    {
      this.digest := digest;
      chunkSize, chunks, files, this.outcomes := 256 * 1024, map[], map[], outcomes;
    }

    method SetChunkSize(size: int) returns (ok: bool)
      modifies this`chunkSize
      ensures ok == (size >= 1) && chunkSize == if ok then size else old(chunkSize)
    {
      if size < 1 { return false; }
      chunkSize := size;
      return true;
    }

    // Whether an insert will succeed now.
    ghost function WillSucceed(): bool
      reads this`outcomes
    {
      outcomes == [] || outcomes[0]
    }

    method InsertChunk(id: bytes, n: int, data: bytes) returns (ok: bool)
      modifies this`chunks, this`outcomes
      ensures ok == old(WillSucceed())
      ensures outcomes == if old(outcomes) == [] then [] else old(outcomes)[1..]
      ensures chunks == if ok then old(chunks)[(id, n) := Chunk(GENERIC, data)] else old(chunks)
    {
      ok := outcomes == [] || outcomes[0];
      outcomes := if outcomes == [] then [] else outcomes[1..];
      if ok { chunks := chunks[(id, n) := Chunk(GENERIC, data)]; }
    }

    method InsertFile(id: bytes, meta: Bson) returns (ok: bool)
      modifies this`files, this`outcomes
      ensures ok == old(WillSucceed())
      ensures outcomes == if old(outcomes) == [] then [] else old(outcomes)[1..]
      ensures files == if ok then old(files)[id := meta.data] else old(files)
    {
      ok := outcomes == [] || outcomes[0];
      outcomes := if outcomes == [] then [] else outcomes[1..];
      if ok { files := files[id := meta.data]; }
    }

    // The chunk loop of the one-shot uploader.
    method UploadChunks(id: bytes, data: bytes, size: int) returns (ok: bool, chk: bytes)
      requires 0 <= size <= |data| && chunkSize >= 1 && Holds(chunks, id, [])
      modifies this`chunks, this`outcomes
      ensures SameElsewhere(old(chunks), chunks, id)
      ensures ok ==> Holds(chunks, id, Chunks(data[..size], chunkSize)) && chk == data[..size]
      ensures !ok ==> HoldsFirst(chunks, id, Chunks(data[..size], chunkSize))
      ensures false !in old(outcomes) ==> ok && false !in outcomes
    {
      hide Chunks, Holds, SameElsewhere;
      SameElsewhereSame(chunks, id);
      ghost var flat := data[..size];
      ghost var parts := Chunks(flat, chunkSize);
      var pos, n := 0, 0;
      chk := [];
      assert parts[..0] == [] && flat[0..] == flat;
      while pos < size
        invariant 0 <= pos <= size && 0 <= n <= |parts|
        invariant chk == flat[..pos]
        invariant parts[n..] == Chunks(flat[pos..], chunkSize)
        invariant Holds(chunks, id, parts[..n]) && SameElsewhere(old(chunks), chunks, id)
        invariant false !in old(outcomes) ==> false !in outcomes
      {
        var csize := chunkSize;
        if size - pos < csize { csize := size - pos; }
        chk := chk + data[pos..pos + csize];
        assert flat[..pos] + data[pos..pos + csize] == flat[..pos + csize];
        NextChunk(flat, pos, csize, chunkSize, parts, n);
        HoldsSnoc(chunks, id, parts[..n], parts[n]);
        SameElsewhereStep(old(chunks), chunks, id, n, Chunk(GENERIC, parts[n]));
        var inserted := InsertChunk(id, n, data[pos..pos + csize]);
        if !inserted {
          assert HoldsFirst(chunks, id, parts) by { assert Holds(chunks, id, parts[..n]); }
          return false, chk;
        }
        pos := pos + csize;
        n := n + 1;
      }
      NoChunks(chunkSize);
      assert flat[pos..] == [];
      assert parts[..n] == parts && flat[..pos] == flat;
      return true, chk;
    }

    // mongo_sync_gridfs_chunked_file_new_from_buffer with a new id.
    method UploadBuffer(metadata: Bson?, ghost user: seq<Element>, oid: bytes, date: int, data: bytes, size: int)
      returns (ok: bool)
      requires size <= |data| && chunkSize >= 1 && |oid| == 12 && Holds(chunks, oid, [])
      requires metadata != null ==> metadata.Holds(user) && IsInt32(|EncDoc(user)|)
      requires metadata == null ==> user == []
      modifies this
      ensures chunkSize == old(chunkSize) && SameElsewhere(old(chunks), chunks, oid)
      ensures size <= 0 ==> !ok && chunks == old(chunks) && files == old(files)
      ensures ok ==> Holds(chunks, oid, Chunks(data[..size], chunkSize))
      ensures ok ==>
                var md5 := UpToNul(digest(data[..size]));
                files == old(files)[oid := EncDoc(ChunkedDocument(user, oid, size, chunkSize, date, md5))]
      // A failed upload leaves some first chunks behind, and no file document.
      ensures size > 0 && !ok ==>
                && files == old(files)
                && HoldsFirst(chunks, oid, Chunks(data[..size], chunkSize))
      ensures size > 0 && false !in old(outcomes) ==> ok
    {
      hide Chunks, Holds, SameElsewhere, EncDoc, ChunkedDocument;
      SameElsewhereSame(chunks, oid);
      if size <= 0 { return false; }
      var stored, chk := UploadChunks(oid, data, size);
      if !stored { return false; }
      var meta := ChunkedMeta(metadata, user, oid, size, chunkSize, date, digest(chk));
      ok := InsertFile(oid, meta);
      ghost var parts := Chunks(data[..size], chunkSize);
      assert parts[..|parts|] == parts;
    }
  }

  lemma {:induction false} NextChunk(flat: bytes, pos: nat, csize: nat, cs: nat, parts: seq<bytes>, n: nat)
    requires cs > 0 && pos < |flat| && csize == Min(cs, |flat| - pos)
    requires n <= |parts| && parts[n..] == Chunks(flat[pos..], cs)
    ensures n < |parts| && parts[n] == flat[pos..pos + csize]
    ensures parts[n + 1..] == Chunks(flat[pos + csize..], cs)
    ensures parts[..n + 1] == parts[..n] + [parts[n]]
  {
  }

  lemma {:induction false} NoChunks(cs: nat)
    requires cs > 0
    ensures Chunks([], cs) == []
  {
  }

  lemma SameElsewhereSame(chunks: ChunkMap, id: bytes)
    ensures SameElsewhere(chunks, chunks, id)
  {
  }

  lemma SameElsewhereStep(before: ChunkMap, after: ChunkMap, id: bytes, n: int, c: Chunk)
    requires SameElsewhere(before, after, id)
    ensures SameElsewhere(before, after[(id, n) := c], id)
  {
  }

  lemma HoldsSnoc(chunks: ChunkMap, id: bytes, parts: seq<bytes>, data: bytes)
    requires Holds(chunks, id, parts)
    ensures Holds(chunks[(id, |parts|) := Chunk(GENERIC, data)], id, parts + [data])
  {
  }

  // mongo_sync_gridfs_chunked_file_cursor_get_chunk: the payload, without the inner length of
  // the legacy subtype.
  function ChunkPayload(c: Chunk): Option<bytes> {
    if c.subtype == GENERIC then Some(c.data)
    else if c.subtype == LEGACY && |c.data| >= 4 then Some(c.data[4..])
    else None
  }

  // Reading all chunks of a file in the order of n.
  function ReadChunks(chunks: ChunkMap, id: bytes, n: nat, count: nat): Option<bytes>
    requires n <= count
    decreases count - n
  {
    if n == count then Some([])
    else if (id, n) !in chunks then None
    else
      var first, rest := ChunkPayload(chunks[(id, n)]), ReadChunks(chunks, id, n + 1, count);
      if first.None? || rest.None? then None else Some(first.value + rest.value)
  }

  lemma {:induction false} ReadChunksOfFile(chunks: ChunkMap, id: bytes, parts: seq<bytes>, n: nat)
    requires Holds(chunks, id, parts) && n <= |parts|
    ensures ReadChunks(chunks, id, n, |parts|) == Some(Concat(parts[n..]))
    decreases |parts| - n
  {
    if n < |parts| {
      ReadChunksOfFile(chunks, id, parts, n + 1);
      assert parts[n..] == [parts[n]] + parts[n + 1..];
    }
  }

  // A file stored as the chunks of data is read back as data, chunk by chunk, for as many
  // chunks as are advertised.
  lemma {:induction false} DownloadIsUpload(chunks: ChunkMap, id: bytes, data: bytes, cs: nat)
    requires cs > 0 && Holds(chunks, id, Chunks(data, cs))
    ensures FileGetChunks(|data|, cs) >= 0
    ensures ReadChunks(chunks, id, 0, FileGetChunks(|data|, cs)) == Some(data)
  {
    ChunkCountAdvertised(data, cs);
    ReadChunksOfFile(chunks, id, Chunks(data, cs), 0);
    ConcatChunks(data, cs);
    assert Chunks(data, cs)[0..] == Chunks(data, cs);
  }
}
