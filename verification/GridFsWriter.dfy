/** The GridFS stream writer: a buffer of one chunk in front of the store. */
module GridFsWriter {
  import opened Arithmetic
  import opened Bytes
  import opened Sequences
  import opened BsonFormat
  import opened BsonObject
  import opened Wire
  import opened GridFsMeta
  import opened GridFs

  lemma Successor(n: nat, c: nat)
    ensures (n + 1) * c == n * c + c
  {
  }

  lemma {:induction false} SizeOfParts(parts: seq<bytes>, cs: nat)
    requires AllOfSize(parts, cs)
    ensures |Concat(parts)| == |parts| * cs
  {
    if parts != [] {
      var rest := parts[1..];
      assert |parts[0]| == cs by { assert parts[0] in parts; }
      SizeOfParts(rest, cs);
      Successor(|rest|, cs);
    }
  }

  class StreamWriter {
    const store: Store
    const id: bytes
    const chunkSize: int
    var length: int
    var offset: int
    var currentChunk: int
    const buffer: array<byte>
    var bufferOffset: int
    const metadata: Bson?
    ghost const base: seq<Element>  // the user's metadata with an "_id"
    var checksum: bytes          // the bytes fed to the MD5 checksum
    ghost var accepted: bytes    // the bytes taken from the caller so far
    ghost var parts: seq<bytes>  // the chunks stored so far

    ghost predicate Valid()
      reads this, store, buffer, metadata
    {
      && (metadata != null ==> metadata.Holds(base) && IsInt32(|EncDoc(base)|))
      && chunkSize >= 1 && buffer.Length == chunkSize && 0 <= bufferOffset <= chunkSize
      && AllOfSize(parts, chunkSize) && currentChunk == |parts|
      && Holds(store.chunks, id, parts)
      && accepted == Concat(parts) + buffer[..bufferOffset]
      && checksum == Concat(parts)
      && length == offset == |accepted|
    }

    constructor (store: Store, id: bytes, metadata: Bson?, ghost base: seq<Element>)
      requires metadata != null ==> metadata.Holds(base) && IsInt32(|EncDoc(base)|)
      requires store.chunkSize >= 1 && Holds(store.chunks, id, [])
      ensures Valid() && accepted == [] && bufferOffset == 0 && fresh(buffer)
      ensures this.store == store && this.id == id && chunkSize == store.chunkSize
      ensures this.metadata == metadata && this.base == base
    {
      this.store, this.id, chunkSize := store, id, store.chunkSize;
      this.metadata, this.base := metadata, base;
      length, offset, currentChunk, bufferOffset := 0, 0, 0, 0;
      checksum, accepted, parts := [], [], [];
      buffer := new byte[store.chunkSize];
    }

    // mongo_sync_gridfs_stream_new, for an id without chunks.
    static method New(store: Store, metadata: Bson?, ghost user: seq<Element>, oid: bytes) returns (w: StreamWriter?)
      requires Supplied(metadata, user) && |oid| == 12 && IsInt32(|EncDoc(WithId(user, oid))|)
      requires store.chunkSize >= 1 && (UsableId(user) ==> Holds(store.chunks, FileId(user, oid), []))
      ensures w != null <==> UsableId(user)
      ensures w != null ==>
                && fresh(w) && fresh(w.buffer) && (w.metadata != null ==> fresh(w.metadata))
                && (w.metadata == null <==> metadata == null)
                && w.Valid() && w.accepted == [] && w.bufferOffset == 0
                && w.store == store && w.id == FileId(user, oid) && w.chunkSize == store.chunkSize
                && w.base == WithId(user, oid)
    {
      hide EncDoc, WellFormed, Holds;
      var ok, id, base := OpenMeta(metadata, user, oid);
      if !ok { return null; }
      w := new StreamWriter(store, id, base, WithId(user, oid));
    }

    // The position counters in closed form.
    lemma Position()
      requires Valid()
      ensures length == offset == currentChunk * chunkSize + bufferOffset
    {
      SizeOfParts(parts, chunkSize);
    }

    // Stores the full buffer as the next chunk.
    method Flush() returns (ok: bool)
      requires Valid() && bufferOffset == chunkSize
      modifies this, store`chunks, store`outcomes
      ensures Valid() && accepted == old(accepted)
      ensures ok == old(store.WillSucceed()) && bufferOffset == if ok then 0 else chunkSize
      ensures store.outcomes == if old(store.outcomes) == [] then [] else old(store.outcomes)[1..]
      ensures SameElsewhere(old(store.chunks), store.chunks, id)
      ensures !ok ==> store.chunks == old(store.chunks)
      ensures parts == old(parts) + if ok then [old(buffer[..])] else []
    {
      hide SameElsewhere, Holds, EncDoc;
      ghost var chunk := buffer[..];
      assert buffer[..bufferOffset] == chunk;
      SameElsewhereSame(store.chunks, id);
      SameElsewhereStep(store.chunks, store.chunks, id, currentChunk, Chunk(GENERIC, chunk));
      HoldsSnoc(store.chunks, id, parts, chunk);
      ConcatSnoc(parts, chunk);
      ok := store.InsertChunk(id, currentChunk, buffer[..]);
      if !ok { return false; }
      checksum := checksum + buffer[..];
      bufferOffset := 0;
      currentChunk := currentChunk + 1;
      parts := parts + [chunk];
      assert buffer[..0] == [];
      return true;
    }

    // Copies csize bytes into the buffer.
    method Take(piece: bytes)
      requires Valid() && bufferOffset + |piece| <= chunkSize
      modifies this, buffer
      ensures Valid() && accepted == old(accepted) + piece && parts == old(parts)
      ensures bufferOffset == old(bufferOffset) + |piece|
    {
      hide Holds, EncDoc;
      MemCpy(buffer, bufferOffset, piece);
      bufferOffset := bufferOffset + |piece|;
      offset := offset + |piece|;
      length := length + |piece|;
      accepted := accepted + piece;
      assert buffer[..bufferOffset] == old(buffer[..bufferOffset]) + piece;
      assert checksum + (old(buffer[..bufferOffset]) + piece) == accepted;
    }

    // One turn of the write loop: as much as fits, and a flush when the buffer is full.
    method TakeAndFlush(piece: bytes) returns (ok: bool)
      requires Valid() && bufferOffset + |piece| <= chunkSize
      modifies this, buffer, store`chunks, store`outcomes
      ensures Valid() && accepted == old(accepted) + piece && old(parts) <= parts
      ensures bufferOffset == if !ok then chunkSize
                              else if old(bufferOffset) + |piece| == chunkSize then 0
                              else old(bufferOffset) + |piece|
      ensures ok <==> old(bufferOffset) + |piece| < chunkSize || old(store.WillSucceed())
      ensures !ok ==> store.chunks == old(store.chunks)
      ensures false !in old(store.outcomes) ==> ok && false !in store.outcomes
      ensures SameElsewhere(old(store.chunks), store.chunks, id)
    {
      hide SameElsewhere, Holds, Concat, AllOfSize, EncDoc;
      SameElsewhereSame(store.chunks, id);
      Take(piece);
      if bufferOffset == chunkSize {
        ok := Flush();
        return;
      }
      return true;
    }

    // A failed write has taken a prefix of the data and keeps a full buffer, which the next
    // write stores before it takes more.
    method Write(data: bytes, size: int) returns (ok: bool, ghost taken: nat)
      requires Valid() && size <= |data|
      modifies this, buffer, store`chunks, store`outcomes
      ensures Valid() && taken <= |data| && accepted == old(accepted) + data[..taken]
      ensures size <= 0 ==> !ok && taken == 0 && bufferOffset == old(bufferOffset)
      ensures size <= 0 ==> store.chunks == old(store.chunks) && store.outcomes == old(store.outcomes)
      ensures size > 0 && ok ==> taken == size && bufferOffset < chunkSize
      ensures size > 0 && !ok ==> taken <= size && bufferOffset == chunkSize
      ensures size > 0 && old(bufferOffset) == chunkSize && !old(store.WillSucceed()) ==>
                !ok && taken == 0 && store.chunks == old(store.chunks)
      ensures size > 0 && false !in old(store.outcomes) ==> ok && false !in store.outcomes
      ensures SameElsewhere(old(store.chunks), store.chunks, id)
      ensures old(parts) <= parts
    {
      hide SameElsewhere, Holds, Concat, AllOfSize, EncDoc;
      SameElsewhereSame(store.chunks, id);
      ghost var doomed := bufferOffset == chunkSize && !store.WillSucceed();
      taken := 0;
      if size <= 0 { return false, 0; }
      var pos := 0;
      while pos < size
        invariant 0 <= pos <= size && Valid() && accepted == old(accepted) + data[..pos]
        invariant pos == size ==> bufferOffset < chunkSize
        invariant doomed ==>
                    pos == 0 && bufferOffset == chunkSize && !store.WillSucceed() && store.chunks == old(store.chunks)
        invariant false !in old(store.outcomes) ==> false !in store.outcomes
        invariant SameElsewhere(old(store.chunks), store.chunks, id)
        invariant old(parts) <= parts
        decreases size - pos, bufferOffset
      {
        var csize := chunkSize - bufferOffset;
        if size - pos < csize { csize := size - pos; }
        ghost var before := store.chunks;
        var stored := TakeAndFlush(data[pos..pos + csize]);
        SameElsewhereTrans(old(store.chunks), before, store.chunks, id);
        assert data[..pos] + data[pos..pos + csize] == data[..pos + csize];
        pos := pos + csize;
        if !stored { return false, pos; }
      }
      return true, size;
    }

    // The checksum of the bytes taken so far, as a C string.
    ghost function Md5(): bytes
      reads this
    {
      UpToNul(store.digest(accepted))
    }

    // Closing stores the tail and, only if that was stored, the file document, for which there
    // must be metadata.  It reports success even if the tail could not be stored.
    method Close(date: int) returns (ok: bool)
      requires Valid()
      modifies this, store`chunks, store`files, store`outcomes
      ensures var tail := old(buffer[..bufferOffset]);
              var flushed := tail != [] && old(store.WillSucceed());
              var rest := if old(store.outcomes) == [] then [] else old(store.outcomes)[1..];
              var filed := flushed && metadata != null && (rest == [] || rest[0]);
              && ok == (flushed ==> filed)
              && Holds(store.chunks, id, old(parts) + if flushed then [tail] else [])
              && store.files == if filed
                   then old(store.files)[id := EncDoc(base + OwnKeys(|accepted|, chunkSize, date, Md5()))]
                   else old(store.files)
      ensures accepted == old(accepted)
      ensures SameElsewhere(old(store.chunks), store.chunks, id)
    {
      hide SameElsewhere, Holds, EncDoc, OwnKeys, UpToNul;
      SameElsewhereSame(store.chunks, id);
      var closed := false;
      ghost var tail := buffer[..bufferOffset];
      assert parts + [] == parts;
      if bufferOffset > 0 {
        HoldsSnoc(store.chunks, id, parts, tail);
        SameElsewhereStep(store.chunks, store.chunks, id, currentChunk, Chunk(GENERIC, tail));
        closed := store.InsertChunk(id, currentChunk, buffer[..bufferOffset]);
        if closed { checksum := checksum + buffer[..bufferOffset]; }
      }
      if closed {
        if metadata == null { return false; }
        var meta := CloseMeta(metadata, base, length, chunkSize, date, store.digest(checksum));
        var filed := store.InsertFile(id, meta);
        if !filed { return false; }
      }
      return true;
    }
  }

  lemma SameElsewhereTrans(a: ChunkMap, b: ChunkMap, c: ChunkMap, id: bytes)
    requires SameElsewhere(a, b, id) && SameElsewhere(b, c, id)
    ensures SameElsewhere(a, c, id)
  {
  }

  // A whole upload through the stream: any split of the data into writes, no failed insert.
  // The chunks are those of the one-shot uploader; there is a file document afterwards exactly if
  // the length is not a multiple of the chunk size and there was metadata.
  method UploadStream(store: Store, metadata: Bson?, ghost user: seq<Element>, oid: bytes, date: int,
                      pieces: seq<bytes>)
    returns (ok: bool)
    requires Supplied(metadata, user) && |oid| == 12 && UsableId(user)
    requires IsInt32(|EncDoc(WithId(user, oid))|)
    requires store.chunkSize >= 1 && Holds(store.chunks, FileId(user, oid), []) && FileId(user, oid) !in store.files
    requires false !in store.outcomes
    modifies store
    ensures store.chunkSize == old(store.chunkSize)
    ensures ok <==> metadata != null || |Concat(pieces)| % store.chunkSize == 0
    ensures SameElsewhere(old(store.chunks), store.chunks, FileId(user, oid))
    ensures var id, data := FileId(user, oid), Concat(pieces);
            && Holds(store.chunks, id, Chunks(data, store.chunkSize))
            && (id in store.files <==> |data| % store.chunkSize != 0 && metadata != null)
            && (id in store.files ==>
                  var es := FileDocument(user, oid, |data|, store.chunkSize, date, UpToNul(store.digest(data)));
                  store.files == old(store.files)[id := EncDoc(es)])
  {
    hide SameElsewhere, Holds, Chunks, Concat, EncDoc, WellFormed, WithId, FileId, OwnKeys;
    var w := StreamWriter.New(store, metadata, user, oid);
    WriteAll(w, pieces);
    StreamedChunks(w);
    ghost var before := store.chunks;
    assert w.parts + [] == w.parts;
    ok := w.Close(date);
    SameElsewhereTrans(old(store.chunks), before, store.chunks, w.id);
  }

  // Writes piece after piece; nothing fails.
  method WriteAll(w: StreamWriter, pieces: seq<bytes>)
    requires w.Valid() && w.accepted == [] && w.bufferOffset == 0 && false !in w.store.outcomes
    modifies w, w.buffer, w.store`chunks, w.store`outcomes
    ensures w.Valid() && w.accepted == Concat(pieces) && w.bufferOffset < w.chunkSize
    ensures false !in w.store.outcomes && SameElsewhere(old(w.store.chunks), w.store.chunks, w.id)
  {
    hide SameElsewhere, Holds, AllOfSize;
    SameElsewhereSame(w.store.chunks, w.id);
    EmptyPrefix(pieces);
    for i := 0 to |pieces|
      invariant w.Valid() && w.accepted == Concat(pieces[..i]) && w.bufferOffset < w.chunkSize
      invariant false !in w.store.outcomes
      invariant SameElsewhere(old(w.store.chunks), w.store.chunks, w.id)
    {
      ghost var before := w.store.chunks;
      PrefixSnoc(pieces, i);
      var written, taken := w.Write(pieces[i], |pieces[i]|);
      assert pieces[i][..taken] == pieces[i];
      SameElsewhereTrans(old(w.store.chunks), before, w.store.chunks, w.id);
    }
    assert pieces[..|pieces|] == pieces;
  }

  // What a failure-free writer has in the store and in its buffer.
  lemma StreamedChunks(w: StreamWriter)
    requires w.Valid() && w.bufferOffset < w.chunkSize
    ensures var tail := w.buffer[..w.bufferOffset];
            && Chunks(w.accepted, w.chunkSize) == w.parts + (if tail == [] then [] else [tail])
            && (tail == [] <==> |w.accepted| % w.chunkSize == 0)
  {
    hide Chunks, Concat, Holds;
    ChunksOfParts(w.parts, w.buffer[..w.bufferOffset], w.chunkSize);
    w.Position();
    QuotientUnique(|w.accepted|, w.chunkSize, w.currentChunk, w.bufferOffset);
  }

  // The one-shot uploader and any sequence of writes store the same chunks.  Their file
  // documents have the same keys in another order, and tell a reader the same if the user has
  // neither an "_id" nor a "length".
  method UploadsAgree(a: Store, b: Store, metadata: Bson?, ghost user: seq<Element>, oid: bytes, date: int,
                      pieces: seq<bytes>)
    requires Supplied(metadata, user) && |oid| == 12 && IsInt32(|EncDoc(WithId(user, oid))|)
    requires LeavesOwnKeys(user)
    requires a != b && a.chunkSize == b.chunkSize >= 1 && a.digest == b.digest && Concat(pieces) != []
    requires a.chunks == b.chunks && a.files == b.files && Holds(a.chunks, oid, []) && oid !in a.files
    requires false !in a.outcomes && false !in b.outcomes
    modifies a, b
    ensures a.chunks == b.chunks
    ensures oid in a.files && (oid in b.files <==> |Concat(pieces)| % old(a.chunkSize) != 0 && metadata != null)
    ensures oid in b.files ==>
              var n, cs, md5 := |Concat(pieces)|, old(a.chunkSize), UpToNul(a.digest(Concat(pieces)));
              var c, f := ChunkedDocument(user, oid, n, cs, date, md5), FileDocument(user, oid, n, cs, date, md5);
              && a.files[oid] == EncDoc(c) && b.files[oid] == EncDoc(f)
              && multiset(c) == multiset(f)
              && FindMeta(c) == FindMeta(f) == Some(Meta(oid, n, cs)) && QueryMeta(c) == QueryMeta(f)
  {
    hide Holds, SameElsewhere, Chunks, Concat, EncDoc, WellFormed, FindMeta, QueryMeta, FileDocument, ChunkedDocument;
    ghost var before := a.chunks;
    ghost var data := Concat(pieces);
    var whole := Joined(pieces);
    assert whole[..|whole|] == whole;
    NoId(user, oid);
    ghost var md5 := UpToNul(a.digest(data));
    SameKeys(user, oid, |data|, a.chunkSize, date, md5);
    ChunkedReadBack(user, oid, |data|, a.chunkSize, date, md5);
    MetaReadBack(user, oid, |data|, a.chunkSize, date, md5);
    var ok := a.UploadBuffer(metadata, user, oid, date, whole, |whole|);
    var ok' := UploadStream(b, metadata, user, oid, date, pieces);
    SameChunks(before, a.chunks, b.chunks, oid, Chunks(data, a.chunkSize));
  }

  lemma NoId(user: seq<Element>, oid: bytes)
    requires LeavesOwnKeys(user)
    ensures UsableId(user) && FileId(user, oid) == oid && LengthNotBehindId(user)
  {
  }

  lemma {:induction false} SameKeys(user: seq<Element>, oid: bytes, length: int, chunkSize: int, date: int, md5: bytes)
    requires LeavesOwnKeys(user)
    ensures multiset(ChunkedDocument(user, oid, length, chunkSize, date, md5))
            == multiset(FileDocument(user, oid, length, chunkSize, date, md5))
  {
    assert WithId(user, oid) == user + [Element(ID, Oid(oid))];
  }

  method Joined(pieces: seq<bytes>) returns (data: bytes)
    ensures data == Concat(pieces)
  {
    data := [];
    EmptyPrefix(pieces);
    for i := 0 to |pieces|
      invariant data == Concat(pieces[..i])
    {
      PrefixSnoc(pieces, i);
      data := data + pieces[i];
    }
    assert pieces[..|pieces|] == pieces;
  }

  lemma SameChunks(before: ChunkMap, a: ChunkMap, b: ChunkMap, id: bytes, parts: seq<bytes>)
    requires SameElsewhere(before, a, id) && SameElsewhere(before, b, id)
    requires Holds(a, id, parts) && Holds(b, id, parts)
    ensures a == b
  {
    forall k: (bytes, int)
      ensures k in a <==> k in b
      ensures k in a ==> a[k] == b[k]
    {
      var (i, n) := k;
      if i == id { assert (id, n) in a <==> 0 <= n < |parts|; }
    }
  }
}
