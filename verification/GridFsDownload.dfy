/** Downloading a GridFS file: its chunk documents, in order, through the result cursor. */
module GridFsDownload {
  import opened Bytes
  import opened Sequences
  import opened BsonFormat
  import opened BsonObject
  import opened BsonCursors
  import opened Wire
  import opened SyncCursors
  import opened GridFsMeta
  import opened GridFs

  const FILES_ID: bytes := [102, 105, 108, 101, 115, 95, 105, 100]  // "files_id"
  const N: bytes := [110]                                           // "n"
  const DATA: bytes := [100, 97, 116, 97]                           // "data"

  /** Chunk documents */

  function ChunkDocument(id: bytes, n: int, c: Chunk): seq<Element> {
    [Element(FILES_ID, Oid(id)), Element(N, Int64(n)), Element(DATA, Binary(c.subtype, c.data))]
  }

  lemma ChunkKeys(id: bytes, n: int, c: Chunk)
    ensures ChunkDocument(id, n, c) == [Element(Ascii("files_id"), Oid(id)), Element(Ascii("n"), Int64(n)),
                                        Element(Ascii("data"), Binary(c.subtype, c.data))]
  {
    assert FILES_ID == Ascii("files_id") && N == Ascii("n") && DATA == Ascii("data");
  }

  // The chunk document that both uploaders insert.
  method BuildChunk(id: bytes, n: int, data: bytes) returns (b: Bson)
    requires |id| == 12 && data != []
    ensures fresh(b) && b.Holds(ChunkDocument(id, n, Chunk(GENERIC, data)))
  {
    hide EncDoc, EncElem;
    ghost var es := ChunkDocument(id, n, Chunk(GENERIC, data));
    assert [] + [es[0]] + [es[1]] + [es[2]] == es && data[..|data|] == data;
    b := new Bson();
    DraftGrows(b.data, [], es[0]);
    var _ := b.AppendOid(FILES_ID, id);
    DraftGrows(b.data, [] + [es[0]], es[1]);
    var _ := b.AppendInt64Element(TYPE_INT64, N, n);
    DraftGrows(b.data, [] + [es[0]] + [es[1]], es[2]);
    var _ := b.AppendBinary(DATA, GENERIC, data, |data|);
    FinishDraft(b, es);
  }

  // What get_chunk makes of a document.
  function Payload(es: seq<Element>): Option<bytes> {
    var k := FirstIn(es, DATA, 0, |es|);
    if k.None? || !es[k.value].value.Binary? then None
    else ChunkPayload(Chunk(es[k.value].value.subtype, es[k.value].value.data))
  }

  lemma PayloadOfChunk(id: bytes, n: int, c: Chunk)
    ensures Payload(ChunkDocument(id, n, c)) == ChunkPayload(c)
    ensures !LooksLikeError(ChunkDocument(id, n, c))
  {
    FirstIsUnique(ChunkDocument(id, n, c), DATA, 0, 3, 2);
    NotThere(ChunkDocument(id, n, c), ERR, 0);
    NotThere(ChunkDocument(id, n, c), ERRMSG, 0);
  }

  lemma FirstOne(es: seq<Element>, name: bytes)
    ensures var r := FirstIn(es, name, 0, |es|);
            && (r.None? <==> forall e | e in es :: e.key != name)
            && forall k | FirstWithKey(es, name, k) :: r == Some(k)
  {
    hide FirstIn;
    var r := FirstIn(es, name, 0, |es|);
    if r.Some? { assert es[r.value] in es; }
    forall k | FirstWithKey(es, name, k)
      ensures r == Some(k)
    {
      assert r.Some? && !(r.value < k) && !(k < r.value);
    }
  }

  // mongo_sync_gridfs_chunked_file_cursor_get_chunk.
  method GetChunk(cursor: SyncCursor) returns (r: Option<bytes>)
    requires cursor.Valid()
    ensures r == if cursor.offset < 0 then None else Payload(cursor.batch[cursor.offset])
    // By the first "data": all of a binary of subtype 0, all but four bytes of one of subtype 2.
    ensures cursor.offset >= 0 ==>
              var es, data := cursor.batch[cursor.offset], [100, 97, 116, 97];
              && ((forall e | e in es :: e.key != data) ==> r == None)
              && forall k | FirstWithKey(es, data, k) ::
                   match es[k].value
                   case Binary(subtype, d) =>
                     r == if subtype == 0 then Some(d)
                          else if subtype == 2 && |d| >= 4 then Some(d[4..])
                          else None
                   case _ => r == None
  {
    hide EncDoc, WellFormed, ReplyHeaderBytes, Concat, FirstIn, LooksLikeError;
    if cursor.offset >= 0 { FirstOne(cursor.batch[cursor.offset], DATA); }
    var b := cursor.GetData();
    if b == null { return None; }
    ghost var es := cursor.batch[cursor.offset];
    assert es in cursor.batch;
    var c := BsonCursor.FindFirst(b, DATA, es);
    if c == null { return None; }
    var ok, subtype, data := c.GetBinary();
    if !ok { return None; }
    if subtype == GENERIC { return Some(data); }
    if subtype == LEGACY && |data| >= 4 { return Some(data[4..]); }
    return None;
  }

  /** Whole files */

  // The server's answer to the query for a file's chunks, ordered by n.
  ghost function Ordered(chunks: ChunkMap, id: bytes, n: nat, count: nat): Docs
    requires n <= count && forall k | n <= k < count :: (id, k) in chunks
    decreases count - n
  {
    if n == count then []
    else [ChunkDocument(id, n, chunks[(id, n)])] + Ordered(chunks, id, n + 1, count)
  }

  // The payloads of a run of documents, None if one of them has none.
  function Payloads(docs: Docs): Option<bytes> {
    if docs == [] then Some([])
    else
      var first, rest := Payload(docs[0]), Payloads(docs[1..]);
      if first.None? || rest.None? then None else Some(first.value + rest.value)
  }

  lemma {:induction false} PayloadsOrdered(chunks: ChunkMap, id: bytes, n: nat, count: nat)
    requires n <= count && forall k | n <= k < count :: (id, k) in chunks
    ensures Payloads(Ordered(chunks, id, n, count)) == ReadChunks(chunks, id, n, count)
    ensures forall d | d in Ordered(chunks, id, n, count) :: !LooksLikeError(d)
    decreases count - n
  {
    hide Payload, LooksLikeError, ChunkDocument;
    if n < count {
      PayloadOfChunk(id, n, chunks[(id, n)]);
      PayloadsOrdered(chunks, id, n + 1, count);
      assert Ordered(chunks, id, n, count)[1..] == Ordered(chunks, id, n + 1, count);
    }
  }

  // Documents that do not look like errors arrive, however the server cuts them.
  lemma {:induction false} GoodBatchesArrive(batches: seq<Batch>)
    requires forall b | b in batches :: b.docs != [] && b.answers && !NoCursor(b.flags)
    requires forall d | d in ResultSet(batches) :: !LooksLikeError(d)
    ensures Arriving(batches) == ResultSet(batches)
  {
    hide LooksLikeError, ReportsError;
    forall b | b in batches
      ensures !ReportsError(b.docs[0])
    {
      InResultSet(batches, b);
      ErrorReports(b.docs[0]);
    }
    ArrivingComplete(batches);
  }

  lemma {:induction false} InResultSet(batches: seq<Batch>, b: Batch)
    requires b in batches && b.docs != []
    ensures b.docs[0] in ResultSet(batches)
  {
    if b != batches[0] { InResultSet(batches[1..], b); }
  }

  function Prepend(out: bytes, r: Option<bytes>): Option<bytes> {
    if r.None? then None else Some(out + r.value)
  }

  lemma PrependNothing(r: Option<bytes>)
    ensures Prepend([], r) == r
  {
    assert r.Some? ==> [] + r.value == r.value;
  }

  lemma PayloadStep(out: bytes, x: seq<Element>, rest: Docs)
    ensures Payload(x).None? ==> Prepend(out, Payloads([x] + rest)).None?
    ensures Payload(x).Some? ==>
              Prepend(out, Payloads([x] + rest)) == Prepend(out + Payload(x).value, Payloads(rest))
  {
    hide Payload;
    assert ([x] + rest)[1..] == rest;
    if Payload(x).Some? && Payloads(rest).Some? { Associate(out, Payload(x).value, Payloads(rest).value); }
  }

  lemma PayloadsEnd(out: bytes)
    ensures Prepend(out, Payloads([])) == Some(out)
  {
    assert out + [] == out;
  }

  // Stepping a cursor and putting the chunks together, until the end or a document without one.
  method Download(cursor: SyncCursor) returns (r: Option<bytes>)
    requires cursor.Valid()
    modifies cursor, cursor.server
    ensures r == Payloads(old(cursor.Remaining()))
  {
    hide EncDoc, WellFormed, Concat, LooksLikeError, ReplyHeaderBytes, Arriving, Payload, Payloads, Prepend, AllSound,
      Encodings;
    ghost var all := cursor.Remaining();
    ghost var rest := all;
    var out := [];
    PrependNothing(Payloads(all));
    var more := cursor.Next();
    while more
      invariant more ==> cursor.Valid() && cursor.offset >= 0
      invariant more ==> [cursor.batch[cursor.offset]] + cursor.Remaining() == rest
      invariant !more ==> rest == []
      invariant Payloads(all) == Prepend(out, Payloads(rest))
      decreases |rest|, more
    {
      var chunk := GetChunk(cursor);
      PayloadStep(out, cursor.batch[cursor.offset], cursor.Remaining());
      if chunk.None? { return None; }
      rest := cursor.Remaining();
      out := out + chunk.value;
      more := cursor.Next();
    }
    PayloadsEnd(out);
    return Some(out);
  }

  // An uploaded file comes back whole through the cursor, however the server cuts the ordered
  // chunk documents into non-empty batches.
  method DownloadFile(server: Server, packet: Packet, ghost h: ReplyHeader, ghost first: Docs,
                      ghost chunks: ChunkMap, ghost id: bytes, ghost data: bytes, ghost cs: nat)
    returns (r: Option<bytes>)
    requires cs > 0 && GridFs.Holds(chunks, id, Chunks(data, cs))
    requires server.Valid() && AllSound(first) && first != [] && IsReply(packet, h, Encodings(first))
    requires forall b | b in server.pending :: b.docs != [] && b.answers && !NoCursor(b.flags)
    requires first + ResultSet(server.pending) == Ordered(chunks, id, 0, |Chunks(data, cs)|)
    modifies server
    ensures r == Some(data)
  {
    hide Arriving, Payloads, LooksLikeError, Chunks, ReadChunks, Ordered, FileGetChunks, EncDoc, WellFormed,
      ReplyHeaderBytes;
    PayloadsOrdered(chunks, id, 0, |Chunks(data, cs)|);
    ChunkCountAdvertised(data, cs);
    DownloadIsUpload(chunks, id, data, cs);
    assert forall d | d in ResultSet(server.pending) :: d in first + ResultSet(server.pending);
    GoodBatchesArrive(server.pending);
    var cursor := new SyncCursor(server, packet, h, first);
    r := Download(cursor);
  }
}
