/** The result cursor, which stitches the batches of a server into one stream. */
module SyncCursors {
  import opened Bytes
  import opened Sequences
  import opened BsonFormat
  import opened BsonObject
  import opened BsonCursors
  import opened Wire

  type Docs = seq<seq<Element>>

  // "err" and "errmsg".
  const ERR: bytes := [101, 114, 114]
  const ERRMSG: bytes := [101, 114, 114, 109, 115, 103]

  ghost function Encodings(docs: Docs): (ds: seq<bytes>)
    ensures |ds| == |docs|
    ensures forall i | 0 <= i < |docs| :: ds[i] == EncDoc(docs[i])
  {
    seq(|docs|, i requires 0 <= i < |docs| => EncDoc(docs[i]))
  }

  ghost predicate AllSound(docs: Docs) { forall d | d in docs :: Sound(d) }

  // The error key of a document: "err" if it has one, else "errmsg".
  function ErrorKey(es: seq<Element>): (r: Option<nat>)
    ensures r.Some? ==> r.value < |es|
  {
    var r := FirstIn(es, ERR, 0, |es|);
    if r.Some? then r else FirstIn(es, ERRMSG, 0, |es|)
  }

  // The document is taken as an error report: its error key holds null or a string.
  predicate LooksLikeError(es: seq<Element>) {
    var k := ErrorKey(es);
    k.Some? && (es[k.value].value.Null? || es[k.value].value.Str?)
  }

  // Element k is the first one with that key.
  ghost predicate FirstWithKey(es: seq<Element>, name: bytes, k: int) {
    0 <= k < |es| && es[k].key == name && forall j | 0 <= j < k :: es[j].key != name
  }

  // The same, key by key and type by type: there is a string (2) or a null (10) under the first
  // "err" or, if there is no "err" at all, under the first "errmsg".
  ghost predicate ReportsError(es: seq<Element>) {
    var err, errmsg := [101, 114, 114], [101, 114, 114, 109, 115, 103];
    || (exists k :: FirstWithKey(es, err, k) && TypeOf(es[k].value) in {2, 10})
    || ((forall e | e in es :: e.key != err)
        && exists k :: FirstWithKey(es, errmsg, k) && TypeOf(es[k].value) in {2, 10})
  }

  lemma {:induction false} ErrorReports(es: seq<Element>)
    ensures LooksLikeError(es) <==> ReportsError(es)
  {
    hide FirstIn;
    var r := FirstIn(es, ERR, 0, |es|);
    if r.Some? {
      assert FirstWithKey(es, ERR, r.value);
      assert es[r.value] in es;
    } else {
      var s := FirstIn(es, ERRMSG, 0, |es|);
      if s.Some? { assert FirstWithKey(es, ERRMSG, s.value); }
    }
  }

  // _mongo_sync_get_error: whether the error key could be read.
  method GetError(b: Bson, ghost es: seq<Element>) returns (found: bool)
    requires b.Holds(es) && Sound(es)
    ensures found == LooksLikeError(es) == ReportsError(es)
  {
    hide FirstIn, ReportsError, EncDoc, EncElems, EncElem, WellFormed;
    ErrorReports(es);
    var c := BsonCursor.FindFirst(b, ERR, es);
    if c == null {
      c := BsonCursor.FindFirst(b, ERRMSG, es);
      if c == null { return false; }
    }
    c.TypeOfElement();
    var t := c.Type();
    return t == TYPE_NONE || t == TYPE_NULL || t == TYPE_STRING;
  }

  // A reply of the server to a get_more; answers is whether it carries the id of that request.
  datatype Batch = Batch(docs: Docs, flags: int, cursorId: int, start: int, answers: bool)

  // MONGO_REPLY_FLAG_NO_CURSOR, the lowest bit.
  predicate NoCursor(flags: int) { flags % 2 == 1 }

  // A batch reaches the client unless it answers another request, the server has lost the
  // cursor, it is empty or its first document looks like an error.
  predicate Arrives(b: Batch) {
    b.answers && !NoCursor(b.flags) && b.docs != [] && !LooksLikeError(b.docs[0])
  }

  // The documents that arrive when batch after batch is fetched until one does not.
  function Arriving(batches: seq<Batch>): Docs {
    if batches == [] || !Arrives(batches[0]) then []
    else batches[0].docs + Arriving(batches[1..])
  }

  function ResultSet(batches: seq<Batch>): Docs {
    if batches == [] then [] else batches[0].docs + ResultSet(batches[1..])
  }

  // However a result set is cut into non-empty batches, all of it arrives exactly when each one
  // answers its request, the server keeps the cursor and no batch starts with a document that looks like an error.
  lemma {:induction false} ArrivingComplete(batches: seq<Batch>)
    requires forall b | b in batches :: b.docs != []
    ensures Arriving(batches) == ResultSet(batches) <==>
              forall b | b in batches :: b.answers && b.flags % 2 == 0 && !ReportsError(b.docs[0])
  {
    hide LooksLikeError, ReportsError;
    forall b | b in batches
      ensures LooksLikeError(b.docs[0]) <==> ReportsError(b.docs[0])
    {
      ErrorReports(b.docs[0]);
    }
    if batches != [] {
      var first, rest := batches[0], batches[1..];
      assert forall b | b in rest :: b in batches;
      ArrivingComplete(rest);
      assert first in batches;
      assert forall b | b in batches :: b == first || b in rest;
      SameRest(first.docs, Arriving(rest), ResultSet(rest));
    }
  }

  // Whatever is in the way, the batches before the first one that does not arrive do, and only these.
  lemma {:induction false} ArrivingPrefix(batches: seq<Batch>) returns (n: nat)
    ensures n <= |batches| && Arriving(batches) == ResultSet(batches[..n])
    ensures forall i | 0 <= i < n ::
              var b := batches[i]; b.answers && b.flags % 2 == 0 && b.docs != [] && !ReportsError(b.docs[0])
    ensures n < |batches| ==>
              var b := batches[n]; !(b.answers && b.flags % 2 == 0 && b.docs != [] && !ReportsError(b.docs[0]))
  {
    hide LooksLikeError, ReportsError;
    n := 0;
    if batches != [] {
      if batches[0].docs != [] { ErrorReports(batches[0].docs[0]); }
      if Arrives(batches[0]) {
        var m := ArrivingPrefix(batches[1..]);
        n := m + 1;
        assert batches[..n][1..] == batches[1..][..m];
      }
    }
  }

  lemma {:induction false} ResultSetIsConcat(batches: seq<Batch>)
    ensures ResultSet(batches) == Concat(seq(|batches|, i requires 0 <= i < |batches| => batches[i].docs))
  {
    if batches != [] {
      var parts := seq(|batches|, i requires 0 <= i < |batches| => batches[i].docs);
      var rest := batches[1..];
      ResultSetIsConcat(rest);
      assert parts[1..] == seq(|rest|, i requires 0 <= i < |rest| => rest[i].docs);
    }
  }

  lemma SameRest<T>(a: seq<T>, x: seq<T>, y: seq<T>)
    ensures a + x == a + y <==> x == y
  {
    assert (a + x)[|a|..] == x && (a + y)[|a|..] == y;
  }

  function HeaderOf(b: Batch): ReplyHeader { ReplyHeader(b.flags, b.cursorId, b.start, |b.docs|) }

  // The server side of one query: the batches it has not handed out, and the get_more requests
  // it got, each with the batch size and the cursor id asked for.
  class Server {
    var pending: seq<Batch>
    var requests: seq<(int, int)>
    var requestId: int

    constructor (pending: seq<Batch>)
      ensures this.pending == pending && requests == []
    {
      this.pending, requests, requestId := pending, [], 0;
    }

    ghost predicate Valid()
      reads this
    {
      forall b | b in pending ::
        AllSound(b.docs) && IsInt32(|b.docs|) && IsInt32(b.flags) && IsInt64(b.cursorId) && IsInt32(b.start)
    }

    // mongo_sync_cmd_get_more: no packet at the end, without the cursor, for an empty batch, or
    // for an error.
    method GetMore(ret: int, cid: int) returns (p: Packet?, ghost batch: Batch)
      requires Valid()
      modifies this
      ensures Valid()
      ensures requests == old(requests) + [(ret, cid)]
      ensures pending == if old(pending) == [] then [] else old(pending)[1..]
      ensures p != null <==> old(pending) != [] && Arrives(old(pending)[0])
      ensures p != null <==>
                old(pending) != [] &&
                var b := old(pending)[0];
                b.answers && b.flags % 2 == 0 && b.docs != [] && !ReportsError(b.docs[0])
      ensures p != null ==>
                && batch == old(pending)[0]
                && fresh(p) && p.data != null && fresh(p.data)
                && IsReply(p, HeaderOf(batch), Encodings(batch.docs))
    {
      hide EncDoc, WellFormed, LooksLikeError, ReportsError, ReplyHeaderBytes;
      var rid := requestId + 1;
      requestId := rid;
      requests := requests + [(ret, cid)];
      batch := Batch([], 0, 0, 0, false);
      if pending == [] { return null, batch; }
      var b := pending[0];
      if b.docs != [] { ErrorReports(b.docs[0]); }
      assert b in pending;
      batch := b;
      pending := pending[1..];
      p := Reply(b, rid);
      if p.header.respTo != rid { return null, batch; }
      EncodingsFramed(b.docs);
      var _, rh := GetReplyHeader(p, HeaderOf(b), Encodings(b.docs));
      if NoCursor(rh.flags) || rh.returned == 0 { return null, batch; }
      var bad := CheckError(p, b);
      if bad { p := null; }
    }

    method Reply(b: Batch, rid: int) returns (p: Packet)
      requires AllSound(b.docs) && IsInt32(|b.docs|) && IsInt32(b.flags) && IsInt64(b.cursorId) && IsInt32(b.start)
      ensures fresh(p) && p.data != null && fresh(p.data)
      ensures IsReply(p, HeaderOf(b), Encodings(b.docs)) && (p.header.respTo == rid <==> b.answers)
    {
      var h, docs := HeaderOf(b), b.docs;
      var area := [];
      assert Encodings(docs)[..0] == [];
      for i := 0 to |docs|
        invariant area == Concat(Encodings(docs)[..i])
      {
        area := area + EncDoc(docs[i]);
        PrefixSnoc(Encodings(docs), i);
      }
      assert Encodings(docs)[..|docs|] == Encodings(docs);
      var body := ReplyHeaderBytes(h) + area;
      var data := NewBuffer(|body|);
      MemCpy(data, 0, body);
      assert data[..] == body by { assert data[..0] == [] && data[..|body|] == data[..]; }
      var respTo := if b.answers then rid else rid - 1;
      p := new Packet(PacketHeader(PACKET_HEADER_SIZE + |body|, 0, respTo, OP_REPLY), data, |body|);
      EncodingsFramed(docs);
    }

    // _mongo_sync_packet_check_error without the "ok" check: true if the packet is dropped.
    method CheckError(p: Packet, b: Batch) returns (bad: bool)
      requires AllSound(b.docs) && b.docs != []
      requires IsReply(p, HeaderOf(b), Encodings(b.docs))
      ensures bad == LooksLikeError(b.docs[0]) == ReportsError(b.docs[0])
    {
      hide EncDoc, WellFormed, LooksLikeError, ReportsError, ReplyHeaderBytes, FinishedData;
      var ok, first := GetNthDocument(p, 1, HeaderOf(b), Encodings(b.docs));
      DocumentFinishes(b.docs, 0);
      first.Finish();
      bad := GetError(first, b.docs[0]);
    }
  }

  lemma {:induction false} EncodingsFramed(docs: Docs)
    requires AllSound(docs)
    ensures AllFramed(Encodings(docs))
  {
    hide EncDoc;
    forall d | d in Encodings(docs)
      ensures Framed(d)
    {
      var i :| 0 <= i < |docs| && d == Encodings(docs)[i];
      assert docs[i] in docs;
      EncodedIsFramed(docs[i]);
    }
  }

  // What get_nth_document returns becomes the document again when it is finished.
  lemma {:induction false} DocumentFinishes(docs: Docs, i: nat)
    requires AllSound(docs) && i < |docs|
    ensures Sound(docs[i])
    ensures |ButLast(Encodings(docs)[i])| >= 4
    ensures FinishedData(ButLast(Encodings(docs)[i])) == EncDoc(docs[i])
  {
  }

  class SyncCursor {
    const server: Server
    var results: Packet?
    var offset: int
    var ph: ReplyHeader
    ghost var batch: Docs  // the documents of the current results

    ghost predicate Valid()
      reads this, server, results, if results == null then null else results.data
    {
      && server.Valid() && AllSound(batch)
      && results != null && results.data != null && IsReply(results, ph, Encodings(batch))
      && -1 <= offset < |batch|
    }

    // The documents that are still to come.
    ghost function Remaining(): Docs
      requires -1 <= offset < |batch|
      reads this, server
    {
      batch[offset + 1..] + Arriving(server.pending)
    }

    // A new cursor stands in front of the first document of the query's reply.
    constructor (server: Server, packet: Packet, ghost h: ReplyHeader, ghost docs: Docs)
      requires server.Valid() && AllSound(docs) && docs != [] && IsReply(packet, h, Encodings(docs))
      ensures Valid() && this.server == server && results == packet && ph == h && batch == docs
      ensures Remaining() == docs + Arriving(server.pending)
    {
      this.server := server;
      results := packet;
      offset := -1;
      batch := docs;
      ph := ReplyHeader(0, 0, 0, 0);
      new;
      var ok, hdr := GetReplyHeader(packet, h, Encodings(docs));
      ph := hdr;
      assert batch[0..] == docs;
    }

    // Replaces the used-up results by the next batch.
    method Fetch() returns (ok: bool)
      requires Valid() && offset == |batch| - 1
      modifies this, server
      ensures ok == (old(Arriving(server.pending)) != [])
      ensures ok ==> Valid() && offset == -1 && batch != []
      ensures ok ==> ph == HeaderOf(old(server.pending)[0])
      ensures ok ==> ph.cursorId == old(server.pending)[0].cursorId && ph.returned == |batch|
      ensures ok ==> batch == old(server.pending)[0].docs
      ensures ok ==> Remaining() == old(Arriving(server.pending))
      ensures ok ==> fresh(results) && fresh(results.data)
      ensures server.requests == old(server.requests) + [(|old(batch)|, old(ph.cursorId))]
      ensures !ok ==> results == null && offset == -1
    {
      hide Sound, EncDoc, Concat, LooksLikeError, ReplyHeaderBytes;
      var ret, cid := ph.returned, ph.cursorId;
      offset := -1;
      ghost var b;
      results, b := server.GetMore(ret, cid);
      if results == null { return false; }
      batch := b.docs;
      assert batch[0..] == b.docs;
      var _, hdr := GetReplyHeader(results, HeaderOf(b), Encodings(b.docs));
      ph := hdr;
      return true;
    }

    method Next() returns (ok: bool)
      requires Valid()
      modifies this, server
      ensures ok == (old(Remaining()) != [])
      ensures ok ==>
                && Valid() && 0 <= offset
                && [batch[offset]] + Remaining() == old(Remaining())
      ensures ok ==> results == old(results) || (fresh(results) && fresh(results.data))
      // get_more is asked for the next batch exactly when the current one is used up.
      ensures server.requests == old(server.requests) +
                if old(offset) == |old(batch)| - 1 then [(|old(batch)|, old(ph.cursorId))] else []
      ensures !ok ==> results == null && offset == -1
    {
      hide Sound, EncDoc, Concat, LooksLikeError, ReplyHeaderBytes, Arriving, Encodings;
      if offset >= ph.returned - 1 {
        assert Remaining() == Arriving(server.pending);
        ok := Fetch();
        if !ok { return; }
      }
      Advance();
      return true;
    }

    method Advance()
      requires Valid() && offset + 1 < |batch|
      modifies this`offset
      ensures Valid() && offset == old(offset) + 1
      ensures [batch[offset]] + Remaining() == old(Remaining())
    {
      hide Sound, EncDoc, Concat, ReplyHeaderBytes, Arriving, Encodings;
      offset := offset + 1;
      assert batch[offset..] == [batch[offset]] + batch[offset + 1..];
    }

    // The document under the cursor, finished; nothing before the first step.
    method GetData() returns (doc: Bson?)
      requires Valid()
      ensures doc != null <==> offset >= 0
      ensures doc != null ==> fresh(doc) && doc.Holds(batch[offset])
    {
      hide EncDoc, Concat, ReplyHeaderBytes, FinishedData;
      var ok, b := GetNthDocument(results, offset + 1, ph, Encodings(batch));
      if !ok { return null; }
      DocumentFinishes(batch, offset);
      b.Finish();
      return b;
    }

    // Stepping and reading until the first FALSE delivers every arriving document exactly once,
    // in order.
    method Drain() returns (out: seq<bytes>)
      requires Valid()
      modifies this, server
      ensures out == Encodings(old(Remaining()))
    {
      hide Sound, EncDoc, Concat, LooksLikeError, ReplyHeaderBytes, Arriving;
      ghost var all := Remaining();
      ghost var done := 0;
      out := [];
      var more := Next();
      while more
        invariant more ==> Valid() && 0 <= offset && done < |all| && [batch[offset]] + Remaining() == all[done..]
        invariant !more ==> done == |all|
        invariant done <= |all| && out == Encodings(all)[..done]
        decreases |all| - done, more
      {
        var doc := GetData();
        HeadAndRest(batch[offset], Remaining(), all, done);
        out := out + [doc.data];
        done := done + 1;
        more := Next();
      }
    }
  }

  lemma {:induction false} HeadAndRest(x: seq<Element>, rest: Docs, all: Docs, k: nat)
    requires k < |all| && [x] + rest == all[k..]
    ensures x == all[k] && rest == all[k + 1..]
    ensures Encodings(all)[..k + 1] == Encodings(all)[..k] + [EncDoc(x)]
  {
  }
}
