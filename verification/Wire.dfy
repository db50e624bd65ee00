/** Packets of the MongoDB wire protocol: fixed-size buffers filled piece by piece. */
module Wire {
  import opened Bytes
  import opened Sequences
  import opened BsonFormat
  import opened BsonObject

  const PACKET_HEADER_SIZE := 16
  const REPLY_HEADER_SIZE := 20
  const OP_REPLY := 1
  const OP_UPDATE := 2001
  const OP_INSERT := 2002
  const OP_QUERY := 2004

  /** Runs of documents */

  // A document as it travels: its own size in front, a zero byte at the end.
  predicate Framed(d: bytes) {
    |d| >= 5 && IsInt32(|d|) && d[..4] == Le32(|d|) && d[|d| - 1] == 0
  }

  predicate AllFramed(ds: seq<bytes>) { forall d | d in ds :: Framed(d) }

  lemma {:induction false} EncodedIsFramed(es: seq<Element>)
    requires Sound(es)
    ensures Framed(EncDoc(es))
  {
  }

  // Finishing a copy of all but the last byte reproduces a framed document.
  lemma {:induction false} FinishReproduces(d: bytes)
    requires Framed(d)
    ensures FinishedData(ButLast(d)) == d
  {
    assert d[..|d| - 1] + [0] == d;
    assert d == d[..4] + d[4..];
  }

  // All but the closing zero byte, which bson_finish puts back.
  function ButLast(d: bytes): bytes {
    if d == [] then [] else d[..|d| - 1]
  }

  // What the other side does: cut the document area by the sizes in front.
  function Split(area: bytes): Option<seq<bytes>>
    decreases |area|
  {
    if area == [] then Some([])
    else if |area| < 5 then None
    else
      var n := Int32At(area, 0);
      if n < 5 || n > |area| then None
      else
        var rest := Split(area[n..]);
        if rest.None? then None else Some([area[..n]] + rest.value)
  }

  lemma {:induction false} SplitCons(d: bytes, rest: bytes)
    requires Framed(d) && Split(rest).Some?
    ensures Split(d + rest) == Some([d] + Split(rest).value)
  {
    var area := d + rest;
    PrefixRead(area, 0, d, |d|);
    assert area[..|d|] == d && area[|d|..] == rest;
  }

  // Concatenated documents split back into exactly the documents they were made of.
  lemma {:induction false} SplitConcat(ds: seq<bytes>)
    requires AllFramed(ds)
    ensures Split(Concat(ds)) == Some(ds)
  {
    if ds != [] {
      assert ds[0] in ds;
      SplitConcat(ds[1..]);
      SplitCons(ds[0], Concat(ds[1..]));
      assert [ds[0]] + ds[1..] == ds;
    }
  }

  // So no two different runs of documents look the same on the wire.
  lemma {:induction false} ConcatUnique(a: seq<bytes>, b: seq<bytes>)
    requires AllFramed(a) && AllFramed(b) && Concat(a) == Concat(b)
    ensures a == b
  {
    SplitConcat(a);
    SplitConcat(b);
  }

  /** Request bodies and how a server reads them */

  function InsertBody(ns: bytes, ds: seq<bytes>): bytes {
    Le32(0) + (ns + [0]) + Concat(ds)
  }

  function UpdateBody(ns: bytes, flags: int, selector: bytes, update: bytes): bytes {
    Le32(0) + (ns + [0]) + Le32(flags) + selector + update
  }

  function QueryBody(flags: int, ns: bytes, skip: int, ret: int, ds: seq<bytes>): bytes {
    Le32(flags) + (ns + [0]) + Le32(skip) + Le32(ret) + Concat(ds)
  }

  // Flags, namespace, k integers and documents.
  datatype Request = Request(head: int, ns: bytes, ints: seq<int>, docs: seq<bytes>)

  function ReadInts(d: bytes, at: nat, k: nat): seq<int>
    requires at + 4 * k <= |d|
    decreases k
  {
    if k == 0 then [] else [Int32At(d, at)] + ReadInts(d, at + 4, k - 1)
  }

  function ReadRequest(d: bytes, k: nat): Option<Request> {
    if |d| < 4 then None
    else
      var at := 4 + StrLen(d, 4) + 1;
      if at + 4 * k > |d| then None
      else
        var docs := Split(d[at + 4 * k..]);
        if docs.None? then None
        else Some(Request(Int32At(d, 0), CStringAt(d, 4), ReadInts(d, at, k), docs.value))
  }

  // Every packet body of this shape is read back as what it was made of.
  lemma {:induction false} ReadBack(d: bytes, head: int, ns: bytes, mid: bytes, k: nat, ds: seq<bytes>)
    requires IsInt32(head) && NulFree(ns) && AllFramed(ds) && |mid| == 4 * k
    requires d == Le32(head) + (ns + [0]) + mid + Concat(ds)
    ensures var at := 5 + |ns|;
            at + 4 * k <= |d| && d[at..at + 4 * k] == mid
            && ReadRequest(d, k) == Some(Request(head, ns, ReadInts(d, at, k), ds))
  {
    assert d[0..4] == Le32(head);
    Le32Read(head, d, 0);
    assert d[4..4 + |ns| + 1] == ns + [0];
    CStringStored(d, 4, ns);
    SplitConcat(ds);
    assert d[5 + |ns|..5 + |ns| + 4 * k] == mid;
    assert d[5 + |ns| + 4 * k..] == Concat(ds);
  }

  lemma {:induction false} InsertReadBack(ns: bytes, ds: seq<bytes>)
    requires NulFree(ns) && AllFramed(ds)
    ensures ReadRequest(InsertBody(ns, ds), 0) == Some(Request(0, ns, [], ds))
  {
    assert InsertBody(ns, ds) == Le32(0) + (ns + [0]) + [] + Concat(ds);
    ReadBack(InsertBody(ns, ds), 0, ns, [], 0, ds);
  }

  lemma {:induction false} UpdateReadBack(ns: bytes, flags: int, selector: bytes, update: bytes)
    requires NulFree(ns) && IsInt32(flags) && Framed(selector) && Framed(update)
    ensures ReadRequest(UpdateBody(ns, flags, selector, update), 1)
            == Some(Request(0, ns, [flags], [selector, update]))
  {
    hide Concat, ReadRequest;
    var d, ds := UpdateBody(ns, flags, selector, update), [selector, update];
    ConcatPair(selector, update);
    assert d == Le32(0) + (ns + [0]) + Le32(flags) + Concat(ds);
    ReadBack(d, 0, ns, Le32(flags), 1, ds);
    ReadOneInt(d, 5 + |ns|, flags);
  }

  lemma {:induction false} ReadOneInt(d: bytes, at: nat, m: int)
    requires IsInt32(m) && at + 4 <= |d| && d[at..at + 4] == Le32(m)
    ensures ReadInts(d, at, 1) == [m]
  {
    Le32Read(m, d, at);
    assert ReadInts(d, at, 1) == [Int32At(d, at)] + ReadInts(d, at + 4, 0);
  }

  lemma {:induction false} ReadTwoInts(d: bytes, at: nat, m: int, n: int)
    requires IsInt32(m) && IsInt32(n) && at + 8 <= |d| && d[at..at + 8] == Le32(m) + Le32(n)
    ensures ReadInts(d, at, 2) == [m, n]
  {
    SubSlice(d, at, at + 8, 0, 4);
    SubSlice(d, at, at + 8, 4, 8);
    Le32Read(m, d, at);
    ReadOneInt(d, at + 4, n);
    assert ReadInts(d, at, 2) == [Int32At(d, at)] + ReadInts(d, at + 4, 1);
  }

  lemma {:induction false} ConcatPair(a: bytes, b: bytes)
    ensures Concat([a]) == a && Concat([a, b]) == a + b
  {
    assert Concat([a]) == a + Concat([]);
    assert [a, b][1..] == [b] && Concat([b]) == b + Concat([]);
  }

  lemma {:induction false} QueryReadBack(flags: int, ns: bytes, skip: int, ret: int, ds: seq<bytes>)
    requires NulFree(ns) && IsInt32(flags) && IsInt32(skip) && IsInt32(ret) && AllFramed(ds)
    ensures ReadRequest(QueryBody(flags, ns, skip, ret, ds), 2) == Some(Request(flags, ns, [skip, ret], ds))
  {
    hide Concat, ReadRequest, Le32;
    var d, mid := QueryBody(flags, ns, skip, ret, ds), Le32(skip) + Le32(ret);
    assert d == Le32(flags) + (ns + [0]) + mid + Concat(ds);
    ReadBack(d, flags, ns, mid, 2, ds);
    ReadTwoInts(d, 5 + |ns|, skip, ret);
  }

  lemma ZeroHead()
    ensures Le32(0) == [0, 0, 0, 0]
  {
  }

  /** Packets */

  datatype PacketHeader = PacketHeader(length: int, id: int, respTo: int, opcode: int)
  datatype ReplyHeader = ReplyHeader(flags: int, cursorId: int, start: int, returned: int)

  class Packet {
    var header: PacketHeader
    var data: array?<byte>
    var dataSize: int

    constructor (header: PacketHeader, data: array?<byte>, dataSize: int)
      ensures this.header == header && this.data == data && this.dataSize == dataSize
    {
      this.header, this.data, this.dataSize := header, data, dataSize;
    }

    // A complete request: the buffer is the body and the header counts it.
    ghost predicate Carries(id: int, opcode: int, body: bytes)
      reads this, data
    {
      && data != null && data[..] == body && dataSize == |body|
      && header == PacketHeader(PACKET_HEADER_SIZE + |body|, id, 0, opcode)
    }

    method SetData(d: bytes, size: int) returns (ok: bool)
      requires size <= |d|
      modifies this
      ensures ok == (size > 0)
      ensures !ok ==> header == old(header) && data == old(data) && dataSize == old(dataSize)
      ensures ok ==> data != null && fresh(data) && data[..] == d[..size] && dataSize == size
      ensures ok ==> header == old(header).(length := size + PACKET_HEADER_SIZE)
    {
      if size <= 0 { return false; }
      var buffer := NewBuffer(size);
      MemCpy(buffer, 0, d[..size]);
      data := buffer;
      dataSize := size;
      header := header.(length := dataSize + PACKET_HEADER_SIZE);
      return true;
    }
  }

  method NewBuffer(size: nat) returns (b: array<byte>)
    ensures fresh(b) && b.Length == size
  {
    b := new byte[size];
  }

  // memcpy into a buffer at an offset.
  method MemCpy(dst: array<byte>, at: nat, src: bytes)
    requires at + |src| <= dst.Length
    modifies dst
    ensures dst[..at + |src|] == old(dst[..at]) + src
    ensures dst[at + |src|..] == old(dst[at + |src|..])
  {
    forall i | 0 <= i < |src| { dst[at + i] := src[i]; }
    assert forall i | 0 <= i < at + |src| ::
        dst[..at + |src|][i] == (old(dst[..at]) + src)[i];
  }

  // The bytes of finished documents.
  ghost function DataOf(docs: seq<Bson>): (ds: seq<bytes>)
    reads docs
    ensures |ds| == |docs|
  {
    seq(|docs|, i requires 0 <= i < |docs| reads docs => docs[i].data)
  }

  // The total size of the documents, or -1 if one of them is not finished.
  method TotalSize(docs: seq<Bson>) returns (dsize: int)
    requires forall d | d in docs :: IsInt32(|d.data|)
    ensures dsize >= 0 <==> forall d | d in docs :: d.Size() > 0
    ensures dsize >= 0 ==> dsize == |Concat(DataOf(docs))|
  {
    ghost var ds := DataOf(docs);
    dsize := 0;
    for i := 0 to |docs|
      invariant forall k | 0 <= k < i :: docs[k].Size() > 0
      invariant dsize == |Concat(ds[..i])|
    {
      assert docs[i] in docs;
      if docs[i].Size() <= 0 { return -1; }
      dsize := dsize + docs[i].Size();
      PrefixSnoc(ds, i);
    }
    assert ds[..|docs|] == ds;
  }

  // Copies finished documents one behind the other.
  method CopyDocuments(data: array<byte>, at: nat, docs: seq<Bson>)
    requires forall d | d in docs :: IsInt32(|d.data|) && d.finished
    requires at + |Concat(DataOf(docs))| == data.Length
    modifies data
    ensures data[..] == old(data[..at]) + Concat(DataOf(docs))
  {
    ghost var ds := DataOf(docs);
    var pos := at;
    for i := 0 to |docs|
      invariant pos == at + |Concat(ds[..i])| <= data.Length
      invariant data[..pos] == old(data[..at]) + Concat(ds[..i])
    {
      assert docs[i] in docs && ds[i] == docs[i].data[..docs[i].Size()];
      PrefixSnoc(ds, i);
      MemCpy(data, pos, docs[i].data[..docs[i].Size()]);
      pos := pos + docs[i].Size();
    }
    assert ds[..|docs|] == ds && data[..] == data[..pos];
  }

  method CmdInsertN(id: int, ns: bytes, docs: seq<Bson>) returns (p: Packet?)
    requires forall d | d in docs :: IsInt32(|d.data|)
    ensures p != null <==> docs != [] && forall d | d in docs :: d.Size() > 0
    ensures p != null ==> fresh(p) && fresh(p.data) && p.Carries(id, OP_INSERT, InsertBody(ns, DataOf(docs)))
    ensures p != null ==> p.header == PacketHeader(16 + |p.data[..]|, id, 0, 2002)
    ensures p != null ==> p.data[..] == [0, 0, 0, 0] + (ns + [0]) + Concat(DataOf(docs))
  {
    hide Concat, Le32;
    ZeroHead();
    if |docs| == 0 { return null; }
    var dsize := TotalSize(docs);
    if dsize < 0 { return null; }
    var pos := 4 + |ns| + 1;
    var dataSize := pos + dsize;
    var data := NewBuffer(dataSize);
    MemCpy(data, 0, Le32(0));
    MemCpy(data, 4, ns + [0]);
    CopyDocuments(data, pos, docs);
    p := new Packet(PacketHeader(PACKET_HEADER_SIZE + dataSize, id, 0, OP_INSERT), data, dataSize);
  }

  // The fixed part in front of the selector.
  method CopyUpdateHead(data: array<byte>, ns: bytes, flags: int)
    requires data.Length >= 4 * 2 + |ns| + 1
    modifies data
    ensures data[..4 * 2 + |ns| + 1] == Le32(0) + (ns + [0]) + Le32(flags)
  {
    hide Le32;
    MemCpy(data, 0, Le32(0));
    MemCpy(data, 4, ns + [0]);
    MemCpy(data, 4 + |ns| + 1, Le32(flags));
  }

  method CmdUpdate(id: int, ns: bytes, flags: int, selector: Bson, update: Bson) returns (p: Packet?)
    requires IsInt32(|selector.data|) && IsInt32(|update.data|)
    ensures p != null <==> selector.finished && update.finished
    ensures p != null ==>
              && fresh(p) && fresh(p.data)
              && p.Carries(id, OP_UPDATE, UpdateBody(ns, flags, selector.data, update.data))
    ensures p != null ==>
              && p.header == PacketHeader(16 + |p.data[..]|, id, 0, 2001)
              && p.data[..] == [0, 0, 0, 0] + (ns + [0]) + Le32(flags) + selector.data + update.data
  {
    hide Le32;
    ZeroHead();
    if selector.Size() < 0 || update.Size() < 0 { return null; }
    var nslen := |ns| + 1;
    var dataSize := selector.Size() + update.Size() + 4 * 2 + nslen;
    var data := NewBuffer(dataSize);
    CopyUpdateHead(data, ns, flags);
    MemCpy(data, 4 * 2 + nslen, selector.data[..selector.Size()]);
    MemCpy(data, 4 * 2 + nslen + selector.Size(), update.data[..update.Size()]);
    assert data[..] == data[..dataSize];
    p := new Packet(PacketHeader(PACKET_HEADER_SIZE + dataSize, id, 0, OP_UPDATE), data, dataSize);
  }

  // The fixed part in front of the query document.
  method CopyQueryHead(data: array<byte>, flags: int, ns: bytes, skip: int, ret: int)
    requires data.Length >= 4 * 3 + |ns| + 1
    modifies data
    ensures data[..4 * 3 + |ns| + 1] == Le32(flags) + (ns + [0]) + Le32(skip) + Le32(ret)
  {
    hide Le32;
    var nslen := |ns| + 1;
    MemCpy(data, 0, Le32(flags));
    MemCpy(data, 4, ns + [0]);
    MemCpy(data, 4 + nslen, Le32(skip));
    MemCpy(data, 4 * 2 + nslen, Le32(ret));
  }

  method CmdQuery(id: int, ns: bytes, flags: int, skip: int, ret: int, query: Bson, sel: Bson?) returns (p: Packet?)
    requires IsInt32(|query.data|) && (sel != null ==> IsInt32(|sel.data|))
    ensures p != null <==> query.finished && (sel != null ==> sel.finished)
    ensures p != null ==>
              && fresh(p) && fresh(p.data)
              && p.Carries(id, OP_QUERY,
                   QueryBody(flags, ns, skip, ret, if sel == null then [query.data] else [query.data, sel.data]))
    ensures p != null ==>
              && p.header == PacketHeader(16 + |p.data[..]|, id, 0, 2004)
              && p.data[..] == Le32(flags) + (ns + [0]) + Le32(skip) + Le32(ret)
                               + (if sel == null then query.data else query.data + sel.data)
  {
    hide Concat, Le32;
    if query.Size() < 0 || (sel != null && sel.Size() < 0) { return null; }
    var nslen := |ns| + 1;
    var dataSize := 4 + nslen + 4 * 2 + query.Size();
    if sel != null { dataSize := dataSize + sel.Size(); }
    var data := NewBuffer(dataSize);
    CopyQueryHead(data, flags, ns, skip, ret);
    MemCpy(data, 4 * 3 + nslen, query.data[..query.Size()]);
    ghost var head := Le32(flags) + (ns + [0]) + Le32(skip) + Le32(ret);
    assert data[..4 * 3 + nslen + query.Size()] == head + query.data;
    if sel != null {
      MemCpy(data, 4 * 3 + nslen + query.Size(), sel.data[..sel.Size()]);
      ConcatPair(query.data, sel.data);
      assert head + query.data + sel.data == head + (query.data + sel.data);
    } else {
      ConcatPair(query.data, []);
    }
    assert data[..] == data[..dataSize];
    p := new Packet(PacketHeader(PACKET_HEADER_SIZE + dataSize, id, 0, OP_QUERY), data, dataSize);
  }

  /** Replies */

  function ReplyHeaderBytes(h: ReplyHeader): (b: bytes)
    ensures |b| == REPLY_HEADER_SIZE
  {
    Le32(h.flags) + Le64(h.cursorId) + Le32(h.start) + Le32(h.returned)
  }

  // The packet is a reply with this header and these documents.
  ghost predicate IsReply(p: Packet, h: ReplyHeader, ds: seq<bytes>)
    reads p, p.data
  {
    && p.header.opcode == OP_REPLY && p.data != null
    && p.data[..] == ReplyHeaderBytes(h) + Concat(ds)
    && IsInt32(h.flags) && IsInt64(h.cursorId) && IsInt32(h.start) && IsInt32(|ds|)
    && h.returned == |ds| && AllFramed(ds)
  }

  method GetReplyHeader(p: Packet, ghost h: ReplyHeader, ghost ds: seq<bytes>) returns (ok: bool, hdr: ReplyHeader)
    requires p.header.opcode == OP_REPLY && p.data != null ==> IsReply(p, h, ds)
    ensures ok <==> p.header.opcode == 1 && p.data != null
    ensures ok ==> hdr == h
    ensures ok ==> |p.data[..]| >= 20
                   && Int32At(p.data[..], 0) == hdr.flags && Int64At(p.data[..], 4) == hdr.cursorId
                   && Int32At(p.data[..], 12) == hdr.start && Int32At(p.data[..], 16) == hdr.returned
  {
    hdr := ReplyHeader(0, 0, 0, 0);
    if p.header.opcode != OP_REPLY || p.data == null { return false, hdr; }
    var d := p.data[..];
    ReplyFields(d, h, Concat(ds));
    return true, ReplyHeader(Int32At(d, 0), Int64At(d, 4), Int32At(d, 12), Int32At(d, 16));
  }

  lemma {:induction false} ReplyFields(d: bytes, h: ReplyHeader, area: bytes)
    requires d == ReplyHeaderBytes(h) + area
    requires IsInt32(h.flags) && IsInt64(h.cursorId) && IsInt32(h.start) && IsInt32(h.returned)
    ensures h == ReplyHeader(Int32At(d, 0), Int64At(d, 4), Int32At(d, 12), Int32At(d, 16))
  {
    assert d[0..4] == Le32(h.flags) && d[4..12] == Le64(h.cursorId);
    assert d[12..16] == Le32(h.start) && d[16..20] == Le32(h.returned);
    Le32Read(h.flags, d, 0);
    Le64Read(h.cursorId, d, 4);
    Le32Read(h.start, d, 12);
    Le32Read(h.returned, d, 16);
  }

  // The n-th document of a reply, counted from 1, as an open object that lacks only its last byte.
  method GetNthDocument(p: Packet, n: int, ghost h: ReplyHeader, ghost ds: seq<bytes>)
    returns (ok: bool, doc: Bson?)
    requires p.header.opcode == OP_REPLY && p.data != null ==> IsReply(p, h, ds)
    ensures ok <==> p.header.opcode == 1 && p.data != null && 1 <= n <= |ds|
    ensures ok ==> doc != null && fresh(doc) && doc.State() == Buffer(ButLast(ds[n - 1]), false)
    ensures ok ==> |ds[n - 1]| >= 5 && doc.data == ds[n - 1][..|ds[n - 1]| - 1]
  {
    hide Concat, Int32At, ReplyHeaderBytes;
    if n <= 0 || p.header.opcode != OP_REPLY { return false, null; }
    var got, hdr := GetReplyHeader(p, h, ds);
    if !got { return false, null; }
    if hdr.returned < n { return false, null; }
    var d := p.data[REPLY_HEADER_SIZE..];
    assert d == Concat(ds);
    var pos := 0;
    EmptyPrefix(ds);
    for i := 1 to n
      invariant pos == |Concat(ds[..i - 1])| <= |d|
    {
      DocumentAt(ds, i - 1);
      pos := pos + Int32At(d, pos);
    }
    DocumentAt(ds, n - 1);
    doc := Bson.NewFromData(d[pos..], Int32At(d, pos) - 1);
    assert d[pos..][..Int32At(d, pos) - 1] == d[pos..pos + |ds[n - 1]|][..|ds[n - 1]| - 1];
    return true, doc;
  }

  // Document i stands right behind the ones before it and starts with its own size.
  lemma {:induction false} DocumentAt(ds: seq<bytes>, i: nat)
    requires AllFramed(ds) && i < |ds|
    ensures var d, pos := Concat(ds), |Concat(ds[..i])|;
            && pos + |ds[i]| == |Concat(ds[..i + 1])| <= |d|
            && d[pos..pos + |ds[i]|] == ds[i]
            && |ds[i]| >= 5
            && Int32At(d, pos) == |ds[i]|
  {
    assert Framed(ds[i]) by { assert ds[i] in ds; }
    PrefixSnoc(ds, i);
    ConcatAppend(ds[..i + 1], ds[i + 1..]);
    assert ds[..i + 1] + ds[i + 1..] == ds;
    PrefixRead(Concat(ds), |Concat(ds[..i])|, ds[i], |ds[i]|);
  }
}
