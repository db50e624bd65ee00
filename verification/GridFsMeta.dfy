/** The file document of a streamed GridFS file: written by new and close, read by find. */
module GridFsMeta {
  import opened Bytes
  import opened BsonFormat
  import opened BsonObject
  import opened BsonCursors
  import opened SyncCursors

  const ID: bytes := [95, 105, 100]                                     // "_id"
  const LENGTH: bytes := [108, 101, 110, 103, 116, 104]                 // "length"
  const CHUNK_SIZE: bytes := [99, 104, 117, 110, 107, 83, 105, 122, 101]  // "chunkSize"
  const UPLOAD_DATE: bytes := [117, 112, 108, 111, 97, 100, 68, 97, 116, 101]
  const MD5: bytes := [109, 100, 53]

  datatype Meta = Meta(id: bytes, length: int, chunkSize: int)

  // The user's metadata with an "_id", which is added at the end if there is none.
  function WithId(user: seq<Element>, oid: bytes): seq<Element> {
    if FirstIn(user, ID, 0, |user|).Some? then user else user + [Element(ID, Oid(oid))]
  }

  function OwnKeys(length: int, chunkSize: int, date: int, md5: bytes): seq<Element> {
    [Element(LENGTH, Int64(length)), Element(CHUNK_SIZE, Int32(chunkSize)), Element(UPLOAD_DATE, UtcDatetime(date))]
    + if length == 0 then [] else [Element(MD5, Str(md5))]
  }

  function FileDocument(user: seq<Element>, oid: bytes, length: int, chunkSize: int, date: int,
                        md5: bytes)
    : seq<Element>
  {
    WithId(user, oid) + OwnKeys(length, chunkSize, date, md5)
  }

  // The one-shot uploader puts the new id at the end, whatever the user's metadata has.
  function ChunkedDocument(user: seq<Element>, oid: bytes, length: int, chunkSize: int, date: int,
                           md5: bytes)
    : seq<Element>
  {
    user + OwnKeys(length, chunkSize, date, md5) + [Element(ID, Oid(oid))]
  }

  // The bytes of a key.
  function Ascii(s: string): bytes {
    seq(|s|, i requires 0 <= i < |s| => Code(s[i]))
  }

  function Code(c: char): byte { c as int % 256 }

  // The two file documents, key by key.
  lemma {:induction false} DocumentKeys(user: seq<Element>, oid: bytes, length: int, chunkSize: int, date: int,
                                        md5: bytes)
    requires length != 0
    ensures var own := [Element(Ascii("length"), Int64(length)), Element(Ascii("chunkSize"), Int32(chunkSize)),
                        Element(Ascii("uploadDate"), UtcDatetime(date)), Element(Ascii("md5"), Str(md5))];
            var id := Element(Ascii("_id"), Oid(oid));
            && ChunkedDocument(user, oid, length, chunkSize, date, md5) == user + own + [id]
            && FileDocument(user, oid, length, chunkSize, date, md5) ==
                 if exists e | e in user :: e.key == Ascii("_id") then user + own else user + [id] + own
  {
    hide FirstIn;
    KeyNames();
    var r := FirstIn(user, ID, 0, |user|);
    if r.Some? { assert user[r.value] in user && user[r.value].key == Ascii("_id"); }
  }

  lemma KeyNames()
    ensures ID == Ascii("_id") && LENGTH == Ascii("length") && CHUNK_SIZE == Ascii("chunkSize")
    ensures UPLOAD_DATE == Ascii("uploadDate") && MD5 == Ascii("md5")
  {
  }

  // get_int64 with get_int32 as a fallback for 0.
  function NumberOf(v: Value): int {
    var n := if v.Int64? then v.stamp else 0;
    if n == 0 then (if v.Int32? then v.number else 0) else n
  }

  function Seek(es: seq<Element>, name: bytes, i: nat): (k: nat)
    requires i < |es|
    ensures k < |es|
  {
    var r := CyclicFirst(es, name, i);
    if r.Some? then r.value else i
  }

  // mongo_sync_gridfs_stream_find on the file document: one cursor, moved from key to key.
  function FindMeta(es: seq<Element>): Option<Meta> {
    var first := FirstIn(es, ID, 0, |es|);
    if first.None? || !es[first.value].value.Oid? then None
    else
      var k := Seek(es, LENGTH, first.value);
      var length := NumberOf(es[k].value);
      var m := Seek(es, CHUNK_SIZE, k);
      var chunkSize := if es[m].value.Int32? then es[m].value.number else 0;
      if length == 0 || chunkSize == 0 then None
      else Some(Meta(es[first.value].value.raw, length, chunkSize))
  }

  // The only element of that name.
  predicate OnlyWithKey(es: seq<Element>, name: bytes, k: nat) {
    k < |es| && forall j | 0 <= j < |es| :: es[j].key == name <==> j == k
  }

  function NumberIn(v: Value): int {
    match v case Int64(stamp) => stamp case Int32(number) => number case _ => 0
  }

  // A document that has each of the three keys once is understood wherever they stand, exactly
  // if the id is an ObjectID, the length a number and the chunk size an int32, neither of them 0.
  lemma {:induction false} FindMetaUnordered(es: seq<Element>, i: nat, l: nat, c: nat)
    requires OnlyWithKey(es, Ascii("_id"), i) && OnlyWithKey(es, Ascii("length"), l)
    requires OnlyWithKey(es, Ascii("chunkSize"), c)
    ensures FindMeta(es) ==
              if es[i].value.Oid? && NumberIn(es[l].value) != 0 && es[c].value.Int32? && es[c].value.number != 0
              then Some(Meta(es[i].value.raw, NumberIn(es[l].value), es[c].value.number))
              else None
  {
    KeyNames();
    FirstIsUnique(es, ID, 0, |es|, i);
  }

  // What find makes of a file document on the server: the query drops one that looks like an
  // error report.
  function QueryMeta(es: seq<Element>): Option<Meta> {
    if LooksLikeError(es) then None else FindMeta(es)
  }

  // The number under the cursor, read as a 64-bit and then as a 32-bit integer.
  method GetNumber(c: BsonCursor) returns (n: int)
    requires c.Valid() && c.index >= 0
    ensures n == NumberOf(c.elems[c.index].value)
    ensures n == match c.elems[c.index].value
                 case Int64(stamp) => stamp
                 case Int32(number) => number
                 case _ => 0
  {
    hide EncDoc, Sound;
    var ok;
    ok, n := c.GetStamp(TYPE_INT64);
    if !ok { n := 0; }
    if n == 0 {
      ok, n := c.GetInt32();
      if !ok { n := 0; }
    }
  }

  method MoveTo(c: BsonCursor, name: bytes)
    requires c.Valid() && c.index >= 0 && NulFree(name)
    modifies c
    ensures c.Valid() && c.index == Seek(c.elems, name, old(c.index))
  {
    hide EncDoc, Sound;
    var _ := c.Find(name);
  }

  method ReadMeta(b: Bson, ghost es: seq<Element>) returns (r: Option<Meta>)
    requires b.Holds(es) && Sound(es)
    ensures r == FindMeta(es)
  {
    hide EncDoc, Sound, FirstIn, Seek, NumberOf;
    var c := BsonCursor.FindFirst(b, ID, es);
    if c == null { return None; }
    var ok, oid := c.GetOid();
    if !ok { return None; }
    MoveTo(c, LENGTH);
    var length := GetNumber(c);
    MoveTo(c, CHUNK_SIZE);
    var isInt, chunkSize := c.GetInt32();
    if !isInt { chunkSize := 0; }
    if length == 0 || chunkSize == 0 { return None; }
    return Some(Meta(oid, length, chunkSize));
  }

  // The key is none of those that the uploaders add.
  predicate NotAdded(name: bytes) {
    name != ID && name != LENGTH && name != CHUNK_SIZE && name != UPLOAD_DATE && name != MD5
  }

  lemma {:induction false} FirstInPrefix(es: seq<Element>, more: seq<Element>, name: bytes, lo: nat)
    requires lo <= |es| && forall e | e in more :: e.key != name
    ensures FirstIn(es + more, name, lo, |es + more|) == FirstIn(es, name, lo, |es|)
    decreases |es| - lo
  {
    if lo < |es| {
      FirstInPrefix(es, more, name, lo + 1);
    } else {
      NotThere(es + more, name, lo);
    }
  }

  lemma {:induction false} NotThere(es: seq<Element>, name: bytes, lo: nat)
    requires lo <= |es| && forall i | lo <= i < |es| :: es[i].key != name
    ensures FirstIn(es, name, lo, |es|).None?
  {
  }

  // What the uploaders add makes no difference to the error check of the query.
  lemma {:induction false} SameError(es: seq<Element>, more: seq<Element>)
    requires forall e | e in more :: !NotAdded(e.key)
    ensures LooksLikeError(es + more) <==> LooksLikeError(es)
  {
    hide FirstIn;
    assert NotAdded(ERR) && NotAdded(ERRMSG);
    FirstInPrefix(es, more, ERR, 0);
    FirstInPrefix(es, more, ERRMSG, 0);
  }

  lemma {:induction false} ErrorOfDocument(user: seq<Element>, oid: bytes, length: int, chunkSize: int, date: int,
                                           md5: bytes)
    ensures LooksLikeError(FileDocument(user, oid, length, chunkSize, date, md5)) <==> LooksLikeError(user)
    ensures LooksLikeError(ChunkedDocument(user, oid, length, chunkSize, date, md5)) <==> LooksLikeError(user)
  {
    hide LooksLikeError;
    var own, id := OwnKeys(length, chunkSize, date, md5), [Element(ID, Oid(oid))];
    SameError(user, own + id);
    assert user + own + id == user + (own + id);
    SameError(user, id);
    SameError(WithId(user, oid), own);
  }

  /** Writing */

  // The object is open and holds the elements behind its size field.
  ghost predicate Drafts(b: Bson, es: seq<Element>)
    reads b
  {
    !b.finished && |b.data| >= 4 && b.data[4..] == EncElems(es)
  }

  lemma {:induction false} DraftGrows(data: bytes, es: seq<Element>, e: Element)
    requires |data| >= 4 && data[4..] == EncElems(es)
    ensures (data + EncElem(e))[4..] == EncElems(es + [e])
  {
    hide EncElem, EncElems;
    EncElemsSnoc(es, e);
  }

  lemma {:induction false} DraftFinishes(data: bytes, es: seq<Element>)
    requires |data| >= 4 && data[4..] == EncElems(es)
    ensures FinishedData(data) == EncDoc(es)
  {
    hide EncElems, Le32;
    assert data == data[..4] + EncElems(es);
    FinishedPieces(data[..4], EncElems(es));
  }

  lemma {:induction false} CloneDrafts(es: seq<Element>)
    ensures |EncDoc(es)| >= 5
    ensures EncDoc(es)[..|EncDoc(es)| - 1][4..] == EncElems(es)
  {
    hide EncElems;
  }

  // A finished document, cloned without its last byte.
  method Clone(b: Bson, ghost es: seq<Element>) returns (c: Bson)
    requires b.Holds(es) && IsInt32(|EncDoc(es)|)
    ensures fresh(c) && Drafts(c, es)
  {
    hide EncDoc, EncElems;
    CloneDrafts(es);
    var copy := Bson.NewFromData(b.data, b.Size() - 1);
    c := copy;
  }

  method FinishDraft(b: Bson, ghost es: seq<Element>)
    requires Drafts(b, es)
    modifies b
    ensures b.Holds(es)
  {
    hide EncDoc, EncElems, FinishedData;
    DraftFinishes(b.data, es);
    b.Finish();
  }

  method AddOid(b: Bson, oid: bytes, ghost es: seq<Element>)
    requires Drafts(b, es) && |oid| == 12
    modifies b
    ensures Drafts(b, es + [Element(ID, Oid(oid))])
  {
    hide EncElem, EncElems;
    DraftGrows(b.data, es, Element(ID, Oid(oid)));
    var _ := b.AppendOid(ID, oid);
  }

  // The keys that both uploaders add, the digest as a C string.
  method AddOwnKeys(b: Bson, length: int, chunkSize: int, date: int, digest: bytes, ghost es: seq<Element>)
    requires Drafts(b, es) && length != 0
    modifies b
    ensures Drafts(b, es + OwnKeys(length, chunkSize, date, UpToNul(digest)))
  {
    hide EncElem, EncElems, UpToNul;
    ghost var own := OwnKeys(length, chunkSize, date, UpToNul(digest));
    DraftGrows(b.data, es, own[0]);
    var _ := b.AppendInt64Element(TYPE_INT64, LENGTH, length);
    DraftGrows(b.data, es + [own[0]], own[1]);
    var _ := b.AppendInt32(CHUNK_SIZE, chunkSize);
    DraftGrows(b.data, es + [own[0]] + [own[1]], own[2]);
    var _ := b.AppendInt64Element(TYPE_UTC_DATETIME, UPLOAD_DATE, date);
    DraftGrows(b.data, es + [own[0]] + [own[1]] + [own[2]], own[3]);
    var _ := b.AppendText(TYPE_STRING, MD5, digest, -1);
    assert es + [own[0]] + [own[1]] + [own[2]] + [own[3]] == es + own;
  }

  predicate UsableId(user: seq<Element>) {
    var r := FirstIn(user, ID, 0, |user|); r.None? || user[r.value].value.Oid?
  }

  // The id of the file: the user's own, or the new one.
  function FileId(user: seq<Element>, oid: bytes): bytes
    requires UsableId(user)
  {
    var r := FirstIn(user, ID, 0, |user|); if r.Some? then user[r.value].value.raw else oid
  }

  // The metadata that a user supplies, or none.
  ghost predicate Supplied(metadata: Bson?, user: seq<Element>)
    reads metadata
  {
    if metadata == null then user == [] else metadata.Holds(user) && Sound(user)
  }

  // mongo_sync_gridfs_stream_new on the metadata.  Without any the appends to it do nothing.
  method OpenMeta(metadata: Bson?, ghost user: seq<Element>, oid: bytes) returns (ok: bool, id: bytes, base: Bson?)
    requires Supplied(metadata, user) && |oid| == 12
    ensures ok <==> UsableId(user)
    ensures base == null <==> metadata == null
    ensures base != null ==> fresh(base)
    ensures ok ==> id == FileId(user, oid) && (base != null ==> base.Holds(WithId(user, oid)))
  {
    hide EncDoc, EncElems, WellFormed;
    id := oid;
    if metadata == null { return true, id, null; }
    base := Clone(metadata, user);
    var c := BsonCursor.FindFirst(metadata, ID, user);
    if c == null {
      AddOid(base, oid, user);
    } else {
      ok, id := c.GetOid();
      if !ok { return; }
    }
    FinishDraft(base, WithId(user, oid));
    ok := true;
  }

  // mongo_sync_gridfs_stream_close on the metadata: the document that is inserted.
  method CloseMeta(base: Bson, ghost es: seq<Element>, length: int, chunkSize: int, date: int, digest: bytes)
    returns (meta: Bson)
    requires base.Holds(es) && IsInt32(|EncDoc(es)|) && length != 0
    ensures fresh(meta) && meta.Holds(es + OwnKeys(length, chunkSize, date, UpToNul(digest)))
  {
    hide EncDoc, EncElems, OwnKeys;
    meta := Clone(base, es);
    AddOwnKeys(meta, length, chunkSize, date, digest, es);
    FinishDraft(meta, es + OwnKeys(length, chunkSize, date, UpToNul(digest)));
  }

  // mongo_sync_gridfs_chunked_file_new_from_buffer on the metadata, if there is any.
  method ChunkedMeta(metadata: Bson?, ghost user: seq<Element>, oid: bytes, length: int, chunkSize: int, date: int,
                     digest: bytes)
    returns (meta: Bson)
    requires metadata != null ==> metadata.Holds(user) && IsInt32(|EncDoc(user)|)
    requires metadata == null ==> user == []
    requires length != 0 && |oid| == 12
    ensures fresh(meta) && meta.Holds(ChunkedDocument(user, oid, length, chunkSize, date, UpToNul(digest)))
  {
    hide EncDoc, OwnKeys;
    if metadata != null {
      meta := Clone(metadata, user);
    } else {
      meta := new Bson();
    }
    AddOwnKeys(meta, length, chunkSize, date, digest, user);
    ghost var es := user + OwnKeys(length, chunkSize, date, UpToNul(digest));
    AddOid(meta, oid, es);
    FinishDraft(meta, es + [Element(ID, Oid(oid))]);
  }

  /** Reading back what was written */

  // The user's metadata has no "length" at or behind its "_id".
  predicate LengthNotBehindId(user: seq<Element>) {
    var r := FirstIn(user, ID, 0, |user|);
    r.None? || forall k | r.value <= k < |user| :: user[k].key != LENGTH
  }

  lemma {:induction false} FirstIsUnique(es: seq<Element>, name: bytes, lo: nat, hi: nat, k: nat)
    requires lo <= k < hi <= |es| && es[k].key == name && forall j | lo <= j < k :: es[j].key != name
    ensures FirstIn(es, name, lo, hi) == Some(k)
  {
  }

  lemma {:induction false} IdOfDocument(user: seq<Element>, oid: bytes, length: int, chunkSize: int, date: int,
                                        md5: bytes)
    returns (i: nat)
    ensures var es := FileDocument(user, oid, length, chunkSize, date, md5);
            && FirstIn(es, ID, 0, |es|) == Some(i) && i < |WithId(user, oid)|
            && es[i] == WithId(user, oid)[i]
    ensures FirstIn(user, ID, 0, |user|).Some? ==> Some(i) == FirstIn(user, ID, 0, |user|)
    ensures FirstIn(user, ID, 0, |user|).None? ==> i == |user|
  {
    var es := FileDocument(user, oid, length, chunkSize, date, md5);
    var r := FirstIn(user, ID, 0, |user|);
    i := if r.Some? then r.value else |user|;
    FirstIsUnique(es, ID, 0, |es|, i);
  }

  // The parts of a sound file document are sound.
  lemma {:induction false} DocumentSound(user: seq<Element>, oid: bytes, length: int, chunkSize: int, date: int,
                                         md5: bytes)
    requires Sound(FileDocument(user, oid, length, chunkSize, date, md5))
    ensures Sound(WithId(user, oid)) && Sound(user)
  {
    PrefixSound(WithId(user, oid), OwnKeys(length, chunkSize, date, md5));
    if WithId(user, oid) != user { PrefixSound(user, [Element(ID, Oid(oid))]); }
  }

  lemma {:induction false} PrefixSound(es: seq<Element>, more: seq<Element>)
    requires Sound(es + more)
    ensures Sound(es)
  {
    hide EncElems;
    EncElemsConcat(es, more);
    assert forall e | e in es :: e in es + more;
  }

  // The id of the chunks and the length and the chunk size that close wrote are read back, as
  // long as the user's metadata has no "length" behind its "_id" and does not look like an error.
  lemma {:induction false} MetaReadBack(user: seq<Element>, oid: bytes, length: int, chunkSize: int, date: int,
                                        md5: bytes)
    requires length != 0 && chunkSize != 0 && LengthNotBehindId(user) && UsableId(user)
    ensures FindMeta(FileDocument(user, oid, length, chunkSize, date, md5))
            == Some(Meta(FileId(user, oid), length, chunkSize))
    ensures QueryMeta(FileDocument(user, oid, length, chunkSize, date, md5))
            == if LooksLikeError(user) then None else Some(Meta(FileId(user, oid), length, chunkSize))
  {
    hide LooksLikeError;
    ErrorOfDocument(user, oid, length, chunkSize, date, md5);
    var es := FileDocument(user, oid, length, chunkSize, date, md5);
    var i := IdOfDocument(user, oid, length, chunkSize, date, md5);
    var n := |WithId(user, oid)|;
    assert es[n] == Element(LENGTH, Int64(length)) && es[n + 1] == Element(CHUNK_SIZE, Int32(chunkSize));
    assert forall k | i <= k < n :: es[k] == WithId(user, oid)[k];
    FirstIsUnique(es, LENGTH, i, |es|, n);
    FirstIsUnique(es, CHUNK_SIZE, n, |es|, n + 1);
  }

  // Otherwise find reads the user's number, whatever close wrote.
  lemma {:induction false} MetaShadowed(user: seq<Element>, oid: bytes, length: int, chunkSize: int, date: int,
                                        md5: bytes)
    returns (k: nat)
    requires !LengthNotBehindId(user)
    ensures k < |user| && FirstIn(user, LENGTH, FirstIn(user, ID, 0, |user|).value, |user|) == Some(k)
    ensures var r := FindMeta(FileDocument(user, oid, length, chunkSize, date, md5));
            r.Some? ==> r.value.length == NumberOf(user[k].value)
  {
    var es := FileDocument(user, oid, length, chunkSize, date, md5);
    var i := IdOfDocument(user, oid, length, chunkSize, date, md5);
    k := FirstIn(user, LENGTH, i, |user|).value;
    assert forall j | 0 <= j < |user| :: es[j] == user[j];
    FirstIsUnique(es, LENGTH, i, |es|, k);
  }

  ghost predicate LengthReadBack(user: seq<Element>, oid: bytes, length: int, chunkSize: int, date: int, md5: bytes) {
    var r := QueryMeta(FileDocument(user, oid, length, chunkSize, date, md5));
    r.Some? && r.value.length == length
  }

  // So the length is read back for every file exactly under these conditions on the metadata.
  lemma {:induction false} MetaReadBackExact(user: seq<Element>, oid: bytes, chunkSize: int, date: int, md5: bytes)
    requires chunkSize != 0 && UsableId(user)
    ensures (forall n: int | n > 0 :: LengthReadBack(user, oid, n, chunkSize, date, md5))
            <==> LengthNotBehindId(user) && !LooksLikeError(user)
  {
    hide FindMeta, FileDocument, LooksLikeError;
    if LooksLikeError(user) {
      ErrorOfDocument(user, oid, 1, chunkSize, date, md5);
      assert !LengthReadBack(user, oid, 1, chunkSize, date, md5);
    } else if LengthNotBehindId(user) {
      forall n: int | n > 0
        ensures LengthReadBack(user, oid, n, chunkSize, date, md5)
      {
        MetaReadBack(user, oid, n, chunkSize, date, md5);
      }
    } else {
      var k := MetaShadowed(user, oid, 1, chunkSize, date, md5);
      var m := MetaShadowed(user, oid, 2, chunkSize, date, md5);
      assert k == m;
      assert LengthReadBack(user, oid, 1, chunkSize, date, md5) ==> !LengthReadBack(user, oid, 2, chunkSize, date, md5);
    }
  }

  /** The same for the one-shot uploader */

  // The user's metadata has neither an "_id" nor a "length".
  predicate LeavesOwnKeys(user: seq<Element>) {
    forall k | 0 <= k < |user| :: user[k].key != ID && user[k].key != LENGTH
  }

  // Where the one-shot uploader's keys are found.
  lemma {:induction false} ChunkedPlaces(user: seq<Element>, oid: bytes, length: int, chunkSize: int, date: int,
                                         md5: bytes)
    requires length != 0 && LeavesOwnKeys(user)
    ensures var es, n := ChunkedDocument(user, oid, length, chunkSize, date, md5), |user|;
            && |es| == n + 5
            && es[n] == Element(LENGTH, Int64(length)) && es[n + 1] == Element(CHUNK_SIZE, Int32(chunkSize))
            && es[n + 4] == Element(ID, Oid(oid))
            && FirstIn(es, ID, 0, n + 5) == Some(n + 4)
            && FirstIn(es, LENGTH, n + 4, n + 5) == None && FirstIn(es, LENGTH, 0, n + 4) == Some(n)
            && FirstIn(es, CHUNK_SIZE, n, n + 5) == Some(n + 1)
  {
    var es, n := ChunkedDocument(user, oid, length, chunkSize, date, md5), |user|;
    assert es[n + 2].key == UPLOAD_DATE && es[n + 3].key == MD5;
    assert forall k | 0 <= k < n :: es[k] == user[k];
    FirstIsUnique(es, ID, 0, |es|, n + 4);
    FirstIsUnique(es, LENGTH, 0, n + 4, n);
    FirstIsUnique(es, CHUNK_SIZE, n, |es|, n + 1);
  }

  lemma {:induction false} ChunkedReadBack(user: seq<Element>, oid: bytes, length: int, chunkSize: int, date: int,
                                           md5: bytes)
    requires length != 0 && chunkSize != 0 && LeavesOwnKeys(user)
    ensures FindMeta(ChunkedDocument(user, oid, length, chunkSize, date, md5)) == Some(Meta(oid, length, chunkSize))
    ensures QueryMeta(ChunkedDocument(user, oid, length, chunkSize, date, md5))
            == if LooksLikeError(user) then None else Some(Meta(oid, length, chunkSize))
  {
    hide LooksLikeError, ChunkedDocument, FirstIn;
    ErrorOfDocument(user, oid, length, chunkSize, date, md5);
    ChunkedPlaces(user, oid, length, chunkSize, date, md5);
  }

  ghost predicate ChunkedFound(user: seq<Element>, oid: bytes, length: int, chunkSize: int, date: int, md5: bytes) {
    QueryMeta(ChunkedDocument(user, oid, length, chunkSize, date, md5)) == Some(Meta(oid, length, chunkSize))
  }

  lemma {:induction false} ChunkedGood(user: seq<Element>, oid: bytes, n: int, chunkSize: int, date: int, md5: bytes)
    requires n != 0 && chunkSize != 0 && LeavesOwnKeys(user)
    ensures ChunkedFound(user, oid, n, chunkSize, date, md5) <==> !LooksLikeError(user)
  {
    hide QueryMeta, ChunkedDocument, LooksLikeError;
    ChunkedReadBack(user, oid, n, chunkSize, date, md5);
  }

  // With an "_id" of the user it is that one that is read back.
  lemma {:induction false} ChunkedIdShadowed(user: seq<Element>, oid: bytes, n: int, chunkSize: int, date: int,
                                             md5: bytes)
    requires FirstIn(user, ID, 0, |user|).Some?
    ensures ChunkedFound(user, oid, n, chunkSize, date, md5) ==>
              user[FirstIn(user, ID, 0, |user|).value].value == Oid(oid)
  {
    hide Seek, NumberOf, LooksLikeError;
    var es, k := ChunkedDocument(user, oid, n, chunkSize, date, md5), FirstIn(user, ID, 0, |user|).value;
    assert forall j | 0 <= j <= k :: es[j] == user[j];
    FirstIsUnique(es, ID, 0, |es|, k);
  }

  // Without one but with a "length" of the user it is that number.
  lemma {:induction false} ChunkedLengthShadowed(user: seq<Element>, oid: bytes, n: int, chunkSize: int, date: int,
                                                 md5: bytes)
    requires FirstIn(user, ID, 0, |user|).None? && FirstIn(user, LENGTH, 0, |user|).Some?
    ensures ChunkedFound(user, oid, n, chunkSize, date, md5) ==>
              NumberOf(user[FirstIn(user, LENGTH, 0, |user|).value].value) == n
  {
    hide NumberOf, LooksLikeError;
    var es, k := ChunkedDocument(user, oid, n, chunkSize, date, md5), FirstIn(user, LENGTH, 0, |user|).value;
    var last := |es| - 1;
    assert forall j | 0 <= j < |user| :: es[j] == user[j];
    assert es[last] == Element(ID, Oid(oid)) && forall j | |user| <= j < last :: es[j].key != ID;
    FirstIsUnique(es, ID, 0, |es|, last);
    FirstIsUnique(es, LENGTH, 0, last, k);
  }

  lemma {:induction false} ChunkedReadBackExact(user: seq<Element>, chunkSize: int, date: int, md5: bytes)
    requires chunkSize != 0
    ensures (forall oid: bytes, n: int | |oid| == 12 && n > 0 :: ChunkedFound(user, oid, n, chunkSize, date, md5))
            <==> LeavesOwnKeys(user) && !LooksLikeError(user)
  {
    hide ChunkedFound, LooksLikeError;
    if LeavesOwnKeys(user) && LooksLikeError(user) {
      var zeros := seq(12, i => 0);
      ChunkedGood(user, zeros, 1, chunkSize, date, md5);
      assert !ChunkedFound(user, zeros, 1, chunkSize, date, md5);
    } else if LeavesOwnKeys(user) {
      forall oid: bytes, n: int | |oid| == 12 && n > 0
        ensures ChunkedFound(user, oid, n, chunkSize, date, md5)
      {
        ChunkedGood(user, oid, n, chunkSize, date, md5);
      }
    } else {
      var zeros, ones := seq(12, i => 0), seq(12, i => 1);
      assert zeros[0] != ones[0];
      if FirstIn(user, ID, 0, |user|).Some? {
        ChunkedIdShadowed(user, zeros, 1, chunkSize, date, md5);
        ChunkedIdShadowed(user, ones, 1, chunkSize, date, md5);
      } else {
        ChunkedLengthShadowed(user, zeros, 1, chunkSize, date, md5);
        ChunkedLengthShadowed(user, zeros, 2, chunkSize, date, md5);
      }
    }
  }
}
