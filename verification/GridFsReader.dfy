/** The GridFS stream reader: a seekable position on the flat file behind the chunks. */
module GridFsReader {
  import opened Arithmetic
  import opened Bytes
  import opened Sequences
  import opened BsonFormat
  import opened BsonObject
  import opened SyncCursors
  import opened GridFsMeta
  import opened GridFs
  import opened GridFsWriter

  const SEEK_SET := 0
  const SEEK_CUR := 1
  const SEEK_END := 2

  /** The flat file */

  datatype Target = Refuse | Stay | Go(pos: int)

  // Where a seek leads from offset in a file of that length; Stay is a seek that does nothing.
  function SeekTarget(length: int, offset: int, pos: int, whence: int): Target {
    if whence == SEEK_SET then
      if pos == offset then Stay
      else if pos < 0 || pos > length then Refuse
      else Go(pos)
    else if whence == SEEK_CUR then
      if pos + offset < 0 || pos + offset > length then Refuse
      else if pos == 0 then Stay
      else Go(pos + offset)
    else if whence == SEEK_END then
      if pos > 0 || pos + length < 0 then Refuse else Go(pos + length)
    else Refuse
  }

  // The one kind of seek in range that fails: to the very end of a file of full chunks.
  predicate SeeksPastChunks(length: int, cs: int, t: Target)
    requires cs > 0
  {
    t.Go? && t.pos == length && length % cs == 0
  }

  lemma {:induction false} TargetChunk(flat: bytes, cs: nat, p: nat)
    requires cs > 0 && flat != [] && p <= |flat|
    ensures p / cs < |Chunks(flat, cs)| <==> !(p == |flat| && |flat| % cs == 0)
    ensures p / cs < |Chunks(flat, cs)| ==>
              && p == |Concat(Chunks(flat, cs)[..p / cs])| + p % cs
              && p % cs <= |Chunks(flat, cs)[p / cs]|
              && (p < |flat| ==> p % cs < |Chunks(flat, cs)[p / cs]|)
  {
    hide Chunks, Concat;
    var n, q, m := |Chunks(flat, cs)|, p / cs, p % cs;
    ChunkCount(flat, cs);
    assert p == q * cs + m;
    if q < n {
      PrefixSize(flat, cs, q);
      ChunkAt(flat, cs, q);
      if n * cs == |flat| { MultiplyStep(q, n, cs); }
    } else {
      if q > n { MultiplyStep(n, q, cs); }
      QuotientUnique(n * cs, cs, n, 0);
    }
  }

  lemma {:induction false} PrefixSize(flat: bytes, cs: nat, q: nat)
    requires cs > 0 && q < |Chunks(flat, cs)|
    ensures |Concat(Chunks(flat, cs)[..q])| == q * cs
  {
    hide Chunks, Concat;
    var parts := Chunks(flat, cs);
    forall p | p in parts[..q]
      ensures |p| == cs
    {
      var i :| 0 <= i < q && p == parts[i];
      ChunkAt(flat, cs, i);
      ChunkAt(flat, cs, q);
      MultiplyStep(i, q, cs);
    }
    SizeOfParts(parts[..q], cs);
  }

  datatype Op = ReadOp(size: int) | SeekOp(pos: int, whence: int)
  datatype Result = Data(data: bytes) | Done | Failed

  // One operation on a position in a flat file.
  function FlatStep(flat: bytes, offset: nat, op: Op): (nat, Result)
    requires offset <= |flat|
  {
    match op
    case ReadOp(size) =>
      if size <= 0 then (offset, Failed)
      else
        var n := Min(size, |flat| - offset);
        (offset + n, Data(flat[offset..offset + n]))
    case SeekOp(pos, whence) =>
      match SeekTarget(|flat|, offset, pos, whence)
      case Refuse => (offset, Failed)
      case Stay => (offset, Done)
      case Go(p) => (p, Done)
  }

  // What the operations do, in numbers.
  lemma FlatSeeks(flat: bytes, o: nat, pos: int)
    requires o <= |flat|
    ensures FlatStep(flat, o, SeekOp(pos, 0)) == if 0 <= pos <= |flat| then (pos, Done) else (o, Failed)
    ensures FlatStep(flat, o, SeekOp(pos, 1)) == FlatStep(flat, o, SeekOp(o + pos, 0))
    ensures FlatStep(flat, o, SeekOp(pos, 2)) == FlatStep(flat, o, SeekOp(|flat| + pos, 0))
    ensures FlatStep(flat, o, ReadOp(pos)) ==
              if pos <= 0 then (o, Failed)
              else if o + pos <= |flat| then (o + pos, Data(flat[o..o + pos]))
              else (|flat|, Data(flat[o..]))
  {
    assert flat[o..o + (|flat| - o)] == flat[o..];
  }

  lemma FlatStepInRange(flat: bytes, offset: nat, op: Op)
    requires offset <= |flat|
    ensures FlatStep(flat, offset, op).0 <= |flat|
  {
  }

  function FlatRun(flat: bytes, offset: nat, ops: seq<Op>): seq<Result>
    requires offset <= |flat|
    decreases |ops|
  {
    if ops == [] then []
    else
      FlatStepInRange(flat, offset, ops[0]);
      var (next, r) := FlatStep(flat, offset, ops[0]);
      [r] + FlatRun(flat, next, ops[1..])
  }

  // No operation of the run is the failing seek.
  predicate AvoidsEnd(flat: bytes, cs: nat, offset: nat, ops: seq<Op>)
    requires offset <= |flat| && cs > 0
    decreases |ops|
  {
    ops == [] ||
    (FlatStepInRange(flat, offset, ops[0]);
     && (ops[0].SeekOp? ==> !SeeksPastChunks(|flat|, cs, SeekTarget(|flat|, offset, ops[0].pos, ops[0].whence)))
     && AvoidsEnd(flat, cs, FlatStep(flat, offset, ops[0]).0, ops[1..]))
  }

  lemma {:induction false} TailAvoidsEnd(flat: bytes, cs: nat, offset: nat, ops: seq<Op>)
    requires offset <= |flat| && cs > 0 && |flat| % cs != 0
    ensures AvoidsEnd(flat, cs, offset, ops)
    decreases |ops|
  {
    if ops != [] {
      FlatStepInRange(flat, offset, ops[0]);
      TailAvoidsEnd(flat, cs, FlatStep(flat, offset, ops[0]).0, ops[1..]);
    }
  }

  lemma FlatRunLength(flat: bytes, offset: nat, ops: seq<Op>)
    requires offset <= |flat|
    ensures |FlatRun(flat, offset, ops)| == |ops|
    decreases |ops|
  {
    if ops != [] {
      FlatStepInRange(flat, offset, ops[0]);
      FlatRunLength(flat, FlatStep(flat, offset, ops[0]).0, ops[1..]);
    }
  }

  /** What the read loop serves */

  // Piece after piece, for as long as there are bytes left to read before one is begun.
  function Served(pieces: seq<bytes>, left: int): bytes {
    if pieces == [] || left <= 0 then [] else pieces[0] + Served(pieces[1..], left - |pieces[0]|)
  }

  lemma {:induction false} ServedAll(pieces: seq<bytes>)
    ensures Served(pieces, |Concat(pieces)|) == Concat(pieces)
  {
    if pieces != [] {
      ServedAll(pieces[1..]);
    }
  }

  // A turn of the loop takes k bytes of the first piece.
  lemma {:induction false} ServedStep(first: bytes, rest: seq<bytes>, left: int, k: nat)
    requires 0 < k <= |first| && left > 0
    ensures var all := Served([first] + rest, left);
            && first[..k] <= all
            && (k < left ==> Served([first[k..]] + rest, left - k) == all[k..])
            && (k == |first| ==> Served(rest, left - k) == all[k..])
            && (k == |first| && k >= left ==> all == first)
    ensures |Concat([first[k..]] + rest)| == |Concat([first] + rest)| - k == |first| + |Concat(rest)| - k
  {
    hide Concat, Served;
    ConcatCons(first, rest);
    ConcatCons(first[k..], rest);
    ServedCons(first, rest, left);
    ServedCons(first[k..], rest, left - k);
    NoneServed(rest, left - |first|);
    Cut(first, Served(rest, left - |first|), k);
  }

  lemma Cut(first: bytes, tail: bytes, k: nat)
    requires k <= |first|
    ensures (first + tail)[..k] == first[..k] && (first + tail)[k..] == first[k..] + tail
    ensures first[..k] <= first + tail
    ensures k == |first| ==> (first + tail)[k..] == tail
    ensures first + [] == first
  {
  }

  lemma {:induction false} ServedCons(first: bytes, rest: seq<bytes>, left: int)
    ensures Served([first] + rest, left) == if left <= 0 then [] else first + Served(rest, left - |first|)
  {
    assert ([first] + rest)[1..] == rest;
  }

  lemma ReadCount(ahead: bytes, out: bytes, want: int)
    requires out <= ahead && |out| <= want && (|out| == want || out == ahead)
    ensures |out| == Min(want, |ahead|) && out == ahead[..|out|]
  {
  }

  // A piece of what is ahead is read.
  lemma Onward(ahead: bytes, out: bytes, piece: bytes)
    requires out <= ahead && piece <= ahead[|out|..]
    ensures out + piece <= ahead && ahead[|out|..][|piece|..] == ahead[|out + piece|..]
    ensures piece == ahead[|out|..] ==> out + piece == ahead
  {
  }

  lemma {:induction false} NoneServed(pieces: seq<bytes>, left: int)
    ensures left <= 0 ==> Served(pieces, left) == []
  {
  }

  /** The reader */

  class StreamReader {
    const store: Store
    const id: bytes
    const length: int
    const chunkSize: int
    ghost const flat: bytes  // the contents of the file
    var offset: int
    var currentChunk: int
    var data: Option<bytes>  // the loaded chunk
    var startOffset: int
    var size: int
    var chunkOffset: int

    // The store has the file as chunks of the generic subtype.
    ghost predicate Attached()
      reads this, store
    {
      && chunkSize > 0 && flat != [] && length == |flat|
      && Holds(store.chunks, id, Chunks(flat, chunkSize))
      && startOffset == 0
    }

    // The loaded chunk is number currentChunk and the position inside it is the file position.
    ghost predicate InPlace()
      reads this
    {
      chunkSize > 0 &&
      var parts := Chunks(flat, chunkSize);
      && 0 <= currentChunk < |parts| && data == Some(parts[currentChunk])
      && size == |parts[currentChunk]| && 0 <= chunkOffset <= size
      && offset == |Concat(parts[..currentChunk])| + chunkOffset
      && (offset < length ==> chunkOffset < size)
    }

    // What the read loop goes through: the rest of the loaded chunk, or the first chunk if none
    // is loaded, and the chunks behind the current number.
    ghost function Pieces(): seq<bytes>
      requires chunkSize > 0 && flat != [] && 0 <= currentChunk < |Chunks(flat, chunkSize)|
      requires data.Some? ==> 0 <= chunkOffset <= |data.value|
      reads this
    {
      var parts := Chunks(flat, chunkSize);
      [if data.Some? then data.value[chunkOffset..] else parts[0]] + parts[currentChunk + 1..]
    }

    // After any run of reads and seeks, failed ones included.
    ghost predicate Steady()
      reads this, store
    {
      && Attached()
      && var parts := Chunks(flat, chunkSize);
      && 0 <= offset && 0 <= currentChunk < |parts|
      && (data.Some? ==>
            && size == |data.value| <= |parts[0]| && 0 <= chunkOffset <= size
            && (offset < length ==> chunkOffset < size))
      && length - offset <= |Concat(Pieces())|
    }

    // What reads will return.
    ghost function Upcoming(): bytes
      requires Steady()
      reads this, store
    {
      Served(Pieces(), length - offset)
    }

    ghost predicate Valid()
      reads this, store
    {
      && Attached() && 0 <= offset <= length
      && (data.Some? ==> InPlace())
      && (data.None? ==> offset == 0 && currentChunk == 0)
    }

    constructor (store: Store, id: bytes, length: int, chunkSize: int, ghost flat: bytes)
      ensures this.store == store && this.id == id && this.length == length && this.chunkSize == chunkSize
      ensures this.flat == flat && offset == 0 && currentChunk == 0 && data == None
      ensures startOffset == 0 && size == 0 && chunkOffset == 0
    {
      this.store, this.id, this.length, this.chunkSize, this.flat := store, id, length, chunkSize, flat;
      offset, currentChunk, data, startOffset, size, chunkOffset := 0, 0, None, 0, 0, 0;
    }

    // The query for a file document, whose reply is dropped if it looks like an error, and the
    // clone of the document that is finished again.
    static method QueryFile(store: Store, key: bytes, ghost es: seq<Element>) returns (b: Bson?)
      requires key in store.files ==> Sound(es) && store.files[key] == EncDoc(es)
      ensures b != null <==> key in store.files && !LooksLikeError(es)
      ensures b != null <==> key in store.files && !ReportsError(es)
      ensures b != null ==> b.Holds(es)
    {
      hide EncDoc, EncElems, WellFormed, LooksLikeError, ReportsError, FinishedData;
      ErrorReports(es);
      if key !in store.files { return null; }
      ghost var body := EncDoc(es);
      CloneDrafts(es);
      DraftFinishes(body[..|body| - 1], es);
      var doc := Bson.NewFromData(store.files[key], |store.files[key]| - 1);
      doc.Finish();
      var bad := GetError(doc, es);
      if bad { return null; }
      return doc;
    }

    // mongo_sync_gridfs_stream_find, when the query matches the file document stored for an id.
    static method Find(store: Store, key: bytes, ghost es: seq<Element>, ghost flat: bytes) returns (r: StreamReader?)
      requires key in store.files ==> Sound(es) && store.files[key] == EncDoc(es)
      ensures r != null <==> key in store.files && QueryMeta(es).Some?
      ensures r != null ==>
                && var m := QueryMeta(es).value;
                   && fresh(r) && r.store == store && r.flat == flat && r.offset == 0
                   && r.id == m.id && r.length == m.length && r.chunkSize == m.chunkSize
                   && (m.chunkSize > 0 && m.length == |flat| > 0 && Holds(store.chunks, m.id, Chunks(flat, m.chunkSize))
                       ==> r.Valid())
    {
      hide EncDoc, EncElems, WellFormed, Holds, FindMeta, LooksLikeError, ReportsError, Chunks;
      var b := QueryFile(store, key, es);
      if b == null { return null; }
      var meta := ReadMeta(b, es);
      if meta.None? { return null; }
      var Meta(id, length, chunkSize) := meta.value;
      r := new StreamReader(store, id, length, chunkSize, flat);
    }

    // _stream_seek_chunk: a missing chunk or a foreign subtype drops the loaded chunk.
    method SeekChunk(n: int) returns (ok: bool)
      modifies this`data, this`startOffset, this`size, this`chunkOffset
      ensures ok <==> (id, n) in store.chunks && store.chunks[(id, n)].subtype in {GENERIC, LEGACY}
      ensures ok ==>
                && var c := store.chunks[(id, n)];
                   && data == Some(c.data) && chunkOffset == 0
                   && startOffset == (if c.subtype == LEGACY then 4 else old(startOffset))
                   && size == |c.data| - (if c.subtype == LEGACY then 4 else 0)
      ensures !ok ==> data == None && chunkOffset == old(chunkOffset) && startOffset == old(startOffset)
    {
      data := None;
      if (id, n) !in store.chunks { return false; }
      var c := store.chunks[(id, n)];
      data, size := Some(c.data), |c.data|;
      if c.subtype != GENERIC && c.subtype != LEGACY {
        data := None;
        return false;
      }
      if c.subtype == LEGACY {
        startOffset := 4;
        size := size - 4;
      }
      chunkOffset := 0;
      return true;
    }

    // Loading a chunk that the file has.
    method LoadChunk(n: nat) returns (ok: bool)
      requires Attached()
      modifies this`data, this`startOffset, this`size, this`chunkOffset
      ensures Attached()
      ensures ok <==> n < |Chunks(flat, chunkSize)|
      ensures ok ==> data == Some(Chunks(flat, chunkSize)[n]) && size == |data.value| > 0 && chunkOffset == 0
      ensures ok ==> size <= |Chunks(flat, chunkSize)[0]|
      ensures !ok ==> data == None && chunkOffset == old(chunkOffset)
    {
      hide Chunks, Concat;
      if n < |Chunks(flat, chunkSize)| {
        ChunkAt(flat, chunkSize, n);
        ChunkAt(flat, chunkSize, 0);
      }
      ok := SeekChunk(n);
    }

    // In place, the reads ahead return the rest of the file.
    lemma ValidIsSteady()
      requires Valid()
      ensures Steady() && Upcoming() == flat[offset..]
    {
      hide Chunks, Holds, Served;
      var parts := Chunks(flat, chunkSize);
      FirstChunk(flat, chunkSize);
      ChunkAt(flat, chunkSize, 0);
      ChunkAt(flat, chunkSize, currentChunk);
      FromChunk(flat, chunkSize, currentChunk, if data.Some? then chunkOffset else 0);
      assert data.None? ==> parts[0][0..] == parts[0];
      ServedAll(Pieces());
    }

    // One turn of the read loop: copies what the chunk still has, and loads the next chunk at
    // its end.
    method ReadPiece(want: int) returns (ok: bool, piece: bytes)
      requires Steady() && data.Some? && offset < length && want > 0
      modifies this`offset, this`currentChunk, this`data, this`startOffset, this`size, this`chunkOffset
      ensures ok && Steady() && data.Some?
      ensures 0 < |piece| <= want && offset == old(offset) + |piece|
      ensures piece <= old(Upcoming())
      ensures offset < length ==> Upcoming() == old(Upcoming())[|piece|..]
      ensures offset >= length ==> Upcoming() == [] && (|piece| == want || piece == old(Upcoming()))
      ensures old(InPlace()) ==> InPlace() && offset <= length
    {
      hide Chunks, Holds, Served, Concat;
      ghost var was := InPlace();
      ghost var rest := Chunks(flat, chunkSize)[currentChunk + 1..];
      ghost var first, left := data.value[chunkOffset..], length - offset;
      var csize := size - chunkOffset;
      if want < csize { csize := want; }
      piece := data.value[startOffset + chunkOffset..startOffset + chunkOffset + csize];
      assert piece == first[..csize];
      ServedStep(first, rest, left, csize);
      if was { PieceOfFile(flat, chunkSize, currentChunk, chunkOffset, csize); }
      chunkOffset := chunkOffset + csize;
      offset := offset + csize;
      assert first[csize..] == data.value[chunkOffset..];
      if chunkOffset + startOffset >= size && offset + startOffset < length {
        if rest == [] { NoChunksLeft(); }
        currentChunk := currentChunk + 1;
        ok := LoadChunk(currentChunk);
        assert Pieces() == rest by { assert data.value[0..] == data.value; }
        return;
      }
      NoneServed(Pieces(), length - offset);
      return true, piece;
    }

    lemma NoChunksLeft()
      ensures Concat<byte>([]) == []
    {
    }

    // Reads as many of the upcoming bytes as asked for; in place these are the next bytes of
    // the file.
    method Read(want: int) returns (n: int, out: bytes)
      requires Valid() || Steady() || (data.Some? && offset + startOffset >= length)
      modifies this`offset, this`currentChunk, this`data, this`startOffset, this`size, this`chunkOffset
      ensures want <= 0 ==>
                && n == -1 && offset == old(offset) && (old(Valid()) ==> Valid())
                && (old(Steady()) ==> Steady() && Upcoming() == old(Upcoming()))
      ensures want > 0 && old(Steady()) ==>
                && Steady() && n == |out| == Min(want, |old(Upcoming())|)
                && out == old(Upcoming())[..n] && offset == old(offset) + n
                && Upcoming() == if offset < length then old(Upcoming())[n..] else []
      ensures want > 0 && old(Valid()) ==>
                && Valid() && n == |out| == Min(want, length - old(offset))
                && offset == old(offset) + n && out == flat[old(offset)..offset]
      // At start_offset bytes from the end of the file nothing is read any more.
      ensures want > 0 && old(data.Some? && offset + startOffset >= length) ==>
                n == 0 && out == [] && offset == old(offset)
    {
      hide Chunks, Concat, Holds, Served;
      n, out := -1, [];
      if want <= 0 { return; }
      if Valid() { ValidIsSteady(); }
      if data.None? {
        FirstChunk(flat, chunkSize);
        ghost var pieces := Pieces();
        var loaded := LoadChunk(0);
        if !loaded { return; }
        assert data.value[0..] == data.value && Pieces() == pieces;
      }
      n, out := ReadLoop(want);
    }

    method ReadLoop(want: int) returns (n: int, out: bytes)
      requires data.Some? && want > 0 && (Steady() || offset + startOffset >= length)
      modifies this`offset, this`currentChunk, this`data, this`startOffset, this`size, this`chunkOffset
      ensures n == |out| && offset == old(offset) + n && data.Some?
      ensures old(Steady()) ==>
                && Steady() && n == Min(want, |old(Upcoming())|) && out == old(Upcoming())[..n]
                && Upcoming() == if offset < length then old(Upcoming())[n..] else []
      ensures old(Steady() && InPlace() && offset <= length) ==> InPlace() && offset <= length
      ensures old(offset + startOffset >= length) ==> n == 0
    {
      hide Steady, Upcoming, InPlace, Min;
      ghost var steady := Steady();
      ghost var ahead := if steady then Upcoming() else [];
      out := [];
      var pos := 0;
      if steady { SteadyFacts(); }
      assert ahead[0..] == ahead;
      while pos < want && offset + startOffset < length
        invariant 0 <= pos == |out| <= want && offset == old(offset) + pos && data.Some?
        invariant old(offset + startOffset >= length) ==> pos == 0 && offset + startOffset >= length
        invariant steady || offset + startOffset >= length
        invariant steady ==> Steady() && out <= ahead
        invariant steady && offset < length ==> Upcoming() == ahead[|out|..]
        invariant steady && offset >= length ==> Upcoming() == [] && (|out| == want || out == ahead)
        invariant steady && old(InPlace() && offset <= length) ==> InPlace() && offset <= length
        decreases want - pos
      {
        if steady { SteadyFacts(); }
        var ok, piece := ReadPiece(want - pos);
        Onward(ahead, out, piece);
        if !ok { return -1, out; }
        out := out + piece;
        pos := pos + |piece|;
      }
      if steady {
        SteadyFacts();
        ReadCount(ahead, out, want);
      }
      n := pos;
    }

    lemma SteadyFacts()
      requires Steady()
      ensures startOffset == 0 && (offset >= length ==> Upcoming() == [])
    {
      hide Chunks, Concat, Holds, Served;
      NoneServed(Pieces(), length - offset);
    }

    // Going on with the first chunk there is no less to read.
    lemma DropsToFirst()
      requires Steady()
      ensures |Concat([Chunks(flat, chunkSize)[0]] + Chunks(flat, chunkSize)[currentChunk + 1..])|
              >= |Concat(Pieces())|
    {
      hide Chunks, Holds;
      var rest := Chunks(flat, chunkSize)[currentChunk + 1..];
      assert ([Chunks(flat, chunkSize)[0]] + rest)[1..] == rest && Pieces()[1..] == rest;
    }

    // After a drop the whole first chunk comes again.
    lemma FirstAgain()
      requires Steady() && data.None? && offset < length
      ensures flat[..if chunkSize < length then chunkSize else length] <= Upcoming()
      ensures Upcoming() != [] && Upcoming()[..1] == flat[..1]
    {
      hide Chunks, Holds, Concat;
      FirstChunk(flat, chunkSize);
      ChunkAt(flat, chunkSize, 0);
      var first, rest := Chunks(flat, chunkSize)[0], Chunks(flat, chunkSize)[currentChunk + 1..];
      ServedStep(first, rest, length - offset, |first|);
      ServedStep(first, rest, length - offset, 1);
      assert first[..|first|] == first && first[..1] == flat[..1];
    }

    // From the start (0), from here (1) or from the end (2).  In place it succeeds exactly inside
    // the file, and at the very end only if there is a tail or it stays where it is.
    method Seek(pos: int, whence: int) returns (ok: bool)
      requires chunkSize > 0 && length >= 0
      modifies this`offset, this`currentChunk, this`data, this`startOffset, this`size, this`chunkOffset
      ensures whence !in {0, 1, 2} ==> !ok
      ensures old(Valid()) && whence in {0, 1, 2} ==>
                var goal := if whence == 0 then pos else if whence == 1 then old(offset) + pos else length + pos;
                && ok == (&& 0 <= goal <= length
                          && (goal < length || length % chunkSize != 0 || (whence != 2 && goal == old(offset))))
                && offset == if ok then goal else old(offset)
      ensures var t := SeekTarget(length, old(offset), pos, whence);
              && (t.Refuse? ==> !ok)
              && (t.Stay? ==> ok)
              && (!t.Go? ==> offset == old(offset) && currentChunk == old(currentChunk) && data == old(data)
                             && startOffset == old(startOffset) && size == old(size) && chunkOffset == old(chunkOffset))
              // On a file of generic chunks a seek in range fails exactly at the end of full chunks.
              && (t.Go? && old(Attached()) ==>
                    && Attached() && ok == !SeeksPastChunks(length, chunkSize, t)
                    && (ok ==> Valid() && offset == t.pos)
                    && (!ok ==> data == None && offset == old(offset) && currentChunk == old(currentChunk)))
              // The chunk is dropped then, but the position stays: reads go on with the first one.
              && (old(Valid() || Steady()) && !ok ==> Steady())
              // On a file of legacy chunks the start offset stays behind.
              && (t.Go? && (id, t.pos / chunkSize) in store.chunks
                  && store.chunks[(id, t.pos / chunkSize)].subtype == LEGACY ==>
                    ok && offset == t.pos && startOffset == 4 && data.Some?)
    {
      hide Chunks, Concat, Holds;
      if Valid() { ValidIsSteady(); }
      if Steady() { DropsToFirst(); }
      var target := 0;
      if whence == SEEK_SET {
        if pos == offset { return true; }
        if pos < 0 || pos > length { return false; }
        target := pos;
      } else if whence == SEEK_CUR {
        if pos + offset < 0 || pos + offset > length { return false; }
        if pos == 0 { return true; }
        target := pos + offset;
      } else if whence == SEEK_END {
        if pos > 0 || pos + length < 0 { return false; }
        target := pos + length;
      } else {
        return false;
      }
      ok := Go(target);
    }

    // The part of a seek that goes to the server.
    method Go(target: int) returns (ok: bool)
      requires chunkSize > 0 && 0 <= target <= length
      modifies this`offset, this`currentChunk, this`data, this`startOffset, this`size, this`chunkOffset
      ensures old(Attached()) ==>
                && Attached() && ok == !(target == length && length % chunkSize == 0)
                && (ok ==> Valid() && offset == target)
                && (!ok ==> data == None && offset == old(offset) && currentChunk == old(currentChunk))
      ensures (id, target / chunkSize) in store.chunks && store.chunks[(id, target / chunkSize)].subtype == LEGACY ==>
                ok && offset == target && startOffset == 4 && data.Some?
    {
      hide Chunks, Concat, Holds;
      var chunk, offs := target / chunkSize, target % chunkSize;
      if Attached() {
        TargetChunk(flat, chunkSize, target);
        InStore(chunk);
      }
      ok := SeekChunk(chunk);
      if !ok { return false; }
      chunkOffset := offs;
      currentChunk := chunk;
      offset := target;
      return true;
    }

    lemma InStore(n: int)
      requires Attached()
      ensures (id, n) in store.chunks <==> 0 <= n < |Chunks(flat, chunkSize)|
      ensures (id, n) in store.chunks ==> store.chunks[(id, n)] == Chunk(GENERIC, Chunks(flat, chunkSize)[n])
    {
    }

    lemma ValidBounds()
      requires Valid()
      ensures chunkSize > 0 && 0 <= offset <= length == |flat|
    {
    }

    // The failing seek.
    ghost predicate Strays(op: Op)
      requires chunkSize > 0
      reads this
    {
      op.SeekOp? && SeeksPastChunks(length, chunkSize, SeekTarget(length, offset, op.pos, op.whence))
    }

    // One client operation.
    method Perform(op: Op) returns (r: Result)
      requires Valid() || Steady()
      modifies this`offset, this`currentChunk, this`data, this`startOffset, this`size, this`chunkOffset
      ensures Valid() || Steady()
      ensures old(Valid() && !Strays(op)) ==> Valid() && (offset, r) == FlatStep(flat, old(offset), op)
      ensures old(Valid() && Strays(op)) ==> r != FlatStep(flat, old(offset), op).1
    {
      hide Chunks, Concat, Holds, Served;
      if Valid() { ValidIsSteady(); }
      match op {
        case ReadOp(want) =>
          var n, out := Read(want);
          r := if n == -1 then Failed else Data(out);
        case SeekOp(pos, whence) =>
          var ok := Seek(pos, whence);
          r := if ok then Done else Failed;
      }
    }

    // A run of reads and seeks behaves like a position on the flat file exactly if it does not
    // contain the failing seek.
    method RunOps(ops: seq<Op>) returns (results: seq<Result>)
      requires Valid()
      modifies this`offset, this`currentChunk, this`data, this`startOffset, this`size, this`chunkOffset
      ensures Valid() || Steady()
      ensures results == FlatRun(flat, old(offset), ops) <==> AvoidsEnd(flat, chunkSize, old(offset), ops)
    {
      hide Valid, FlatStep, FlatRun, AvoidsEnd, Steady, SeeksPastChunks, SeekTarget;
      ValidBounds();
      results := [];
      ghost var all := FlatRun(flat, offset, ops);
      FlatRunLength(flat, offset, ops);
      assert ops[0..] == ops;
      ghost var strayed := false;
      for i := 0 to |ops|
        invariant |results| == i && (Valid() || Steady())
        invariant strayed ==>
                    && !AvoidsEnd(flat, chunkSize, old(offset), ops)
                    && exists j | 0 <= j < i :: results[j] != all[j]
        invariant !strayed ==>
                    && Valid() && 0 <= offset <= |flat|
                    && results + FlatRun(flat, offset, ops[i..]) == all
                    && (AvoidsEnd(flat, chunkSize, offset, ops[i..]) <==> AvoidsEnd(flat, chunkSize, old(offset), ops))
      {
        if !strayed {
          RunUnfold(flat, chunkSize, offset, ops, i);
          assert all[i] == FlatRun(flat, offset, ops[i..])[0];
          strayed := Strays(ops[i]);
        }
        var r := Perform(ops[i]);
        if Valid() { ValidBounds(); }
        results := results + [r];
      }
      assert ops[|ops|..] == [];
      if !strayed { EmptyRun(flat, chunkSize, offset); }
    }
  }

  lemma {:induction false} EmptyRun(flat: bytes, cs: nat, offset: nat)
    requires offset <= |flat| && cs > 0
    ensures FlatRun(flat, offset, []) == [] && AvoidsEnd(flat, cs, offset, [])
  {
  }

  lemma {:induction false} RunUnfold(flat: bytes, cs: nat, offset: nat, ops: seq<Op>, i: nat)
    requires offset <= |flat| && cs > 0 && i < |ops|
    ensures var (next, r) := FlatStep(flat, offset, ops[i]);
            && next <= |flat|
            && FlatRun(flat, offset, ops[i..]) == [r] + FlatRun(flat, next, ops[i + 1..])
            && (AvoidsEnd(flat, cs, offset, ops[i..]) <==>
                  && (ops[i].SeekOp? ==>
                        !SeeksPastChunks(|flat|, cs, SeekTarget(|flat|, offset, ops[i].pos, ops[i].whence)))
                  && AvoidsEnd(flat, cs, next, ops[i + 1..]))
  {
    hide FlatStep, SeeksPastChunks, SeekTarget;
    assert ops[i..][0] == ops[i] && ops[i..][1..] == ops[i + 1..];
    FlatStepInRange(flat, offset, ops[i]);
  }

  lemma {:induction false} FirstChunk(flat: bytes, cs: int)
    requires cs > 0 && flat != []
    ensures var parts := Chunks(flat, cs);
            |parts| > 0 && parts[0] != [] && |Concat(parts[..0])| == 0 && parts[0] == flat[..|parts[0]|]
  {
  }

  // Inside chunk q the file continues like the chunk.
  lemma {:induction false} PieceOfFile(flat: bytes, cs: nat, q: nat, at: nat, n: nat)
    requires cs > 0 && q < |Chunks(flat, cs)| && at + n <= |Chunks(flat, cs)[q]|
    ensures var parts := Chunks(flat, cs);
            var from := |Concat(parts[..q])| + at;
            && from + n <= |flat| && parts[q][at..at + n] == flat[from..from + n]
            && |Concat(parts[..q + 1])| == |Concat(parts[..q])| + |parts[q]|
            && (|Concat(parts[..q + 1])| < |flat| ==> q + 1 < |parts|)
            && (|Concat(parts[..q + 1])| == |flat| <==> q + 1 == |parts|)
  {
    hide Chunks;
    var parts := Chunks(flat, cs);
    ConcatChunks(flat, cs);
    PrefixSnoc(parts, q);
    ConcatAppend(parts[..q + 1], parts[q + 1..]);
    assert parts[..q + 1] + parts[q + 1..] == parts;
    var before, p, after := Concat(parts[..q]), parts[q], Concat(parts[q + 1..]);
    assert flat == before + p + after;
    assert flat[|before|..|before| + |p|] == p;
    SubSlice(flat, |before|, |before| + |p|, at, at + n);
    if q + 1 < |parts| {
      ChunkAt(flat, cs, q + 1);
      assert after == parts[q + 1] + Concat(parts[q + 1..][1..]);
    } else {
      assert after == [];
    }
  }

  lemma {:induction false} FromChunk(flat: bytes, cs: nat, q: nat, at: nat)
    requires cs > 0 && q < |Chunks(flat, cs)| && at <= |Chunks(flat, cs)[q]|
    ensures var parts := Chunks(flat, cs);
            && |Concat(parts[..q])| + at <= |flat|
            && Concat([parts[q][at..]] + parts[q + 1..]) == flat[|Concat(parts[..q])| + at..]
  {
    hide Chunks;
    var parts := Chunks(flat, cs);
    ConcatChunks(flat, cs);
    ConcatAppend(parts[..q], parts[q..]);
    assert parts[..q] + parts[q..] == parts;
    assert parts[q..][1..] == parts[q + 1..];
    assert ([parts[q][at..]] + parts[q + 1..])[1..] == parts[q + 1..];
    var before, p, after := Concat(parts[..q]), parts[q], Concat(parts[q + 1..]);
    assert flat == before + (p + after);
    assert flat[|before| + at..] == p[at..] + after;
  }

  /** Whole files */

  // Uploading through the stream in any pieces, finding the file by its document and running
  // any reads and seeks behaves like a position on the uploaded bytes.  The file is found exactly
  // if it has a tail and metadata that does not look like an error report, as long as that has no
  // "length" behind its "_id".
  method StreamRoundTrip(store: Store, metadata: Bson?, ghost user: seq<Element>, oid: bytes, date: int,
                         pieces: seq<bytes>, ops: seq<Op>)
    returns (found: bool, results: seq<Result>)
    requires Supplied(metadata, user) && |oid| == 12 && UsableId(user) && LengthNotBehindId(user)
    requires store.chunkSize >= 1 && Holds(store.chunks, FileId(user, oid), []) && FileId(user, oid) !in store.files
    requires var data := Concat(pieces);
             Sound(FileDocument(user, oid, |data|, store.chunkSize, date, UpToNul(store.digest(data))))
    requires false !in store.outcomes
    modifies store
    ensures found <==> |Concat(pieces)| % old(store.chunkSize) != 0 && metadata != null && !LooksLikeError(user)
    ensures found ==> results == FlatRun(Concat(pieces), 0, ops)
  {
    hide Chunks, Concat, Holds, FlatRun, AvoidsEnd, EncDoc, WellFormed, QueryMeta, LooksLikeError, FileDocument, WithId,
      FileId, UpToNul;
    ghost var data, cs := Concat(pieces), store.chunkSize;
    ghost var es := FileDocument(user, oid, |data|, cs, date, UpToNul(store.digest(data)));
    DocumentSound(user, oid, |data|, cs, date, UpToNul(store.digest(data)));
    results := [];
    var key := StreamKey(metadata, user, oid);
    var ok := UploadStream(store, metadata, user, oid, date, pieces);
    if data != [] { MetaReadBack(user, oid, |data|, cs, date, UpToNul(store.digest(data))); }
    var r := StreamReader.Find(store, key, es, data);
    found := r != null;
    if found {
      TailAvoidsEnd(data, cs, 0, ops);
      results := r.RunOps(ops);
    }
  }

  // The same for the one-shot uploader, which files every length: the runs that behave like a
  // position on the uploaded bytes are exactly those without the failing seek.
  method ChunkedRoundTrip(store: Store, metadata: Bson?, ghost user: seq<Element>, oid: bytes, date: int, data: bytes,
                          ops: seq<Op>)
    returns (found: bool, results: seq<Result>)
    requires Supplied(metadata, user) && data != [] && |oid| == 12 && LeavesOwnKeys(user)
    requires store.chunkSize >= 1 && Holds(store.chunks, oid, []) && false !in store.outcomes
    requires Sound(ChunkedDocument(user, oid, |data|, store.chunkSize, date, UpToNul(store.digest(data))))
    modifies store
    ensures found <==> !LooksLikeError(user)
    ensures found ==> (results == FlatRun(data, 0, ops) <==> AvoidsEnd(data, old(store.chunkSize), 0, ops))
  {
    hide Chunks, Holds, FlatRun, AvoidsEnd, EncDoc, WellFormed, QueryMeta, LooksLikeError, ChunkedDocument, UpToNul;
    ghost var cs, md5 := store.chunkSize, UpToNul(store.digest(data));
    assert data[..|data|] == data;
    results := [];
    var ok := store.UploadBuffer(metadata, user, oid, date, data, |data|);
    ChunkedReadBack(user, oid, |data|, cs, date, md5);
    var r := StreamReader.Find(store, oid, ChunkedDocument(user, oid, |data|, cs, date, md5), data);
    found := r != null;
    if found { results := r.RunOps(ops); }
  }

  // The id that a client sees in the metadata or was given.
  method StreamKey(metadata: Bson?, ghost user: seq<Element>, oid: bytes) returns (key: bytes)
    requires Supplied(metadata, user) && |oid| == 12 && UsableId(user)
    ensures key == FileId(user, oid)
  {
    hide EncDoc, WellFormed;
    var ok, id, base := OpenMeta(metadata, user, oid);
    key := id;
  }

  // A one-shot upload of four bytes in chunks of two: reading one byte and then seeking to the
  // end fails, and the next read returns the first byte of the file instead of the second.
  method SeekToEndExample(oid: bytes, date: int, digest: bytes -> bytes) returns (out: bytes)
    requires |oid| == 12 && Sound(ChunkedDocument([], oid, 4, 2, date, UpToNul(digest([10, 20, 30, 40]))))
    ensures out == [10]
  {
    hide EncDoc, WellFormed, QueryMeta, ChunkedDocument, UpToNul;
    var data: bytes := [10, 20, 30, 40];
    assert data[..4] == data;
    var store := new Store(digest, []);
    var resized := store.SetChunkSize(2);
    var up := store.UploadBuffer(null, [], oid, date, data, 4);
    ghost var es := ChunkedDocument([], oid, 4, 2, date, UpToNul(digest(data)));
    ChunkedReadBack([], oid, 4, 2, date, UpToNul(digest(data)));
    var r := StreamReader.Find(store, oid, es, data);
    out := StrayAndRead(r);
  }

  // A byte is read, a seek to the end fails, and the same byte is read again.
  method StrayAndRead(r: StreamReader) returns (out: bytes)
    requires r.Valid() && r.offset == 0 && r.length % r.chunkSize == 0 && r.length > 1
    modifies r
    ensures out == r.flat[..1]
  {
    hide Chunks, Concat, Holds;
    var n, first := r.Read(1);
    var ok := r.Seek(0, SEEK_END);
    assert !ok;
    r.FirstAgain();
    n, out := r.Read(1);
  }

  // After a seek to it, the last byte of a file cannot be read exactly if it is in a legacy chunk.
  method LastByte(r: StreamReader) returns (n: int, out: bytes)
    requires r.length > 0 && r.chunkSize > 0
    requires var last := (r.id, (r.length - 1) / r.chunkSize);
             last in r.store.chunks && (r.store.chunks[last].subtype == LEGACY || r.Attached())
    modifies r
    ensures n == 0 <==> r.store.chunks[(r.id, (r.length - 1) / r.chunkSize)].subtype == LEGACY
    ensures n == 0 ==> out == [] && r.offset == r.length - 1
    ensures n != 0 ==> n == 1 && out == [r.flat[r.length - 1]] && r.offset == r.length
  {
    hide Chunks, Concat;
    ghost var legacy := r.store.chunks[(r.id, (r.length - 1) / r.chunkSize)].subtype == LEGACY;
    if !legacy { r.InStore((r.length - 1) / r.chunkSize); }
    var ok := r.Seek(-1, SEEK_END);
    n, out := r.Read(1);
    if !legacy { assert out == r.flat[r.length - 1..r.length]; }
  }
}
