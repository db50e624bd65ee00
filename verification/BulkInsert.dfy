/** Bulk inserts: the greedy splitter of mongo_sync_cmd_insert_n and what reaches the server. */
module BulkInsert {
  import opened Bytes
  import opened Sequences
  import opened BsonFormat
  import opened BsonObject
  import opened Wire

  // A document as the splitter sees it: bson_size and, if it is finished, its bytes.
  datatype Item = Item(size: int, data: bytes)

  type Batch = seq<Item>

  function Total(b: Batch): int {
    if b == [] then 0 else b[0].size + Total(b[1..])
  }

  lemma {:induction false} TotalConcat(a: Batch, b: Batch)
    ensures Total(a + b) == Total(a) + Total(b)
  {
    if a == [] {
      assert a + b == b;
    } else {
      assert (a + b)[1..] == a[1..] + b;
      TotalConcat(a[1..], b);
    }
  }

  predicate AllSmall(items: Batch, max: int) {
    max > 0 && forall it | it in items :: it.size < max
  }

  /** The code's splitter */

  // How many items the inner loop takes with size already counted.
  function FillCount(items: Batch, size: int, max: int): (n: nat)
    ensures n <= |items|
    ensures n < |items| ==> size + Total(items[..n]) >= max
  {
    if items == [] || size >= max then 0
    else
      var n := 1 + FillCount(items[1..], size + items[0].size, max);
      assert items[..n][1..] == items[1..][..n - 1];
      n
  }

  // The length of the next batch: the loop gives one item back unless it took them all.
  function BatchLength(items: Batch, max: int): (c: nat)
    requires AllSmall(items, max) && items != []
    ensures 0 < c <= |items|
  {
    var n := FillCount(items, 0, max);
    assert items[0] in items;
    assert Total(items[..1]) == items[0].size + Total(items[..1][1..]);
    if n < |items| then n - 1 else n
  }

  function CodeSplit(items: Batch, max: int): (bs: seq<Batch>)
    requires AllSmall(items, max)
    ensures Concat(bs) == items && [] !in bs
    decreases |items|
  {
    if items == [] then []
    else
      var c := BatchLength(items, max);
      [items[..c]] + CodeSplit(items[c..], max)
  }

  /** What a splitter that respects the limit would do: every batch is as long as it can be with a
      total below the limit. */

  function GreedyCount(items: Batch, size: int, max: int): (n: nat)
    ensures n <= |items|
    ensures size < max ==> size + Total(items[..n]) < max
    ensures n < |items| ==> size + Total(items[..n + 1]) >= max
  {
    if items == [] || size + items[0].size >= max then
      assert items != [] ==> Total(items[..1]) == items[0].size + Total(items[..1][1..]);
      0
    else
      var n := 1 + GreedyCount(items[1..], size + items[0].size, max);
      assert items[..n][1..] == items[1..][..n - 1];
      assert n < |items| ==> items[..n + 1][1..] == items[1..][..n];
      n
  }

  function LimitSplit(items: Batch, max: int): (bs: seq<Batch>)
    requires AllSmall(items, max)
    ensures Concat(bs) == items && [] !in bs
    decreases |items|
  {
    if items == [] then []
    else
      var c := GreedyCount(items, 0, max);
      assert items[0] in items;
      [items[..c]] + LimitSplit(items[c..], max)
  }

  // Batch k would have reached the limit with the first document of the next one.
  ghost predicate Full(bs: seq<Batch>, k: nat, max: int)
    requires k + 1 < |bs|
  {
    bs[k + 1] != [] && Total(bs[k]) + bs[k + 1][0].size >= max
  }

  // Within the limit, and no batch could have taken the first document of the next one.
  ghost predicate Maximal(bs: seq<Batch>, max: int) {
    && (forall k | 0 <= k < |bs| :: bs[k] != [] && Total(bs[k]) < max)
    && (forall k | 0 <= k < |bs| - 1 :: Full(bs, k, max))
  }

  lemma {:induction false} LimitStep(items: Batch, max: int)
    requires AllSmall(items, max) && items != []
    ensures var g := GreedyCount(items, 0, max);
            && 0 < g && Total(items[..g]) < max && AllSmall(items[g..], max)
            && (g < |items| ==> Total(items[..g]) + items[g].size >= max)
            && LimitSplit(items, max) == [items[..g]] + LimitSplit(items[g..], max)
  {
    var g := GreedyCount(items, 0, max);
    assert items[0] in items;
    if g < |items| {
      assert items[..g + 1] == items[..g] + [items[g]];
      TotalConcat(items[..g], [items[g]]);
      TotalOne(items[g]);
    }
  }

  lemma TotalOne(it: Item)
    ensures Total([it]) == it.size
  {
  }

  lemma {:induction false} FirstOfConcat(bs: seq<Batch>, items: Batch)
    requires Concat(bs) == items && items != [] && [] !in bs
    ensures bs != [] && bs[0] != [] && bs[0][0] == items[0]
  {
  }

  lemma {:induction false} MaximalCons(first: Batch, rest: seq<Batch>, max: int)
    requires Maximal(rest, max) && first != [] && Total(first) < max
    requires rest != [] ==> rest[0] != [] && Total(first) + rest[0][0].size >= max
    ensures Maximal([first] + rest, max)
  {
    hide Total;
    var bs := [first] + rest;
    forall k | 0 <= k < |bs| - 1
      ensures Full(bs, k, max)
    {
      if k > 0 { assert Full(rest, k - 1, max); }
    }
  }

  lemma {:induction false} LimitSplitMaximal(items: Batch, max: int)
    requires AllSmall(items, max)
    ensures Maximal(LimitSplit(items, max), max)
    decreases |items|
  {
    hide LimitSplit, GreedyCount, Total, Concat;
    if items != [] {
      var g := GreedyCount(items, 0, max);
      LimitStep(items, max);
      LimitSplitMaximal(items[g..], max);
      var rest := LimitSplit(items[g..], max);
      if g < |items| { FirstOfConcat(rest, items[g..]); } else { LimitSplitEmpty(max); }
      MaximalCons(items[..g], rest, max);
    } else {
      LimitSplitEmpty(max);
    }
  }

  lemma {:induction false} LimitSplitEmpty(max: int)
    requires max > 0
    ensures LimitSplit([], max) == [] && CodeSplit([], max) == []
  {
  }

  // The last two batches as one, if the last one is a single document.
  function MergeTail(bs: seq<Batch>): seq<Batch> {
    var n := |bs|;
    if n >= 2 && |bs[n - 1]| == 1 then bs[..n - 2] + [bs[n - 2] + bs[n - 1]] else bs
  }

  lemma {:induction false} FillIsGreedy(items: Batch, size: int, max: int)
    requires size < max
    ensures var n, g := FillCount(items, size, max), GreedyCount(items, size, max);
            if g == |items| then n == g else n == g + 1
  {
    if items != [] {
      if size + items[0].size < max {
        FillIsGreedy(items[1..], size + items[0].size, max);
      } else {
        assert FillCount(items[1..], size + items[0].size, max) == 0;
      }
    }
  }

  lemma {:induction false} CodeStep(items: Batch, max: int)
    requires AllSmall(items, max) && items != []
    ensures var g := GreedyCount(items, 0, max);
            if g + 1 >= |items| then CodeSplit(items, max) == [items]
            else AllSmall(items[g..], max)
                 && CodeSplit(items, max) == [items[..g]] + CodeSplit(items[g..], max)
  {
    var g := GreedyCount(items, 0, max);
    FillIsGreedy(items, 0, max);
    if g + 1 >= |items| {
      assert items[..|items|] == items && items[|items|..] == [];
      LimitSplitEmpty(max);
    }
  }

  // The code splits like the splitter above, except that it puts a single left-over document
  // into the batch before it.
  lemma {:induction false} CodeMergesTail(items: Batch, max: int)
    requires AllSmall(items, max)
    ensures CodeSplit(items, max) == MergeTail(LimitSplit(items, max))
    decreases |items|
  {
    hide CodeSplit, LimitSplit, GreedyCount, Total;
    if items == [] {
      LimitSplitEmpty(max);
    } else {
      var g := GreedyCount(items, 0, max);
      LimitStep(items, max);
      CodeStep(items, max);
      var front, rest := items[..g], items[g..];
      var tail := LimitSplit(rest, max);
      assert front + rest == items;
      if g == |items| {
        LimitSplitEmpty(max);
      } else if g == |items| - 1 {
        LimitSplitOne(rest, max);
      } else {
        CodeMergesTail(rest, max);
        assert |tail| == 1 ==> tail[0] == rest by {
          if |tail| == 1 { assert Concat(tail) == tail[0] + Concat([]); }
        }
        MergeTailCons(front, tail);
      }
    }
  }

  lemma MergeTailCons(front: Batch, tail: seq<Batch>)
    requires |tail| == 1 ==> |tail[0]| != 1
    ensures MergeTail([front] + tail) == [front] + MergeTail(tail)
  {
    if |tail| >= 2 { assert ([front] + tail)[..|tail| - 1] == [front] + tail[..|tail| - 2]; }
  }

  lemma {:induction false} LimitSplitOne(items: Batch, max: int)
    requires AllSmall(items, max) && |items| == 1
    ensures LimitSplit(items, max) == [items]
  {
    LimitStep(items, max);
    assert items[..1] == items && items[1..] == [];
    LimitSplitEmpty(max);
  }

  predicate SingleTail(bs: seq<Batch>) {
    |bs| >= 2 && |bs[|bs| - 1]| == 1
  }

  lemma {:induction false} MergedTotals(ls: seq<Batch>, max: int)
    requires Maximal(ls, max) && max > 0
    ensures var bs := MergeTail(ls);
            && ((forall k | 0 <= k < |bs| :: Total(bs[k]) < max) <==> !SingleTail(ls))
            && (forall k | 0 <= k < |bs| :: Total(bs[k]) < 2 * max)
            && (forall k | 0 <= k < |bs| - 1 :: Total(bs[k]) < max)
            && (forall k | 0 <= k < |bs| - 1 :: Full(bs, k, max))
  {
    hide Total;
    if SingleTail(ls) {
      var bs, n := MergeTail(ls), |ls|;
      var a, b := ls[n - 2], ls[n - 1];
      assert b == [b[0]];
      assert Full(ls, n - 2, max);
      TotalConcat(a, b);
      TotalOne(b[0]);
      assert bs[n - 2] == a + b;
      assert forall k | 0 <= k < n - 2 :: bs[k] == ls[k] && Full(ls, k, max);
    }
  }

  // Every batch stays below the limit exactly when the limit-respecting split does not leave a
  // single document over; no batch reaches twice the limit, all but the last stay below it, and
  // each of those would reach it with the next document.
  lemma {:induction false} BatchesWithinLimit(items: Batch, max: int)
    requires AllSmall(items, max)
    ensures var bs := CodeSplit(items, max);
            && ((forall k | 0 <= k < |bs| :: Total(bs[k]) < max) <==> !SingleTail(LimitSplit(items, max)))
            && (forall k | 0 <= k < |bs| :: Total(bs[k]) < 2 * max)
            && (forall k | 0 <= k < |bs| - 1 :: Total(bs[k]) < max)
            && (forall k | 0 <= k < |bs| - 1 :: Full(bs, k, max))
  {
    hide CodeSplit, LimitSplit, Total, MergeTail;
    LimitSplitMaximal(items, max);
    CodeMergesTail(items, max);
    MergedTotals(LimitSplit(items, max), max);
  }

  // Two documents of six bytes under a limit of ten travel together, twelve bytes in one insert.
  lemma OvershootExample(a: Item, b: Item)
    requires a.size == b.size == 6
    ensures CodeSplit([a, b], 10) == [[a, b]] && Total([a, b]) == 12
  {
    assert [a, b][1..] == [b] && [b][1..] == [];
    assert FillCount([b], 6, 10) == 1 + FillCount([], 12, 10);
    assert Total([b]) == 6 + Total([]);
    assert [a, b][..2] == [a, b] && [a, b][2..] == [];
  }

  /** Sending */

  // What becomes of one attempt to send a packet; back is whether a reconnect after it succeeds.
  datatype Outcome = Stored | SendFailed(back: bool) | Refused

  // What becomes of a packet, and the outcomes of later attempts: with auto-reconnect it is sent
  // once more after a failure.  A missing outcome means that the packet is stored.
  function Attempt(outcomes: seq<Outcome>, again: bool): (Outcome, seq<Outcome>)
    decreases again
  {
    if outcomes == [] then (Stored, [])
    else if outcomes[0].SendFailed? && outcomes[0].back && again then Attempt(outcomes[1..], false)
    else (outcomes[0], outcomes[1..])
  }

  // How many batches reach the server, and whether all of them were stored.  A batch with an
  // unfinished document gets no packet.
  function Deliver(bs: seq<Batch>, outcomes: seq<Outcome>, again: bool): (r: (nat, bool))
    ensures r.0 <= |bs|
    ensures r.1 ==> r.0 == |bs|
  {
    if bs == [] then (0, true)
    else if exists it | it in bs[0] :: it.size <= 0 then (0, false)
    else
      var (outcome, next) := Attempt(outcomes, again);
      if outcome.SendFailed? then (0, false)
      else if outcome.Refused? then (1, false)
      else
        var rest := Deliver(bs[1..], next, again);
        (1 + rest.0, rest.1)
  }

  /** What delivering means, attempt by attempt */

  predicate AllFinished(bs: seq<Batch>) { forall b, it | b in bs && it in b :: it.size > 0 }

  // Every failed send comes back, and the attempt after it is stored; nothing is refused.
  predicate Recovers(outcomes: seq<Outcome>) {
    forall i | 0 <= i < |outcomes| ::
      outcomes[i] == Stored || (outcomes[i] == SendFailed(true) && (i + 1 < |outcomes| ==> outcomes[i + 1] == Stored))
  }

  lemma {:induction false} DeliverAllStored(bs: seq<Batch>, outcomes: seq<Outcome>, again: bool)
    requires AllFinished(bs) && forall o | o in outcomes :: o == Stored
    ensures Deliver(bs, outcomes, again) == (|bs|, true)
  {
    if bs != [] {
      assert bs[0] in bs && forall b | b in bs[1..] :: b in bs;
      StoredOnce(outcomes, again);
      DeliverAllStored(bs[1..], Attempt(outcomes, again).1, again);
    }
  }

  lemma {:induction false} DeliverRecovers(bs: seq<Batch>, outcomes: seq<Outcome>)
    requires AllFinished(bs) && Recovers(outcomes)
    ensures Deliver(bs, outcomes, true) == (|bs|, true)
  {
    if bs != [] {
      assert bs[0] in bs && forall b | b in bs[1..] :: b in bs;
      RecoversOnce(outcomes);
      DeliverRecovers(bs[1..], Attempt(outcomes, true).1);
    }
  }

  lemma StoredOnce(outcomes: seq<Outcome>, again: bool)
    requires forall o | o in outcomes :: o == Stored
    ensures Attempt(outcomes, again).0 == Stored && forall o | o in Attempt(outcomes, again).1 :: o == Stored
  {
    if outcomes != [] { assert outcomes[0] in outcomes && forall o | o in outcomes[1..] :: o in outcomes; }
  }

  lemma RecoversOnce(outcomes: seq<Outcome>)
    requires Recovers(outcomes)
    ensures Attempt(outcomes, true).0 == Stored && Recovers(Attempt(outcomes, true).1)
  {
    if outcomes != [] {
      assert Attempt(outcomes[1..], false).0 == Stored || outcomes[0] == Stored;
      assert |outcomes| > 1 ==> outcomes[1..][1..] == outcomes[2..];
    }
  }

  // Without a retry it is outcome after outcome: all batches are stored, or the first one that is
  // not stops the call, after having reached the server if it was refused there.
  lemma {:induction false} DeliverPlain(bs: seq<Batch>, outcomes: seq<Outcome>, i: nat)
    requires AllFinished(bs) && i < |bs| && i < |outcomes| && outcomes[i] != Stored
    requires forall j | 0 <= j < i :: outcomes[j] == Stored
    ensures Deliver(bs, outcomes, false) == (if outcomes[i] == Refused then i + 1 else i, false)
  {
    assert bs[0] in bs && forall b | b in bs[1..] :: b in bs;
    if i > 0 { DeliverPlain(bs[1..], outcomes[1..], i - 1); }
  }

  // An unfinished document stops the call in front of its batch.
  lemma {:induction false} DeliverUnfinished(bs: seq<Batch>, i: nat, again: bool)
    requires i < |bs| && AllFinished(bs[..i]) && exists it | it in bs[i] :: it.size <= 0
    ensures Deliver(bs, [], again) == (i, false)
  {
    if i > 0 {
      assert bs[..i][0] == bs[0] && bs[..i][1..] == bs[1..][..i - 1];
      assert bs[0] in bs[..i] && forall b | b in bs[1..][..i - 1] :: b in bs[..i];
      DeliverUnfinished(bs[1..], i - 1, again);
    }
  }

  ghost function Datas(b: Batch): (ds: seq<bytes>)
    ensures |ds| == |b|
  {
    seq(|b|, i requires 0 <= i < |b| => b[i].data)
  }

  ghost function Bodies(ns: bytes, bs: seq<Batch>): seq<bytes> {
    if bs == [] then [] else [InsertBody(ns, Datas(bs[0]))] + Bodies(ns, bs[1..])
  }

  // The documents a server reads out of a run of insert packets.
  ghost function Received(bodies: seq<bytes>): seq<bytes> {
    if bodies == [] then []
    else
      var r := ReadRequest(bodies[0], 0);
      (if r.None? then [] else r.value.docs) + Received(bodies[1..])
  }

  lemma {:induction false} BodiesReceived(ns: bytes, bs: seq<Batch>)
    requires NulFree(ns) && forall it | it in Concat(bs) :: Framed(it.data)
    ensures Received(Bodies(ns, bs)) == Datas(Concat(bs))
  {
    hide Framed, InsertBody, ReadRequest;
    if bs != [] {
      var first, rest := bs[0], Concat(bs[1..]);
      assert forall it | it in first :: it in first + rest;
      assert forall it | it in rest :: it in first + rest;
      BodiesReceived(ns, bs[1..]);
      BodyReceived(ns, first);
      assert Datas(first + rest) == Datas(first) + Datas(rest);
    }
  }

  lemma {:induction false} BodyReceived(ns: bytes, b: Batch)
    requires NulFree(ns) && forall it | it in b :: Framed(it.data)
    ensures ReadRequest(InsertBody(ns, Datas(b)), 0) == Some(Request(0, ns, [], Datas(b)))
  {
    hide Framed, InsertBody, ReadRequest;
    forall d | d in Datas(b)
      ensures Framed(d)
    {
      var i :| 0 <= i < |b| && d == Datas(b)[i];
      assert b[i] in b;
    }
    InsertReadBack(ns, Datas(b));
  }

  // A batch with an unfinished document is not delivered.
  lemma {:induction false} DeliveredFinished(bs: seq<Batch>, outcomes: seq<Outcome>, again: bool)
    ensures forall it | it in Concat(bs[..Deliver(bs, outcomes, again).0]) :: it.size > 0
  {
    hide Attempt;
    var k := Deliver(bs, outcomes, again).0;
    if k > 0 {
      DeliveredFinished(bs[1..], Attempt(outcomes, again).1, again);
      assert bs[..k][1..] == bs[1..][..k - 1];
    }
  }

  // Whatever fails on the way, an unfinished document included, the documents that the server
  // has read are a prefix of the input, in order, and all of it if the call reports success.
  lemma {:induction false} ServerSeesPrefix(ns: bytes, items: Batch, max: int, outcomes: seq<Outcome>, again: bool)
    requires AllSmall(items, max) && NulFree(ns) && forall it | it in items :: it.size > 0 ==> Framed(it.data)
    ensures var bs := CodeSplit(items, max);
            var (k, ok) := Deliver(bs, outcomes, again);
            var got := Received(Bodies(ns, bs[..k]));
            && got <= Datas(items)
            && (ok ==> got == Datas(items))
  {
    hide CodeSplit, Deliver, Bodies, Received, Framed, Concat;
    var bs := CodeSplit(items, max);
    var (k, ok) := Deliver(bs, outcomes, again);
    ConcatPrefix(bs, k);
    var sent := Concat(bs[..k]);
    DeliveredFinished(bs, outcomes, again);
    assert forall it | it in sent :: it in items;
    assert forall i | 0 <= i < |sent| :: sent[i] == items[i];
    BodiesReceived(ns, bs[..k]);
    assert Datas(sent) == Datas(items)[..|sent|];
    if ok { assert bs[..k] == bs; }
  }

  ghost function Snapshot(docs: seq<Bson>): (items: Batch)
    reads docs
    ensures |items| == |docs|
  {
    seq(|docs|, i requires 0 <= i < |docs| reads docs => Item(docs[i].Size(), docs[i].data))
  }

  class InsertConnection {
    var maxInsertSize: int
    var requestId: int
    var autoReconnect: bool
    var outcomes: seq<Outcome>  // of the next attempts to send
    ghost var wire: seq<bytes>  // the bodies of the packets sent so far

    constructor (outcomes: seq<Outcome>)
      ensures maxInsertSize == 4 * 1000 * 1000 && wire == [] && this.outcomes == outcomes && !autoReconnect
    {
      autoReconnect := false;
      maxInsertSize, requestId, this.outcomes, wire := 4 * 1000 * 1000, 0, outcomes, [];
    }

    // _mongo_sync_packet_send, and the error status of what was sent: a packet that could not be
    // sent is tried again once after a reconnect.
    method Send(p: Packet, ghost body: bytes) returns (outcome: Outcome)
      requires p.data != null && p.data[..] == body
      modifies this`outcomes, this`wire
      ensures (outcome, outcomes) == Attempt(old(outcomes), autoReconnect)
      // One attempt, or two if the first one fails and the reconnect after it succeeds.
      ensures var first := if old(outcomes) == [] then Stored else old(outcomes)[0];
              if autoReconnect && first == SendFailed(true) then
                && outcome == (if |old(outcomes)| > 1 then old(outcomes)[1] else Stored)
                && outcomes == if |old(outcomes)| > 1 then old(outcomes)[2..] else []
              else
                && outcome == first && outcomes == if old(outcomes) == [] then [] else old(outcomes)[1..]
      ensures wire == old(wire) + if outcome.SendFailed? then [] else [body]
    {
      var out := false;
      while true
        invariant Attempt(outcomes, autoReconnect && !out) == Attempt(old(outcomes), autoReconnect)
        invariant wire == old(wire)
        decreases !out
      {
        outcome := if outcomes == [] then Stored else outcomes[0];
        outcomes := if outcomes == [] then [] else outcomes[1..];
        if !outcome.SendFailed? { break; }
        if !autoReconnect || out || !outcome.back { return; }
        out := true;
      }
      wire := wire + [p.data[..]];
    }

    // The inner loop: how many documents from pos on go into the next batch.
    method CountBatch(docs: seq<Bson>, pos: nat) returns (c: nat)
      requires pos < |docs| && AllSmall(Snapshot(docs)[pos..], maxInsertSize)
      ensures c == BatchLength(Snapshot(docs)[pos..], maxInsertSize)
    {
      hide FillCount;
      ghost var items := Snapshot(docs);
      var i, size := pos, 0;
      c := 0;
      while i < |docs| && size < maxInsertSize
        invariant pos <= i <= |docs| && c == i - pos
        invariant FillCount(items[pos..], 0, maxInsertSize) == c + FillCount(items[i..], size, maxInsertSize)
      {
        FillStep(items, i, size, maxInsertSize);
        size := size + docs[i].Size();
        i := i + 1;
        c := c + 1;
      }
      FillDone(items[i..], size, maxInsertSize);
      if i < |docs| { c := c - 1; }
    }

    method InsertN(ns: bytes, docs: seq<Bson>) returns (ok: bool)
      requires forall d | d in docs :: IsInt32(|d.data|)
      requires maxInsertSize > 0
      modifies this`outcomes, this`wire
      // Nothing is sent for no documents or when one of them reaches the limit.
      ensures docs == [] || (exists d | d in docs :: d.Size() >= maxInsertSize) ==> !ok && wire == old(wire)
      ensures docs != [] && (forall d | d in docs :: d.Size() < maxInsertSize) ==>
                && AllSmall(Snapshot(docs), maxInsertSize)
                && var bs := CodeSplit(Snapshot(docs), maxInsertSize);
                   var (k, stored) := Deliver(bs, old(outcomes), autoReconnect);
                   ok == stored && wire == old(wire) + Bodies(ns, bs[..k])
      // It succeeds if everything is stored, and with auto-reconnect if every failed send comes back
      // and is stored then.
      ensures docs != [] && (forall d | d in docs :: 0 < d.Size() < maxInsertSize) ==>
                && ((forall o | o in old(outcomes) :: o == Stored) ==> ok)
                && (autoReconnect && Recovers(old(outcomes)) ==> ok)
    {
      hide CodeSplit, Deliver, Bodies, Recovers, AllSmall, Snapshot;
      if |docs| <= 0 { return false; }
      for i := 0 to |docs|
        invariant forall k | 0 <= k < i :: docs[k].Size() < maxInsertSize
      {
        if docs[i].Size() >= maxInsertSize { return false; }
      }
      ghost var items := Snapshot(docs);
      SnapshotSmall(docs, maxInsertSize);
      SnapshotFinished(docs, maxInsertSize, outcomes, autoReconnect);
      ok := SendBatches(ns, docs);
    }

    // One turn of the outer loop; None if there is no packet for the batch.
    method SendBatch(ns: bytes, docs: seq<Bson>, ghost batch: Batch) returns (r: Option<Outcome>)
      requires forall d | d in docs :: IsInt32(|d.data|)
      requires batch == Snapshot(docs) && docs != []
      modifies this`outcomes, this`wire
      ensures r.None? <==> exists it | it in batch :: it.size <= 0
      ensures r.None? ==> wire == old(wire) && outcomes == old(outcomes)
      ensures r.Some? ==> (r.value, outcomes) == Attempt(old(outcomes), autoReconnect)
      ensures r.Some? ==>
                wire == old(wire) + if r.value.SendFailed? then [] else [InsertBody(ns, Datas(batch))]
    {
      hide InsertBody;
      assert forall k | 0 <= k < |docs| :: batch[k].size == docs[k].Size() && docs[k] in docs && batch[k] in batch;
      var p := CmdInsertN(requestId + 1, ns, docs);
      if p == null { return None; }
      assert DataOf(docs) == Datas(batch);
      var outcome := Send(p, InsertBody(ns, Datas(batch)));
      return Some(outcome);
    }

    // The outer loop.
    method SendBatches(ns: bytes, docs: seq<Bson>) returns (ok: bool)
      requires forall d | d in docs :: IsInt32(|d.data|)
      requires docs != [] && AllSmall(Snapshot(docs), maxInsertSize)
      modifies this`outcomes, this`wire
      ensures var bs := CodeSplit(Snapshot(docs), maxInsertSize);
              var (k, stored) := Deliver(bs, old(outcomes), autoReconnect);
              ok == stored && wire == old(wire) + Bodies(ns, bs[..k])
    {
      hide InsertBody, CodeSplit, Concat, BatchLength, Deliver, Bodies, Snapshot, AllSmall, Datas;
      ghost var items := Snapshot(docs);
      ghost var bs := CodeSplit(items, maxInsertSize);
      ghost var (k, stored) := Deliver(bs, outcomes, autoReconnect);
      var pos := 0;
      ghost var j := 0;
      NothingSent(ns, bs);
      assert items[0..] == items && bs[0..] == bs;
      while pos < |docs|
        invariant pos <= |docs| && j <= k && j <= |bs|
        invariant AllSmall(items[pos..], maxInsertSize)
        invariant bs[j..] == CodeSplit(items[pos..], maxInsertSize)
        invariant Deliver(bs[j..], outcomes, autoReconnect) == (k - j, stored)
        invariant wire == old(wire) + Bodies(ns, bs[..j])
      {
        var c := CountBatch(docs, pos);
        CodeSplitStep(items, pos, maxInsertSize);
        DeliverStep(bs, j, outcomes, autoReconnect);
        BodiesSnoc(ns, bs, j);
        SnapshotSlice(docs, pos, pos + c);
        var r := SendBatch(ns, docs[pos..pos + c], bs[j]);
        if r == None || r.value.SendFailed? { return false; }
        if r.value.Refused? { return false; }
        pos := pos + c;
        j := j + 1;
      }
      assert items[pos..] == [];
      LimitPositive(items[pos..], maxInsertSize);
      AllSent(bs, j, outcomes, autoReconnect, maxInsertSize);
      return true;
    }
  }

  lemma {:induction false} NothingSent(ns: bytes, bs: seq<Batch>)
    ensures Bodies(ns, bs[..0]) == []
  {
  }

  lemma {:induction false} LimitPositive(items: Batch, max: int)
    requires AllSmall(items, max)
    ensures max > 0
  {
  }

  lemma {:induction false} AllSent(bs: seq<Batch>, j: nat, outcomes: seq<Outcome>, again: bool, max: int)
    requires max > 0 && j <= |bs| && bs[j..] == CodeSplit([], max)
    ensures j == |bs| && Deliver(bs[j..], outcomes, again) == (0, true)
  {
  }

  lemma {:induction false} FillStep(items: Batch, i: nat, size: int, max: int)
    requires i < |items| && size < max
    ensures FillCount(items[i..], size, max) == 1 + FillCount(items[i + 1..], size + items[i].size, max)
  {
  }

  lemma {:induction false} FillDone(items: Batch, size: int, max: int)
    requires items == [] || size >= max
    ensures FillCount(items, size, max) == 0
  {
  }

  lemma {:induction false} CodeUnfold(items: Batch, max: int)
    requires AllSmall(items, max) && items != []
    ensures var c := BatchLength(items, max);
            && AllSmall(items[c..], max)
            && CodeSplit(items, max) == [items[..c]] + CodeSplit(items[c..], max)
  {
  }

  lemma {:induction false} CodeSplitStep(items: Batch, pos: nat, max: int)
    requires pos < |items| && AllSmall(items[pos..], max)
    ensures var c := BatchLength(items[pos..], max);
            && AllSmall(items[pos + c..], max)
            && CodeSplit(items[pos..], max) == [items[pos..pos + c]] + CodeSplit(items[pos + c..], max)
  {
    hide BatchLength, CodeSplit, AllSmall;
    var c := BatchLength(items[pos..], max);
    CodeUnfold(items[pos..], max);
    assert items[pos..][..c] == items[pos..pos + c];
    assert items[pos..][c..] == items[pos + c..];
  }

  lemma {:induction false} SnapshotSlice(docs: seq<Bson>, from: nat, to: nat)
    requires from <= to <= |docs|
    ensures Snapshot(docs[from..to]) == Snapshot(docs)[from..to]
  {
  }

  lemma {:induction false} DeliverStep(bs: seq<Batch>, j: nat, outcomes: seq<Outcome>, again: bool)
    requires j < |bs|
    ensures var (outcome, next) := Attempt(outcomes, again);
            Deliver(bs[j..], outcomes, again) ==
              if exists it | it in bs[j] :: it.size <= 0 then (0, false)
              else if outcome.SendFailed? then (0, false)
              else if outcome.Refused? then (1, false)
              else (1 + Deliver(bs[j + 1..], next, again).0, Deliver(bs[j + 1..], next, again).1)
  {
    hide Attempt;
    assert bs[j..][0] == bs[j] && bs[j..][1..] == bs[j + 1..];
  }

  lemma {:induction false} SnapshotSmall(docs: seq<Bson>, max: int)
    requires max > 0 && forall k | 0 <= k < |docs| :: docs[k].Size() < max
    ensures AllSmall(Snapshot(docs), max)
    ensures forall d | d in docs :: d.Size() < max
  {
  }

  lemma {:induction false} SnapshotFinished(docs: seq<Bson>, max: int, outcomes: seq<Outcome>, again: bool)
    requires AllSmall(Snapshot(docs), max)
    ensures var r := Deliver(CodeSplit(Snapshot(docs), max), outcomes, again);
            (forall d | d in docs :: d.Size() > 0) ==>
            && ((forall o | o in outcomes :: o == Stored) ==> r.1)
            && (again && Recovers(outcomes) ==> r.1)
  {
    hide CodeSplit, Deliver, Concat, Recovers;
    if exists d | d in docs :: d.Size() <= 0 { return; }
    var items := Snapshot(docs);
    var bs := CodeSplit(items, max);
    forall b, it | b in bs && it in b
      ensures it.size > 0
    {
      InConcat(bs, b, it);
      var i :| 0 <= i < |items| && items[i] == it;
      assert docs[i] in docs;
    }
    if forall o | o in outcomes :: o == Stored { DeliverAllStored(bs, outcomes, again); }
    if again && Recovers(outcomes) { DeliverRecovers(bs, outcomes); }
  }

  lemma {:induction false} InConcat(bs: seq<Batch>, b: Batch, it: Item)
    requires b in bs && it in b
    ensures it in Concat(bs)
  {
    if b != bs[0] { InConcat(bs[1..], b, it); }
  }

  lemma {:induction false} BodiesSnoc(ns: bytes, bs: seq<Batch>, j: nat)
    requires j < |bs|
    ensures Bodies(ns, bs[..j + 1]) == Bodies(ns, bs[..j]) + [InsertBody(ns, Datas(bs[j]))]
  {
    if j == 0 {
      assert bs[..1] == [bs[0]] && bs[..0] == [];
      assert Bodies(ns, [bs[0]]) == [InsertBody(ns, Datas(bs[0]))] + Bodies(ns, []);
    } else {
      BodiesSnoc(ns, bs[1..], j - 1);
      assert bs[..j + 1][1..] == bs[1..][..j] && bs[..j][1..] == bs[1..][..j - 1];
    }
  }
}
