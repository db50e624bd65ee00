/** The BSON object: an append-only byte buffer that is open until it is finished. */
module BsonObject {
  import opened Bytes
  import opened BsonFormat

  /** The builder as a state machine over bytes, and the documents it renders. */

  datatype Buffer = Buffer(data: bytes, finished: bool)

  datatype Call = AddCall(e: Element) | FinishCall | ResetCall

  // The values that have an append function, and that it does not refuse.
  predicate Accepts(v: Value) {
    && !v.Undefined? && !v.DbPointer? && !v.MinKey? && !v.MaxKey?
    && (v.Binary? ==> v.data != [])
  }

  function FinishedData(data: bytes): bytes
    requires |data| >= 3
  {
    Le32(|data| + 1) + (data + [0])[4..]
  }

  function Apply(s: Buffer, c: Call): (r: Buffer)
    requires |s.data| >= 4
    ensures |r.data| >= 4
  {
    match c
    case AddCall(e) =>
      if s.finished || !Accepts(e.value) then s else Buffer(s.data + EncElem(e), false)
    case FinishCall => if s.finished then s else Buffer(FinishedData(s.data), true)
    case ResetCall => Buffer(Le32(0), false)
  }

  function Run(s: Buffer, calls: seq<Call>): (r: Buffer)
    requires |s.data| >= 4
    ensures |r.data| >= 4
    decreases calls
  {
    if calls == [] then s else Run(Apply(s, calls[0]), calls[1..])
  }

  // What the client means by a buffer: a list of elements, still open or finished.
  datatype Draft = Draft(es: seq<Element>, finished: bool)

  function Render(d: Draft): (s: Buffer)
    ensures |s.data| >= 4
  {
    if d.finished then Buffer(EncDoc(d.es), true) else Buffer(Le32(0) + EncElems(d.es), false)
  }

  function ApplyDraft(d: Draft, c: Call): Draft {
    match c
    case AddCall(e) => if d.finished || !Accepts(e.value) then d else Draft(d.es + [e], false)
    case FinishCall => Draft(d.es, true)
    case ResetCall => Draft([], false)
  }

  function RunDraft(d: Draft, calls: seq<Call>): Draft
    decreases calls
  {
    if calls == [] then d else RunDraft(ApplyDraft(d, calls[0]), calls[1..])
  }

  lemma {:induction false} StepRenders(d: Draft, c: Call)
    ensures Apply(Render(d), c) == Render(ApplyDraft(d, c))
  {
    hide EncElems, EncElem, Le32, FinishedData;
    match c
    case AddCall(e) =>
      if !d.finished && Accepts(e.value) {
        EncElemsSnoc(d.es, e);
        Associate(Le32(0), EncElems(d.es), EncElem(e));
      }
    case FinishCall =>
      FinishedPieces(Le32(0), EncElems(d.es));
    case ResetCall =>
      EmptyDraft();
  }

  lemma Associate(a: bytes, b: bytes, c: bytes)
    ensures a + b + c == a + (b + c)
  {
  }

  lemma EmptyDraft()
    ensures Le32(0) + EncElems([]) == Le32(0)
  {
  }

  // Every run of appends, finishes and resets on a new object leaves exactly the bytes of the
  // document that the same run leaves in the client's mind.
  lemma {:induction false} RunRenders(d: Draft, calls: seq<Call>)
    ensures Run(Render(d), calls) == Render(RunDraft(d, calls))
    decreases calls
  {
    if calls != [] {
      StepRenders(d, calls[0]);
      RunRenders(ApplyDraft(d, calls[0]), calls[1..]);
    }
  }

  // Between a finish and the next reset no call changes a byte.
  lemma {:induction false} FinishedIsFrozen(s: Buffer, calls: seq<Call>)
    requires |s.data| >= 4 && s.finished && ResetCall !in calls
    ensures Run(s, calls) == s
  {
    if calls != [] {
      assert Apply(s, calls[0]) == s by { assert calls[0] in calls; }
      FinishedIsFrozen(s, calls[1..]);
    }
  }

  lemma FinishedPieces(prefix: bytes, body: bytes)
    requires |prefix| == 4
    ensures FinishedData(prefix + body) == Le32(|body| + 5) + body + [0]
  {
  }

  lemma OpenPieces(prefix: bytes, body: bytes)
    ensures (prefix + body + [0])[..|prefix + body + [0]| - 1] == prefix + body
  {
  }

  // Cloning a finished document without its last byte, appending and finishing gives the
  // document with the new elements at the end.
  lemma {:induction false} CloneAndExtend(es: seq<Element>, more: seq<Element>)
    ensures FinishedData(EncDoc(es)[..|EncDoc(es)| - 1] + EncElems(more)) == EncDoc(es + more)
  {
    hide EncElems, Le32, FinishedData;
    var prefix := Le32(|EncElems(es)| + 5);
    OpenPieces(prefix, EncElems(es));
    EncElemsConcat(es, more);
    assert prefix + EncElems(es) + EncElems(more) == prefix + EncElems(es + more);
    FinishedPieces(prefix, EncElems(es + more));
  }

  // In particular a clone that is finished right away is the original, byte for byte.
  lemma {:induction false} CloneReproduces(es: seq<Element>)
    ensures FinishedData(EncDoc(es)[..|EncDoc(es)| - 1]) == EncDoc(es)
  {
  }

  // The size stored by bson_finish is the real size exactly for documents below 2^31 bytes.
  lemma {:induction false} StoredSizeExact(es: seq<Element>)
    ensures Int32At(EncDoc(es), 0) == |EncDoc(es)| <==> IsInt32(|EncDoc(es)|)
  {
    var d := EncDoc(es);
    assert d[0..4] == Le32(|d|);
    Le32Read(|d|, d, 0);
  }

  /** The object itself. */

  // A value a string-like append function stores under its type.
  function TextValue(t: byte, s: bytes): Value
    requires t in {TYPE_STRING, TYPE_JS_CODE, TYPE_SYMBOL}
  {
    if t == TYPE_STRING then Str(s) else if t == TYPE_JS_CODE then JsCode(s) else Symbol(s)
  }

  function StampValue(t: byte, n: int): Value
    requires t in {TYPE_UTC_DATETIME, TYPE_TIMESTAMP, TYPE_INT64}
  {
    if t == TYPE_UTC_DATETIME then UtcDatetime(n) else if t == TYPE_TIMESTAMP then Timestamp(n) else Int64(n)
  }

  // The bytes an append function copies from a C string argument; -1 asks for strlen.
  function TextArgument(val: bytes, length: int): bytes
    requires length == -1 || 0 <= length <= |val|
  {
    if length == -1 then UpToNul(val) else val[..length]
  }

  // strlen: the first n bytes hold no NUL, and there are no more before the next one or the end.
  predicate LongestText(s: bytes, n: int) {
    0 <= n <= |s| && 0 !in s[..n] && (n < |s| ==> s[n] == 0)
  }

  lemma ArgumentText(val: bytes, length: int)
    requires length == -1 || 0 <= length <= |val|
    ensures length >= 0 ==> TextArgument(val, length) == val[..length]
    ensures var n := |TextArgument(val, length)|;
            length == -1 ==> LongestText(val, n) && TextArgument(val, length) == val[..n]
  {
  }

  // What the appenders put together piece by piece.

  lemma {:induction false} ElementPieces(base: bytes, e: Element)
    ensures base + ([TypeOf(e.value)] + e.key + [0]) + EncValue(e.value) == base + EncElem(e)
  {
  }

  lemma {:induction false} TextPieces(base: bytes, t: byte, name: bytes, text: bytes)
    requires t in {TYPE_STRING, TYPE_JS_CODE, TYPE_SYMBOL}
    ensures base + ([t] + name + [0]) + Le32(|text| + 1) + text + [0]
            == base + EncElem(Element(name, TextValue(t, text)))
  {
  }

  lemma {:induction false} BinaryPieces(base: bytes, name: bytes, subtype: byte, d: bytes)
    ensures base + ([TYPE_BINARY] + name + [0]) + Le32(|d|) + [subtype] + d
            == base + EncElem(Element(name, Binary(subtype, d)))
  {
  }

  // The whole size, the code and the scope.
  function ScopeBody(text: bytes, scope: bytes): bytes {
    Le32(|text| + 1 + 4 + 4 + |scope|) + (Le32(|text| + 1) + text + [0]) + scope
  }

  lemma ScopeBytes(base: bytes, name: bytes, text: bytes, scope: bytes)
    ensures base + ([TYPE_JS_CODE_W_SCOPE] + name + [0]) + ScopeBody(text, scope) ==
              base + ([0x0f] + name + [0])
              + (Le32(4 + (4 + |text| + 1) + |scope|) + (Le32(|text| + 1) + text + [0]) + scope)
  {
  }

  // How many bytes of an object are appended as a scope.
  function ScopeSize(scope: Bson): (n: nat)
    reads scope
    ensures n <= |scope.data|
  {
    if scope.Size() < 0 then 0 else scope.Size()
  }

  lemma {:induction false} ScopePieces(base: bytes, name: bytes, text: bytes, es: seq<Element>, scope: bytes)
    requires scope == EncDoc(es)
    ensures base + ([TYPE_JS_CODE_W_SCOPE] + name + [0]) + ScopeBody(text, scope)
            == base + EncElem(Element(name, JsCodeWScope(text, es)))
  {
  }

  class Bson {
    var data: bytes
    var finished: bool

    ghost function State(): Buffer
      reads this
    {
      Buffer(data, finished)
    }

    // The object is the finished document es.
    ghost predicate Holds(es: seq<Element>)
      reads this
    {
      finished && data == EncDoc(es)
    }

    constructor ()
      ensures State() == Render(Draft([], false))
      ensures data == [0, 0, 0, 0]
    {
      data := Le32(0);
      finished := false;
      new;
      assert Le32(0) + EncElems([]) == Le32(0);
    }

    constructor Copy(d: bytes)
      ensures data == d && !finished
    {
      data := d;
      finished := false;
    }

    static method NewFromData(d: bytes, size: int) returns (b: Bson?)
      requires size <= |d|
      ensures b == null <==> size <= 0
      ensures b != null ==> fresh(b) && b.State() == Buffer(d[..size], false)
    {
      if size <= 0 { return null; }
      b := new Bson.Copy(d[..size]);
    }

    function Size(): (n: int)
      reads this
      ensures n <= |data|
      ensures !finished ==> n == -1
      ensures finished && IsInt32(|data|) ==> n == |data|
    {
      if finished then ToInt32(|data|) else -1
    }

    method Finish()
      requires finished || |data| >= 3
      modifies this
      ensures finished
      ensures data == if old(finished) then old(data) else FinishedData(old(data))
    {
      if finished { return; }
      data := data + [0];
      data := Le32(|data|) + data[4..];
      finished := true;
    }

    method Reset()
      modifies this
      ensures State() == Buffer(Le32(0), false)
      ensures data == [0, 0, 0, 0]
    {
      finished := false;
      data := [];
      data := data + Le32(0);
    }

    // The element e was appended if ok holds; otherwise nothing changed.
    twostate predicate Appended(ok: bool, e: Element)
      reads this
    {
      finished == old(finished) && data == old(data) + if ok then EncElem(e) else []
    }

    method AppendHeader(t: byte, name: bytes) returns (ok: bool)
      modifies this
      ensures ok == !old(finished) && finished == old(finished)
      ensures data == old(data) + if ok then [t] + name + [0] else []
    {
      if finished { return false; }
      data := data + [t];
      data := data + (name + [0]);
      return true;
    }

    method AppendText(t: byte, name: bytes, val: bytes, length: int) returns (ok: bool)
      requires t in {TYPE_STRING, TYPE_JS_CODE, TYPE_SYMBOL}
      requires length <= |val|
      modifies this
      ensures ok == (!old(finished) && length != 0 && length >= -1)
      ensures ok ==> Appended(ok, Element(name, TextValue(t, TextArgument(val, length))))
      ensures !ok ==> State() == old(State())
      // Byte by byte: the first length bytes, or the longest prefix without a NUL.
      ensures ok && length > 0 ==>
                data == old(data) + ([t] + name + [0]) + Le32(length + 1) + val[..length] + [0]
      ensures ok && length == -1 ==>
                exists n :: LongestText(val, n) &&
                  data == old(data) + ([t] + name + [0]) + Le32(n + 1) + val[..n] + [0]
    {
      if length == 0 || length < -1 { return false; }
      var text := TextArgument(val, length);
      var len := |text| + 1;
      ok := AppendHeader(t, name);
      if !ok { return; }
      data := data + Le32(len);
      data := data + text;
      data := data + [0];
      TextPieces(old(data), t, name, text);
      ArgumentText(val, length);
    }

    method AppendDocumentElement(t: byte, name: bytes, doc: Bson) returns (ok: bool)
      modifies this
      ensures ok == (!old(finished) && old(doc.Size()) >= 0) && finished == old(finished)
      ensures data == old(data) + if ok then [t] + name + [0] + old(doc.data[..doc.Size()]) else []
    {
      if doc.Size() < 0 { return false; }
      ok := AppendHeader(t, name);
      if !ok { return; }
      data := data + doc.data[..doc.Size()];
    }

    method AppendInt64Element(t: byte, name: bytes, n: int) returns (ok: bool)
      requires t in {TYPE_UTC_DATETIME, TYPE_TIMESTAMP, TYPE_INT64}
      modifies this
      ensures ok == !old(finished) && Appended(ok, Element(name, StampValue(t, n)))
    {
      ok := AppendHeader(t, name);
      if !ok { return; }
      data := data + Le64(n);
      ElementPieces(old(data), Element(name, StampValue(t, n)));
    }

    method AppendDouble(name: bytes, raw: bytes) returns (ok: bool)
      requires |raw| == 8
      modifies this
      ensures ok == !old(finished) && Appended(ok, Element(name, Double(raw)))
    {
      ok := AppendHeader(TYPE_DOUBLE, name);
      if !ok { return; }
      data := data + raw;
      ElementPieces(old(data), Element(name, Double(raw)));
    }

    method AppendBinary(name: bytes, subtype: int, d: bytes, size: int) returns (ok: bool)
      requires size <= |d|
      modifies this
      ensures ok == (!old(finished) && size > 0)
      ensures ok ==> Appended(ok, Element(name, Binary(subtype % 256, d[..size])))
      ensures !ok ==> State() == old(State())
    {
      if size <= 0 { return false; }
      ok := AppendHeader(TYPE_BINARY, name);
      if !ok { return; }
      data := data + Le32(size);
      data := data + [subtype % 256];
      data := data + d[..size];
      BinaryPieces(old(data), name, subtype % 256, d[..size]);
    }

    method AppendOid(name: bytes, oid: bytes) returns (ok: bool)
      requires |oid| == 12
      modifies this
      ensures ok == !old(finished) && Appended(ok, Element(name, Oid(oid)))
    {
      ok := AppendHeader(TYPE_OID, name);
      if !ok { return; }
      data := data + oid;
      ElementPieces(old(data), Element(name, Oid(oid)));
    }

    method AppendBoolean(name: bytes, value: int) returns (ok: bool)
      modifies this
      ensures ok == !old(finished) && Appended(ok, Element(name, Boolean(value % 256)))
    {
      ok := AppendHeader(TYPE_BOOLEAN, name);
      if !ok { return; }
      data := data + [value % 256];
      ElementPieces(old(data), Element(name, Boolean(value % 256)));
    }

    method AppendNull(name: bytes) returns (ok: bool)
      modifies this
      ensures ok == !old(finished) && Appended(ok, Element(name, Null))
    {
      ok := AppendHeader(TYPE_NULL, name);
    }

    method AppendRegex(name: bytes, pattern: bytes, options: bytes) returns (ok: bool)
      requires NulFree(pattern) && NulFree(options)
      modifies this
      ensures ok == !old(finished) && Appended(ok, Element(name, Regexp(pattern, options)))
    {
      ok := AppendHeader(TYPE_REGEXP, name);
      if !ok { return; }
      data := data + (pattern + [0]);
      data := data + (options + [0]);
      assert [TYPE_REGEXP] + name + [0] + (pattern + [0]) + (options + [0])
          == EncElem(Element(name, Regexp(pattern, options)));
    }

    // Any finished object serves as the scope; one that holds elements makes the element of them.
    method AppendJavascriptWScope(name: bytes, js: bytes, len: int, scope: Bson, ghost es: seq<Element>)
      returns (ok: bool)
      requires len <= |js|
      modifies this
      ensures ok == (!old(finished) && old(scope.Size()) >= 0 && len >= -1) && finished == old(finished)
      ensures var text, code := TextArgument(js, if ok then len else -1), old(scope.data[..ScopeSize(scope)]);
              data == old(data) + if !ok then []
                                  else [TYPE_JS_CODE_W_SCOPE] + name + [0] + ScopeBody(text, code)
      // Byte by byte, as for the other texts.
      ensures var code := old(scope.data);
              ok && len >= 0 && |code| < 0x8000_0000 ==>
                data == old(data) + ([0x0f] + name + [0])
                        + (Le32(4 + (4 + len + 1) + |code|) + (Le32(len + 1) + js[..len] + [0]) + code)
      ensures var code := old(scope.data);
              ok && len == -1 && |code| < 0x8000_0000 ==>
                exists n :: LongestText(js, n) &&
                  data == old(data) + ([0x0f] + name + [0])
                          + (Le32(4 + (4 + n + 1) + |code|) + (Le32(n + 1) + js[..n] + [0]) + code)
      ensures ok && old(scope.Holds(es)) && IsInt32(|EncDoc(es)|) ==>
                Appended(ok, Element(name, JsCodeWScope(TextArgument(js, len), es)))
    {
      hide EncDoc, EncElems, EncElem, EncValue, UpToNul, ToInt32, ScopeBody, TextArgument, LongestText, Le32;
      if scope.Size() < 0 || len < -1 { return false; }
      ghost var code := scope.data[..scope.Size()];
      ok := AppendHeader(TYPE_JS_CODE_W_SCOPE, name);
      if !ok { return; }
      var text := TextArgument(js, len);
      AppendScopeBody(text, scope.data[..scope.Size()]);
      Associate(old(data), [TYPE_JS_CODE_W_SCOPE] + name + [0], ScopeBody(text, code));
      if old(|scope.data|) < 0x8000_0000 {
        assert code == old(scope.data);
        ScopeBytes(old(data), name, text, code);
        ArgumentText(js, len);
      }
      if old(scope.Holds(es)) && IsInt32(|EncDoc(es)|) {
        assert code == EncDoc(es);
        ScopePieces(old(data), name, text, es, code);
      }
    }

    method AppendScopeBody(text: bytes, scopeBytes: bytes)
      modifies this`data
      ensures data == old(data) + ScopeBody(text, scopeBytes)
    {
      var length := |text| + 1;
      var size := length + 4 + 4 + |scopeBytes|;
      data := data + Le32(size);
      data := data + Le32(length);
      data := data + text;
      data := data + [0];
      data := data + scopeBytes;
    }

    method AppendInt32(name: bytes, n: int) returns (ok: bool)
      modifies this
      ensures ok == !old(finished) && Appended(ok, Element(name, Int32(n)))
    {
      ok := AppendHeader(TYPE_INT32, name);
      if !ok { return; }
      data := data + Le32(n);
      ElementPieces(old(data), Element(name, Int32(n)));
    }
  }
}
