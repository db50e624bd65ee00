/** Building a whole document from a value tree, as bson_build and nested appends do. */
module BsonBuild {
  import opened Bytes
  import opened BsonFormat
  import opened BsonObject

  predicate HasSubdocument(v: Value) { v.Document? || v.Array? || v.JsCodeWScope? }

  // A document all of whose values, at every depth, have an append function that takes them.
  predicate BuildableValue(v: Value)
    decreases v, 1
  {
    && Accepts(v) && WellFormedValue(v)
    && (HasSubdocument(v) ==> Buildable(v.doc))
  }

  predicate Buildable(es: seq<Element>)
    decreases es, 0
  {
    forall e | e in es :: NulFree(e.key) && BuildableValue(e.value)
  }

  // Appends one element of any type, with the object that holds its subdocument if it has one.
  // A finished object, an empty binary and a type without an append function leave the object
  // as it is.
  method AddSingle(b: Bson, e: Element, sub: Bson?)
    requires |b.data| >= 4 && WellFormedValue(e.value)
    requires HasSubdocument(e.value) ==> sub != null && sub.Holds(e.value.doc) && IsInt32(|EncDoc(e.value.doc)|)
    modifies b
    ensures b.State() == Apply(old(b.State()), AddCall(e))
  {
    if HasSubdocument(e.value) {
      var ok: bool;
      if e.value.JsCodeWScope? {
        ok := b.AppendJavascriptWScope(e.key, e.value.text, |e.value.text|, sub, e.value.doc);
        assert e.value.text[..|e.value.text|] == e.value.text;
      } else {
        SubdocumentPieces(e, sub.data);
        ok := b.AppendDocumentElement(TypeOf(e.value), e.key, sub);
      }
    } else {
      AddScalar(b, e);
    }
  }

  method AddScalar(b: Bson, e: Element)
    requires |b.data| >= 4 && WellFormedValue(e.value)
    requires !HasSubdocument(e.value)
    modifies b
    ensures b.State() == Apply(old(b.State()), AddCall(e))
  {
    hide EncElem;
    var ok: bool;
    match e.value {
      case Double(raw) => ok := b.AppendDouble(e.key, raw);
      case Str(s) => AddText(b, e.key, TYPE_STRING, s);
      case JsCode(s) => AddText(b, e.key, TYPE_JS_CODE, s);
      case Symbol(s) => AddText(b, e.key, TYPE_SYMBOL, s);
      case Binary(subtype, data) =>
        assert data[..|data|] == data;
        ok := b.AppendBinary(e.key, subtype, data, |data|);
      case Oid(raw) => ok := b.AppendOid(e.key, raw);
      case Boolean(flag) => ok := b.AppendBoolean(e.key, flag);
      case UtcDatetime(n) => ok := b.AppendInt64Element(TYPE_UTC_DATETIME, e.key, n);
      case Timestamp(n) => ok := b.AppendInt64Element(TYPE_TIMESTAMP, e.key, n);
      case Int64(n) => ok := b.AppendInt64Element(TYPE_INT64, e.key, n);
      case Null => ok := b.AppendNull(e.key);
      case Regexp(pattern, options) => ok := b.AppendRegex(e.key, pattern, options);
      case Int32(n) => ok := b.AppendInt32(e.key, n);
      case _ =>
    }
  }

  // Every call on the object is the step of the state machine.
  method Perform(b: Bson, c: Call, sub: Bson?)
    requires |b.data| >= 4 && (c.AddCall? ==> WellFormedValue(c.e.value))
    requires c.AddCall? && HasSubdocument(c.e.value) ==>
               sub != null && sub.Holds(c.e.value.doc) && IsInt32(|EncDoc(c.e.value.doc)|)
    modifies b
    ensures b.State() == Apply(old(b.State()), c)
  {
    match c {
      case AddCall(e) => AddSingle(b, e, sub);
      case FinishCall => b.Finish();
      case ResetCall => b.Reset();
    }
  }

  lemma {:induction false} SubdocumentSize(e: Element)
    requires HasSubdocument(e.value)
    ensures |EncDoc(e.value.doc)| < |EncElem(e)|
  {
  }

  lemma {:induction false} SubdocumentPieces(e: Element, sub: bytes)
    requires e.value.Document? || e.value.Array?
    requires sub == EncDoc(e.value.doc) && IsInt32(|sub|)
    ensures [TypeOf(e.value)] + e.key + [0] + sub[..ToInt32(|sub|)] == EncElem(e)
  {
    assert sub[..|sub|] == sub;
  }

  // An explicit length of 0 is refused, so an empty text goes in with length -1.
  method AddText(b: Bson, name: bytes, t: byte, s: bytes)
    requires |b.data| >= 4 && t in {TYPE_STRING, TYPE_JS_CODE, TYPE_SYMBOL}
    modifies b
    ensures b.State() == Apply(old(b.State()), AddCall(Element(name, TextValue(t, s))))
  {
    var ok := b.AppendText(t, name, s, if s == [] then -1 else |s|);
    assert s == [] ==> UpToNul(s) == s by { UpToNulIdentity(s); }
    assert s[..|s|] == s;
  }

  lemma {:induction false} PrefixGrows(es: seq<Element>, i: nat)
    requires Buildable(es) && i < |es|
    ensures NulFree(es[i].key) && BuildableValue(es[i].value)
    ensures |EncElem(es[i])| < |EncDoc(es)|
    ensures Le32(0) + EncElems(es[..i]) + EncElem(es[i]) == Le32(0) + EncElems(es[..i + 1])
  {
    assert es[i] in es;
    ElementLayout(es, i);
    EncElemsSnoc(es[..i], es[i]);
    assert es[..i] + [es[i]] == es[..i + 1];
  }

  // Builds and finishes the document es, subdocuments first.
  method Build(es: seq<Element>) returns (b: Bson)
    requires Buildable(es) && IsInt32(|EncDoc(es)|)
    ensures fresh(b) && b.Holds(es)
    decreases es
  {
    hide EncElems, EncElem, Le32, FinishedData;
    b := new Bson();
    for i := 0 to |es|
      invariant fresh(b) && !b.finished
      invariant b.data == Le32(0) + EncElems(es[..i])
    {
      PrefixGrows(es, i);
      var sub := null;
      if HasSubdocument(es[i].value) {
        SubdocumentSize(es[i]);
        sub := Build(es[i].value.doc);
      }
      AddSingle(b, es[i], sub);
    }
    assert es[..|es|] == es;
    FinishedPieces(Le32(0), EncElems(es));
    b.Finish();
  }
}
