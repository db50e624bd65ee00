/** The whole-tree round trip: building a document and walking it back, to any depth. */
module BsonWalk {
  import opened Bytes
  import opened BsonFormat
  import opened BsonObject
  import opened BsonBuild
  import opened BsonCursors

  // Documents whose values all have a getter.
  predicate WalkableValue(v: Value)
    decreases v, 1
  {
    && !v.Undefined? && !v.DbPointer? && !v.MinKey? && !v.MaxKey?
    && (v.Document? || v.Array? || v.JsCodeWScope? ==> Walkable(v.doc))
  }

  predicate Walkable(es: seq<Element>)
    decreases es, 0
  {
    forall e | e in es :: WalkableValue(e.value)
  }

  // What a reader of C strings sees of a value: texts end at their first NUL.
  function VisibleValue(v: Value): Value
    decreases v, 1
  {
    match v
    case Str(s) => Str(UpToNul(s))
    case JsCode(s) => JsCode(UpToNul(s))
    case Symbol(s) => Symbol(UpToNul(s))
    case Document(doc) => Document(Visible(doc))
    case Array(doc) => Array(Visible(doc))
    case JsCodeWScope(s, doc) => JsCodeWScope(UpToNul(s), Visible(doc))
    case _ => v
  }

  function Visible(es: seq<Element>): (r: seq<Element>)
    ensures |r| == |es|
    decreases es, 0
  {
    if es == [] then [] else [Element(es[0].key, VisibleValue(es[0].value))] + Visible(es[1..])
  }

  // No text at any depth contains a NUL.
  predicate NulFreeValue(v: Value)
    decreases v, 1
  {
    && (v.Str? || v.JsCode? || v.Symbol? || v.JsCodeWScope? ==> NulFree(v.text))
    && (v.Document? || v.Array? || v.JsCodeWScope? ==> NulFreeTexts(v.doc))
  }

  predicate NulFreeTexts(es: seq<Element>)
    decreases es, 0
  {
    es == [] || (NulFreeValue(es[0].value) && NulFreeTexts(es[1..]))
  }

  lemma {:induction false} VisibleValueExact(v: Value)
    ensures VisibleValue(v) == v <==> NulFreeValue(v)
    decreases v, 1
  {
    if v.Str? || v.JsCode? || v.Symbol? || v.JsCodeWScope? { UpToNulIdentity(v.text); }
    if v.Document? || v.Array? || v.JsCodeWScope? { VisibleExact(v.doc); }
  }

  // A document reads back unchanged exactly when none of its texts contains a NUL.
  lemma {:induction false} VisibleExact(es: seq<Element>)
    ensures Visible(es) == es <==> NulFreeTexts(es)
    decreases es, 0
  {
    if es != [] {
      VisibleValueExact(es[0].value);
      VisibleExact(es[1..]);
      var r := Visible(es);
      assert r[0] == Element(es[0].key, VisibleValue(es[0].value)) && r[1..] == Visible(es[1..]);
      assert es == [es[0]] + es[1..];
    }
  }

  lemma {:induction false} BuildableWalks(es: seq<Element>)
    requires Buildable(es)
    ensures Walkable(es) && WellFormed(es)
    decreases es, 0
  {
    forall e | e in es
      ensures WalkableValue(e.value)
    {
      assert BuildableValue(e.value);
      if e.value.Document? || e.value.Array? || e.value.JsCodeWScope? {
        BuildableWalks(e.value.doc);
      }
    }
  }

  lemma {:induction false} VisibleSnoc(es: seq<Element>, e: Element)
    ensures Visible(es + [e]) == Visible(es) + [Element(e.key, VisibleValue(e.value))]
    decreases |es|
  {
    if es == [] {
      assert es + [e] == [e];
      assert Visible([e]) == [Element(e.key, VisibleValue(e.value))] + Visible([]);
    } else {
      assert (es + [e])[1..] == es[1..] + [e];
      VisibleSnoc(es[1..], e);
    }
  }

  // Reads the element under the cursor with the getter of its type.
  method ReadValue(c: BsonCursor) returns (v: Value)
    requires c.Valid() && c.index >= 0
    requires WalkableValue(c.elems[c.index].value)
    ensures v == VisibleValue(c.elems[c.index].value)
    decreases c.elems[c.index].value, 1
  {
    c.TypeOfElement();
    var t := c.Type();
    var ok: bool;
    if t == TYPE_DOCUMENT || t == TYPE_ARRAY {
      var sub;
      ok, sub := c.GetSubdocument(t);
      SubdocumentSound(c.elems, c.index);
      var doc := Walk(sub, c.elems[c.index].value.doc);
      return if t == TYPE_DOCUMENT then Document(doc) else Array(doc);
    } else if t == TYPE_JS_CODE_W_SCOPE {
      var js, scope;
      ok, js, scope := c.GetJavascriptWScope();
      SubdocumentSound(c.elems, c.index);
      var doc := Walk(scope, c.elems[c.index].value.doc);
      return JsCodeWScope(js, doc);
    } else {
      v := ReadScalar(c);
    }
  }

  method ReadScalar(c: BsonCursor) returns (v: Value)
    requires c.Valid() && c.index >= 0
    requires var w := c.elems[c.index].value;
             WalkableValue(w) && !w.Document? && !w.Array? && !w.JsCodeWScope?
    ensures v == VisibleValue(c.elems[c.index].value)
  {
    hide EncDoc, EncElems, EncElem, EncValue, WellFormed;
    c.TypeOfElement();
    var ok, s, n, subtype, options, flag;
    match c.Type() {
      case TYPE_DOUBLE => ok, s := c.GetDouble(); v := Double(s);
      case TYPE_STRING => ok, s := c.GetText(TYPE_STRING); v := Str(s);
      case TYPE_JS_CODE => ok, s := c.GetText(TYPE_JS_CODE); v := JsCode(s);
      case TYPE_SYMBOL => ok, s := c.GetText(TYPE_SYMBOL); v := Symbol(s);
      case TYPE_BINARY => ok, subtype, s := c.GetBinary(); v := Binary(subtype, s);
      case TYPE_OID => ok, s := c.GetOid(); v := Oid(s);
      case TYPE_BOOLEAN => ok, flag := c.GetBoolean(); v := Boolean(flag);
      case TYPE_UTC_DATETIME => ok, n := c.GetStamp(TYPE_UTC_DATETIME); v := UtcDatetime(n);
      case TYPE_TIMESTAMP => ok, n := c.GetStamp(TYPE_TIMESTAMP); v := Timestamp(n);
      case TYPE_INT64 => ok, n := c.GetStamp(TYPE_INT64); v := Int64(n);
      case TYPE_INT32 => ok, n := c.GetInt32(); v := Int32(n);
      case TYPE_REGEXP => ok, s, options := c.GetRegex(); v := Regexp(s, options);
      case _ => v := Null;
    }
  }

  lemma {:induction false} SubdocumentSound(es: seq<Element>, i: nat)
    requires Sound(es) && i < |es|
    requires es[i].value.Document? || es[i].value.Array? || es[i].value.JsCodeWScope?
    ensures Sound(es[i].value.doc)
  {
    ElementSound(es, i);
  }

  // Walks a finished document with a cursor, descending into documents, arrays and scopes.
  method Walk(b: Bson, ghost es: seq<Element>) returns (r: seq<Element>)
    requires b.Holds(es) && Sound(es) && Walkable(es)
    ensures r == Visible(es)
    decreases es, 0
  {
    hide EncDoc, EncElems, EncElem, EncValue, WellFormed;
    var c := new BsonCursor(b, es);
    r := [];
    assert es[..0] == [];
    var more := c.Next();
    while more
      invariant fresh(c) && c.Valid() && c.obj == b && c.elems == es
      invariant more ==> 0 <= c.index && r == Visible(es[..c.index])
      invariant !more ==> r == Visible(es)
      decreases |es| - c.index, more
    {
      ghost var i := c.index;
      assert es[i] in es;
      var v := ReadValue(c);
      r := r + [Element(c.key.value, v)];
      VisibleSnoc(es[..i], es[i]);
      assert es[..i] + [es[i]] == es[..i + 1];
      assert es[..|es|] == es;
      more := c.Next();
    }
    assert es == [] ==> r == Visible(es);
  }

  // Building any tree and walking it back gives the same keys, types, values and order; texts
  // come back up to their first NUL, so the tree comes back whole iff no text contains one.
  method RoundTrip(es: seq<Element>) returns (r: seq<Element>)
    requires Buildable(es) && IsInt32(|EncDoc(es)|)
    ensures r == Visible(es)
    ensures r == es <==> NulFreeTexts(es)
  {
    var b := Build(es);
    BuildableWalks(es);
    r := Walk(b, es);
    VisibleExact(es);
  }
}
