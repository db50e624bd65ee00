/** Unambiguity: different well-formed documents never have the same bytes. */
module BsonUnique {
  import opened Bytes
  import opened BsonFormat

  lemma TextUnique(s: bytes, t: bytes, p: bytes, q: bytes)
    requires IsInt32(|s| + 1) && IsInt32(|t| + 1)
    requires EncText(s) + p == EncText(t) + q
    ensures s == t && p == q
  {
    var d := EncText(s) + p;
    PrefixRead(d, 0, EncText(s), |s| + 1);
    PrefixRead(d, 0, EncText(t), |t| + 1);
    assert s == d[4..4 + |s|] == t;
    assert p == d[4 + |s| + 1..] == q;
  }

  lemma StampUnique(m: int, n: int)
    requires IsInt64(m) && IsInt64(n) && Le64(m) == Le64(n)
    ensures m == n
  {
    Le64Read(m, Le64(m), 0);
    Le64Read(n, Le64(m), 0);
  }

  lemma PatternUnique(p: bytes, q: bytes, o: bytes, r: bytes)
    requires NulFree(p) && NulFree(q) && NulFree(o) && NulFree(r)
    requires p + [0] + o + [0] == q + [0] + r + [0]
    ensures p == q && o == r
  {
    var d := p + [0] + o + [0];
    assert d[0..|d|] == d;
    CStringPair(d, 0, p, o);
    CStringPair(d, 0, q, r);
  }

  lemma ScopeUnique(s: bytes, t: bytes, m: int, n: int, p: bytes, q: bytes)
    requires IsInt32(|s| + 1) && IsInt32(|t| + 1)
    requires Le32(m) + EncText(s) + p == Le32(n) + EncText(t) + q
    ensures s == t && p == q
  {
    assert (Le32(m) + EncText(s) + p)[4..] == EncText(s) + p;
    assert (Le32(n) + EncText(t) + q)[4..] == EncText(t) + q;
    TextUnique(s, t, p, q);
  }

  lemma BinaryUnique(s: byte, t: byte, p: bytes, q: bytes)
    requires Le32(|p|) + [s] + p == Le32(|q|) + [t] + q
    ensures s == t && p == q
  {
    var d := Le32(|p|) + [s] + p;
    assert d[4] == s == t;
    assert d[5..] == p == q;
  }

  lemma {:induction false} ScalarUnique(v: Value, w: Value)
    requires WellFormedValue(v) && WellFormedValue(w)
    requires !v.Document? && !v.Array? && !v.JsCodeWScope?
    requires TypeOf(v) == TypeOf(w) && EncValue(v) == EncValue(w) && IsInt32(|EncValue(v)|)
    ensures v == w
  {
    match v
    case Str(s) => TextUnique(s, w.text, [], []);
    case JsCode(s) => TextUnique(s, w.text, [], []);
    case Symbol(s) => TextUnique(s, w.text, [], []);
    case DbPointer(s, raw) => TextUnique(s, w.text, raw, w.raw);
    case Binary(subtype, data) => BinaryUnique(subtype, w.subtype, data, w.data);
    case Regexp(pattern, options) => PatternUnique(pattern, w.pattern, options, w.options);
    case UtcDatetime(n) => StampUnique(n, w.stamp);
    case Timestamp(n) => StampUnique(n, w.stamp);
    case Int64(n) => StampUnique(n, w.stamp);
    case Int32(n) =>
      Le32Read(n, Le32(n), 0);
      Le32Read(w.number, Le32(n), 0);
    case _ =>
  }

  lemma {:induction false} ContainerUnique(v: Value, w: Value)
    requires v.Document? || v.Array? || v.JsCodeWScope?
    requires WellFormedValue(v) && WellFormedValue(w)
    requires TypeOf(v) == TypeOf(w) && EncValue(v) == EncValue(w) && IsInt32(|EncValue(v)|)
    ensures Sound(v.doc) && Sound(w.doc) && EncDoc(v.doc) == EncDoc(w.doc)
    ensures v.JsCodeWScope? ==> v.text == w.text
  {
    hide EncDoc, EncElems, WellFormed;
    if v.JsCodeWScope? {
      ScopeUnique(v.text, w.text, |v.text| + 9 + |EncDoc(v.doc)|, |w.text| + 9 + |EncDoc(w.doc)|,
                  EncDoc(v.doc), EncDoc(w.doc));
    }
  }

  lemma {:induction false} ValueUnique(v: Value, w: Value)
    requires WellFormedValue(v) && WellFormedValue(w)
    requires TypeOf(v) == TypeOf(w) && EncValue(v) == EncValue(w) && IsInt32(|EncValue(v)|)
    ensures v == w
    decreases v, 1
  {
    hide EncValue, EncDoc, EncElems, EncElem, WellFormedValue;
    if v.Document? || v.Array? || v.JsCodeWScope? {
      ContainerUnique(v, w);
      DocumentUnique(v.doc, w.doc);
    } else {
      ScalarUnique(v, w);
    }
  }

  // Two documents with the same bytes agree on their first i elements, for as long as both last.
  lemma {:induction false} PrefixUnique(a: seq<Element>, b: seq<Element>, i: nat)
    requires Sound(a) && Sound(b) && EncDoc(a) == EncDoc(b)
    requires i <= |a| && i <= |b|
    ensures a[..i] == b[..i]
    decreases a, 0, i
  {
    hide EncDoc, EncElems, EncElem, EncValue, WellFormed;
    if i > 0 {
      PrefixUnique(a, b, i - 1);
      var k := i - 1;
      ElementSound(a, k);
      ElementSound(b, k);
      SameElementBytes(a, b, k);
      ValueUnique(a[k].value, b[k].value);
      assert a[..i] == a[..k] + [a[k]] && b[..i] == b[..k] + [b[k]];
    }
  }

  lemma {:induction false} SameElementBytes(a: seq<Element>, b: seq<Element>, k: nat)
    requires Sound(a) && Sound(b) && EncDoc(a) == EncDoc(b)
    requires k < |a| && k < |b| && a[..k] == b[..k]
    ensures a[k].key == b[k].key && TypeOf(a[k].value) == TypeOf(b[k].value)
    ensures EncValue(a[k].value) == EncValue(b[k].value)
  {
    hide EncDoc, EncElems, EncElem, EncValue, WellFormed, StrLen, CStringAt, BlockSize;
    StepToNext(a, k);
    StepToNext(b, k);
    assert a[k].key == b[k].key && TypeOf(a[k].value) == TypeOf(b[k].value);
    ValueEnd(a, k);
    ValueEnd(b, k);
  }

  lemma {:induction false} ValueEnd(es: seq<Element>, i: nat)
    requires Sound(es) && i < |es|
    ensures var at := Offset(es, i) + |es[i].key| + 2;
            && at <= Offset(es, i + 1) <= |EncDoc(es)|
            && EncDoc(es)[at..Offset(es, i + 1)] == EncValue(es[i].value)
  {
    ElementSound(es, i);
    ElementLayout(es, i);
    BlockStep(EncDoc(es), Offset(es, i), Offset(es, i + 1), es[i]);
  }

  lemma {:induction false} DocumentUnique(a: seq<Element>, b: seq<Element>)
    requires Sound(a) && Sound(b) && EncDoc(a) == EncDoc(b)
    ensures a == b
    decreases a, 1
  {
    if |a| > |b| {
      PrefixUnique(a, b, |b|);
      SameEnd(b, a);
    } else {
      PrefixUnique(a, b, |a|);
      if |a| < |b| { SameEnd(a, b); }
    }
  }

  // A proper prefix of a document cannot have all of its bytes.
  lemma {:induction false} SameEnd(a: seq<Element>, b: seq<Element>)
    requires |a| < |b| && b[..|a|] == a[..|a|]
    ensures EncDoc(a) != EncDoc(b)
  {
    assert a[..|a|] == a && b[..|b|] == b;
    OffsetMonotone(b, |a|, |b|);
  }
}
