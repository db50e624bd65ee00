/** The BSON grammar as value trees, their encoding, and the size of an encoded value. */
module BsonFormat {
  import opened Bytes

  datatype Option<+T> = None | Some(value: T)

  // A value of any type that `_bson_get_block_size` can step over.  A double is its eight
  // little-endian bytes.  Undefined, DbPointer, MinKey and MaxKey have no append function.
  datatype Value =
    | Double(raw: bytes)
    | Str(text: bytes)
    | Document(doc: seq<Element>)
    | Array(doc: seq<Element>)
    | Binary(subtype: byte, data: bytes)
    | Undefined
    | Oid(raw: bytes)
    | Boolean(flag: byte)
    | UtcDatetime(stamp: int)
    | Null
    | Regexp(pattern: bytes, options: bytes)
    | DbPointer(text: bytes, raw: bytes)
    | JsCode(text: bytes)
    | Symbol(text: bytes)
    | JsCodeWScope(text: bytes, doc: seq<Element>)
    | Int32(number: int)
    | Timestamp(stamp: int)
    | Int64(stamp: int)
    | MinKey
    | MaxKey

  datatype Element = Element(key: bytes, value: Value)

  const TYPE_NONE: byte := 0
  const TYPE_DOUBLE: byte := 1
  const TYPE_STRING: byte := 2
  const TYPE_DOCUMENT: byte := 3
  const TYPE_ARRAY: byte := 4
  const TYPE_BINARY: byte := 5
  const TYPE_UNDEFINED: byte := 6
  const TYPE_OID: byte := 7
  const TYPE_BOOLEAN: byte := 8
  const TYPE_UTC_DATETIME: byte := 9
  const TYPE_NULL: byte := 10
  const TYPE_REGEXP: byte := 11
  const TYPE_DBPOINTER: byte := 12
  const TYPE_JS_CODE: byte := 13
  const TYPE_SYMBOL: byte := 14
  const TYPE_JS_CODE_W_SCOPE: byte := 15
  const TYPE_INT32: byte := 16
  const TYPE_TIMESTAMP: byte := 17
  const TYPE_INT64: byte := 18
  const TYPE_MIN: byte := 0xff
  const TYPE_MAX: byte := 0x7f

  function TypeOf(v: Value): byte {
    match v
    case Double(_) => TYPE_DOUBLE
    case Str(_) => TYPE_STRING
    case Document(_) => TYPE_DOCUMENT
    case Array(_) => TYPE_ARRAY
    case Binary(_, _) => TYPE_BINARY
    case Undefined => TYPE_UNDEFINED
    case Oid(_) => TYPE_OID
    case Boolean(_) => TYPE_BOOLEAN
    case UtcDatetime(_) => TYPE_UTC_DATETIME
    case Null => TYPE_NULL
    case Regexp(_, _) => TYPE_REGEXP
    case DbPointer(_, _) => TYPE_DBPOINTER
    case JsCode(_) => TYPE_JS_CODE
    case Symbol(_) => TYPE_SYMBOL
    case JsCodeWScope(_, _) => TYPE_JS_CODE_W_SCOPE
    case Int32(_) => TYPE_INT32
    case Timestamp(_) => TYPE_TIMESTAMP
    case Int64(_) => TYPE_INT64
    case MinKey => TYPE_MIN
    case MaxKey => TYPE_MAX
  }

  // A length-prefixed, NUL-terminated string.
  function EncText(s: bytes): bytes { Le32(|s| + 1) + s + [0] }

  function EncValue(v: Value): bytes
    decreases v, 2
  {
    match v
    case Double(raw) => raw
    case Str(s) => EncText(s)
    case Document(doc) => EncDoc(doc)
    case Array(doc) => EncDoc(doc)
    case Binary(subtype, data) => Le32(|data|) + [subtype] + data
    case Undefined => []
    case Oid(raw) => raw
    case Boolean(flag) => [flag]
    case UtcDatetime(n) => Le64(n)
    case Null => []
    case Regexp(pattern, options) => pattern + [0] + options + [0]
    case DbPointer(s, raw) => EncText(s) + raw
    case JsCode(s) => EncText(s)
    case Symbol(s) => EncText(s)
    case JsCodeWScope(s, scope) =>
      var scopeBytes := EncDoc(scope);
      Le32(|s| + 1 + 8 + |scopeBytes|) + EncText(s) + scopeBytes
    case Int32(n) => Le32(n)
    case Timestamp(n) => Le64(n)
    case Int64(n) => Le64(n)
    case MinKey => []
    case MaxKey => []
  }

  function EncElem(e: Element): bytes
    decreases e, 3
  {
    [TypeOf(e.value)] + e.key + [0] + EncValue(e.value)
  }

  function EncElems(es: seq<Element>): bytes
    decreases es, 0
  {
    if es == [] then [] else EncElem(es[0]) + EncElems(es[1..])
  }

  // int32 total size, the elements, one zero byte.
  function EncDoc(es: seq<Element>): bytes
    decreases es, 1
  {
    Le32(|EncElems(es)| + 5) + EncElems(es) + [0]
  }

  // The bytes of an element, type by type, as the BSON specification (version 1.1, "element") has
  // them, and of a document.
  lemma {:induction false} ElementBytes(k: bytes, v: Value)
    ensures EncElem(Element(k, v)) ==
              match v
              case Double(raw) => [0x01] + k + [0] + raw
              case Str(s) => [0x02] + k + [0] + (Le32(|s| + 1) + s + [0])
              case Document(doc) => [0x03] + k + [0] + EncDoc(doc)
              case Array(doc) => [0x04] + k + [0] + EncDoc(doc)
              case Binary(subtype, data) => [0x05] + k + [0] + (Le32(|data|) + [subtype] + data)
              case Undefined => [0x06] + k + [0]
              case Oid(raw) => [0x07] + k + [0] + raw
              case Boolean(flag) => [0x08] + k + [0] + [flag]
              case UtcDatetime(n) => [0x09] + k + [0] + Le64(n)
              case Null => [0x0a] + k + [0]
              case Regexp(pattern, options) => [0x0b] + k + [0] + (pattern + [0] + options + [0])
              case DbPointer(s, raw) => [0x0c] + k + [0] + (Le32(|s| + 1) + s + [0] + raw)
              case JsCode(s) => [0x0d] + k + [0] + (Le32(|s| + 1) + s + [0])
              case Symbol(s) => [0x0e] + k + [0] + (Le32(|s| + 1) + s + [0])
              case JsCodeWScope(s, doc) =>
                [0x0f] + k + [0] + (Le32(4 + (4 + |s| + 1) + |EncDoc(doc)|) + (Le32(|s| + 1) + s + [0]) + EncDoc(doc))
              case Int32(n) => [0x10] + k + [0] + Le32(n)
              case Timestamp(n) => [0x11] + k + [0] + Le64(n)
              case Int64(n) => [0x12] + k + [0] + Le64(n)
              case MinKey => [0xff] + k + [0]
              case MaxKey => [0x7f] + k + [0]
  {
    hide EncDoc, Le32, Le64;
  }

  lemma {:induction false} DocumentBytes(es: seq<Element>)
    ensures EncDoc(es) == Le32(4 + |EncElems(es)| + 1) + EncElems(es) + [0]
    ensures es == [] ==> EncElems(es) == []
    ensures es != [] ==> EncElems(es) == EncElem(es[0]) + EncElems(es[1..])
  {
  }

  // The widths and the NUL-freedom that the grammar asks for.
  predicate WellFormedValue(v: Value)
    decreases v, 1
  {
    match v
    case Double(raw) => |raw| == 8
    case Oid(raw) => |raw| == 12
    case DbPointer(_, raw) => |raw| == 12
    case Regexp(pattern, options) => NulFree(pattern) && NulFree(options)
    case UtcDatetime(n) => IsInt64(n)
    case Timestamp(n) => IsInt64(n)
    case Int64(n) => IsInt64(n)
    case Int32(n) => IsInt32(n)
    case Document(doc) => WellFormed(doc)
    case Array(doc) => WellFormed(doc)
    case JsCodeWScope(_, doc) => WellFormed(doc)
    case _ => true
  }

  predicate WellFormed(es: seq<Element>)
    decreases es, 0
  {
    forall e | e in es :: NulFree(e.key) && WellFormedValue(e.value)
  }

  // A well-formed document whose size fits gint32.
  predicate Sound(es: seq<Element>) {
    WellFormed(es) && IsInt32(|EncDoc(es)|)
  }

  /** Layout */

  // Where element i of the document starts; the closing zero byte counts as element |es|.
  ghost function Offset(es: seq<Element>, i: nat): nat
    requires i <= |es|
  {
    4 + |EncElems(es[..i])|
  }

  lemma {:induction false} EncElemsConcat(a: seq<Element>, b: seq<Element>)
    ensures EncElems(a + b) == EncElems(a) + EncElems(b)
  {
    if a == [] {
      assert a + b == b;
    } else {
      assert (a + b)[1..] == a[1..] + b;
      EncElemsConcat(a[1..], b);
    }
  }

  lemma {:induction false} EncElemsSnoc(es: seq<Element>, e: Element)
    ensures EncElems(es + [e]) == EncElems(es) + EncElem(e)
  {
    EncElemsConcat(es, [e]);
    assert EncElems([e]) == EncElem(e) + EncElems([]);
  }

  // The bytes of a document, cut at element i.
  lemma {:induction false} ElementLayout(es: seq<Element>, i: nat)
    requires i < |es|
    ensures Offset(es, 0) == 4 && Offset(es, |es|) == |EncDoc(es)| - 1
    ensures Offset(es, i + 1) == Offset(es, i) + |EncElem(es[i])| < |EncDoc(es)|
    ensures EncDoc(es)[Offset(es, i)..Offset(es, i + 1)] == EncElem(es[i])
  {
    assert es[..|es|] == es;
    var before, rest := es[..i], es[i + 1..];
    assert before + [es[i]] == es[..i + 1] && es[..i + 1] + rest == es;
    EncElemsSnoc(before, es[i]);
    EncElemsConcat(es[..i + 1], rest);
    Middle(EncDoc(es), Le32(|EncElems(es)| + 5), EncElems(es), [0],
           EncElems(before), EncElem(es[i]), EncElems(rest));
  }

  lemma {:induction false} OffsetMonotone(es: seq<Element>, i: nat, j: nat)
    requires i <= j <= |es|
    ensures Offset(es, i) <= Offset(es, j)
    ensures i < j ==> Offset(es, i) < Offset(es, j)
    decreases j - i
  {
    if i < j {
      ElementLayout(es, j - 1);
      OffsetMonotone(es, i, j - 1);
    }
  }

  /** Block sizes */

  // The types whose value starts with a 32-bit length.
  predicate LengthPrefixed(t: byte) {
    || t == TYPE_STRING || t == TYPE_JS_CODE || t == TYPE_SYMBOL
    || t == TYPE_DOCUMENT || t == TYPE_ARRAY || t == TYPE_JS_CODE_W_SCOPE
    || t == TYPE_BINARY || t == TYPE_DBPOINTER
  }

  // The memory _bson_get_block_size reads before it knows the size.
  predicate SizeReadable(t: byte, d: bytes, at: nat) {
    && at <= |d|
    && (LengthPrefixed(t) ==> at + 4 <= |d|)
    && (t == TYPE_REGEXP ==> at + StrLen(d, at) + 1 <= |d|)
  }

  // The size of the value of type t stored at d[at..], or -1 for a type without values.
  function BlockSize(t: byte, d: bytes, at: nat): int
    requires SizeReadable(t, d, at)
  {
    match t
    case TYPE_STRING => Int32At(d, at) + 4
    case TYPE_JS_CODE => Int32At(d, at) + 4
    case TYPE_SYMBOL => Int32At(d, at) + 4
    case TYPE_DOCUMENT => Int32At(d, at)
    case TYPE_ARRAY => Int32At(d, at)
    case TYPE_JS_CODE_W_SCOPE => Int32At(d, at)
    case TYPE_DOUBLE => 8
    case TYPE_BINARY => Int32At(d, at) + 4 + 1
    case TYPE_OID => 12
    case TYPE_BOOLEAN => 1
    case TYPE_UTC_DATETIME => 8
    case TYPE_TIMESTAMP => 8
    case TYPE_INT64 => 8
    case TYPE_NULL => 0
    case TYPE_UNDEFINED => 0
    case TYPE_MIN => 0
    case TYPE_MAX => 0
    case TYPE_REGEXP =>
      var l := StrLen(d, at);
      l + StrLen(d, at + l + 1) + 2
    case TYPE_INT32 => 4
    case TYPE_DBPOINTER => Int32At(d, at) + 4 + 12
    case _ => -1
  }

  // The length that a length-prefixed value starts with.
  ghost function StoredLength(v: Value): nat
    requires LengthPrefixed(TypeOf(v))
  {
    match v
    case Str(s) => |s| + 1
    case JsCode(s) => |s| + 1
    case Symbol(s) => |s| + 1
    case DbPointer(s, _) => |s| + 1
    case Binary(_, data) => |data|
    case Document(doc) => |EncElems(doc)| + 5
    case Array(doc) => |EncElems(doc)| + 5
    case JsCodeWScope(s, doc) => |s| + 1 + 8 + |EncDoc(doc)|
    case _ => 0
  }

  // How much longer the value is than the length it starts with.
  ghost function Overhead(t: byte): nat {
    match t
    case TYPE_STRING => 4
    case TYPE_JS_CODE => 4
    case TYPE_SYMBOL => 4
    case TYPE_BINARY => 5
    case TYPE_DBPOINTER => 16
    case _ => 0
  }

  lemma {:induction false} StoredLengthIsPrefix(v: Value)
    requires LengthPrefixed(TypeOf(v)) && WellFormedValue(v)
    ensures |EncValue(v)| >= 4 && EncValue(v)[..4] == Le32(StoredLength(v))
    ensures |EncValue(v)| == StoredLength(v) + Overhead(TypeOf(v))
  {
  }

  lemma {:induction false} BlockSizePrefixed(t: byte, d: bytes, at: nat)
    requires LengthPrefixed(t) && at + 4 <= |d|
    ensures SizeReadable(t, d, at) && BlockSize(t, d, at) == Int32At(d, at) + Overhead(t)
  {
  }

  lemma {:induction false} BlockSizeFixed(v: Value, d: bytes, at: nat)
    requires at <= |d|
    requires WellFormedValue(v) && !LengthPrefixed(TypeOf(v)) && !v.Regexp?
    ensures SizeReadable(TypeOf(v), d, at) && BlockSize(TypeOf(v), d, at) == |EncValue(v)|
  {
  }

  lemma {:induction false} RegexpSize(v: Value, d: bytes, at: nat)
    requires v.Regexp? && WellFormedValue(v)
    requires at + |EncValue(v)| <= |d| && d[at..at + |EncValue(v)|] == EncValue(v)
    ensures SizeReadable(TYPE_REGEXP, d, at)
    ensures CStringAt(d, at) == v.pattern && StrLen(d, at) == |v.pattern|
    ensures CStringAt(d, at + |v.pattern| + 1) == v.options
    ensures StrLen(d, at + |v.pattern| + 1) == |v.options|
  {
    CStringPair(d, at, v.pattern, v.options);
  }

  // For every value type the block size is the length of the encoding.
  lemma {:induction false} BlockSizeIsLength(v: Value, d: bytes, at: nat)
    requires WellFormedValue(v) && IsInt32(|EncValue(v)|)
    requires at + |EncValue(v)| <= |d| && d[at..at + |EncValue(v)|] == EncValue(v)
    ensures SizeReadable(TypeOf(v), d, at)
    ensures BlockSize(TypeOf(v), d, at) == |EncValue(v)|
  {
    if LengthPrefixed(TypeOf(v)) {
      StoredLengthIsPrefix(v);
      PrefixRead(d, at, EncValue(v), StoredLength(v));
      BlockSizePrefixed(TypeOf(v), d, at);
    } else if v.Regexp? {
      RegexpSize(v, d, at);
    } else {
      BlockSizeFixed(v, d, at);
    }
  }

  lemma {:induction false} PrefixRead(d: bytes, at: nat, enc: bytes, n: nat)
    requires IsInt32(n)
    requires |enc| >= 4 && enc[..4] == Le32(n)
    requires at + |enc| <= |d| && d[at..at + |enc|] == enc
    ensures Int32At(d, at) == n
  {
  }

  lemma {:induction false} ElementSound(es: seq<Element>, i: nat)
    requires Sound(es) && i < |es|
    ensures NulFree(es[i].key) && WellFormedValue(es[i].value)
    ensures |EncValue(es[i].value)| < |EncDoc(es)| && IsInt32(|EncValue(es[i].value)|)
  {
    assert es[i] in es;
    ElementLayout(es, i);
  }

  // What a raw reader learns at position pos: the type and the key, and that key length and
  // block size together lead exactly to the next position.
  ghost predicate StepsTo(d: bytes, pos: nat, t: byte, key: bytes, next: nat) {
    var at := pos + |key| + 2;
    && at <= next < |d|
    && d[pos] == t
    && CStringAt(d, pos + 1) == key
    && StrLen(d, pos + 1) == |key|
    && SizeReadable(t, d, at)
    && at + BlockSize(t, d, at) == next
  }

  lemma {:induction false} BlockStep(d: bytes, pos: nat, next: nat, e: Element)
    requires pos <= next < |d| && d[pos..next] == EncElem(e) && NulFree(e.key)
    requires WellFormedValue(e.value) && IsInt32(|EncValue(e.value)|)
    ensures StepsTo(d, pos, TypeOf(e.value), e.key, next)
    ensures d[pos + |e.key| + 2..next] == EncValue(e.value)
  {
    hide EncValue, BlockSize;
    var at, enc := pos + |e.key| + 2, EncValue(e.value);
    TaggedFields(d, pos, next, TypeOf(e.value), e.key, enc);
    assert next == at + |enc| by { assert |d[at..next]| == |enc|; }
    BlockSizeIsLength(e.value, d, at);
  }

  // From the start of any element a raw reader gets exactly to the start of the next one.
  lemma {:induction false} StepToNext(es: seq<Element>, i: nat)
    requires Sound(es) && i < |es|
    ensures StepsTo(EncDoc(es), Offset(es, i), TypeOf(es[i].value), es[i].key, Offset(es, i + 1))
  {
    ElementSound(es, i);
    ElementLayout(es, i);
    BlockStep(EncDoc(es), Offset(es, i), Offset(es, i + 1), es[i]);
  }

  // The encoding of the value stands right behind the key.
  lemma {:induction false} ValueStored(es: seq<Element>, i: nat)
    requires Sound(es) && i < |es|
    ensures var at := Offset(es, i) + |es[i].key| + 2;
            && at + |EncValue(es[i].value)| < |EncDoc(es)|
            && EncDoc(es)[at..at + |EncValue(es[i].value)|] == EncValue(es[i].value)
  {
    hide EncDoc, EncElems, EncValue, WellFormedValue, StepsTo;
    ElementSound(es, i);
    ElementLayout(es, i);
    BlockStep(EncDoc(es), Offset(es, i), Offset(es, i + 1), es[i]);
  }
}
