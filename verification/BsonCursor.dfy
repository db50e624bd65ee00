/** The BSON cursor: stepping, searching and reading values by raw offsets. */
module BsonCursors {
  import opened Bytes
  import opened BsonFormat
  import opened BsonObject

  /** What searching means on the list of elements. */

  // The first element named name among es[lo..hi].
  function FirstIn(es: seq<Element>, name: bytes, lo: nat, hi: nat): (r: Option<nat>)
    requires lo <= hi <= |es|
    ensures r.Some? ==> lo <= r.value < hi && es[r.value].key == name
    ensures r.Some? ==> forall k | lo <= k < r.value :: es[k].key != name
    ensures r.None? ==> forall k | lo <= k < hi :: es[k].key != name
    decreases hi - lo
  {
    if lo == hi then None
    else if es[lo].key == name then Some(lo)
    else FirstIn(es, name, lo + 1, hi)
  }

  // First from element i to the end and then, wrapping over, from the first element up to i.
  function CyclicFirst(es: seq<Element>, name: bytes, i: nat): (r: Option<nat>)
    requires i <= |es|
    ensures r.Some? <==> exists k :: 0 <= k < |es| && es[k].key == name
    ensures r.Some? ==> r.value < |es| && es[r.value].key == name
    ensures r.Some? && r.value >= i ==> forall k | i <= k < r.value :: es[k].key != name
    ensures r.Some? && r.value < i ==>
              && (forall k | i <= k < |es| :: es[k].key != name)
              && (forall k | 0 <= k < r.value :: es[k].key != name)
  {
    var r := FirstIn(es, name, i, |es|);
    if r.Some? then r else FirstIn(es, name, 0, i)
  }

  /** One turn of the search loop on raw bytes. */

  datatype Probe = Hit(valuePos: nat) | Broken | Miss(next: int)

  predicate Probeable(d: bytes, pos: nat) {
    && pos + 1 <= |d|
    && var valuePos := pos + StrLen(d, pos + 1) + 2;
       SizeReadable(d[pos], d, valuePos)
  }

  function ProbeAt(d: bytes, name: bytes, pos: nat): Probe
    requires Probeable(d, pos)
  {
    var key := CStringAt(d, pos + 1);
    var valuePos := pos + |key| + 2;
    if key == name then Hit(valuePos)
    else
      var bs := BlockSize(d[pos], d, valuePos);
      if bs == -1 then Broken else Miss(valuePos + bs)
  }

  lemma ProbeStep(d: bytes, pos: nat, t: byte, key: bytes, next: nat, name: bytes)
    requires StepsTo(d, pos, t, key, next)
    ensures Probeable(d, pos)
    ensures ProbeAt(d, name, pos) == if key == name then Hit(pos + |name| + 2) else Miss(next)
  {
  }

  lemma {:induction false} ProbeElement(es: seq<Element>, i: nat, name: bytes)
    requires Sound(es) && i < |es|
    ensures Probeable(EncDoc(es), Offset(es, i))
    ensures ProbeAt(EncDoc(es), name, Offset(es, i))
            == if es[i].key == name then Hit(Offset(es, i) + |name| + 2) else Miss(Offset(es, i + 1))
  {
    StepToNext(es, i);
    ProbeStep(EncDoc(es), Offset(es, i), TypeOf(es[i].value), es[i].key, Offset(es, i + 1), name);
  }

  // The document {a: null}.
  lemma {:induction false} TinyDocument(es: seq<Element>)
    requires es == [Element([97], Null)]
    ensures Sound(es) && EncDoc(es) == [8, 0, 0, 0, 10, 97, 0, 0]
  {
    assert EncElems(es) == EncElem(es[0]) + EncElems([]);
  }

  // A scan from pos comes to a place without a block size, after at most that many misses.
  predicate GivesUp(d: bytes, name: bytes, pos: int, end: int, misses: nat)
    decreases misses
  {
    && 0 <= pos < end && Probeable(d, pos)
    && match ProbeAt(d, name, pos)
       case Hit(_) => false
       case Broken => true
       case Miss(next) => misses > 0 && GivesUp(d, name, next, end, misses - 1)
  }

  // A cursor fresh from bson_cursor_new stands at offset 0, which is no element: on {a: null}
  // bson_cursor_find("a") misreads the size field there and gives up, although the key occurs.
  lemma FreshCursorFindFails(d: bytes)
    requires d == [8, 0, 0, 0, 10, 97, 0, 0]
    ensures GivesUp(d, [97], 0, 7, 1)
    ensures Probeable(d, 4) && ProbeAt(d, [97], 4) == Hit(7)
  {
    assert d[1..1] == [];
    StrLenUnique(d, 1, 0);
    assert d[4..6] == [10, 97];
    StrLenUnique(d, 4, 2);
    assert d[5..6] == [97];
    StrLenUnique(d, 5, 1);
  }

  // For every document of 19 to 126 bytes and every key it gives up right away: the size is
  // read as an unknown type with an empty key.
  lemma {:induction false} FreshCursorGivesUp(es: seq<Element>, name: bytes)
    requires Sound(es) && 19 <= |EncDoc(es)| <= 126 && name != []
    ensures GivesUp(EncDoc(es), name, 0, |EncDoc(es)| - 1, 0)
  {
    var d := EncDoc(es);
    assert d[..4] == Le32(|d|);
    assert d[0] == Le32(|d|)[0] == |d| && d[1] == Le32(|d|)[1] == 0;
    assert d[1..1] == [];
    StrLenUnique(d, 1, 0);
  }

  datatype Course = Elements(lo: nat, hi: nat) | Astray(misses: nat)

  class BsonCursor {
    const obj: Bson
    ghost const elems: seq<Element>
    var key: Option<bytes>
    var pos: nat
    var valuePos: nat
    ghost var index: int

    // The object is the finished document elems; index is the element the cursor stands on,
    // -1 for a cursor that has not moved yet.
    ghost predicate Valid()
      reads this, obj
    {
      && obj.Holds(elems) && Sound(elems)
      && -1 <= index < |elems|
      && (index == -1 ==> pos == valuePos == 0 && key == None)
      && (index >= 0 ==>
            && pos == Offset(elems, index)
            && key == Some(elems[index].key)
            && valuePos == pos + |elems[index].key| + 2)
    }

    constructor (b: Bson, ghost es: seq<Element>)
      requires b.Holds(es) && Sound(es)
      ensures Valid() && index == -1 && obj == b && elems == es
    {
      obj := b;
      elems := es;
      key, pos, valuePos := None, 0, 0;
      index := -1;
    }

    function Type(): byte
      requires Valid()
      reads this, obj
    {
      if pos < 4 then TYPE_NONE
      else
        assert pos < |obj.data| by { StepToNext(elems, index); }
        obj.data[pos]
    }

    lemma TypeOfElement()
      requires Valid()
      ensures Type() == if index == -1 then TYPE_NONE else TypeOf(elems[index].value)
    {
      if index >= 0 { StepToNext(elems, index); } else { }
    }

    // Where the next element would start; -1 if the current type has no block size.
    method NextPosition() returns (p: int)
      requires Valid()
      ensures p == Offset(elems, index + 1)
    {
      hide EncDoc, EncElems, EncElem, EncValue, BlockSize, StrLen, CStringAt, WellFormed;
      if pos == 0 {
        OffsetBounds(elems, 0);
        return 4;
      }
      OffsetAtLeast4(elems, index);
      StepToNext(elems, index);
      var bs := BlockSize(obj.data[pos], obj.data, valuePos);
      return if bs == -1 then -1 else valuePos + bs;
    }

    method MoveTo(p: nat, ghost i: nat)
      requires obj.Holds(elems) && Sound(elems) && i < |elems| && p == Offset(elems, i)
      modifies this
      ensures Valid() && index == i
    {
      StepToNext(elems, i);
      OffsetAtLeast4(elems, i);
      var k := CStringAt(obj.data, p + 1);
      key := Some(k);
      pos := p;
      valuePos := p + |k| + 2;
      index := i;
    }

    method Next() returns (ok: bool)
      requires Valid()
      modifies this
      ensures Valid()
      ensures ok == (old(index) + 1 < |elems|)
      ensures index == old(index) + if ok then 1 else 0
      ensures !ok ==> pos == old(pos) && valuePos == old(valuePos) && key == old(key)
    {
      var p := NextPosition();
      OffsetBounds(elems, index + 1);
      if p == -1 || p >= obj.Size() - 1 { return false; }
      MoveTo(p, index + 1);
      return true;
    }

    // start and end stand for these elements, or the scan starts elsewhere and gives up.
    ghost predicate Follows(course: Course, name: bytes, start: int, end: int)
      reads this, obj
    {
      match course
      case Elements(lo, hi) => lo <= hi <= |elems| && start == Offset(elems, lo) && end == Offset(elems, hi)
      case Astray(misses) => GivesUp(obj.data, name, start, end, misses)
    }

    // _bson_cursor_find with this cursor as the destination.
    method Search(name: bytes, start: nat, end: int, wrap: bool, ghost course: Course) returns (ok: bool)
      requires Valid() && NulFree(name) && Follows(course, name, start, end)
      modifies this
      ensures Valid()
      ensures course.Astray? ==> !ok
      ensures course.Elements? ==>
                var r := FirstIn(elems, name, course.lo, course.hi);
                var s := if r.None? && wrap then FirstIn(elems, name, 0, course.lo) else r;
                && ok == s.Some?
                && (ok ==> index == s.value)
      ensures !ok ==> index == old(index) && pos == old(pos) && valuePos == old(valuePos) && key == old(key)
      decreases wrap
    {
      hide ProbeAt, Probeable, EncDoc, EncElems, EncElem, EncValue, BlockSize, StrLen, CStringAt, WellFormed;
      var p: int := start;
      ghost var way := course;
      if course.Elements? { OffsetMonotone(elems, course.lo, course.hi); }
      while p < end
        invariant way.Elements? <==> course.Elements?
        invariant Follows(way, name, p, end)
        invariant way.Elements? ==>
                    && way.hi == course.hi && course.lo <= way.lo && p <= end
                    && FirstIn(elems, name, course.lo, course.hi) == FirstIn(elems, name, way.lo, way.hi)
        invariant index == old(index) && pos == old(pos) && valuePos == old(valuePos) && key == old(key)
        decreases if way.Elements? then way.hi - way.lo else way.misses
      {
        if way.Elements? {
          assert way.lo < way.hi;
          ProbeElement(elems, way.lo, name);
          OffsetMonotone(elems, way.lo + 1, way.hi);
        }
        match ProbeAt(obj.data, name, p) {
          case Hit(_) =>
            MoveTo(p, way.lo);
            return true;
          case Broken => return false;
          case Miss(next) => p := next;
        }
        way := if way.Elements? then Elements(way.lo + 1, way.hi) else Astray(way.misses - 1);
      }
      assert way.Elements?;
      assert way.lo == way.hi by { if way.lo < way.hi { OffsetMonotone(elems, way.lo, way.hi); } }
      if wrap {
        OffsetBounds(elems, 0);
        ok := Search(name, 4, start, false, Elements(0, course.lo));
        return;
      }
      return false;
    }

    // The course of a search from the cursor's own place, through the elements behind it or, for
    // a cursor that has not moved yet, from offset 0.
    ghost function CourseFromHere(misses: nat): Course
      reads this
    {
      if index >= 0 then Elements(index, |elems|) else Astray(misses)
    }

    // bson_cursor_find: from an element a cyclic search that starts on the element itself, from a
    // cursor that has not moved yet a failure, where the scan gives up.
    method Find(name: bytes, ghost misses: nat := 0) returns (ok: bool)
      requires Valid() && NulFree(name)
      requires index >= 0 || GivesUp(obj.data, name, 0, obj.Size() - 1, misses)
      modifies this
      ensures Valid()
      ensures old(index) >= 0 ==>
                var r := CyclicFirst(elems, name, old(index));
                ok == r.Some? && (ok ==> index == r.value)
      ensures old(index) == -1 ==> !ok
      ensures !ok ==> index == old(index) && pos == old(pos) && valuePos == old(valuePos) && key == old(key)
    {
      hide EncDoc, EncElems, WellFormed, Offset, FirstIn;
      OffsetBounds(elems, |elems|);
      ok := Search(name, pos, obj.Size() - 1, true, CourseFromHere(misses));
    }

    // bson_cursor_find_next: the same without wrapping over.
    method FindNext(name: bytes, ghost misses: nat := 0) returns (ok: bool)
      requires Valid() && NulFree(name)
      requires index >= 0 || GivesUp(obj.data, name, 0, obj.Size() - 1, misses)
      modifies this
      ensures Valid()
      ensures old(index) >= 0 ==>
                var r := FirstIn(elems, name, old(index), |elems|);
                ok == r.Some? && (ok ==> index == r.value)
      ensures old(index) == -1 ==> !ok
      ensures !ok ==> index == old(index) && pos == old(pos) && valuePos == old(valuePos) && key == old(key)
    {
      hide EncDoc, EncElems, WellFormed, Offset, FirstIn;
      OffsetBounds(elems, |elems|);
      ok := Search(name, pos, obj.Size() - 1, false, CourseFromHere(misses));
    }

    // bson_find: a new cursor on the first element of that name.
    static method FindFirst(b: Bson, name: bytes, ghost es: seq<Element>) returns (c: BsonCursor?)
      requires b.finished ==> b.Holds(es) && Sound(es)
      requires NulFree(name)
      ensures c != null <==> b.finished && FirstIn(es, name, 0, |es|).Some?
      ensures c != null ==>
                && fresh(c) && c.Valid() && c.obj == b && c.elems == es
                && Some(c.index) == FirstIn(es, name, 0, |es|)
    {
      if b.Size() == -1 { return null; }
      c := new BsonCursor(b, es);
      OffsetBounds(es, 0);
      OffsetBounds(es, |es|);
      var found := c.Search(name, 4, b.Size() - 1, false, Elements(0, |es|));
      if !found { return null; }
    }

    // Stepping from the start until the key matches; the contract is the one of FindFirst.
    method StepUntil(name: bytes) returns (ok: bool)
      requires Valid() && index == -1
      modifies this
      ensures Valid()
      ensures ok == FirstIn(elems, name, 0, |elems|).Some?
      ensures ok ==> Some(index) == FirstIn(elems, name, 0, |elems|)
    {
      ok := Next();
      while ok && key != Some(name)
        invariant Valid()
        invariant ok ==> 0 <= index && FirstIn(elems, name, 0, |elems|) == FirstIn(elems, name, index, |elems|)
        invariant !ok ==> FirstIn(elems, name, 0, |elems|).None?
        decreases |elems| - index, ok
      {
        ok := Next();
      }
    }

    /** Typed getters: they succeed exactly on an element of their type. */

    ghost predicate On(t: byte)
      requires Valid()
      reads this, obj
    {
      index >= 0 && TypeOf(elems[index].value) == t
    }

    // The value of the current element, and its encoding right at valuePos.
    lemma CurrentValue() returns (v: Value)
      requires Valid() && index >= 0
      ensures v == elems[index].value && WellFormedValue(v) && IsInt32(|EncValue(v)|)
      ensures valuePos + |EncValue(v)| < |obj.data|
      ensures obj.data[valuePos..valuePos + |EncValue(v)|] == EncValue(v)
    {
      v := elems[index].value;
      ElementSound(elems, index);
      ValueStored(elems, index);
    }

    // bson_cursor_get_string, _get_javascript and _get_symbol, one for each type.
    method GetText(t: byte) returns (ok: bool, s: bytes)
      requires Valid() && t in {TYPE_STRING, TYPE_JS_CODE, TYPE_SYMBOL}
      ensures ok <==> On(t)
      ensures ok ==> s == UpToNul(elems[index].value.text)
    {
      hide EncDoc, EncElems, EncElem, CStringAt, StrLen, WellFormed;
      TypeOfElement();
      if Type() != t { return false, []; }
      ghost var v := CurrentValue();
      TextStored(obj.data, valuePos, v.text, []);
      return true, CStringAt(obj.data, valuePos + 4);
    }

    method GetDouble() returns (ok: bool, raw: bytes)
      requires Valid()
      ensures ok <==> On(TYPE_DOUBLE)
      ensures ok ==> raw == elems[index].value.raw
    {
      hide EncDoc, EncElems, EncElem, CStringAt, StrLen, WellFormed;
      TypeOfElement();
      if Type() != TYPE_DOUBLE { return false, []; }
      ghost var v := CurrentValue();
      return true, obj.data[valuePos..valuePos + 8];
    }

    // bson_cursor_get_document and _get_array: a new finished object.
    method GetSubdocument(t: byte) returns (ok: bool, doc: Bson?)
      requires Valid() && t in {TYPE_DOCUMENT, TYPE_ARRAY}
      ensures ok <==> On(t)
      ensures ok ==> doc != null && fresh(doc) && doc.Holds(elems[index].value.doc)
    {
      hide EncDoc, EncElems, EncElem, CStringAt, StrLen, WellFormed;
      TypeOfElement();
      if Type() != t { return false, null; }
      ghost var v := CurrentValue();
      doc := CopyDocument(obj.data, valuePos, v.doc);
      return true, doc;
    }

    method GetBinary() returns (ok: bool, subtype: byte, d: bytes)
      requires Valid()
      ensures ok <==> On(TYPE_BINARY)
      ensures ok ==> elems[index].value == Binary(subtype, d)
    {
      hide EncDoc, EncElems, EncElem, CStringAt, StrLen, WellFormed;
      TypeOfElement();
      if Type() != TYPE_BINARY { return false, 0, []; }
      ghost var v := CurrentValue();
      BinaryStored(obj.data, valuePos, v.subtype, v.data);
      var size := Int32At(obj.data, valuePos);
      return true, obj.data[valuePos + 4], obj.data[valuePos + 5..valuePos + 5 + size];
    }

    method GetOid() returns (ok: bool, raw: bytes)
      requires Valid()
      ensures ok <==> On(TYPE_OID)
      ensures ok ==> raw == elems[index].value.raw
    {
      hide EncDoc, EncElems, EncElem, CStringAt, StrLen, WellFormed;
      TypeOfElement();
      if Type() != TYPE_OID { return false, []; }
      ghost var v := CurrentValue();
      return true, obj.data[valuePos..valuePos + 12];
    }

    method GetBoolean() returns (ok: bool, flag: byte)
      requires Valid()
      ensures ok <==> On(TYPE_BOOLEAN)
      ensures ok ==> flag == elems[index].value.flag
    {
      hide EncDoc, EncElems, EncElem, CStringAt, StrLen, WellFormed;
      TypeOfElement();
      if Type() != TYPE_BOOLEAN { return false, 0; }
      ghost var v := CurrentValue();
      flag := obj.data[valuePos];
      assert flag == obj.data[valuePos..valuePos + 1][0];
      return true, flag;
    }

    // bson_cursor_get_utc_datetime, _get_timestamp and _get_int64.
    method GetStamp(t: byte) returns (ok: bool, n: int)
      requires Valid() && t in {TYPE_UTC_DATETIME, TYPE_TIMESTAMP, TYPE_INT64}
      ensures ok <==> On(t)
      ensures ok ==> n == elems[index].value.stamp
    {
      hide EncDoc, EncElems, EncElem, CStringAt, StrLen, WellFormed;
      TypeOfElement();
      if Type() != t { return false, 0; }
      ghost var v := CurrentValue();
      Le64Read(v.stamp, obj.data, valuePos);
      return true, Int64At(obj.data, valuePos);
    }

    method GetInt32() returns (ok: bool, n: int)
      requires Valid()
      ensures ok <==> On(TYPE_INT32)
      ensures ok ==> n == elems[index].value.number
    {
      hide EncDoc, EncElems, EncElem, CStringAt, StrLen, WellFormed;
      TypeOfElement();
      if Type() != TYPE_INT32 { return false, 0; }
      ghost var v := CurrentValue();
      Le32Read(v.number, obj.data, valuePos);
      return true, Int32At(obj.data, valuePos);
    }

    method GetRegex() returns (ok: bool, pattern: bytes, options: bytes)
      requires Valid()
      ensures ok <==> On(TYPE_REGEXP)
      ensures ok ==> elems[index].value == Regexp(pattern, options)
    {
      hide EncDoc, EncElems, EncElem, CStringAt, StrLen, WellFormed;
      TypeOfElement();
      if Type() != TYPE_REGEXP { return false, [], []; }
      ghost var v := CurrentValue();
      RegexpSize(v, obj.data, valuePos);
      pattern := CStringAt(obj.data, valuePos);
      options := CStringAt(obj.data, valuePos + |pattern| + 1);
      return true, pattern, options;
    }

    method GetJavascriptWScope() returns (ok: bool, js: bytes, scope: Bson?)
      requires Valid()
      ensures ok <==> On(TYPE_JS_CODE_W_SCOPE)
      ensures ok ==> js == UpToNul(elems[index].value.text)
      ensures ok ==> scope != null && fresh(scope) && scope.Holds(elems[index].value.doc)
    {
      hide EncValue, EncDoc, EncElems, EncElem, CStringAt, StrLen, WellFormed;
      TypeOfElement();
      if Type() != TYPE_JS_CODE_W_SCOPE { return false, [], null; }
      ghost var v := CurrentValue();
      ScopeValueStored(obj.data, valuePos, v);
      var docpos := Int32At(obj.data, valuePos + 4) + 4 * 2;
      scope := CopyDocument(obj.data, valuePos + docpos, v.doc);
      return true, CStringAt(obj.data, valuePos + 4 * 2), scope;
    }
  }

  // Copies a document that stands inside another one into a new finished object.
  method CopyDocument(d: bytes, at: nat, ghost es: seq<Element>) returns (b: Bson)
    requires IsInt32(|EncDoc(es)|)
    requires at + |EncDoc(es)| <= |d| && d[at..at + |EncDoc(es)|] == EncDoc(es)
    ensures fresh(b) && b.Holds(es)
  {
    hide EncDoc, EncElems, FinishedData;
    CopiedDocument(d, at, es);
    var size := Int32At(d, at) - 4 - 1;
    b := new Bson.Copy(Le32(0));
    b.data := b.data + d[at + 4..at + 4 + size];
    b.Finish();
  }

  lemma {:induction false} CopiedDocument(d: bytes, at: nat, es: seq<Element>)
    requires IsInt32(|EncDoc(es)|)
    requires at + |EncDoc(es)| <= |d| && d[at..at + |EncDoc(es)|] == EncDoc(es)
    ensures 5 <= Int32At(d, at) == |EncDoc(es)|
    ensures FinishedData(Le32(0) + d[at + 4..at + 4 + (Int32At(d, at) - 5)]) == EncDoc(es)
  {
    DocumentStored(d, at, es);
    FinishedPieces(Le32(0), EncElems(es));
  }

  lemma {:induction false} DocumentStored(d: bytes, at: nat, es: seq<Element>)
    requires IsInt32(|EncDoc(es)|)
    requires at + |EncDoc(es)| <= |d| && d[at..at + |EncDoc(es)|] == EncDoc(es)
    ensures Int32At(d, at) == |EncDoc(es)| == |EncElems(es)| + 5
    ensures d[at + 4..at + 4 + |EncElems(es)|] == EncElems(es)
  {
    var enc, n := EncDoc(es), |EncElems(es)|;
    PrefixRead(d, at, enc, n + 5);
    SubSlice(d, at, at + |enc|, 4, 4 + n);
    assert enc[4..4 + n] == EncElems(es);
  }

  lemma {:induction false} TextStored(d: bytes, at: nat, s: bytes, rest: bytes)
    requires IsInt32(|s| + 1)
    requires at + |EncText(s)| + |rest| <= |d|
    requires d[at..at + |EncText(s)| + |rest|] == EncText(s) + rest
    ensures Int32At(d, at) == |s| + 1
    ensures CStringAt(d, at + 4) == UpToNul(s)
  {
    var enc := EncText(s) + rest;
    assert enc[..4] == Le32(|s| + 1);
    PrefixRead(d, at, enc, |s| + 1);
    SubSlice(d, at, at + |enc|, 4, 4 + |s| + 1);
    assert enc[4..4 + |s| + 1] == s + [0];
    CStringStored(d, at + 4, s);
  }

  lemma {:induction false} BinaryStored(d: bytes, at: nat, subtype: byte, data: bytes)
    requires IsInt32(|data| + 5)
    requires at + |data| + 5 <= |d|
    requires d[at..at + |data| + 5] == Le32(|data|) + [subtype] + data
    ensures Int32At(d, at) == |data|
    ensures d[at + 4] == subtype && d[at + 5..at + 5 + |data|] == data
  {
  }

  lemma {:induction false} ScopeStored(d: bytes, at: nat, s: bytes, es: seq<Element>)
    requires IsInt32(|s| + 9 + |EncDoc(es)|)
    requires at + |s| + 9 + |EncDoc(es)| <= |d|
    requires d[at..at + |s| + 9 + |EncDoc(es)|] == Le32(|s| + 1 + 8 + |EncDoc(es)|) + EncText(s) + EncDoc(es)
    ensures Int32At(d, at + 4) == |s| + 1
    ensures CStringAt(d, at + 8) == UpToNul(s)
    ensures d[at + |s| + 9..at + |s| + 9 + |EncDoc(es)|] == EncDoc(es)
  {
    hide EncDoc, CStringAt;
    var doc := EncDoc(es);
    var enc := Le32(|s| + 1 + 8 + |doc|) + EncText(s) + doc;
    SubSlice(d, at, at + |enc|, 4, |enc|);
    assert enc[4..|enc|] == EncText(s) + doc;
    TextStored(d, at + 4, s, doc);
    SubSlice(d, at, at + |enc|, |s| + 9, |enc|);
    assert enc[|s| + 9..|enc|] == doc;
  }

  lemma {:induction false} ScopeValueStored(d: bytes, at: nat, v: Value)
    requires v.JsCodeWScope? && IsInt32(|EncValue(v)|)
    requires at + |EncValue(v)| <= |d| && d[at..at + |EncValue(v)|] == EncValue(v)
    ensures |EncValue(v)| == |v.text| + 9 + |EncDoc(v.doc)|
    ensures Int32At(d, at + 4) == |v.text| + 1
    ensures CStringAt(d, at + 8) == UpToNul(v.text)
    ensures d[at + |v.text| + 9..at + |v.text| + 9 + |EncDoc(v.doc)|] == EncDoc(v.doc)
  {
    ScopeStored(d, at, v.text, v.doc);
  }

  lemma {:induction false} OffsetAtLeast4(es: seq<Element>, i: nat)
    requires i <= |es|
    ensures Offset(es, i) >= 4
  {
  }

  lemma {:induction false} OffsetBounds(es: seq<Element>, i: nat)
    requires i <= |es|
    ensures Offset(es, 0) == 4 && Offset(es, |es|) == |EncDoc(es)| - 1
    ensures i < |es| <==> Offset(es, i) < |EncDoc(es)| - 1
  {
    assert es[..|es|] == es;
    assert es[..0] == [];
    OffsetMonotone(es, i, |es|);
  }
}
