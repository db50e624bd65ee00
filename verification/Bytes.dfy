/** Byte strings, little-endian integers and NUL-terminated C strings. */
module Bytes {

  type byte = x: int | 0 <= x < 256
  type bytes = seq<byte>

  const INT32_LIMIT := 0x8000_0000
  const INT64_LIMIT := 0x8000_0000_0000_0000

  predicate IsInt32(n: int) { -INT32_LIMIT <= n < INT32_LIMIT }
  predicate IsInt64(n: int) { -INT64_LIMIT <= n < INT64_LIMIT }

  // Conversion to gint32: the value modulo 2^32, in two's complement.
  function ToInt32(n: int): (r: int)
    ensures IsInt32(r)
    ensures IsInt32(n) ==> r == n
    ensures (n - r) % 0x1_0000_0000 == 0
  {
    var u := n % 0x1_0000_0000;
    if u < INT32_LIMIT then u else u - 0x1_0000_0000
  }

  function Le32(n: int): (b: bytes)
    ensures |b| == 4
  {
    [n % 256, n / 256 % 256, n / 256 / 256 % 256, n / 256 / 256 / 256 % 256]
  }

  function Le64(n: int): (b: bytes)
    ensures |b| == 8
  {
    Le32(n) + Le32(n / 0x1_0000_0000)
  }

  function UInt32At(d: bytes, at: nat): (r: int)
    requires at + 4 <= |d|
    ensures 0 <= r < 0x1_0000_0000
  {
    (d[at] as int) + 256 * (d[at + 1] as int) + 65536 * (d[at + 2] as int) + 16777216 * (d[at + 3] as int)
  }

  function Int32At(d: bytes, at: nat): int
    requires at + 4 <= |d|
  {
    ToInt32(UInt32At(d, at))
  }

  function Int64At(d: bytes, at: nat): int
    requires at + 8 <= |d|
  {
    UInt32At(d, at) + 0x1_0000_0000 * Int32At(d, at + 4)
  }

  // Least significant byte first, and negative numbers in two's complement.
  lemma LittleEndian32(n: int)
    ensures var b := Le32(n);
            (b[0] as int) + 0x100 * (b[1] as int) + 0x1_0000 * (b[2] as int) + 0x100_0000 * (b[3] as int)
            == n % 0x1_0000_0000
  {
    var b := Le32(n);
    assert b[0..4] == b;
    Le32Unsigned(n, b, 0);
  }

  // The low half comes first, the high half carries the sign.
  lemma LittleEndian64(n: int)
    ensures Le64(n) == Le32(n % 0x1_0000_0000) + Le32(n / 0x1_0000_0000)
    ensures IsInt64(n) ==>
              var high := n / 0x1_0000_0000;
              IsInt32(high) && n == high * 0x1_0000_0000 + n % 0x1_0000_0000
  {
    Le32Modulo(n);
  }

  lemma Le32Modulo(n: int)
    ensures Le32(n) == Le32(n % 0x1_0000_0000)
  {
    var q, r := n / 0x1_0000_0000, n % 0x1_0000_0000;
    assert n == 256 * (0x100_0000 * q) + r;
    ShiftedDigit(n, r, 0x100_0000 * q);
    ShiftedDigit(n / 256, r / 256, 0x1_0000 * q);
    ShiftedDigit(n / 256 / 256, r / 256 / 256, 0x100 * q);
    ShiftedDigit(n / 256 / 256 / 256, r / 256 / 256 / 256, q);
  }

  lemma ShiftedDigit(a: int, b: int, k: int)
    requires a == 256 * k + b
    ensures a % 256 == b % 256 && a / 256 == k + b / 256
  {
  }

  // Reading is the same sum, signed.
  lemma SignedReading(d: bytes, at: nat)
    requires at + 4 <= |d|
    ensures var u := (d[at] as int) + 0x100 * (d[at + 1] as int)
                     + 0x1_0000 * (d[at + 2] as int) + 0x100_0000 * (d[at + 3] as int);
            Int32At(d, at) == if u < 0x8000_0000 then u else u - 0x1_0000_0000
    ensures at + 8 <= |d| ==>
              var low := (d[at] as int) + 0x100 * (d[at + 1] as int)
                         + 0x1_0000 * (d[at + 2] as int) + 0x100_0000 * (d[at + 3] as int);
              Int64At(d, at) == low + 0x1_0000_0000 * Int32At(d, at + 4)
  {
  }

  lemma Le32Unsigned(n: int, d: bytes, at: nat)
    requires at + 4 <= |d| && d[at..at + 4] == Le32(n)
    ensures UInt32At(d, at) == n % 0x1_0000_0000
  {
    var a, b, c := n / 256, n / 256 / 256, n / 256 / 256 / 256;
    var s := d[at..at + 4];
    assert s[0] == d[at] && s[1] == d[at + 1] && s[2] == d[at + 2] && s[3] == d[at + 3];
    assert n == 256 * a + n % 256 && a == 256 * b + a % 256 && b == 256 * c + b % 256 && c == 256 * (c / 256) + c % 256;
    Remainder(n, c / 256, UInt32At(d, at));
  }

  lemma Remainder(n: int, q: int, r: int)
    requires n == 0x1_0000_0000 * q + r && 0 <= r < 0x1_0000_0000
    ensures n % 0x1_0000_0000 == r
  {
  }

  // Reading a stored 32-bit integer gives the value back, modulo 2^32.
  lemma Le32Read(n: int, d: bytes, at: nat)
    requires at + 4 <= |d| && d[at..at + 4] == Le32(n)
    ensures Int32At(d, at) == ToInt32(n)
    ensures IsInt32(n) ==> Int32At(d, at) == n
  {
    Le32Unsigned(n, d, at);
  }

  lemma Le64Read(n: int, d: bytes, at: nat)
    requires IsInt64(n)
    requires at + 8 <= |d| && d[at..at + 8] == Le64(n)
    ensures Int64At(d, at) == n
  {
    var s := d[at..at + 8];
    assert d[at..at + 4] == s[..4] == Le32(n);
    assert d[at + 4..at + 8] == s[4..] == Le32(n / 0x1_0000_0000);
    Le32Unsigned(n, d, at);
    Le32Read(n / 0x1_0000_0000, d, at + 4);
  }

  predicate NulFree(s: bytes) { 0 !in s }

  // strlen of the C string at d[at..]; a string that runs off the buffer ends there.
  function StrLen(d: bytes, at: nat): (n: nat)
    requires at <= |d|
    ensures at + n <= |d|
    ensures NulFree(d[at..at + n])
    ensures at + n < |d| ==> d[at + n] == 0
    decreases |d| - at
  {
    if at == |d| || d[at] == 0 then 0
    else
      var n := 1 + StrLen(d, at + 1);
      assert d[at..at + n] == [d[at]] + d[at + 1..at + n];
      n
  }

  function CStringAt(d: bytes, at: nat): (s: bytes)
    requires at <= |d|
    ensures NulFree(s)
  {
    d[at..at + StrLen(d, at)]
  }

  // What a reader of the C string that starts with the bytes s sees of s: its longest prefix
  // without a NUL.
  function UpToNul(s: bytes): (r: bytes)
    ensures r <= s && 0 !in r && (|r| < |s| ==> s[|r|] == 0)
  {
    CStringAt(s, 0)
  }

  lemma {:induction false} StrLenUnique(d: bytes, at: nat, n: nat)
    requires at + n <= |d| && NulFree(d[at..at + n])
    requires at + n < |d| ==> d[at + n] == 0
    ensures StrLen(d, at) == n
    decreases n
  {
  }

  // The C string found where s and a NUL are stored is s up to its first NUL.
  lemma CStringStored(d: bytes, at: nat, s: bytes)
    requires at + |s| < |d| && d[at..at + |s| + 1] == s + [0]
    ensures CStringAt(d, at) == UpToNul(s)
    ensures NulFree(s) ==> CStringAt(d, at) == s
    ensures NulFree(s) ==> StrLen(d, at) == |s|
  {
    var n := StrLen(s, 0);
    var t := d[at..at + |s| + 1];
    assert d[at..at + n] == t[..n] == s[..n];
    assert d[at + n] == t[n];
    assert s[0..n] == s[..n];
    StrLenUnique(d, at, n);
    if NulFree(s) { StrLenUnique(s, 0, |s|); }
  }

  // Exactly the NUL-free strings survive being read as a C string.
  lemma UpToNulIdentity(s: bytes)
    ensures UpToNul(s) == s <==> NulFree(s)
  {
  }

  // Two C strings stored one after the other.
  lemma Halves(x: bytes, y: bytes)
    ensures (x + y)[..|x|] == x && (x + y)[|x|..] == y
  {
  }

  lemma CStringPair(d: bytes, at: nat, s: bytes, t: bytes)
    requires NulFree(s) && NulFree(t)
    requires at + |s| + |t| + 2 <= |d| && d[at..at + |s| + |t| + 2] == s + [0] + t + [0]
    ensures CStringAt(d, at) == s && StrLen(d, at) == |s|
    ensures CStringAt(d, at + |s| + 1) == t && StrLen(d, at + |s| + 1) == |t|
  {
    hide StrLen, CStringAt, NulFree;
    var x, y := s + [0], t + [0];
    var end := at + |x| + |y|;
    assert d[at..end] == x + y;
    Halves(x, y);
    SubSlice(d, at, end, 0, |x|);
    CStringStored(d, at, s);
    SubSlice(d, at, end, |x|, |x + y|);
    CStringStored(d, at + |x|, t);
  }

  // A piece of the body of a framed byte string.
  lemma Middle(whole: bytes, front: bytes, body: bytes, back: bytes, x: bytes, y: bytes, z: bytes)
    requires whole == front + body + back && body == x + y + z
    ensures |front| + |x| + |y| <= |whole|
    ensures whole[|front| + |x|..|front| + |x| + |y|] == y
  {
  }

  lemma SubSlice(d: bytes, from: nat, to: nat, i: nat, j: nat)
    requires from <= to <= |d| && i <= j <= to - from
    ensures d[from..to][i..j] == d[from + i..from + j]
  {
    var x, y := d[from..to][i..j], d[from + i..from + j];
    assert |x| == |y|;
    assert forall k | 0 <= k < |x| :: x[k] == d[from..to][i + k] == d[from + (i + k)];
    assert forall k | 0 <= k < |y| :: y[k] == d[from + i + k];
  }

  // A tag byte, a C string and a rest stored at d[pos..end].
  lemma TaggedFields(d: bytes, pos: nat, end: nat, tag: byte, key: bytes, rest: bytes)
    requires NulFree(key)
    requires pos <= end <= |d| && d[pos..end] == [tag] + key + [0] + rest
    ensures end == pos + |key| + 2 + |rest|
    ensures d[pos] == tag
    ensures CStringAt(d, pos + 1) == key && StrLen(d, pos + 1) == |key|
    ensures d[pos + |key| + 2..end] == rest
  {
    var t := [tag] + key + [0] + rest;
    assert |d[pos..end]| == end - pos == |t|;
    assert d[pos] == d[pos..end][0] == t[0];
    SubSlice(d, pos, end, 1, |key| + 2);
    assert t[1..|key| + 2] == key + [0];
    CStringStored(d, pos + 1, key);
    SubSlice(d, pos, end, |key| + 2, |t|);
    assert t[|key| + 2..|t|] == rest;
  }
}
