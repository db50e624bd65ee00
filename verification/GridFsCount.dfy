/** The number of chunks of a GridFS file in double arithmetic. */
module GridFsCount {
  import opened Bytes
  import opened GridFs

  const TWO_TO_53: real := 9007199254740992.0

  // What is used of rounding to the nearest double: the relative error is at most 2^-53, and
  // integers below 2^53 are exact.
  predicate RoundsTo(x: real, r: real) {
    && -x <= TWO_TO_53 * (r - x) <= x
    && (x < TWO_TO_53 && x == x.Floor as real ==> r == x)
  }

  // A double next to x, where the doubles lie ulp apart, is off by no more than that.
  lemma NearestRoundsTo(x: real, r: real, ulp: real)
    requires ulp > 0.0 && 4503599627370496.0 * ulp <= x && -ulp <= 2.0 * (r - x) <= ulp
    requires x < 9007199254740992.0 && x == x.Floor as real ==> r == x
    ensures RoundsTo(x, r)
  {
  }

  // mongo_sync_gridfs_file_get_chunks with the rounded quotient, and with the rounded quotient + 1.
  function RoundedChunks(quotient: real, next: real): int {
    if quotient - quotient.Floor as real > 0.0 then next.Floor else quotient.Floor
  }

  function Times(x: real, c: real): real { x * c }

  lemma Unscale(u: real, v: real, c: real)
    requires c > 0.0
    ensures Times(u, c) < Times(v, c) ==> u < v
    ensures Times(u, c) <= Times(v, c) ==> u <= v
  {
    if u > v { assert v * c == u * c - (u - v) * c; }
  }

  lemma ScaleError(x: real, r: real, c: real)
    requires c > 0.0 && -x <= TWO_TO_53 * (r - x) <= x
    ensures -Times(x, c) <= TWO_TO_53 * (Times(r, c) - Times(x, c)) <= Times(x, c)
  {
    var below, above := TWO_TO_53 * (r - x) + x, x - TWO_TO_53 * (r - x);
    assert below * c == TWO_TO_53 * (r * c - x * c) + x * c;
    assert above * c == x * c - TWO_TO_53 * (r * c - x * c);
  }

  lemma OneMore(x: real, c: real)
    ensures Times(x + 1.0, c) == Times(x, c) + c
  {
  }

  lemma TimesBack(l: real, c: real)
    requires c > 0.0
    ensures Times(l / c, c) == l
  {
  }

  lemma TimesCast(n: nat, cs: nat)
    ensures Times(n as real, cs as real) == (n * cs) as real
  {
    CastProduct(n, cs);
  }

  // The same bounds multiplied by the chunk size: m, a and b stand for n, q and s below.
  lemma ScaledBetween(l: real, c: real, m: real, a: real, b: real)
    requires l >= 1.0 && m + 1.0 <= l <= m + c - 1.0 && 2.0 * l + c + 1.0 < TWO_TO_53
    requires -l <= TWO_TO_53 * (a - l) <= l
    requires -(a + c) <= TWO_TO_53 * (b - (a + c)) <= a + c
    ensures m < a < m + c && m + c <= b < m + c + c
  {
  }

  // A quotient that is no integer stays between its neighbours when it is rounded, and so does
  // the one after it.
  lemma RoundedBetween(l: real, c: real, n: real, x: real, q: real, s: real)
    requires c > 0.0 && Times(x, c) == l && l >= 1.0
    requires Times(n, c) + 1.0 <= l <= Times(n, c) + c - 1.0 && 2.0 * l + c + 1.0 < TWO_TO_53
    requires -x <= TWO_TO_53 * (q - x) <= x
    requires -(q + 1.0) <= TWO_TO_53 * (s - (q + 1.0)) <= q + 1.0
    ensures n < q < n + 1.0 && n + 1.0 <= s < n + 2.0
  {
    hide Times;
    ScaleError(x, q, c);
    OneMore(q, c);
    ScaleError(q + 1.0, s, c);
    ScaledBetween(l, c, Times(n, c), Times(q, c), Times(s, c));
    OneMore(n, c);
    OneMore(n + 1.0, c);
    Unscale(n, q, c);
    Unscale(q, n + 1.0, c);
    Unscale(n + 1.0, s, c);
    Unscale(s, n + 2.0, c);
  }

  lemma FloorBetween(x: real, n: int)
    requires n as real <= x < n as real + 1.0
    ensures x.Floor == n
  {
  }

  lemma {:induction false} RoundedFraction(length: nat, cs: nat, n: nat, quotient: real, next: real)
    requires cs > 0 && n * cs < length < n * cs + cs && 2 * length + cs + 1 < 0x20_0000_0000_0000
    requires RoundsTo(length as real / cs as real, quotient) && RoundsTo(quotient + 1.0, next)
    ensures RoundedChunks(quotient, next) == n + 1
  {
    hide Times, RoundsTo;
    var l, c := length as real, cs as real;
    TimesCast(n, cs);
    TimesBack(l, c);
    FractionBetween(l, c, n, l / c, n * cs, quotient, next);
    FloorBetween(quotient, n);
    FloorBetween(next, n + 1);
  }

  lemma FractionBetween(l: real, c: real, n: nat, x: real, m: nat, quotient: real, next: real)
    requires c > 0.0 && Times(x, c) == l && l >= 1.0 && Times(n as real, c) == m as real
    requires m as real + 1.0 <= l <= m as real + c - 1.0 && 2.0 * l + c + 1.0 < TWO_TO_53
    requires RoundsTo(x, quotient) && RoundsTo(quotient + 1.0, next)
    ensures n as real < quotient < n as real + 1.0 && n as real + 1.0 <= next < n as real + 2.0
  {
    hide Times;
    RoundedBetween(l, c, n as real, x, quotient, next);
  }

  lemma {:induction false} RoundedInteger(length: nat, cs: nat, n: nat, quotient: real, next: real)
    requires cs > 0 && length == n * cs && n < 0x20_0000_0000_0000
    requires RoundsTo(length as real / cs as real, quotient)
    ensures RoundedChunks(quotient, next) == n
  {
    FloorOfQuotient(length, cs, n);
    FloorBetween(quotient, n);
  }

  // With rounding the count is still right for all files for which twice the length, the chunk
  // size and one together are less than 2^53.
  lemma {:induction false} ChunkCountRounded(data: bytes, cs: nat, quotient: real, next: real)
    requires cs > 0 && 2 * |data| + cs + 1 < 0x20_0000_0000_0000
    requires RoundsTo(|data| as real / cs as real, quotient) && RoundsTo(quotient + 1.0, next)
    ensures RoundedChunks(quotient, next) == |Chunks(data, cs)|
  {
    hide Chunks, RoundsTo, RoundedChunks;
    var k := |Chunks(data, cs)|;
    ChunkCount(data, cs);
    if data == [] { NoChunks(cs); }
    assert k * cs == (k - 1) * cs + cs;
    if |data| == k * cs {
      AtMost(k, cs);
      RoundedInteger(|data|, cs, k, quotient, next);
    } else {
      RoundedFraction(|data|, cs, k - 1, quotient, next);
    }
  }

  lemma AtMost(k: nat, cs: nat)
    requires cs > 0
    ensures k <= k * cs
  {
    assert k * cs == k + k * (cs - 1);
  }
}
