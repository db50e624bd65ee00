/** Runs of sequences put one behind the other. */
module Sequences {

  function Concat<T>(ss: seq<seq<T>>): seq<T> {
    if |ss| == 0 then [] else ss[0] + Concat(ss[1..])
  }

  lemma {:induction false} ConcatCons<T>(first: seq<T>, rest: seq<seq<T>>)
    ensures Concat([first] + rest) == first + Concat(rest)
  {
    assert ([first] + rest)[1..] == rest;
  }

  lemma {:induction false} ConcatAppend<T>(a: seq<seq<T>>, b: seq<seq<T>>)
    ensures Concat(a + b) == Concat(a) + Concat(b)
  {
    if |a| == 0 {
      assert a + b == b;
    } else {
      assert (a + b)[1..] == a[1..] + b;
      ConcatAppend(a[1..], b);
    }
  }

  lemma {:induction false} ConcatSnoc<T>(ss: seq<seq<T>>, s: seq<T>)
    ensures Concat(ss + [s]) == Concat(ss) + s
  {
    ConcatAppend(ss, [s]);
    assert Concat([s]) == s + Concat([s][1..]);
  }

  lemma {:induction false} EmptyPrefix<T>(ss: seq<seq<T>>)
    ensures Concat(ss[..0]) == []
  {
  }

  // One more piece, and what is left.
  lemma {:induction false} PrefixSnoc<T>(ss: seq<seq<T>>, i: nat)
    requires i < |ss|
    ensures Concat(ss[..i + 1]) == Concat(ss[..i]) + ss[i]
    ensures |Concat(ss[..i + 1])| <= |Concat(ss)|
  {
    ConcatSnoc(ss[..i], ss[i]);
    assert ss[..i] + [ss[i]] == ss[..i + 1] && ss[..i + 1] + ss[i + 1..] == ss;
    ConcatAppend(ss[..i + 1], ss[i + 1..]);
  }

  // The first k pieces are a prefix of the whole.
  lemma {:induction false} ConcatPrefix<T>(ss: seq<seq<T>>, k: nat)
    requires k <= |ss|
    ensures Concat(ss[..k]) <= Concat(ss)
  {
    ConcatAppend(ss[..k], ss[k..]);
    assert ss[..k] + ss[k..] == ss;
  }
}
