/** Printing and parsing of "host:port" addresses. */
module Addresses {
  import opened BsonFormat

  datatype Address = Address(host: string, port: int)

  const INT_MAX := 0x7fff_ffff
  const LONG_MAX := 0x7fff_ffff_ffff_ffff
  const LOCAL_PORT := -1  // MONGO_CONN_LOCAL

  /** The C library calls. */

  // strchr from index i on.
  function IndexOf(s: string, c: char, i: nat): (r: Option<nat>)
    requires i <= |s|
    ensures r.Some? ==> i <= r.value < |s| && s[r.value] == c
    decreases |s| - i
  {
    if i == |s| then None
    else if s[i] == c then Some(i)
    else IndexOf(s, c, i + 1)
  }

  // g_strrstr for a single character, looking at s[..n].
  function LastIndexOf(s: string, c: char, n: nat): (r: Option<nat>)
    requires n <= |s|
    ensures r.Some? ==> r.value < n && s[r.value] == c
  {
    if n == 0 then None
    else if s[n - 1] == c then Some(n - 1)
    else LastIndexOf(s, c, n - 1)
  }

  lemma {:induction false} IndexOfFirst(s: string, c: char, i: nat, k: nat)
    requires i <= k < |s| && s[k] == c
    requires forall j | i <= j < k :: s[j] != c
    ensures IndexOf(s, c, i) == Some(k)
    decreases k - i
  {
    if i < k { IndexOfFirst(s, c, i + 1, k); }
  }

  lemma {:induction false} LastIndexOfLast(s: string, c: char, n: nat, k: nat)
    requires k < n <= |s| && s[k] == c
    requires forall j | k < j < n :: s[j] != c
    ensures LastIndexOf(s, c, n) == Some(k)
  {
    if k < n - 1 { LastIndexOfLast(s, c, n - 1, k); }
  }

  predicate IsDigit(c: char) { '0' <= c <= '9' }

  predicate IsSpace(c: char) { c == ' ' || '\t' <= c <= '\r' }

  function DigitRun(s: string): (n: nat)
    ensures n <= |s| && (forall c | c in s[..n] :: IsDigit(c)) && (n < |s| ==> !IsDigit(s[n]))
  {
    if s == "" || !IsDigit(s[0]) then 0
    else
      var n := 1 + DigitRun(s[1..]);
      assert s[..n] == [s[0]] + s[1..][..n - 1];
      n
  }

  function DecimalValue(s: string): (n: nat)
    requires forall c | c in s :: IsDigit(c)
  {
    if s == "" then 0
    else
      var last := s[|s| - 1];
      assert last in s && IsDigit(last);
      var digit: int := last as int - '0' as int;
      var front: int := DecimalValue(s[..|s| - 1]);
      front * 10 + digit
  }

  function Clamp(n: int): int {
    if n > LONG_MAX then LONG_MAX else if n < -LONG_MAX - 1 then -LONG_MAX - 1 else n
  }

  // strtol in base 10: the value and what follows the number; without digits, 0 and all of s.
  function Strtol(s: string): (int, string) {
    var t := SkipSpace(s);
    var negative := t != "" && t[0] == '-';
    var u := if t != "" && (t[0] == '-' || t[0] == '+') then t[1..] else t;
    var n := DigitRun(u);
    if n == 0 then (0, s)
    else
      var v: int := DecimalValue(u[..n]);
      (Clamp(if negative then -v else v), u[n..])
  }

  function SkipSpace(s: string): string {
    if s != "" && IsSpace(s[0]) then SkipSpace(s[1..]) else s
  }

  // printf of "%d" and "%s:%d".
  function Natural(n: nat): (s: string)
    ensures s != "" && forall c | c in s :: IsDigit(c)
    ensures DecimalValue(s) == n
  {
    var last := '0' + (n % 10) as char;
    if n < 10 then [last]
    else
      var front := Natural(n / 10);
      assert (front + [last])[..|front|] == front;
      front + [last]
  }

  function Decimal(n: int): string {
    if n < 0 then "-" + Natural(-n) else Natural(n)
  }

  function Print(host: string, port: int): string { host + ":" + Decimal(port) }

  lemma {:induction false} NaturalDigits(n: nat, d: nat)
    requires d < 10
    ensures Natural(d) == ["0123456789"[d]]
    ensures n > 0 ==> Natural(10 * n + d) == Natural(n) + ["0123456789"[d]]
  {
    assert '0' + d as char == "0123456789"[d];
    assert (10 * n + d) % 10 == d && (10 * n + d) / 10 == n;
  }

  // Digit by digit, and the sign.
  lemma PrintDigits(host: string, n: nat, d: nat)
    requires d < 10
    ensures Print(host, d) == host + ":" + ["0123456789"[d]]
    ensures n > 0 ==> Print(host, 10 * n + d) == Print(host, n) + ["0123456789"[d]]
    ensures n > 0 ==> Print(host, 0 - n) == host + ":-" + Print(host, n)[|host| + 1..]
  {
    hide Natural;
    NaturalDigits(n, d);
  }

  /** mongo_util_parse_addr. */

  function ParsePort(host: string, text: string): Option<Address> {
    var (p, rest) := Strtol(text);
    if p == -LONG_MAX - 1 || p == LONG_MAX then None
    else if p != LOCAL_PORT && (p < 0 || p > INT_MAX) then None
    else if rest != "" then None
    else Some(Address(host, p))
  }

  function Parse(addr: string): Option<Address> {
    if addr != "" && addr[0] == '[' then
      var close := IndexOf(addr, ']', 1);
      if close.None? || close.value == 1 then None
      else
        var host := addr[1..close.value];
        if close.value + 2 >= |addr| then Some(Address(host, -1))
        else ParsePort(host, addr[close.value + 2..])
    else
      var colon := LastIndexOf(addr, ':', |addr|);
      if colon.None? then Some(Address(addr, -1))
      else if colon.value == 0 then None
      else ParsePort(addr[..colon.value], addr[colon.value + 1..])
  }

  // The parser with its out-parameters: a failure clears the host and sets the port to -1.
  method ParseAddr(addr: string) returns (ok: bool, host: Option<string>, port: int)
    ensures ok == Parse(addr).Some?
    ensures ok ==> host == Some(Parse(addr).value.host) && port == Parse(addr).value.port
    ensures !ok ==> host == None && port == -1
  {
    hide IndexOf, LastIndexOf, Strtol;
    var at: nat;
    if addr != "" && addr[0] == '[' {
      var close := IndexOf(addr, ']', 1);
      if close.None? || close.value == 1 { return false, None, -1; }
      host := Some(addr[1..close.value]);
      at := close.value + 2;
      if at >= |addr| { return true, host, -1; }
    } else {
      var colon := LastIndexOf(addr, ':', |addr|);
      if colon.None? { return true, Some(addr), -1; }
      if colon.value == 0 { return false, None, -1; }
      host := Some(addr[..colon.value]);
      at := colon.value + 1;
    }
    var (p, rest) := Strtol(addr[at..]);
    if p == -LONG_MAX - 1 || p == LONG_MAX { return false, None, -1; }
    if p != LOCAL_PORT && (p < 0 || p > INT_MAX) { return false, None, -1; }
    port := p;
    if rest != "" { return false, None, -1; }
    return true, host, port;
  }

  lemma DigitRunAll(s: string)
    requires forall c | c in s :: IsDigit(c)
    ensures DigitRun(s) == |s|
  {
  }

  lemma StrtolOfDecimal(n: int)
    requires -LONG_MAX <= n <= LONG_MAX
    ensures Strtol(Decimal(n)) == (n, "")
  {
    hide DigitRun, DecimalValue, Natural;
    var digits := Natural(if n < 0 then -n else n);
    assert digits[0] in digits;
    DigitRunAll(digits);
    assert digits[..|digits|] == digits && digits[|digits|..] == "";
    if n < 0 { assert Decimal(n)[1..] == digits; }
  }

  lemma DecimalChars(n: int)
    ensures ':' !in Decimal(n) && ']' !in Decimal(n) && Decimal(n) != ""
  {
  }

  lemma ParsePortOfDecimal(host: string, port: int)
    requires -1 <= port <= INT_MAX
    ensures ParsePort(host, Decimal(port)) == Some(Address(host, port))
  {
    StrtolOfDecimal(port);
  }

  lemma LastColon(host: string, text: string)
    requires ':' !in text
    ensures var s := host + ":" + text; LastIndexOf(s, ':', |s|) == Some(|host|)
  {
    var s := host + ":" + text;
    assert forall j | |host| < j < |s| :: s[j] == text[j - |host| - 1];
    LastIndexOfLast(s, ':', |s|, |host|);
  }

  lemma NoBracketHost(host: string, port: int)
    requires host != "" && host[0] == '['
    ensures Parse(Print(host, port)) != Some(Address(host, port))
  {
    var s, text := Print(host, port), Decimal(port);
    DecimalChars(port);
    var close := IndexOf(s, ']', 1);
    assert forall j | |host| < j < |s| :: s[j] == text[j - |host| - 1];
    assert close.Some? ==> close.value <= |host|;
    assert close.Some? ==> |s[1..close.value]| < |host|;
  }

  // Parsing undoes printing exactly for the non-empty hosts that do not start with a bracket,
  // colons in the host included.
  lemma ParsePrinted(host: string, port: int)
    requires -1 <= port <= INT_MAX
    ensures Parse(Print(host, port)) == Some(Address(host, port)) <==> host != "" && host[0] != '['
  {
    var s, text := Print(host, port), Decimal(port);
    DecimalChars(port);
    LastColon(host, text);
    if host != "" && host[0] == '[' {
      NoBracketHost(host, port);
    } else {
      assert s[..|host|] == host && s[|host| + 1..] == text;
      ParsePortOfDecimal(host, port);
    }
  }

  // The bracket form is for the other hosts.  The character behind the bracket is not looked at.
  lemma ParseBracketed(host: string, c: char, port: int)
    requires -1 <= port <= INT_MAX && host != "" && ']' !in host
    ensures Parse("[" + host + "]" + [c] + Decimal(port)) == Some(Address(host, port))
    ensures Parse("[" + host + "]" + [c]) == Parse("[" + host + "]") == Some(Address(host, -1))
  {
    hide IndexOf, LastIndexOf, ParsePort, Decimal;
    DecimalChars(port);
    CloseBracket(host, [c] + Decimal(port));
    CloseBracket(host, [c]);
    CloseBracket(host, "");
    var s := "[" + host + "]" + [c] + Decimal(port);
    assert s == "[" + host + "]" + ([c] + Decimal(port));
    assert "[" + host + "]" + "" == "[" + host + "]";
    assert s[|host| + 3..] == Decimal(port) && s[1..|host| + 1] == host;
    assert ("[" + host + "]")[1..|host| + 1] == host && ("[" + host + "]" + [c])[1..|host| + 1] == host;
    ParsePortOfDecimal(host, port);
  }

  lemma CloseBracket(host: string, rest: string)
    requires ']' !in host
    ensures IndexOf("[" + host + "]" + rest, ']', 1) == Some(|host| + 1)
  {
    var s := "[" + host + "]" + rest;
    assert forall j | 1 <= j < |host| + 1 :: s[j] == host[j - 1];
    IndexOfFirst(s, ']', 1, |host| + 1);
  }

  lemma {:induction false} NotIn(s: string, c: char, i: nat)
    requires i <= |s| && c !in s[i..]
    ensures IndexOf(s, c, i).None?
    decreases |s| - i
  {
    if i < |s| {
      assert s[i] == s[i..][0] && s[i..] == [s[i]] + s[i + 1..];
      NotIn(s, c, i + 1);
    }
  }

  // An opening bracket needs something and a closing one.
  lemma ParseBadBracket(rest: string)
    ensures Parse("[]" + rest) == None
    ensures ']' !in rest ==> Parse("[" + rest) == None
  {
    IndexOfFirst("[]" + rest, ']', 1, 1);
    if ']' !in rest {
      assert ("[" + rest)[1..] == rest;
      NotIn("[" + rest, ']', 1);
    }
  }

  /** What else is taken for an address */

  // Everything in front of the last colon is the host, everything behind it the port.
  lemma ParseSplits(host: string, text: string)
    requires ':' !in text && (host == "" || host[0] != '[')
    ensures Parse(host + ":" + text) == if host == "" then None else ParsePort(host, text)
  {
    var s := host + ":" + text;
    LastColon(host, text);
    assert s[..|host|] == host && s[|host| + 1..] == text;
  }

  // Without a colon it is all host, even if it is empty.
  lemma ParseNoColon(host: string)
    requires ':' !in host && (host == "" || host[0] != '[')
    ensures Parse(host) == Some(Address(host, -1))
  {
    NotLastIn(host, ':', |host|);
  }

  lemma {:induction false} NotLastIn(s: string, c: char, n: nat)
    requires n <= |s| && c !in s
    ensures LastIndexOf(s, c, n).None?
  {
    if n > 0 {
      assert s[n - 1] in s;
      NotLastIn(s, c, n - 1);
    }
  }

  // An empty port is port 0.
  lemma ParseEmptyPort(host: string)
    requires host != "" && host[0] != '['
    ensures Parse(host + ":") == Some(Address(host, 0))
  {
    ParseSplits(host, "");
    assert host + ":" + "" == host + ":";
  }

  // No other number is a port.
  lemma ParseOutOfRange(host: string, port: int)
    requires host != "" && host[0] != '[' && !(-1 <= port <= INT_MAX)
    ensures Parse(Print(host, port)) == None
  {
    hide Parse, Strtol, Decimal;
    DecimalChars(port);
    ParseSplits(host, Decimal(port));
    StrtolReads("", port, "");
    assert "" + Decimal(port) + "" == Decimal(port);
  }

  // The number may have white space in front, and a plus sign if it is not negative, but nothing
  // behind it.
  lemma ParseLenient(host: string, space: string, port: int, junk: string)
    requires host != "" && host[0] != '[' && -1 <= port <= INT_MAX
    requires forall c | c in space :: c in {' ', '\t', '\n', 11 as char, 12 as char, '\r'}
    requires ':' !in junk && (junk != "" ==> !('0' <= junk[0] <= '9'))
    ensures Parse(host + ":" + (space + Decimal(port) + junk)) == if junk == "" then Some(Address(host, port)) else None
    ensures port >= 0 ==>
              Parse(host + ":" + (space + ("+" + Decimal(port)) + junk))
              == if junk == "" then Some(Address(host, port)) else None
  {
    hide Parse, Strtol, Decimal;
    DecimalChars(port);
    ParseSplits(host, space + Decimal(port) + junk);
    StrtolReads(space, port, junk);
    if port >= 0 {
      ParseSplits(host, space + ("+" + Decimal(port)) + junk);
      StrtolReadsPlus(space, port, junk);
    }
  }

  lemma {:induction false} SkipsSpace(space: string, t: string)
    requires (forall c | c in space :: IsSpace(c)) && (t != "" ==> !IsSpace(t[0]))
    ensures SkipSpace(space + t) == t
  {
    if space == "" {
      assert space + t == t;
    } else {
      assert (space + t)[1..] == space[1..] + t;
      SkipsSpace(space[1..], t);
    }
  }

  lemma {:induction false} DigitsThen(digits: string, junk: string)
    requires (forall c | c in digits :: IsDigit(c)) && (junk != "" ==> !IsDigit(junk[0]))
    ensures DigitRun(digits + junk) == |digits|
  {
    if digits == "" {
      assert digits + junk == junk;
    } else {
      assert (digits + junk)[1..] == digits[1..] + junk;
      DigitsThen(digits[1..], junk);
    }
  }

  // Behind the white space, a sign and digits are a number.
  lemma StrtolOf(s: string, sign: string, digits: string, junk: string)
    requires sign in {"", "-", "+"} && SkipSpace(s) == sign + (digits + junk)
    requires digits != "" && (forall c | c in digits :: IsDigit(c)) && (junk != "" ==> !IsDigit(junk[0]))
    ensures var v: int := DecimalValue(digits);
            Strtol(s) == (Clamp(if sign == "-" then -v else v), junk)
  {
    hide DigitRun, DecimalValue, SkipSpace, Clamp, IsSpace;
    assert IsDigit(digits[0]) by { assert digits[0] in digits; }
    DigitsThen(digits, junk);
    var u := digits + junk;
    assert u[..|digits|] == digits && u[|digits|..] == junk && u[0] == digits[0];
    if sign == "" {
      assert sign + u == u;
    } else {
      assert (sign + u)[0] == sign[0] && (sign + u)[1..] == u;
    }
  }

  lemma StrtolReads(space: string, n: int, junk: string)
    requires (forall c | c in space :: IsSpace(c)) && (junk != "" ==> !IsDigit(junk[0]))
    ensures Strtol(space + Decimal(n) + junk) == (Clamp(n), junk)
  {
    hide DigitRun, DecimalValue, Natural, SkipSpace, Strtol, Clamp;
    var sign, digits := if n < 0 then "-" else "", Natural(if n < 0 then -n else n);
    assert digits[0] in digits;
    SkipsSpace(space, sign + (digits + junk));
    assert space + Decimal(n) + junk == space + (sign + (digits + junk));
    StrtolOf(space + Decimal(n) + junk, sign, digits, junk);
  }

  lemma StrtolReadsPlus(space: string, n: nat, junk: string)
    requires (forall c | c in space :: IsSpace(c)) && (junk != "" ==> !IsDigit(junk[0]))
    ensures Strtol(space + ("+" + Decimal(n)) + junk) == (Clamp(n), junk)
  {
    hide DigitRun, DecimalValue, Natural, SkipSpace, Strtol, Clamp;
    var digits := Natural(n);
    SkipsSpace(space, "+" + (digits + junk));
    assert space + ("+" + Decimal(n)) + junk == space + ("+" + (digits + junk));
    StrtolOf(space + ("+" + Decimal(n)) + junk, "+", digits, junk);
  }
}
