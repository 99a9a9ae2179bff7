/**
 * Python string primitives the pipeline relies on: the `\s` and `\d`
 * character classes, `str.strip()`, `str.split(c)[-1]`, `str(int)`,
 * `int(str)` and `str.join`.
 *
 * Whitespace here is ASCII space, '\t', '\n', '\r', '\v' and '\f' only;
 * Python's `\s` and `str.strip()` also match '\x1c' to '\x1f' and the
 * Unicode whitespace characters. Digits are '0' to '9' only; Python's `\d`
 * also matches the other Unicode decimal digits.
 */
module Text {
  import opened Results

  predicate IsSpace(c: char) {
    c == ' ' || c == '\t' || c == '\n' || c == '\r' || c == '\U{000B}' || c == '\U{000C}'
  }

  predicate IsDigit(c: char) {
    '0' <= c <= '9'
  }

  predicate AllSpace(s: string) {
    forall i :: 0 <= i < |s| ==> IsSpace(s[i])
  }

  predicate AllDigits(s: string) {
    forall i :: 0 <= i < |s| ==> IsDigit(s[i])
  }

  /** Concatenation regroups freely. */
  lemma AppendAssoc<T>(x: seq<T>, y: seq<T>, z: seq<T>)
    ensures x + y + z == x + (y + z)
  {
  }

  predicate StartsWith(s: string, prefix: string) {
    |prefix| <= |s| && s[..|prefix|] == prefix
  }

  /** True when `s` neither starts nor ends with whitespace. */
  predicate NoEdgeSpace(s: string) {
    s == [] || (!IsSpace(s[0]) && !IsSpace(s[|s| - 1]))
  }

  /** Length of the longest all-whitespace prefix of `s`. */
  function LeadingSpaces(s: string): (n: nat)
    ensures n <= |s| && AllSpace(s[..n])
    ensures n < |s| ==> !IsSpace(s[n])
  {
    if s == [] || !IsSpace(s[0]) then 0
    else
      var n := 1 + LeadingSpaces(s[1..]);
      assert forall i :: 1 <= i < n ==> s[..n][i] == s[1..][..n - 1][i - 1];
      n
  }

  /** Length of the longest all-whitespace suffix of `s`. */
  function TrailingSpaces(s: string): (n: nat)
    ensures n <= |s| && AllSpace(s[|s| - n..])
    ensures n < |s| ==> !IsSpace(s[|s| - 1 - n])
  {
    if s == [] || !IsSpace(s[|s| - 1]) then 0
    else
      var t := s[..|s| - 1];
      var n := 1 + TrailingSpaces(t);
      assert s[|s| - n..] == t[|t| - (n - 1)..] + [s[|s| - 1]];
      n
  }

  /**
   * `str.strip()`: `s` is whitespace, then the result, then whitespace, and
   * the result neither starts nor ends with whitespace.
   */
  function Strip(s: string): (r: string)
    ensures NoEdgeSpace(r)
    ensures LeadingSpaces(s) + |r| <= |s|
    ensures r == s[LeadingSpaces(s)..LeadingSpaces(s) + |r|]
    ensures AllSpace(s[LeadingSpaces(s) + |r|..])
    ensures r == [] <==> AllSpace(s)
  {
    var lead := LeadingSpaces(s);
    var rest := s[lead..];
    var trail := TrailingSpaces(rest);
    var r := rest[..|rest| - trail];
    assert s[lead + |r|..] == rest[|rest| - trail..];
    assert r != [] ==> r[0] == s[lead] && r[|r| - 1] == rest[|rest| - 1 - trail];
    assert AllSpace(s) ==> lead == |s|;
    assert lead < |s| ==> r != [] by {
      if lead < |s| {
        assert rest[0] == s[lead];
        assert rest[|rest| - |rest|..] == rest;
      }
    }
    assert lead == |s| ==> s[..lead] == s;
    r
  }

  lemma {:induction false} StripOfStripped(s: string)
    requires NoEdgeSpace(s)
    ensures Strip(s) == s
  {
    var r := Strip(s);
    if s != [] {
      assert LeadingSpaces(s) == 0;
      assert r != [];
      assert s[|s| - 1] == s[|s| - 1..][0];
    }
  }

  /** Every character of `Strip(s)` is a character of `s`. */
  lemma StripChars(s: string)
    ensures forall c :: c in Strip(s) ==> c in s
  {
    var lead := LeadingSpaces(s);
    var r := Strip(s);
    forall c | c in r ensures c in s {
      var i :| 0 <= i < |r| && r[i] == c;
      assert s[lead + i] == c;
    }
  }

  /**
   * `s.split(c)[-1]`: the part of `s` after its last `c`, or all of `s` when
   * it holds no `c`.
   */
  function AfterLast(s: string, c: char): (r: string)
    ensures |r| <= |s| && r == s[|s| - |r|..]
    ensures c !in r
    ensures |r| < |s| ==> s[|s| - |r| - 1] == c
    ensures c !in s ==> r == s
  {
    if s == [] then []
    else if s[|s| - 1] == c then []
    else
      var t := s[..|s| - 1];
      var r := AfterLast(t, c) + [s[|s| - 1]];
      assert c !in s ==> c !in t by {
        if c in t { var i :| 0 <= i < |t| && t[i] == c; assert s[i] == c; }
      }
      r
  }

  /** The part after a `c` with no `c` behind it is what `AfterLast` gives. */
  lemma AfterLastAt(s: string, c: char, k: nat)
    requires k < |s| && s[k] == c && c !in s[k + 1..]
    ensures |AfterLast(s, c)| == |s| - k - 1 && AfterLast(s, c) == s[k + 1..]
  {
  }

  lemma {:induction false} AfterLastOfJoin(prefix: string, c: char, last: string)
    requires c !in last
    ensures AfterLast(prefix + [c] + last, c) == last
  {
    var s := prefix + [c] + last;
    assert s[|s| - |last| - 1] == c;
    assert s[|s| - |last|..] == last;
  }

  function DigitChar(d: nat): (c: char)
    requires d < 10
    ensures IsDigit(c)
  {
    ('0' as int + d) as char
  }

  function DigitValue(c: char): (d: nat)
    requires IsDigit(c)
    ensures d < 10 && DigitChar(d) == c
  {
    c as int - '0' as int
  }

  /** Decimal digits of `n`, most significant first, without leading zeros. */
  function NatToString(n: nat): (s: string)
    ensures |s| >= 1 && AllDigits(s)
    ensures |s| > 1 ==> s[0] != '0'
  {
    if n < 10 then [DigitChar(n)] else NatToString(n / 10) + [DigitChar(n % 10)]
  }

  /** `str(n)` for a Python int. */
  function IntToString(n: int): (s: string)
    ensures |s| >= 1
    ensures s[0] == '-' <==> n < 0
    ensures n >= 0 ==> AllDigits(s)
    ensures n < 0 ==> AllDigits(s[1..])
  {
    if n < 0 then "-" + NatToString(-n) else NatToString(n)
  }

  /** The value of a string of decimal digits. */
  function DigitsValue(s: string): nat
    requires AllDigits(s)
  {
    if s == [] then 0 else DigitsValue(s[..|s| - 1]) * 10 + DigitValue(s[|s| - 1])
  }

  /** `int(s)` restricted to an optional '-' followed by decimal digits. */
  function ParseInt(s: string): Option<int> {
    if |s| > 1 && s[0] == '-' && AllDigits(s[1..]) then Some(0 - DigitsValue(s[1..]) as int)
    else if |s| > 0 && AllDigits(s) then Some(DigitsValue(s))
    else None
  }

  lemma {:induction false} DigitsValueOfNatToString(n: nat)
    ensures DigitsValue(NatToString(n)) == n
  {
    if n >= 10 {
      DigitsValueOfNatToString(n / 10);
      var s := NatToString(n);
      assert s[..|s| - 1] == NatToString(n / 10);
    }
  }

  /** `int(str(n)) == n`. */
  lemma ParseIntToString(n: int)
    ensures ParseInt(IntToString(n)) == Some(n)
  {
    if n < 0 {
      var t := NatToString(-n);
      assert ("-" + t)[1..] == t;
      DigitsValueOfNatToString(-n);
      assert ParseInt("-" + t) == Some(0 - DigitsValue(t));
    } else {
      var t := NatToString(n);
      assert t[0] != '-';
      DigitsValueOfNatToString(n);
    }
  }

  /** `s.find(c)`: the index of the first `c` in `s`, or None when there is none. */
  function IndexOf(s: string, c: char): (r: Option<nat>)
    ensures r.None? <==> c !in s
    ensures r.Some? ==> r.value < |s| && s[r.value] == c && c !in s[..r.value]
  {
    if s == [] then None
    else if s[0] == c then Some(0)
    else
      match IndexOf(s[1..], c)
      case None => None
      case Some(k) =>
        assert s[..k + 1] == [s[0]] + s[1..][..k];
        Some(k + 1)
  }

  /** The first `c` of `a + b` is the first character of `b`, when `a` holds none. */
  lemma IndexOfAt(a: string, c: char, b: string)
    requires c !in a && b != [] && b[0] == c
    ensures IndexOf(a + b, c) == Some(|a|) && (a + b)[..|a|] == a && (a + b)[|a|..] == b
  {
    var s := a + b;
    assert s[|a|] == c;
    assert s[..|a|] == a;
  }

  /** `sep.join(parts)`. */
  function Join(sep: string, parts: seq<string>): (r: string)
    ensures parts != [] ==> StartsWith(r, parts[0])
  {
    if parts == [] then ""
    else if |parts| == 1 then parts[0]
    else parts[0] + sep + Join(sep, parts[1..])
  }

  /** Joining one more part appends the separator and that part, as `str.join` does. */
  lemma {:induction false} JoinAppend(sep: string, parts: seq<string>, x: string)
    requires parts != []
    ensures Join(sep, parts + [x]) == Join(sep, parts) + sep + x
    decreases |parts|
  {
    var ps := parts + [x];
    assert ps[0] == parts[0] && ps[1..] == parts[1..] + [x];
    if |parts| > 1 {
      JoinAppend(sep, parts[1..], x);
      AppendAssoc(parts[0] + sep, Join(sep, parts[1..]), sep + x);
      AppendAssoc(parts[0] + sep + Join(sep, parts[1..]), sep, x);
    } else {
      assert ps[1..] == [x];
    }
  }

  /**
   * The universal-newlines translation text-mode reading applies: each
   * "\r\n" and each lone '\r' reads as '\n'.
   */
  function UniversalNewlines(s: string): (r: string)
    ensures '\r' !in r
    ensures |r| <= |s|
    ensures '\r' !in s ==> r == s
  {
    if s == [] then []
    else if s[0] == '\r' then
      "\n" + UniversalNewlines(if |s| > 1 && s[1] == '\n' then s[2..] else s[1..])
    else
      assert s == [s[0]] + s[1..];
      [s[0]] + UniversalNewlines(s[1..])
  }

  /** The translation works piece by piece around a point that does not follow a '\r'. */
  lemma {:induction false} UniversalNewlinesAppend(x: string, y: string)
    requires x == [] || x[|x| - 1] != '\r'
    ensures UniversalNewlines(x + y) == UniversalNewlines(x) + UniversalNewlines(y)
    decreases |x|
  {
    if x == [] {
      assert x + y == y;
    } else {
      var s := x + y;
      assert s[0] == x[0];
      if x[0] == '\r' {
        assert |x| > 1;
        assert s[1] == x[1];
        var n := if x[1] == '\n' then 2 else 1;
        assert s[n..] == x[n..] + y;
        UniversalNewlinesAppend(x[n..], y);
        AppendAssoc("\n", UniversalNewlines(x[n..]), UniversalNewlines(y));
      } else {
        assert s[1..] == x[1..] + y;
        UniversalNewlinesAppend(x[1..], y);
        AppendAssoc([x[0]], UniversalNewlines(x[1..]), UniversalNewlines(y));
      }
    }
  }

  /** A leading "\r\n" reads as one '\n'. */
  lemma CrLfHead(y: string)
    ensures UniversalNewlines("\r\n" + y) == "\n" + UniversalNewlines(y)
  {
    var t := "\r\n" + y;
    assert t[0] == '\r' && t[1] == '\n' && t[2..] == y;
  }

  /** A leading '\r' not followed by '\n' reads as one '\n'. */
  lemma LoneCrHead(y: string)
    requires y == [] || y[0] != '\n'
    ensures UniversalNewlines("\r" + y) == "\n" + UniversalNewlines(y)
  {
    var t := "\r" + y;
    assert t[0] == '\r' && t[1..] == y;
    assert |t| > 1 ==> t[1] == y[0];
  }

  /** Each "\r\n" reads as one '\n', wherever it stands. */
  lemma CrLfReadsAsNewline(x: string, y: string)
    requires x == [] || x[|x| - 1] != '\r'
    ensures UniversalNewlines(x + "\r\n" + y) == UniversalNewlines(x) + "\n" + UniversalNewlines(y)
  {
    var t := "\r\n" + y;
    assert x + "\r\n" + y == x + t;
    UniversalNewlinesAppend(x, t);
    CrLfHead(y);
    AppendAssoc(UniversalNewlines(x), "\n", UniversalNewlines(y));
  }

  /** Each '\r' not followed by '\n' reads as one '\n', wherever it stands. */
  lemma LoneCrReadsAsNewline(x: string, y: string)
    requires x == [] || x[|x| - 1] != '\r'
    requires y == [] || y[0] != '\n'
    ensures UniversalNewlines(x + "\r" + y) == UniversalNewlines(x) + "\n" + UniversalNewlines(y)
  {
    var t := "\r" + y;
    assert x + "\r" + y == x + t;
    UniversalNewlinesAppend(x, t);
    LoneCrHead(y);
    AppendAssoc(UniversalNewlines(x), "\n", UniversalNewlines(y));
  }

  /** Both carriage-return forms read as one newline. */
  lemma CarriageReturnsReadAsNewline()
    ensures UniversalNewlines("a\r\nb") == "a\nb"
    ensures UniversalNewlines("a\rb") == "a\nb"
  {
  }
}
