/**
 * `clean_text` of pdf_loader.py: six rewrites applied one after the other,
 * each a `str.replace` or an `re.sub` over the whole text.
 *
 *   1. typographic quotes and dashes become ASCII            (six replaces)
 *   2. every run of newlines becomes one newline             re.sub(r'\n+', '\n')
 *   3. every run of spaces and tabs becomes one space        re.sub(r'[ \t]+', ' ')
 *   4. a newline not after '.', '?' or '!' becomes a space   re.sub(r'(?<![\.\?!])\n', ' ')
 *   5. reference matches are deleted                         re.sub(r'\n?\s*\[?\d+\]?\s?.*$', '', flags=re.MULTILINE)
 *   6. surrounding whitespace is stripped                    str.strip()
 *
 * Each `re.sub` is modelled with Python's semantics: the leftmost match is
 * replaced, and the scan resumes after it (matches never overlap).
 */
module TextCleaning {
  import opened Results
  import opened Text

  const LeftDoubleQuote: char := '\U{201C}'
  const RightDoubleQuote: char := '\U{201D}'
  const LeftSingleQuote: char := '\U{2018}'
  const RightSingleQuote: char := '\U{2019}'
  const EnDash: char := '\U{2013}'
  const EmDash: char := '\U{2014}'

  predicate IsTypographic(c: char) {
    c == LeftDoubleQuote || c == RightDoubleQuote || c == LeftSingleQuote
    || c == RightSingleQuote || c == EnDash || c == EmDash
  }

  /** True when no two neighbouring characters of `s` are both in `run`. */
  predicate NoAdjacentIn(s: string, run: set<char>) {
    forall i :: 0 <= i < |s| - 1 ==> !(s[i] in run && s[i + 1] in run)
  }

  // ---------------------------------------------------------------------
  // Step 1: typographic quotes and dashes
  // ---------------------------------------------------------------------

  /** `s.replace(c, repl)` for a one-character pattern. */
  function Replace(s: string, c: char, repl: string): (r: string)
    ensures forall d :: d in r ==> d in repl || (d in s && d != c)
  {
    if s == [] then []
    else (if s[0] == c then repl else [s[0]]) + Replace(s[1..], c, repl)
  }

  lemma {:induction false} ReplaceAppend(a: string, b: string, c: char, repl: string)
    ensures Replace(a + b, c, repl) == Replace(a, c, repl) + Replace(b, c, repl)
  {
    if a == [] {
      assert a + b == b;
    } else {
      var head := if a[0] == c then repl else [a[0]];
      assert (a + b)[0] == a[0];
      assert (a + b)[1..] == a[1..] + b;
      ReplaceAppend(a[1..], b, c, repl);
      calc {
        Replace(a + b, c, repl);
        head + Replace(a[1..] + b, c, repl);
        head + (Replace(a[1..], c, repl) + Replace(b, c, repl));
        (head + Replace(a[1..], c, repl)) + Replace(b, c, repl);
      }
    }
  }

  lemma ReplaceSingle(x: char, c: char, repl: string)
    ensures Replace([x], c, repl) == if x == c then repl else [x]
  {
    assert [x][1..] == [];
  }

  /** Lines 20-22: the six replaces, in the order the source applies them. */
  function NormalizeTypography(s: string): (r: string)
    ensures forall d :: d in r ==> !IsTypographic(d) && (d in s || d == '"' || d == '\'' || d == '-')
  {
    var s1 := Replace(s, LeftDoubleQuote, "\"");
    var s2 := Replace(s1, RightDoubleQuote, "\"");
    var s3 := Replace(s2, LeftSingleQuote, "'");
    var s4 := Replace(s3, RightSingleQuote, "'");
    var s5 := Replace(s4, EnDash, "-");
    Replace(s5, EmDash, "--")
  }

  /** The ASCII text that replaces one character. */
  function Plain(c: char): string {
    if c == LeftDoubleQuote || c == RightDoubleQuote then "\""
    else if c == LeftSingleQuote || c == RightSingleQuote then "'"
    else if c == EnDash then "-"
    else if c == EmDash then "--"
    else [c]
  }

  /** Reference definition: every character replaced by its `Plain` text. */
  function PlainText(s: string): string {
    if s == [] then [] else Plain(s[0]) + PlainText(s[1..])
  }

  lemma NormalizeTypographyAppend(a: string, b: string)
    ensures NormalizeTypography(a + b) == NormalizeTypography(a) + NormalizeTypography(b)
  {
    var s := a + b;
    ReplaceAppend(a, b, LeftDoubleQuote, "\"");
    var a1, b1 := Replace(a, LeftDoubleQuote, "\""), Replace(b, LeftDoubleQuote, "\"");
    ReplaceAppend(a1, b1, RightDoubleQuote, "\"");
    var a2, b2 := Replace(a1, RightDoubleQuote, "\""), Replace(b1, RightDoubleQuote, "\"");
    ReplaceAppend(a2, b2, LeftSingleQuote, "'");
    var a3, b3 := Replace(a2, LeftSingleQuote, "'"), Replace(b2, LeftSingleQuote, "'");
    ReplaceAppend(a3, b3, RightSingleQuote, "'");
    var a4, b4 := Replace(a3, RightSingleQuote, "'"), Replace(b3, RightSingleQuote, "'");
    ReplaceAppend(a4, b4, EnDash, "-");
    var a5, b5 := Replace(a4, EnDash, "-"), Replace(b4, EnDash, "-");
    ReplaceAppend(a5, b5, EmDash, "--");
  }

  lemma NormalizeTypographySingle(x: char)
    ensures NormalizeTypography([x]) == Plain(x)
  {
    ReplaceSingle(x, LeftDoubleQuote, "\"");
    var s1 := Replace([x], LeftDoubleQuote, "\"");
    if x == LeftDoubleQuote || x == RightDoubleQuote {
      ReplaceSingle('"', RightDoubleQuote, "\"");
      ReplaceSingle(x, RightDoubleQuote, "\"");
      ReplaceSingle('"', LeftSingleQuote, "'");
      ReplaceSingle('"', RightSingleQuote, "'");
      ReplaceSingle('"', EnDash, "-");
      ReplaceSingle('"', EmDash, "--");
    } else if x == LeftSingleQuote || x == RightSingleQuote {
      ReplaceSingle(x, RightDoubleQuote, "\"");
      ReplaceSingle(x, LeftSingleQuote, "'");
      ReplaceSingle('\'', RightSingleQuote, "'");
      ReplaceSingle(x, RightSingleQuote, "'");
      ReplaceSingle('\'', EnDash, "-");
      ReplaceSingle('\'', EmDash, "--");
    } else if x == EnDash {
      ReplaceSingle(x, RightDoubleQuote, "\"");
      ReplaceSingle(x, LeftSingleQuote, "'");
      ReplaceSingle(x, RightSingleQuote, "'");
      ReplaceSingle(x, EnDash, "-");
      ReplaceSingle('-', EmDash, "--");
    } else {
      ReplaceSingle(x, RightDoubleQuote, "\"");
      ReplaceSingle(x, LeftSingleQuote, "'");
      ReplaceSingle(x, RightSingleQuote, "'");
      ReplaceSingle(x, EnDash, "-");
      ReplaceSingle(x, EmDash, "--");
    }
  }

  /** The chain of six replaces maps each character to its ASCII text independently. */
  lemma {:induction false} NormalizeTypographyIsPlainText(s: string)
    ensures NormalizeTypography(s) == PlainText(s)
  {
    if s == [] {
      assert NormalizeTypography(s) == [];
    } else {
      assert s == [s[0]] + s[1..];
      NormalizeTypographyAppend([s[0]], s[1..]);
      NormalizeTypographySingle(s[0]);
      NormalizeTypographyIsPlainText(s[1..]);
    }
  }

  lemma {:induction false} ReplaceAbsent(s: string, c: char, repl: string)
    requires c !in s
    ensures Replace(s, c, repl) == s
  {
    if s != [] {
      assert c !in s[1..];
      ReplaceAbsent(s[1..], c, repl);
    }
  }

  lemma NormalizeTypographyIdentity(s: string)
    requires forall i :: 0 <= i < |s| ==> !IsTypographic(s[i])
    ensures NormalizeTypography(s) == s
  {
    ReplaceAbsent(s, LeftDoubleQuote, "\"");
    ReplaceAbsent(s, RightDoubleQuote, "\"");
    ReplaceAbsent(s, LeftSingleQuote, "'");
    ReplaceAbsent(s, RightSingleQuote, "'");
    ReplaceAbsent(s, EnDash, "-");
    ReplaceAbsent(s, EmDash, "--");
  }

  // ---------------------------------------------------------------------
  // Steps 2 and 3: collapse runs
  // ---------------------------------------------------------------------

  /** Length of the longest prefix of `s` made of characters in `run`. */
  function RunLength(s: string, run: set<char>): (n: nat)
    ensures n <= |s|
    ensures forall i :: 0 <= i < n ==> s[i] in run
    ensures n < |s| ==> s[n] !in run
  {
    if s == [] || s[0] !in run then 0 else 1 + RunLength(s[1..], run)
  }

  /**
   * `re.sub('[run]+', repl, s)`: the leftmost run of characters from `run`
   * is replaced by one `repl`, and the scan resumes after the run.
   */
  function CollapseRuns(s: string, run: set<char>, repl: char): (r: string)
    ensures |r| <= |s|
    ensures |r| == 0 <==> |s| == 0
    ensures s != [] ==> r[0] == if s[0] in run then repl else s[0]
    ensures forall d :: d in r ==> d == repl || (d in s && d !in run)
    ensures repl in r ==> repl in s || exists i :: 0 <= i < |s| && s[i] in run
    decreases |s|
  {
    if s == [] then []
    else if s[0] in run then [repl] + CollapseRuns(s[RunLength(s, run)..], run, repl)
    else [s[0]] + CollapseRuns(s[1..], run, repl)
  }

  /** `s` with every character from `run` removed. */
  function Without(s: string, run: set<char>): string {
    if s == [] then [] else (if s[0] in run then [] else [s[0]]) + Without(s[1..], run)
  }

  lemma {:induction false} WithoutRunPrefix(s: string, n: nat, run: set<char>)
    requires n <= |s|
    requires forall i :: 0 <= i < n ==> s[i] in run
    ensures Without(s, run) == Without(s[n..], run)
  {
    if n > 0 {
      WithoutRunPrefix(s[1..], n - 1, run);
      assert s[1..][n - 1..] == s[n..];
    }
  }

  /** Collapsing runs keeps every character outside `run`, in order. */
  lemma {:induction false} CollapseRunsKeepsText(s: string, run: set<char>, repl: char)
    requires repl in run
    ensures Without(CollapseRuns(s, run, repl), run) == Without(s, run)
    decreases |s|
  {
    if s != [] {
      var r := CollapseRuns(s, run, repl);
      if s[0] in run {
        var n := RunLength(s, run);
        CollapseRunsKeepsText(s[n..], run, repl);
        assert r[1..] == CollapseRuns(s[n..], run, repl);
        WithoutRunPrefix(s, n, run);
      } else {
        CollapseRunsKeepsText(s[1..], run, repl);
        assert r[1..] == CollapseRuns(s[1..], run, repl);
      }
    }
  }

  /** After collapsing, no two neighbouring characters are both from `run`. */
  lemma {:induction false} CollapseRunsNoAdjacent(s: string, run: set<char>, repl: char)
    requires repl in run
    ensures NoAdjacentIn(CollapseRuns(s, run, repl), run)
    decreases |s|
  {
    if s != [] {
      var r := CollapseRuns(s, run, repl);
      if s[0] in run {
        var n := RunLength(s, run);
        CollapseRunsNoAdjacent(s[n..], run, repl);
        var t := CollapseRuns(s[n..], run, repl);
        assert r == [repl] + t;
        assert t != [] ==> t[0] !in run;
        forall i | 0 <= i < |r| - 1 ensures !(r[i] in run && r[i + 1] in run) {
          if i > 0 { assert r[i] == t[i - 1] && r[i + 1] == t[i]; }
        }
      } else {
        CollapseRunsNoAdjacent(s[1..], run, repl);
        var t := CollapseRuns(s[1..], run, repl);
        assert r == [s[0]] + t;
        forall i | 0 <= i < |r| - 1 ensures !(r[i] in run && r[i + 1] in run) {
          if i > 0 { assert r[i] == t[i - 1] && r[i + 1] == t[i]; }
        }
      }
    }
  }

  /** Text that is already collapsed is left unchanged. */
  lemma {:induction false} CollapseRunsIdentity(s: string, run: set<char>, repl: char)
    requires NoAdjacentIn(s, run)
    requires forall i :: 0 <= i < |s| ==> s[i] in run ==> s[i] == repl
    ensures CollapseRuns(s, run, repl) == s
    decreases |s|
  {
    if s != [] {
      assert NoAdjacentIn(s[1..], run) by {
        forall i | 0 <= i < |s[1..]| - 1 ensures !(s[1..][i] in run && s[1..][i + 1] in run) {
          assert s[1..][i] == s[i + 1] && s[1..][i + 1] == s[i + 2];
        }
      }
      CollapseRunsIdentity(s[1..], run, repl);
      if s[0] in run {
        assert |s| > 1 ==> s[1] !in run;
        assert RunLength(s, run) == 1;
      }
      assert s == [s[0]] + s[1..];
    }
  }

  /** Line 25: no two newlines stay neighbours, and every other character is kept in order. */
  function CollapseNewlines(s: string): (r: string)
    ensures NoAdjacentIn(r, {'\n'})
    ensures Without(r, {'\n'}) == Without(s, {'\n'})
  {
    CollapseRunsNoAdjacent(s, {'\n'}, '\n');
    CollapseRunsKeepsText(s, {'\n'}, '\n');
    CollapseRuns(s, {'\n'}, '\n')
  }

  /** Line 26: no two blanks stay neighbours, and every other character is kept in order. */
  function CollapseBlanks(s: string): (r: string)
    ensures NoAdjacentIn(r, {' ', '\t'})
    ensures Without(r, {' ', '\t'}) == Without(s, {' ', '\t'})
  {
    CollapseRunsNoAdjacent(s, {' ', '\t'}, ' ');
    CollapseRunsKeepsText(s, {' ', '\t'}, ' ');
    CollapseRuns(s, {' ', '\t'}, ' ')
  }

  // ---------------------------------------------------------------------
  // Step 4: join soft line breaks
  // ---------------------------------------------------------------------

  predicate EndsSentence(c: char) {
    c == '.' || c == '?' || c == '!'
  }

  /**
   * Line 29: a newline whose previous character (in the text before this
   * step) is not '.', '?' or '!' becomes a space; so does a newline at
   * position 0.
   */
  function JoinSoftBreaks(s: string): (r: string)
    ensures |r| == |s|
    ensures forall i :: 0 <= i < |r| ==> r[i] == s[i] || (s[i] == '\n' && r[i] == ' ')
    ensures forall i :: 0 <= i < |r| && r[i] == '\n' ==> i > 0 && EndsSentence(r[i - 1])
    ensures |s| > 0 && s[0] == '\n' ==> r[0] == ' '
    ensures NoAdjacentIn(r, {'\n'})
  {
    var r := seq(|s|, i requires 0 <= i < |s| =>
      if s[i] == '\n' && (i == 0 || !EndsSentence(s[i - 1])) then ' ' else s[i]);
    assert forall i :: 0 <= i < |r| && r[i] == '\n' ==> i > 0 && EndsSentence(s[i - 1]) && s[i - 1] != '\n';
    assert forall i :: 0 < i < |r| && r[i] == '\n' ==> r[i - 1] == s[i - 1];
    r
  }

  /** Text whose every newline already follows '.', '?' or '!' is left unchanged. */
  lemma JoinSoftBreaksIdentity(s: string)
    requires forall i :: 0 <= i < |s| && s[i] == '\n' ==> i > 0 && EndsSentence(s[i - 1])
    ensures JoinSoftBreaks(s) == s
  {
    var r := JoinSoftBreaks(s);
    assert forall i :: 0 <= i < |s| ==> r[i] == s[i];
  }

  // ---------------------------------------------------------------------
  // Step 5: delete reference matches
  // ---------------------------------------------------------------------

  /** First index at or after `i` that does not hold a digit. */
  function DigitsEnd(t: string, i: nat): (j: nat)
    requires i <= |t|
    ensures i <= j <= |t|
    ensures forall k :: i <= k < j ==> IsDigit(t[k])
    ensures j < |t| ==> !IsDigit(t[j])
    decreases |t| - i
  {
    if i == |t| || !IsDigit(t[i]) then i else DigitsEnd(t, i + 1)
  }

  /** First index at or after `i` that holds a newline, or `|t|`: where `.*$` stops. */
  function LineEnd(t: string, i: nat): (j: nat)
    requires i <= |t|
    ensures i <= j <= |t|
    ensures forall k :: i <= k < j ==> t[k] != '\n'
    ensures j < |t| ==> t[j] == '\n'
    decreases |t| - i
  {
    if i == |t| || t[i] == '\n' then i else LineEnd(t, i + 1)
  }

  predicate HasDigit(s: string) {
    exists i :: 0 <= i < |s| && IsDigit(s[i])
  }

  /**
   * `t[..k]` holds only what `\[?\d+\]?` can take: an optional '[' first,
   * digits, and an optional ']' last.
   */
  predicate ReferenceHead(t: string, k: nat)
    requires k <= |t|
  {
    forall j :: 0 <= j < k ==> IsDigit(t[j]) || (j == 0 && t[j] == '[') || (j == k - 1 && t[j] == ']')
  }

  /**
   * The match of `\[?\d+\]?\s?.*$` at position 0 of `t`, whose first
   * character is not whitespace: its end, or None. It exists exactly when
   * `t` starts with a digit or with '[' and a digit; `ReferenceTailStopsAtLine`
   * shows where it ends.
   */
  function ReferenceTail(t: string): (m: Option<nat>)
    ensures m.Some? <==> (t != [] && IsDigit(t[0])) || (|t| > 1 && t[0] == '[' && IsDigit(t[1]))
    ensures m.Some? ==> 0 < m.value <= |t| && (m.value == |t| || t[m.value] == '\n')
    ensures m.Some? ==> HasDigit(t[..m.value])
    ensures m.Some? ==> forall k :: 0 <= k < m.value && t[k] == '\n' ==> k > 0
    ensures m.Some? && (forall k :: 0 < k < |t| ==> t[k] != '\n') ==> m.value == |t|
  {
    var b := if |t| > 1 && t[0] == '[' && IsDigit(t[1]) then 1 else 0;
    if b < |t| && IsDigit(t[b]) then
      var d := DigitsEnd(t, b);
      var c := if d < |t| && t[d] == ']' then d + 1 else d;
      var w := if c < |t| && IsSpace(t[c]) then c + 1 else c;
      var e := LineEnd(t, w);
      assert t[..e][b] == t[b];
      Some(e)
    else
      None
  }

  /**
   * The only newline a tail match may hold is the one `\s?` takes right
   * after the reference head, and the match ends at the first line end
   * after that: a newline, or the end of `t`, that does not directly follow
   * the head. So the text after that line end is never part of the match.
   */
  lemma ReferenceTailStopsAtLine(t: string)
    ensures ReferenceTail(t).Some? ==>
      forall k :: 0 <= k < ReferenceTail(t).value && t[k] == '\n' ==> ReferenceHead(t, k)
    ensures ReferenceTail(t).Some? && ReferenceTail(t).value < |t| ==> !ReferenceHead(t, ReferenceTail(t).value)
  {
    var b := if |t| > 1 && t[0] == '[' && IsDigit(t[1]) then 1 else 0;
    if b < |t| && IsDigit(t[b]) {
      var d := DigitsEnd(t, b);
      var c := if d < |t| && t[d] == ']' then d + 1 else d;
      var w := if c < |t| && IsSpace(t[c]) then c + 1 else c;
      var e := LineEnd(t, w);
      TailHead(t, b, d, c, w, e);
      assert ReferenceTail(t).value == e;
    }
  }

  /** The newlines of the tail match, and why it cannot stop right after the head. */
  lemma TailHead(t: string, b: nat, d: nat, c: nat, w: nat, e: nat)
    requires b <= 1 && b < |t| && (b == 1 ==> t[0] == '[') && IsDigit(t[b])
    requires b < d <= |t| && (forall k :: b <= k < d ==> IsDigit(t[k])) && (d < |t| ==> !IsDigit(t[d]))
    requires c == if d < |t| && t[d] == ']' then d + 1 else d
    requires w == if c < |t| && IsSpace(t[c]) then c + 1 else c
    requires w <= e <= |t| && (forall k :: w <= k < e ==> t[k] != '\n') && (e < |t| ==> t[e] == '\n')
    ensures forall k :: 0 <= k < e && t[k] == '\n' ==> k > 0 && ReferenceHead(t, k)
    ensures e < |t| ==> !ReferenceHead(t, e)
  {
    forall k | 0 <= k < e && t[k] == '\n' ensures k > 0 && ReferenceHead(t, k) {
      assert k == c;
    }
    if e < |t| {
      var j := if c == d + 1 then d else c;
      assert j < e;
      assert j != 0 && !IsDigit(t[j]) && (t[j] != ']' || j != e - 1);
    }
  }

  /**
   * The match of `\n?\s*\[?\d+\]?\s?.*$` (multiline) starting at position 0
   * of `t`: its end, or None. `\n?\s*` takes every leading whitespace
   * character, newlines included; `ReferenceMatchAfterSpaces` shows that the
   * tail match is tried where the whitespace stops.
   */
  function ReferenceMatch(t: string): (m: Option<nat>)
    ensures m.Some? ==> 0 < m.value <= |t| && (m.value == |t| || t[m.value] == '\n')
    ensures m.Some? ==> HasDigit(t[..m.value])
    ensures m.Some? && (forall k :: 0 < k < |t| ==> t[k] != '\n') ==> m.value == |t|
    ensures t != [] && IsDigit(t[0]) ==> m.Some?
  {
    if t == [] then None
    else if IsSpace(t[0]) then
      match ReferenceMatch(t[1..])
      case None => None
      case Some(e) =>
        assert t[..1 + e][1..] == t[1..][..e];
        Some(1 + e)
    else ReferenceTail(t)
  }

  /** A match is the leading whitespace followed by a tail match, and there is none without one. */
  lemma {:induction false} ReferenceMatchAfterSpaces(t: string)
    ensures ReferenceMatch(t).Some? <==> ReferenceTail(t[LeadingSpaces(t)..]).Some?
    ensures ReferenceMatch(t).Some? ==>
      ReferenceMatch(t).value == LeadingSpaces(t) + ReferenceTail(t[LeadingSpaces(t)..]).value
    decreases |t|
  {
    if t != [] && IsSpace(t[0]) {
      ReferenceMatchAfterSpaces(t[1..]);
      assert t[1..][LeadingSpaces(t[1..])..] == t[LeadingSpaces(t)..];
    }
  }

  /** Line 32: `re.sub` deletes the leftmost match and resumes after it. */
  function StripReferences(s: string): (r: string)
    ensures |r| <= |s|
    ensures forall i :: 0 <= i < |r| ==> !IsDigit(r[i])
    ensures forall c :: c in r ==> c in s
    decreases |s|
  {
    if s == [] then []
    else
      match ReferenceMatch(s)
      case Some(e) => StripReferences(s[e..])
      case None => [s[0]] + StripReferences(s[1..])
  }

  lemma StripReferencesUnmatched(s: string)
    requires s != [] && ReferenceMatch(s) == None
    ensures StripReferences(s) == [s[0]] + StripReferences(s[1..])
  {
  }

  /** Text with no digit holds no reference match and is left unchanged. */
  lemma {:induction false} StripReferencesIdentity(s: string)
    requires !HasDigit(s)
    ensures StripReferences(s) == s
    decreases |s|
  {
    if s != [] {
      match ReferenceMatch(s)
      case Some(e) =>
        assert false;
      case None =>
        StripReferencesIdentity(s[1..]);
        assert s == [s[0]] + s[1..];
    }
  }

  /** A position holding whitespace matches only if the position after it does. */
  lemma NoMatchAfterSpace(s: string)
    requires s != [] && IsSpace(s[0]) && ReferenceMatch(s) == None
    ensures ReferenceMatch(s[1..]) == None
  {
  }

  /** The deletions never bring two newlines together. */
  lemma {:induction false} StripReferencesNoAdjacentNewlines(s: string)
    requires NoAdjacentIn(s, {'\n'})
    ensures NoAdjacentIn(StripReferences(s), {'\n'})
    decreases |s|
  {
    if s != [] {
      assert NoAdjacentIn(s[1..], {'\n'}) by {
        forall i | 0 <= i < |s[1..]| - 1 ensures !(s[1..][i] in {'\n'} && s[1..][i + 1] in {'\n'}) {
          assert s[1..][i] == s[i + 1] && s[1..][i + 1] == s[i + 2];
        }
      }
      match ReferenceMatch(s)
      case Some(e) =>
        assert NoAdjacentIn(s[e..], {'\n'}) by {
          forall i | 0 <= i < |s[e..]| - 1 ensures !(s[e..][i] in {'\n'} && s[e..][i + 1] in {'\n'}) {
            assert s[e..][i] == s[e + i] && s[e..][i + 1] == s[e + i + 1];
          }
        }
        StripReferencesNoAdjacentNewlines(s[e..]);
      case None =>
        StripReferencesNoAdjacentNewlines(s[1..]);
        var t := StripReferences(s[1..]);
        var r := StripReferences(s);
        assert r == [s[0]] + t;
        if s[0] == '\n' && t != [] {
          NoMatchAfterSpace(s);
          assert s[1..] != [];
          assert t == [s[1]] + StripReferences(s[2..]) by {
            assert s[1..][1..] == s[2..];
          }
          assert t[0] != '\n';
        }
        forall i | 0 <= i < |r| - 1 ensures !(r[i] in {'\n'} && r[i + 1] in {'\n'}) {
          if i > 0 { assert r[i] == t[i - 1] && r[i + 1] == t[i]; }
        }
    }
  }

  /** A prefix ending in a non-space and holding no digit and no '[' starts no match. */
  lemma {:induction false} NoMatchInPrefix(p: string, t: string)
    requires p != [] && !IsSpace(p[|p| - 1])
    requires forall i :: 0 <= i < |p| ==> !IsDigit(p[i]) && p[i] != '['
    ensures ReferenceMatch(p + t) == None
    decreases |p|
  {
    var s := p + t;
    assert s[0] == p[0];
    if IsSpace(p[0]) {
      assert s[1..] == p[1..] + t;
      NoMatchInPrefix(p[1..], t);
    }
  }

  /** Such a prefix passes through step 5 unchanged. */
  lemma {:induction false} StripReferencesPrefix(p: string, t: string)
    requires p == [] || !IsSpace(p[|p| - 1])
    requires forall i :: 0 <= i < |p| ==> !IsDigit(p[i]) && p[i] != '['
    ensures StripReferences(p + t) == p + StripReferences(t)
    decreases |p|
  {
    if p == [] {
      assert p + t == t;
    } else {
      var q := p[1..];
      StripReferencesFirstKept(p, t);
      PlainPrefixRest(p);
      StripReferencesPrefix(q, t);
      assert [p[0]] + q == p;
      AppendAssoc([p[0]], q, StripReferences(t));
    }
  }

  /** Dropping the first character of such a prefix leaves one. */
  lemma PlainPrefixRest(p: string)
    requires p != [] && !IsSpace(p[|p| - 1])
    requires forall i :: 0 <= i < |p| ==> !IsDigit(p[i]) && p[i] != '['
    ensures p[1..] == [] || !IsSpace(p[1..][|p[1..]| - 1])
    ensures forall i :: 0 <= i < |p[1..]| ==> !IsDigit(p[1..][i]) && p[1..][i] != '['
  {
    var q := p[1..];
    forall i | 0 <= i < |q| ensures !IsDigit(q[i]) && q[i] != '[' { assert q[i] == p[i + 1]; }
  }

  /** The first character of such a prefix starts no match and is kept. */
  lemma StripReferencesFirstKept(p: string, t: string)
    requires p != [] && !IsSpace(p[|p| - 1])
    requires forall i :: 0 <= i < |p| ==> !IsDigit(p[i]) && p[i] != '['
    ensures StripReferences(p + t) == [p[0]] + StripReferences(p[1..] + t)
  {
    var s := p + t;
    NoMatchInPrefix(p, t);
    StripReferencesUnmatched(s);
    assert s[0] == p[0];
    assert s[1..] == p[1..] + t;
  }

  // ---------------------------------------------------------------------
  // clean_text
  // ---------------------------------------------------------------------

  /**
   * Lines 15-34. The result has no surrounding whitespace and holds no
   * curly quote, en or em dash, tab or digit.
   */
  function CleanText(text: string): (r: string)
    ensures NoEdgeSpace(r)
    ensures forall c :: c in r ==> !IsTypographic(c)
    ensures forall c :: c in r ==> c != '\t' && !IsDigit(c)
  {
    var t1 := NormalizeTypography(text);
    var t2 := CollapseNewlines(t1);
    var t3 := CollapseBlanks(t2);
    var t4 := JoinSoftBreaks(t3);
    var t5 := StripReferences(t4);
    StepsRemoveChars(text);
    Strip(t5)
  }

  /** The six steps, spelled out, leave no typographic character, tab or digit. */
  lemma StepsRemoveChars(text: string)
    ensures var t5 := StripReferences(JoinSoftBreaks(CollapseBlanks(CollapseNewlines(NormalizeTypography(text)))));
      forall c :: c in Strip(t5) ==> !IsTypographic(c)
    ensures var t5 := StripReferences(JoinSoftBreaks(CollapseBlanks(CollapseNewlines(NormalizeTypography(text)))));
      forall c :: c in Strip(t5) ==> c != '\t' && !IsDigit(c)
  {
    var t1 := NormalizeTypography(text);
    StripChars(StripReferences(JoinSoftBreaks(CollapseBlanks(CollapseNewlines(t1)))));
  }

  /** Every character of the output is a character of the input, an ASCII replacement, or a space. */
  lemma CleanTextChars(text: string)
    ensures forall c :: c in CleanText(text) ==>
      c in text || c == '"' || c == '\'' || c == '-' || c == ' '
  {
    StripChars(StripReferences(JoinSoftBreaks(CollapseBlanks(CollapseNewlines(NormalizeTypography(text))))));
  }

  /** The output neither starts nor ends with whitespace; whitespace-only input gives "". */
  lemma CleanTextStripped(text: string)
    ensures NoEdgeSpace(CleanText(text))
    ensures AllSpace(text) ==> CleanText(text) == ""
  {
    if AllSpace(text) {
      NormalizeTypographyIdentity(text);
      var t4 := JoinSoftBreaks(CollapseBlanks(CollapseNewlines(text)));
      var t5 := StripReferences(t4);
      assert forall c :: c in t5 ==> IsSpace(c) by {
        forall c | c in t5 ensures IsSpace(c) {
          assert c in t4;
          var i :| 0 <= i < |t4| && t4[i] == c;
          assert c in CollapseBlanks(CollapseNewlines(text)) || c == ' ';
        }
      }
      assert AllSpace(t5) by {
        forall i | 0 <= i < |t5| ensures IsSpace(t5[i]) { assert t5[i] in t5; }
      }
    }
  }

  lemma NoAdjacentSlice(s: string, i: nat, j: nat, run: set<char>)
    requires i <= j <= |s| && NoAdjacentIn(s, run)
    ensures NoAdjacentIn(s[i..j], run)
  {
    forall k | 0 <= k < j - i - 1 ensures !(s[i..j][k] in run && s[i..j][k + 1] in run) {
      assert s[i..j][k] == s[i + k] && s[i..j][k + 1] == s[i + k + 1];
    }
  }

  /** No two newlines are adjacent in the output. */
  lemma CleanTextNoAdjacentNewlines(text: string)
    ensures NoAdjacentIn(CleanText(text), {'\n'})
  {
    var t4 := JoinSoftBreaks(CollapseBlanks(CollapseNewlines(NormalizeTypography(text))));
    var t5 := StripReferences(t4);
    StripReferencesNoAdjacentNewlines(t4);
    var lead := LeadingSpaces(t5);
    NoAdjacentSlice(t5, lead, lead + |Strip(t5)|, {'\n'});
  }

  // ---------------------------------------------------------------------
  // Worked inputs
  // ---------------------------------------------------------------------

  /** A match that starts at a whitespace character before a digit runs to the end of a text with no newline. */
  lemma ReferenceToEnd(t: string)
    requires ReferenceMatch(t).Some?
    requires forall k :: 0 < k < |t| ==> t[k] != '\n'
    ensures StripReferences(t) == []
  {
    assert t[|t|..] == [];
  }

  /** Text that steps 1 to 3 leave alone reaches step 4 unchanged. */
  lemma CleanTextFromStep4(s: string)
    requires forall i :: 0 <= i < |s| ==> !IsTypographic(s[i]) && s[i] != '\t'
    requires NoAdjacentIn(s, {'\n'}) && NoAdjacentIn(s, {' ', '\t'})
    ensures CleanText(s) == Strip(StripReferences(JoinSoftBreaks(s)))
  {
    NormalizeTypographyIdentity(s);
    CollapseRunsIdentity(s, {'\n'}, '\n');
    CollapseRunsIdentity(s, {' ', '\t'}, ' ');
  }

  /**
   * A sentence followed on its line by a number: the number, the space
   * before it and the rest of the line are deleted.
   */
  lemma {:induction false} NumberDeletesRestOfLine(p: string, t: string)
    requires p != [] && !IsSpace(p[0]) && !IsSpace(p[|p| - 1])
    requires forall i :: 0 <= i < |p| ==> !IsDigit(p[i]) && p[i] != '[' && p[i] != '\n'
    requires |t| >= 2 && t[0] == ' ' && IsDigit(t[1]) && '\n' !in t
    requires forall i :: 0 <= i < |p + t| ==> !IsTypographic((p + t)[i]) && (p + t)[i] != '\t'
    requires NoAdjacentIn(p + t, {' ', '\t'})
    ensures CleanText(p + t) == p
  {
    var s := p + t;
    assert forall i :: 0 <= i < |s| ==> s[i] != '\n' by {
      forall i | 0 <= i < |s| ensures s[i] != '\n' {
        if i >= |p| { assert s[i] == t[i - |p|]; assert t[i - |p|] in t; }
      }
    }
    CleanTextFromStep4(s);
    JoinSoftBreaksIdentity(s);
    StripReferencesPrefix(p, t);
    assert t[1..][0] == t[1];
    assert forall k :: 0 < k < |t| ==> t[k] != '\n' by {
      forall k | 0 < k < |t| ensures t[k] != '\n' { assert t[k] in t; }
    }
    ReferenceToEnd(t);
    assert p + [] == p;
    StripOfStripped(p);
  }

  /** A sentence that a space and a number start, as `t` in `NumberStopsAtLineEnd`. */
  predicate NumberedSentence(t: string) {
    && |t| >= 2 && t[0] == ' ' && IsDigit(t[1]) && EndsSentence(t[|t| - 1])
    && (forall i :: 0 <= i < |t| ==> t[i] != '\n' && t[i] != '\t' && !IsTypographic(t[i]))
    && NoAdjacentIn(t, {' ', '\t'})
  }

  /** The tail match of such a sentence, minus its space, stops at the newline after it. */
  lemma NumberedTailStops(t: string, q: string)
    requires NumberedSentence(t)
    ensures ReferenceTail(t[1..] + "\n" + q) == Some(|t| - 1)
  {
    var v := t[1..] + "\n" + q;
    var k := |t| - 1;
    assert v[0] == t[1] && v[k] == '\n' && v[k - 1] == t[k];
    var m := ReferenceTail(v);
    ReferenceTailStopsAtLine(v);
    assert k - 1 != 0 && !IsDigit(v[k - 1]) && v[k - 1] != ']';
    assert !ReferenceHead(v, k);
    assert m.value <= k;
    assert forall i :: 0 <= i < k ==> v[i] != '\n' by {
      forall i | 0 <= i < k ensures v[i] != '\n' { assert v[i] == t[i + 1]; }
    }
  }

  /** So the match at the sentence's space ends at that newline. */
  lemma NumberedMatchStops(t: string, q: string)
    requires NumberedSentence(t)
    ensures ReferenceMatch(t + "\n" + q) == Some(|t|)
  {
    var u := t + "\n" + q;
    assert u[0] == ' ' && u[1] == t[1];
    assert u[1..] == t[1..] + "\n" + q;
    NumberedTailStops(t, q);
  }

  /** A sentence with a number, followed by a line of plain words, passes steps 1 to 4 unchanged. */
  lemma {:induction false} NumberedLineQuiet(p: string, t: string, q: string)
    requires PlainWords(p) && NumberedSentence(t) && PlainWords(q)
    ensures var s := p + t + "\n" + q;
      Quiet(s) && NoAdjacentIn(s, {'\n'}) && NoAdjacentIn(s, {' ', '\t'})
    ensures JoinSoftBreaks(p + t + "\n" + q) == p + t + "\n" + q
  {
    var x := p + t;
    var s := x + "\n" + q;
    forall i | 0 <= i < |x| ensures x[i] != '\n' && x[i] != '\t' && !IsTypographic(x[i]) {
      if i < |p| { assert x[i] == p[i]; } else { assert x[i] == t[i - |p|]; }
    }
    forall i | 0 <= i < |s| ensures !IsTypographic(s[i]) && s[i] != '\t' && (s[i] == '\n' ==> i == |x|) {
      if i < |x| { assert s[i] == x[i]; } else if i > |x| { assert s[i] == q[i - |x| - 1]; }
    }
    var run := {' ', '\t'};
    NoAdjacentConcat(p, t, run);
    NoAdjacentConcat("\n", q, run);
    NoAdjacentConcat(x, "\n" + q, run);
    assert s == x + ("\n" + q);
    JoinSoftBreaksAround(x, q);
    JoinSoftBreaksIdentity(x);
    JoinSoftBreaksIdentity(q);
    assert x[|x| - 1] == t[|t| - 1];
  }

  /**
   * A number in mid-line deletes the rest of its line and no more: the
   * following line survives.
   */
  lemma {:induction false} NumberStopsAtLineEnd(p: string, t: string, q: string)
    requires PlainWords(p) && (forall i :: 0 <= i < |p| ==> p[i] != '[')
    requires NumberedSentence(t) && PlainWords(q)
    ensures CleanText(p + t + "\n" + q) == p + "\n" + q
  {
    var s := p + t + "\n" + q;
    NumberedLineQuiet(p, t, q);
    CleanTextFromStep4(s);
    NumberedLineStripped(p, t, q);
    var r := p + "\n" + q;
    assert r[0] == p[0] && r[|r| - 1] == q[|q| - 1];
    StripOfStripped(r);
  }

  /** Step 5 deletes the number and the rest of its line, and keeps the next line. */
  lemma {:induction false} NumberedLineStripped(p: string, t: string, q: string)
    requires PlainWords(p) && (forall i :: 0 <= i < |p| ==> p[i] != '[')
    requires NumberedSentence(t) && PlainWords(q)
    ensures StripReferences(p + t + "\n" + q) == p + "\n" + q
  {
    var n := "\n" + q;
    var u := t + n;
    AppendAssoc(p + t, "\n", q);
    AppendAssoc(p, t, n);
    AppendAssoc(p, "\n", q);
    assert p + t + "\n" + q == p + u;
    StripReferencesPrefix(p, u);
    NumberedMatchStops(t, q);
    AppendAssoc(t, "\n", q);
    StripReferencesAtMatch(u, |t|);
    DropPrefix(t, n);
    NextLineKept(q);
    assert StripReferences(u) == n;
  }

  /** `re.sub` resumes after a match. */
  lemma StripReferencesAtMatch(u: string, e: nat)
    requires ReferenceMatch(u) == Some(e)
    ensures e <= |u| && StripReferences(u) == StripReferences(u[e..])
  {
  }

  lemma DropPrefix(a: string, b: string)
    ensures (a + b)[|a|..] == b
  {
  }

  /** A line of plain words after a newline holds no match. */
  lemma NextLineKept(q: string)
    requires PlainWords(q)
    ensures StripReferences("\n" + q) == "\n" + q
  {
    var n := "\n" + q;
    assert !HasDigit(n) by {
      forall i | 0 <= i < |n| ensures !IsDigit(n[i]) {
        if i > 0 { assert n[i] == q[i - 1]; }
      }
    }
    StripReferencesIdentity(n);
  }

  /** The numbered line loses its number and the rest, and the next line stays. */
  lemma LineAfterNumberKept()
    ensures CleanText("See 5 models.\nNext line.") == "See\nNext line."
  {
    var p, t, q := "See", " 5 models.", "Next line.";
    LineAfterNumberInput();
    LineAfterNumberPieces();
    NumberStopsAtLineEnd(p, t, q);
  }

  lemma LineAfterNumberInput()
    ensures "See" + " 5 models." + "\n" + "Next line." == "See 5 models.\nNext line."
    ensures "See" + "\n" + "Next line." == "See\nNext line."
  {
  }

  /** The pieces of that example meet the conditions of `NumberStopsAtLineEnd`. */
  lemma LineAfterNumberPieces()
    ensures PlainWords("See") && (forall i :: 0 <= i < |"See"| ==> "See"[i] != '[')
    ensures NumberedSentence(" 5 models.") && PlainWords("Next line.")
  {
    ExampleSee();
    ExampleNumbered();
    ExampleNextLine();
  }

  lemma ExampleSee()
    ensures PlainWords("See") && (forall i :: 0 <= i < |"See"| ==> "See"[i] != '[')
  {
    assert NoAdjacentIn("See", {' ', '\t'});
  }

  lemma ExampleNumbered()
    ensures NumberedSentence(" 5 models.")
  {
    assert NoAdjacentIn(" 5 models.", {' ', '\t'});
  }

  lemma ExampleNextLine()
    ensures PlainWords("Next line.")
  {
    assert NoAdjacentIn("Next line.", {' ', '\t'});
  }

  /** A digit in mid-line deletes the space before it and the rest of the line. */
  lemma DigitMidLine()
    ensures CleanText("We trained 5 models.") == "We trained"
  {
    var p, t := "We trained", " 5 models.";
    assert p + t == "We trained 5 models.";
    NumberDeletesRestOfLine(p, t);
  }

  /** Joining soft breaks works piece by piece around a newline. */
  lemma JoinSoftBreaksAround(x: string, y: string)
    ensures JoinSoftBreaks(x + "\n" + y) ==
      JoinSoftBreaks(x) + (if x != [] && EndsSentence(x[|x| - 1]) then "\n" else " ") + JoinSoftBreaks(y)
  {
    var s := x + "\n" + y;
    var r := JoinSoftBreaks(s);
    var jx, jy := JoinSoftBreaks(x), JoinSoftBreaks(y);
    var m := if x != [] && EndsSentence(x[|x| - 1]) then "\n" else " ";
    var e := jx + m + jy;
    assert |r| == |e|;
    forall i | 0 <= i < |s| ensures r[i] == e[i] {
      if i < |x| {
        assert e[i] == jx[i];
        assert s[i] == x[i] && (i > 0 ==> s[i - 1] == x[i - 1]);
      } else if i == |x| {
        assert e[i] == m[0];
        assert s[i] == '\n' && (i > 0 ==> s[i - 1] == x[i - 1]);
      } else {
        assert e[i] == jy[i - |x| - 1];
        assert s[i] == y[i - |x| - 1];
        assert i - 1 > |x| ==> s[i - 1] == y[i - |x| - 2];
      }
    }
  }

  /** No typographic character and no tab: steps 1 and 3 have nothing to replace. */
  predicate Quiet(s: string) {
    forall i :: 0 <= i < |s| ==> !IsTypographic(s[i]) && s[i] != '\t'
  }

  /** The conditions the reference example rests on. */
  predicate ReferenceScenario(body: string, reference: string, rest: string) {
    ScenarioBody(body) && ScenarioReference(reference) && ScenarioRest(rest)
  }

  /** A sentence on a line of its own, with nothing a step would change. */
  predicate ScenarioBody(body: string) {
    && body != [] && EndsSentence(body[|body| - 1]) && !IsSpace(body[0])
    && (forall i :: 0 <= i < |body| ==> !IsDigit(body[i]) && body[i] != '[' && body[i] != '\n')
    && Quiet(body) && NoAdjacentIn(body, {' ', '\t'})
  }

  /** A line starting with a bracketed number and not ending a sentence. */
  predicate ScenarioReference(reference: string) {
    && |reference| >= 2 && reference[0] == '[' && IsDigit(reference[1])
    && !EndsSentence(reference[|reference| - 1]) && reference[|reference| - 1] != ' '
    && '\n' !in reference && Quiet(reference) && NoAdjacentIn(reference, {' ', '\t'})
  }

  /** A last line that does not start with a space. */
  predicate ScenarioRest(rest: string) {
    && (rest == [] || rest[0] != ' ')
    && '\n' !in rest && Quiet(rest) && NoAdjacentIn(rest, {' ', '\t'})
  }


  /** The example's input passes steps 1 to 3 unchanged. */
  lemma {:induction false} ReferenceScenarioQuiet(body: string, reference: string, rest: string)
    requires ReferenceScenario(body, reference, rest)
    ensures var s := body + "\n" + reference + "\n" + rest;
      && (forall i :: 0 <= i < |s| ==> !IsTypographic(s[i]) && s[i] != '\t')
      && NoAdjacentIn(s, {'\n'}) && NoAdjacentIn(s, {' ', '\t'})
  {
    var s := body + "\n" + reference + "\n" + rest;
    var n1 := |body|;
    var n2 := |body| + 1 + |reference|;
    forall i | 0 <= i < |s|
      ensures !IsTypographic(s[i]) && s[i] != '\t'
      ensures s[i] == '\n' <==> i == n1 || i == n2
      ensures s[i] in {' ', '\t'} && i + 1 < |s| ==> s[i + 1] !in {' ', '\t'}
    {
      if i < n1 {
        assert s[i] == body[i];
        if i + 1 < n1 { assert s[i + 1] == body[i + 1]; }
      } else if n1 < i < n2 {
        assert s[i] == reference[i - n1 - 1];
        assert reference[i - n1 - 1] in reference;
        if i + 1 < n2 { assert s[i + 1] == reference[i - n1]; }
      } else if i > n2 {
        assert s[i] == rest[i - n2 - 1];
        assert rest[i - n2 - 1] in rest;
        if i + 1 < |s| { assert s[i + 1] == rest[i - n2]; }
      }
    }
  }

  /** Step 4 keeps the newline after the sentence and joins the one after the reference. */
  lemma {:induction false} ReferenceScenarioJoined(body: string, reference: string, rest: string)
    requires ReferenceScenario(body, reference, rest)
    ensures JoinSoftBreaks(body + "\n" + reference + "\n" + rest) == body + "\n" + (reference + " " + rest)
  {
    AppendAssoc(body + "\n", reference + "\n", rest);
    AppendAssoc(body, "\n", reference + "\n" + rest);
    JoinSoftBreaksAround(body, reference + "\n" + rest);
    JoinSoftBreaksIdentity(body);
    ReferenceLineJoined(reference, rest);
  }

  /** Step 4 joins the reference line and the line after it. */
  lemma {:induction false} ReferenceLineJoined(reference: string, rest: string)
    requires ScenarioReference(reference) && ScenarioRest(rest)
    ensures JoinSoftBreaks(reference + "\n" + rest) == reference + " " + rest
  {
    JoinSoftBreaksAround(reference, rest);
    assert forall i :: 0 <= i < |reference| ==> reference[i] != '\n' by {
      forall i | 0 <= i < |reference| ensures reference[i] != '\n' { assert reference[i] in reference; }
    }
    JoinSoftBreaksIdentity(reference);
    assert forall i :: 0 <= i < |rest| ==> rest[i] != '\n' by {
      forall i | 0 <= i < |rest| ensures rest[i] != '\n' { assert rest[i] in rest; }
    }
    JoinSoftBreaksIdentity(rest);
  }

  /** Step 5 deletes the joined reference line from its leading newline to the end. */
  lemma {:induction false} ReferenceTailDeleted(reference: string, rest: string)
    requires ScenarioReference(reference) && ScenarioRest(rest)
    ensures StripReferences("\n" + (reference + " " + rest)) == []
  {
    var line := reference + " " + rest;
    var tail := "\n" + line;
    assert tail[1..] == line;
    assert line[0] == '[' && line[1] == reference[1];
    assert ReferenceMatch(line).Some?;
    forall k | 0 < k < |tail| ensures tail[k] != '\n' {
      if k <= |reference| { assert tail[k] == reference[k - 1]; assert reference[k - 1] in reference; }
      else if k > |reference| + 1 { assert tail[k] == rest[k - |reference| - 2]; assert rest[k - |reference| - 2] in rest; }
    }
    ReferenceToEnd(tail);
  }

  /** Step 5 deletes everything after the sentence. */
  lemma {:induction false} ReferenceScenarioStripped(body: string, reference: string, rest: string)
    requires ReferenceScenario(body, reference, rest)
    ensures StripReferences(body + "\n" + (reference + " " + rest)) == body
  {
    var tail := "\n" + (reference + " " + rest);
    AppendAssoc(body, "\n", reference + " " + rest);
    StripReferencesPrefix(body, tail);
    ReferenceTailDeleted(reference, rest);
    assert body + [] == body;
  }

  /**
   * A reference line between a sentence and more body text: the newline
   * after the reference is joined by step 4, so step 5 deletes the
   * reference and the body text after it.
   */
  lemma {:induction false} ReferenceLineSwallowsNextLine(body: string, reference: string, rest: string)
    requires ReferenceScenario(body, reference, rest)
    ensures CleanText(body + "\n" + reference + "\n" + rest) == body
  {
    var s := body + "\n" + reference + "\n" + rest;
    ReferenceScenarioQuiet(body, reference, rest);
    CleanTextFromStep4(s);
    ReferenceScenarioJoined(body, reference, rest);
    ReferenceScenarioStripped(body, reference, rest);
    StripOfStripped(body);
  }

  /** The pieces of the reference-stripping example meet the scenario's conditions. */
  lemma ExampleBody()
    ensures ScenarioBody("Body text.")
  {
    var body := "Body text.";
    assert NoAdjacentIn(body, {' ', '\t'});
    assert Quiet(body);
  }

  /** The reference line of the example meets the scenario's conditions. */
  lemma ExampleReference()
    ensures ScenarioReference("[12] Some Reference, 2020")
  {
    ExampleReferenceSpacing();
    ExampleReferenceQuiet();
  }

  /** The reference line has no two neighbouring blanks. */
  lemma ExampleReferenceSpacing()
    ensures NoAdjacentIn("[12] Some Reference, 2020", {' ', '\t'})
  {
    var reference := "[12] Some Reference, 2020";
    forall i | 0 <= i < |reference| - 1
      ensures !(reference[i] in {' ', '\t'} && reference[i + 1] in {' ', '\t'})
    {
    }
  }

  /** The reference line holds no newline, tab or typographic character. */
  lemma ExampleReferenceQuiet()
    ensures '\n' !in "[12] Some Reference, 2020" && Quiet("[12] Some Reference, 2020")
  {
  }

  /** The last line of the example meets the scenario's conditions. */
  lemma ExampleRest()
    ensures ScenarioRest("More body")
  {
    var rest := "More body";
    assert NoAdjacentIn(rest, {' ', '\t'});
    assert '\n' !in rest;
    assert Quiet(rest);
  }

  /** The example's input is its three lines joined by newlines. */
  lemma ExampleInput()
    ensures "Body text." + "\n" + "[12] Some Reference, 2020" + "\n" + "More body"
         == "Body text.\n[12] Some Reference, 2020\nMore body"
  {
  }

  /** The reference-stripping example: the last line goes with the reference. */
  lemma BodyReferenceBody()
    ensures CleanText("Body text.\n[12] Some Reference, 2020\nMore body") == "Body text."
  {
    var body, reference, rest := "Body text.", "[12] Some Reference, 2020", "More body";
    ExampleInput();
    ExampleBody();
    ExampleReference();
    ExampleRest();
    ReferenceLineSwallowsNextLine(body, reference, rest);
  }

  lemma {:induction false} RunLengthExact(s: string, n: nat, run: set<char>)
    requires n < |s| && s[n] !in run
    requires forall i :: 0 <= i < n ==> s[i] in run
    ensures RunLength(s, run) == n
    decreases n
  {
    if n > 0 {
      RunLengthExact(s[1..], n - 1, run);
    }
  }

  /** Collapsing distributes over a split point that follows a character outside `run`. */
  lemma {:induction false} CollapseRunsAppend(x: string, y: string, run: set<char>, repl: char)
    requires x == [] || x[|x| - 1] !in run
    ensures CollapseRuns(x + y, run, repl) == CollapseRuns(x, run, repl) + CollapseRuns(y, run, repl)
    decreases |x|
  {
    if x == [] {
      assert x + y == y;
    } else {
      var s := x + y;
      assert s[0] == x[0];
      if x[0] in run {
        var n := RunLength(x, run);
        assert n < |x|;
        RunLengthExact(s, n, run);
        assert s[n..] == x[n..] + y;
        CollapseRunsAppend(x[n..], y, run, repl);
        AppendAssoc([repl], CollapseRuns(x[n..], run, repl), CollapseRuns(y, run, repl));
      } else {
        assert s[1..] == x[1..] + y;
        CollapseRunsAppend(x[1..], y, run, repl);
        AppendAssoc([x[0]], CollapseRuns(x[1..], run, repl), CollapseRuns(y, run, repl));
      }
    }
  }

  /** Words that every step leaves alone. */
  predicate PlainWords(a: string) {
    && a != [] && NoEdgeSpace(a)
    && (forall i :: 0 <= i < |a| ==>
         !IsDigit(a[i]) && a[i] != '\n' && a[i] != '\t' && !IsTypographic(a[i]))
    && NoAdjacentIn(a, {' ', '\t'})
  }

  /** Two plain words around a run of spaces and newlines form text steps 1 and 2 leave alone. */
  lemma {:induction false} WordsAround(a: string, mid: string, b: string)
    requires PlainWords(a) && PlainWords(b)
    requires forall i :: 0 <= i < |mid| ==> mid[i] == ' ' || mid[i] == '\n'
    ensures forall i :: 0 <= i < |a + mid + b| ==>
      !IsTypographic((a + mid + b)[i]) && (a + mid + b)[i] != '\t' && !IsDigit((a + mid + b)[i])
    ensures forall i :: 0 <= i < |a + mid + b| && (a + mid + b)[i] == '\n' ==> |a| <= i < |a| + |mid|
    ensures NoEdgeSpace(a + mid + b)
  {
    var s := a + mid + b;
    forall i | 0 <= i < |s|
      ensures !IsTypographic(s[i]) && s[i] != '\t' && !IsDigit(s[i])
      ensures s[i] == '\n' ==> |a| <= i < |a| + |mid|
    {
      if i < |a| { assert s[i] == a[i]; }
      else if i >= |a| + |mid| { assert s[i] == b[i - |a| - |mid|]; }
      else { assert s[i] == mid[i - |a|]; }
    }
    assert s[0] == a[0] && s[|s| - 1] == b[|b| - 1];
  }

  /** Concatenation keeps "no two neighbours from `run`" when the seam is not a pair from `run`. */
  lemma NoAdjacentConcat(x: string, y: string, run: set<char>)
    requires NoAdjacentIn(x, run) && NoAdjacentIn(y, run)
    requires x == [] || y == [] || !(x[|x| - 1] in run && y[0] in run)
    ensures NoAdjacentIn(x + y, run)
  {
    var s := x + y;
    forall i | 0 <= i < |s| - 1 ensures !(s[i] in run && s[i + 1] in run) {
      if i + 1 < |x| { assert s[i] == x[i] && s[i + 1] == x[i + 1]; }
      else if i >= |x| { assert s[i] == y[i - |x|] && s[i + 1] == y[i - |x| + 1]; }
    }
  }

  /** Step 4 turns a newline after a space into a second space. */
  lemma {:induction false} SoftBreakJoined(a: string, b: string)
    requires PlainWords(a) && PlainWords(b)
    ensures JoinSoftBreaks(a + " \n" + b) == a + "  " + b
  {
    var x := a + " ";
    assert a + " \n" + b == x + "\n" + b;
    JoinSoftBreaksAround(x, b);
    forall i | 0 <= i < |x| ensures x[i] != '\n' { if i < |a| { assert x[i] == a[i]; } }
    JoinSoftBreaksIdentity(x);
    JoinSoftBreaksIdentity(b);
    assert x + " " + b == a + "  " + b;
  }

  /** Steps 1 to 3 leave the text alone, and step 4 turns the break into a second space. */
  lemma {:induction false} SoftBreakReachesStep5(a: string, b: string)
    requires PlainWords(a) && PlainWords(b)
    ensures CleanText(a + " \n" + b) == Strip(StripReferences(a + "  " + b))
  {
    var s := a + " \n" + b;
    WordsAround(a, " \n", b);
    var run := {' ', '\t'};
    assert s == a + (" \n" + b);
    NoAdjacentConcat(" \n", b, run);
    NoAdjacentConcat(a, " \n" + b, run);
    CleanTextFromStep4(s);
    SoftBreakJoined(a, b);
  }

  /** Plain words around spaces hold no match for step 5 and nothing for step 6 to strip. */
  lemma {:induction false} PlainWordsSettled(a: string, mid: string, b: string)
    requires PlainWords(a) && PlainWords(b)
    requires forall i :: 0 <= i < |mid| ==> mid[i] == ' '
    ensures Strip(StripReferences(a + mid + b)) == a + mid + b
  {
    WordsAround(a, mid, b);
    StripReferencesIdentity(a + mid + b);
    StripOfStripped(a + mid + b);
  }

  /** A space before a soft line break: step 4 turns the break into a second space. */
  lemma {:induction false} SoftBreakAfterSpace(a: string, b: string)
    requires PlainWords(a) && PlainWords(b)
    ensures CleanText(a + " \n" + b) == a + "  " + b
  {
    SoftBreakReachesStep5(a, b);
    TwoSpacesSettled(a, b);
  }

  /** Two plain words around a double space pass steps 5 and 6 unchanged. */
  lemma TwoSpacesSettled(a: string, b: string)
    requires PlainWords(a) && PlainWords(b)
    ensures Strip(StripReferences(a + "  " + b)) == a + "  " + b
  {
    PlainWordsSettled(a, "  ", b);
  }

  /** Two plain words around one space pass steps 4 to 6 unchanged. */
  lemma OneSpaceSettled(a: string, b: string)
    requires PlainWords(a) && PlainWords(b)
    ensures Strip(StripReferences(JoinSoftBreaks(a + " " + b))) == a + " " + b
  {
    WordsAround(a, " ", b);
    JoinSoftBreaksIdentity(a + " " + b);
    PlainWordsSettled(a, " ", b);
  }

  /** Step 3 collapses a double space between plain words. */
  lemma {:induction false} DoubleSpaceCollapsed(a: string, b: string)
    requires PlainWords(a) && PlainWords(b)
    ensures CollapseBlanks(a + "  " + b) == a + " " + b
  {
    var run := {' ', '\t'};
    AppendAssoc(a, "  ", b);
    CollapseRunsAppend(a, "  " + b, run, ' ');
    CollapseRunsIdentity(a, run, ' ');
    DoubleSpaceBeforeWord(b);
    AppendAssoc(a, " ", b);
  }

  /** Step 3 on a double space and a plain word. */
  lemma DoubleSpaceBeforeWord(b: string)
    requires PlainWords(b)
    ensures CollapseBlanks("  " + b) == " " + b
  {
    var run := {' ', '\t'};
    CollapseRunsOfRun("  ", b, run, ' ');
    CollapseRunsIdentity(b, run, ' ');
  }

  /** A leading run collapses to one `repl`, and the scan goes on after it. */
  lemma {:induction false} CollapseRunsOfRun(p: string, y: string, run: set<char>, repl: char)
    requires p != [] && (forall i :: 0 <= i < |p| ==> p[i] in run)
    requires y != [] && y[0] !in run
    ensures CollapseRuns(p + y, run, repl) == [repl] + CollapseRuns(y, run, repl)
  {
    var s := p + y;
    RunLengthExact(s, |p|, run);
    assert s[|p|..] == y;
  }

  /** A double space between words collapses to one. */
  lemma {:induction false} DoubleSpaceCollapses(a: string, b: string)
    requires PlainWords(a) && PlainWords(b)
    ensures CleanText(a + "  " + b) == a + " " + b
  {
    DoubleSpaceReachesStep4(a, b);
    OneSpaceSettled(a, b);
  }

  /** Steps 1 and 2 leave the text alone, and step 3 collapses the double space. */
  lemma {:induction false} DoubleSpaceReachesStep4(a: string, b: string)
    requires PlainWords(a) && PlainWords(b)
    ensures CleanText(a + "  " + b) == Strip(StripReferences(JoinSoftBreaks(a + " " + b)))
  {
    var s := a + "  " + b;
    WordsAround(a, "  ", b);
    NormalizeTypographyIdentity(s);
    CollapseRunsIdentity(s, {'\n'}, '\n');
    DoubleSpaceCollapsed(a, b);
  }

  /**
   * `clean_text` is not idempotent: a space before a soft line break
   * survives step 3, and step 4 adds a second space next to it, which only
   * a second pass collapses.
   */
  lemma NotIdempotent()
    ensures CleanText("a \nb") == "a  b"
    ensures CleanText(CleanText("a \nb")) == "a b"
  {
    FirstPassDoublesSpace();
    SecondPassCollapsesIt();
  }

  /** "a" and "b" are plain words. */
  lemma LettersArePlain()
    ensures PlainWords("a") && PlainWords("b")
  {
    assert NoAdjacentIn("a", {' ', '\t'}) && NoAdjacentIn("b", {' ', '\t'});
  }

  /** The first pass: the space before the soft break survives, and the break becomes a second space. */
  lemma FirstPassDoublesSpace()
    ensures CleanText("a \nb") == "a  b"
  {
    LettersArePlain();
    assert "a" + " \n" + "b" == "a \nb";
    assert "a" + "  " + "b" == "a  b";
    SoftBreakAfterSpace("a", "b");
  }

  /** The second pass: the double space is collapsed to one. */
  lemma SecondPassCollapsesIt()
    ensures CleanText("a  b") == "a b"
  {
    LettersArePlain();
    assert "a" + "  " + "b" == "a  b";
    assert "a" + " " + "b" == "a b";
    DoubleSpaceCollapses("a", "b");
  }
}
