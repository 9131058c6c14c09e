/** The Python string built-ins the finder relies on: `strip`, `lstrip`/`rstrip` with a class of
    characters, `lower` and `splitlines`, over `seq<char>`. */
module PyStr {

  /** The characters for which `str.isspace()` holds: what `str.strip()` with no argument removes. */
  predicate IsSpace(c: char)
  {
    c == ' ' || '\t' <= c <= '\r' || '\U{1C}' <= c <= '\U{1F}' || c == '\U{85}' || c == '\U{A0}'
    || c == '\U{1680}' || '\U{2000}' <= c <= '\U{200A}' || c == '\U{2028}' || c == '\U{2029}'
    || c == '\U{202F}' || c == '\U{205F}' || c == '\U{3000}'
  }

  /** The one character `rstrip('.')` removes. */
  predicate IsDot(c: char) { c == '.' }

  /** The line boundaries `str.splitlines()` splits on; "\r\n" counts as one boundary. */
  predicate IsLineBreak(c: char)
  {
    '\n' <= c <= '\r' || '\U{1C}' <= c <= '\U{1E}' || c == '\U{85}' || c == '\U{2028}' || c == '\U{2029}'
  }

  /** The number of characters at the start of `s` that belong to `drop`. */
  function LeadingCount(s: string, drop: char -> bool): (n: nat)
    ensures n <= |s|
    ensures forall i :: 0 <= i < n ==> drop(s[i])
    ensures n < |s| ==> !drop(s[n])
  {
    if s == [] || !drop(s[0]) then 0 else 1 + LeadingCount(s[1..], drop)
  }

  /** The number of characters at the end of `s` that belong to `drop`. */
  function TrailingCount(s: string, drop: char -> bool): (n: nat)
    ensures n <= |s|
    ensures forall i :: |s| - n <= i < |s| ==> drop(s[i])
    ensures n < |s| ==> !drop(s[|s| - 1 - n])
  {
    if s == [] || !drop(s[|s| - 1]) then 0 else 1 + TrailingCount(s[..|s| - 1], drop)
  }

  /** `s.lstrip(chars)`: the longest suffix of `s` that does not start with a character of `drop`. */
  function LStrip(s: string, drop: char -> bool): (r: string)
    ensures |r| <= |s| && r == s[|s| - |r|..]
    ensures forall i :: 0 <= i < |s| - |r| ==> drop(s[i])
    ensures r == [] || !drop(r[0])
  {
    s[LeadingCount(s, drop)..]
  }

  /** `s.rstrip(chars)`: the longest prefix of `s` that does not end with a character of `drop`;
      every trailing character of `drop` goes, not only the last one. */
  function RStrip(s: string, drop: char -> bool): (r: string)
    ensures |r| <= |s| && r == s[..|r|]
    ensures forall i :: |r| <= i < |s| ==> drop(s[i])
    ensures r == [] || !drop(r[|r| - 1])
  {
    s[..|s| - TrailingCount(s, drop)]
  }

  /** `s.strip(chars)`: `s` with the characters of `drop` removed from both ends. The result is the
      slice of `s` that starts after the leading run of `drop` and is followed only by `drop`. */
  function Strip(s: string, drop: char -> bool): (r: string)
    ensures |r| <= |s|
    ensures LeadingCount(s, drop) + |r| <= |s|
    ensures r == s[LeadingCount(s, drop)..LeadingCount(s, drop) + |r|]
    ensures forall i :: LeadingCount(s, drop) + |r| <= i < |s| ==> drop(s[i])
    ensures r == [] || (!drop(r[0]) && !drop(r[|r| - 1]))
  {
    RStrip(LStrip(s, drop), drop)
  }

  /** A string with nothing of `drop` at either end is its own `strip(chars)`. */
  lemma StripTrimmed(s: string, drop: char -> bool)
    requires s == [] || (!drop(s[0]) && !drop(s[|s| - 1]))
    ensures Strip(s, drop) == s
  {
    assert LeadingCount(s, drop) == 0;
    assert TrailingCount(s, drop) == 0;
  }

  /** `rstrip` is determined by its contract: a string that ends in a run of `drop` after a part
      that does not end in `drop` strips to that part. */
  lemma RStripExact(p: string, q: string, drop: char -> bool)
    requires p == [] || !drop(p[|p| - 1])
    requires forall i :: 0 <= i < |q| ==> drop(q[i])
    ensures RStrip(p + q, drop) == p
  {
    var s := p + q;
    var n := TrailingCount(s, drop);
    assert p != [] ==> s[|p| - 1] == p[|p| - 1];
    assert forall i :: |p| <= i < |s| ==> s[i] == q[i - |p|];
    assert n == |q|;
    assert s[..|p|] == p;
  }

  /** `lstrip` is determined by its contract, as `rstrip` is. */
  lemma LStripExact(p: string, q: string, drop: char -> bool)
    requires forall i :: 0 <= i < |p| ==> drop(p[i])
    requires q == [] || !drop(q[0])
    ensures LStrip(p + q, drop) == q
  {
    var s := p + q;
    var n := LeadingCount(s, drop);
    assert q != [] ==> s[|p|] == q[0];
    assert forall i :: 0 <= i < |p| ==> s[i] == p[i];
    assert n == |p|;
    assert s[|p|..] == q;
  }

  /** `strip` is determined by its contract: runs of `drop` around a part that neither starts nor
      ends with `drop` strip to that part. */
  lemma StripExact(p: string, m: string, q: string, drop: char -> bool)
    requires forall i :: 0 <= i < |p| ==> drop(p[i])
    requires m == [] || (!drop(m[0]) && !drop(m[|m| - 1]))
    requires forall i :: 0 <= i < |q| ==> drop(q[i])
    ensures Strip(p + m + q, drop) == m
  {
    if m == [] {
      assert p + m + q == p + q;
      LStripExact(p + q, [], drop);
      assert (p + q) + [] == p + q;
    } else {
      assert p + m + q == p + (m + q);
      LStripExact(p, m + q, drop);
      RStripExact(m, q, drop);
    }
  }

  /** Stripping twice is stripping once. */
  lemma StripIdempotent(s: string, drop: char -> bool)
    ensures Strip(Strip(s, drop), drop) == Strip(s, drop)
  {
    StripTrimmed(Strip(s, drop), drop);
  }

  predicate IsUpper(c: char) { 'A' <= c <= 'Z' }

  predicate IsLower(c: char) { 'a' <= c <= 'z' }

  /** `str.lower()` on one character; only the ASCII letters are mapped. */
  function LowerChar(c: char): (d: char)
  {
    if IsUpper(c) then (c as int - 'A' as int + 'a' as int) as char else c
  }

  /** `s.lower()`: same length, no upper-case letter left, every other character kept, and every
      upper-case letter replaced by the lower-case letter 32 code points above it. */
  function Lower(s: string): (r: string)
    ensures |r| == |s|
    ensures forall i :: 0 <= i < |r| ==> !IsUpper(r[i])
    ensures forall i :: 0 <= i < |s| && !IsUpper(s[i]) ==> r[i] == s[i]
    ensures forall i :: 0 <= i < |s| && IsUpper(s[i]) ==> IsLower(r[i]) && r[i] as int == s[i] as int + 32
  {
    seq(|s|, i requires 0 <= i < |s| => LowerChar(s[i]))
  }

  /** Lower-casing never creates or removes a whitespace character or a dot. */
  lemma LowerKeepsClasses(s: string, i: int)
    requires 0 <= i < |s|
    ensures IsSpace(Lower(s)[i]) <==> IsSpace(s[i])
    ensures Lower(s)[i] == '.' <==> s[i] == '.'
  {
  }

  /** A string without upper-case letters is its own `lower()`. */
  lemma LowerNoUpper(s: string)
    requires forall i :: 0 <= i < |s| ==> !IsUpper(s[i])
    ensures Lower(s) == s
  {
  }

  predicate NoBreak(line: string) { forall k :: 0 <= k < |line| ==> !IsLineBreak(line[k]) }

  /** Where the first line of `s` ends: the index of its first line boundary, or `|s|`. */
  function BreakIndex(s: string): (i: nat)
    ensures i <= |s|
    ensures NoBreak(s[..i])
    ensures i < |s| ==> IsLineBreak(s[i])
  {
    if s == [] || IsLineBreak(s[0]) then 0
    else
      var j := BreakIndex(s[1..]);
      assert s[..j + 1] == [s[0]] + s[1..][..j];
      1 + j
  }

  /** Where the line after the boundary at `i` starts: a "\r\n" pair is skipped as one boundary. */
  function NextLineStart(s: string, i: nat): (k: nat)
    requires i < |s|
    ensures i < k <= |s|
  {
    if s[i] == '\r' && i + 1 < |s| && s[i + 1] == '\n' then i + 2 else i + 1
  }

  /** `s.splitlines()`: the lines of `s` without their boundaries; a final boundary does not open
      an empty last line, and the empty string has no lines. */
  function SplitLines(s: string): (lines: seq<string>)
    ensures |lines| <= |s|
    ensures forall k :: 0 <= k < |lines| ==> NoBreak(lines[k])
    decreases |s|
  {
    if s == [] then []
    else
      var i := BreakIndex(s);
      if i == |s| then [s]
      else [s[..i]] + SplitLines(s[NextLineStart(s, i)..])
  }

  /** The text of `lines` written one per line, each followed by "\n". */
  function JoinLines(lines: seq<string>): string
  {
    if lines == [] then [] else lines[0] + "\n" + JoinLines(lines[1..])
  }

  lemma {:induction false} BreakIndexAt(a: string, b: string)
    requires NoBreak(a)
    requires b != [] && IsLineBreak(b[0])
    ensures BreakIndex(a + b) == |a|
    decreases |a|
  {
    var s := a + b;
    if a == [] {
      assert s[0] == b[0];
    } else {
      assert s[0] == a[0] && !IsLineBreak(a[0]);
      assert s[1..] == a[1..] + b;
      assert NoBreak(a[1..]) by {
        assert forall k :: 0 <= k < |a| - 1 ==> a[1..][k] == a[k + 1];
      }
      BreakIndexAt(a[1..], b);
    }
  }

  /** A non-empty text without a line boundary is one line. */
  lemma SplitLinesOneLine(a: string)
    requires a != [] && NoBreak(a)
    ensures SplitLines(a) == [a]
  {
    assert BreakIndex(a) == |a|;
  }

  /** A line ended by a single boundary character (anything but a "\r" that a "\n" follows) is
      the first line, and the text after that character is split on its own. */
  lemma SplitLinesStep(a: string, c: char, rest: string)
    requires NoBreak(a) && IsLineBreak(c)
    requires c != '\r' || rest == [] || rest[0] != '\n'
    ensures SplitLines(a + [c] + rest) == [a] + SplitLines(rest)
  {
    var s := a + [c] + rest;
    assert s == a + ([c] + rest);
    BreakIndexAt(a, [c] + rest);
    assert s[|a|] == c;
    assert |a| + 1 < |s| ==> s[|a| + 1] == rest[0];
    assert NextLineStart(s, |a|) == |a| + 1;
    assert s[..|a|] == a;
    assert s[|a| + 1..] == rest;
  }

  /** A line ended by "\r\n" is the first line; the pair is one boundary, so no empty line
      follows it. */
  lemma SplitLinesCrLf(a: string, rest: string)
    requires NoBreak(a)
    ensures SplitLines(a + "\r\n" + rest) == [a] + SplitLines(rest)
  {
    var s := a + "\r\n" + rest;
    assert s == a + ("\r\n" + rest);
    BreakIndexAt(a, "\r\n" + rest);
    assert s[|a|] == '\r' && s[|a| + 1] == '\n';
    assert NextLineStart(s, |a|) == |a| + 2;
    assert s[..|a|] == a;
    assert s[|a| + 2..] == rest;
  }

  /** A lone "\r" ends a line, "\r\n" ends one line, and a last line needs no boundary. */
  lemma SplitLinesExample()
    ensures SplitLines("a\rb\r\nc") == ["a", "b", "c"]
  {
    assert "a\rb\r\nc" == "a" + ['\r'] + "b\r\nc";
    SplitLinesStep("a", '\r', "b\r\nc");
    SplitLinesCrLfExample();
  }

  lemma SplitLinesCrLfExample()
    ensures SplitLines("b\r\nc") == ["b", "c"]
  {
    assert "b\r\nc" == "b" + "\r\n" + "c";
    SplitLinesCrLf("b", "c");
    SplitLinesOneLine("c");
  }

  /** Writing break-free lines one per line and splitting the text gives the lines back. */
  lemma {:induction false} SplitJoinLines(lines: seq<string>)
    requires forall k :: 0 <= k < |lines| ==> NoBreak(lines[k])
    ensures SplitLines(JoinLines(lines)) == lines
  {
    if lines != [] {
      var s := JoinLines(lines);
      var rest := JoinLines(lines[1..]);
      assert s == lines[0] + ("\n" + rest);
      BreakIndexAt(lines[0], "\n" + rest);
      assert s[..|lines[0]|] == lines[0];
      assert s[|lines[0]|] == '\n';
      assert s[|lines[0]| + 1..] == rest;
      SplitJoinLines(lines[1..]);
    }
  }
}
