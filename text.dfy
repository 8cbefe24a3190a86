/**
 * The few Python `str` operations the settings patcher is built from, on
 * `string` (a sequence of Unicode scalar values): `str.isspace`, `strip`,
 * `startswith`, the substring test `in`, and `splitlines`, together with the
 * inverse of `splitlines` that the registrar uses when it writes each line back
 * followed by "\n".
 */
module Text {

  /** Python's `str.isspace()` on one character. `str.strip()` removes exactly
      these characters, and `\s` in a `str` regular expression matches exactly these. */
  predicate IsSpace(c: char) {
    c == ' ' || ('\t' <= c <= '\r') || ('\U{1c}' <= c <= '\U{1f}')
    || c == '\U{85}' || c == '\U{a0}' || c == '\U{1680}' || ('\U{2000}' <= c <= '\U{200a}')
    || c == '\U{2028}' || c == '\U{2029}' || c == '\U{202f}' || c == '\U{205f}' || c == '\U{3000}'
  }

  /** The characters at which `str.splitlines()` ends a line: "\n", "\r" (and "\r\n"
      taken as one), "\v", "\f", the separators 0x1c to 0x1e, NEL, LINE SEPARATOR
      and PARAGRAPH SEPARATOR. */
  predicate IsLineBoundary(c: char) {
    ('\n' <= c <= '\r') || ('\U{1c}' <= c <= '\U{1e}')
    || c == '\U{85}' || c == '\U{2028}' || c == '\U{2029}'
  }

  ghost predicate NoLineBoundary(s: string) {
    forall k :: 0 <= k < |s| ==> !IsLineBoundary(s[k])
  }

  /** `s.startswith(p)` */
  predicate StartsWith(s: string, p: string) {
    |p| <= |s| && s[..|p|] == p
  }

  /** `t in s`: t occurs in s as a contiguous substring (the empty string occurs in every string). */
  predicate Contains(s: string, t: string) {
    exists i :: 0 <= i <= |s| && StartsWith(s[i..], t)
  }

  /** `s.lstrip()`: the suffix left after the longest run of leading whitespace. */
  function LStrip(s: string): string {
    if s != [] && IsSpace(s[0]) then LStrip(s[1..]) else s
  }

  /** `s.rstrip()`: the prefix left after the longest run of trailing whitespace. */
  function RStrip(s: string): string {
    if s != [] && IsSpace(s[|s| - 1]) then RStrip(s[..|s| - 1]) else s
  }

  /** `s.strip()` */
  function Strip(s: string): string {
    RStrip(LStrip(s))
  }

  /** LStrip removes a prefix of whitespace, and stops at the first other character. */
  lemma {:induction false} LStripRemovesLeadingSpace(s: string)
    ensures |LStrip(s)| <= |s| && LStrip(s) == s[|s| - |LStrip(s)|..]
    ensures forall k :: 0 <= k < |s| - |LStrip(s)| ==> IsSpace(s[k])
    ensures LStrip(s) != [] ==> !IsSpace(LStrip(s)[0])
  {
    if s != [] && IsSpace(s[0]) {
      LStripRemovesLeadingSpace(s[1..]);
      assert s[1..][|s| - 1 - |LStrip(s)|..] == s[|s| - |LStrip(s)|..];
      forall k | 0 <= k < |s| - |LStrip(s)| ensures IsSpace(s[k]) {
        if k > 0 {
          assert s[k] == s[1..][k - 1];
        }
      }
    }
  }

  /** RStrip removes a suffix of whitespace, and stops at the last other character. */
  lemma {:induction false} RStripRemovesTrailingSpace(s: string)
    ensures |RStrip(s)| <= |s| && RStrip(s) == s[..|RStrip(s)|]
    ensures forall k :: |RStrip(s)| <= k < |s| ==> IsSpace(s[k])
    ensures RStrip(s) != [] ==> !IsSpace(RStrip(s)[|RStrip(s)| - 1])
  {
    if s != [] && IsSpace(s[|s| - 1]) {
      var t := s[..|s| - 1];
      RStripRemovesTrailingSpace(t);
      assert t[..|RStrip(s)|] == s[..|RStrip(s)|];
      forall k | |RStrip(s)| <= k < |s| ensures IsSpace(s[k]) {
        if k < |s| - 1 {
          assert s[k] == t[k];
        }
      }
    }
  }

  /** `s.strip().startswith(c)` for a character `c` that is not whitespace holds
      exactly when the first non-whitespace character of `s` is `c`. */
  lemma StripStartsWithChar(s: string, c: char)
    requires !IsSpace(c)
    ensures StartsWith(Strip(s), [c]) <==> (LStrip(s) != [] && LStrip(s)[0] == c)
  {
    var l := LStrip(s);
    LStripRemovesLeadingSpace(s);
    RStripRemovesTrailingSpace(l);
    var r := RStrip(l);
    if r != [] {
      assert r[0] == l[0];
    }
  }

  /** Index of the first line boundary in `s` at or after `i` (or |s| if there is none). */
  function LineEnd(s: string, i: nat): (j: nat)
    requires i <= |s|
    ensures i <= j <= |s|
    ensures forall k :: i <= k < j ==> !IsLineBoundary(s[k])
    ensures j < |s| ==> IsLineBoundary(s[j])
    decreases |s| - i
  {
    if i == |s| || IsLineBoundary(s[i]) then i else LineEnd(s, i + 1)
  }

  /** Where the line after the one ending at boundary index `j` starts: "\r\n" is one boundary. */
  function NextLineStart(s: string, j: nat): (n: nat)
    requires j <= |s|
    ensures j < |s| ==> j < n <= |s|
    ensures j == |s| ==> n == j
  {
    if j == |s| then j
    else if s[j] == '\r' && j + 1 < |s| && s[j + 1] == '\n' then j + 2
    else j + 1
  }

  /** `s.splitlines()`: the lines of `s` without their boundaries; a boundary at the
      very end does not start an empty last line, and the empty string has no lines. */
  function SplitLines(s: string): (lines: seq<string>)
    ensures forall k :: 0 <= k < |lines| ==> NoLineBoundary(lines[k])
    decreases |s|
  {
    if s == [] then []
    else
      var j := LineEnd(s, 0);
      [s[..j]] + SplitLines(s[NextLineStart(s, j)..])
  }

  /** Each line followed by "\n", concatenated: what the registrar writes back. */
  function JoinLines(lines: seq<string>): string {
    if lines == [] then "" else lines[0] + "\n" + JoinLines(lines[1..])
  }

  lemma {:induction false} JoinLinesAppend(lines: seq<string>, line: string)
    ensures JoinLines(lines + [line]) == JoinLines(lines) + line + "\n"
  {
    if lines == [] {
      assert lines + [line] == [line];
    } else {
      assert (lines + [line])[1..] == lines[1..] + [line];
      JoinLinesAppend(lines[1..], line);
    }
  }

  /** Splitting what JoinLines wrote gives back the lines, provided no line holds a
      line boundary of its own. */
  lemma {:induction false} SplitJoinLines(lines: seq<string>)
    requires forall k :: 0 <= k < |lines| ==> NoLineBoundary(lines[k])
    ensures SplitLines(JoinLines(lines)) == lines
  {
    if lines != [] {
      var s := JoinLines(lines);
      var first := lines[0];
      assert s == first + "\n" + JoinLines(lines[1..]);
      assert s[|first|] == '\n';
      var j := LineEnd(s, 0);
      assert j == |first| by {
        assert forall k :: 0 <= k < |first| ==> s[k] == first[k];
      }
      assert NextLineStart(s, j) == j + 1;
      assert s[..j] == first;
      assert s[j + 1..] == JoinLines(lines[1..]);
      SplitJoinLines(lines[1..]);
    }
  }

  /** The only line boundaries in `s` are "\n" characters. */
  ghost predicate OnlyNewlines(s: string) {
    forall k :: 0 <= k < |s| && IsLineBoundary(s[k]) ==> s[k] == '\n'
  }

  /** For text whose only line boundaries are "\n" and that is empty or ends in "\n",
      splitting into lines and writing each back with "\n" reproduces it exactly. */
  lemma {:induction false} JoinSplitLines(s: string)
    requires OnlyNewlines(s)
    requires s == [] || s[|s| - 1] == '\n'
    ensures JoinLines(SplitLines(s)) == s
    decreases |s|
  {
    if s != [] {
      var j := LineEnd(s, 0);
      assert j < |s| by {
        assert IsLineBoundary(s[|s| - 1]);
      }
      var rest := s[j + 1..];
      FirstLineOfNewlineText(s, j);
      SplitAtNewline(s, j);
      JoinSplitLines(rest);
    }
  }

  /** One step of JoinSplitLines: the first line ends at a "\n" and the rest keeps
      both preconditions. */
  lemma FirstLineOfNewlineText(s: string, j: nat)
    requires OnlyNewlines(s) && j == LineEnd(s, 0) && j < |s|
    ensures s[j] == '\n' && s == s[..j] + "\n" + s[j + 1..]
    ensures OnlyNewlines(s[j + 1..])
    ensures (s[j + 1..] == [] || s[|s| - 1] == s[j + 1..][|s[j + 1..]| - 1])
  {
    assert s[j] == '\n' by {
      assert IsLineBoundary(s[j]);
    }
    var rest := s[j + 1..];
    forall k | 0 <= k < |rest| && IsLineBoundary(rest[k]) ensures rest[k] == '\n' {
      assert rest[k] == s[j + 1 + k];
    }
    assert s[j..] == [s[j]] + rest;
    assert s == s[..j] + s[j..];
  }

  lemma SplitAtNewline(s: string, j: nat)
    requires j == LineEnd(s, 0) && j < |s| && s[j] == '\n'
    ensures SplitLines(s) == [s[..j]] + SplitLines(s[j + 1..])
  {
    assert NextLineStart(s, j) == j + 1;
  }

  /** Every line `splitlines` produces is a substring of the text. */
  lemma {:induction false} SplitLinesAreSubstrings(s: string)
    ensures forall k :: 0 <= k < |SplitLines(s)| ==> Contains(s, SplitLines(s)[k])
    decreases |s|
  {
    if s != [] {
      var j := LineEnd(s, 0);
      var n := NextLineStart(s, j);
      var lines := SplitLines(s);
      var rest := SplitLines(s[n..]);
      assert lines == [s[..j]] + rest;
      SplitLinesAreSubstrings(s[n..]);
      forall k | 0 <= k < |lines|
        ensures Contains(s, lines[k])
      {
        if k == 0 {
          assert s[0..] == s;
          assert StartsWith(s[0..], s[..j]);
        } else {
          assert lines[k] == rest[k - 1];
          ContainsInSuffix(s, n, lines[k]);
        }
      }
    }
  }

  /** A substring of a suffix is a substring of the whole. */
  lemma ContainsInSuffix(s: string, n: nat, t: string)
    requires n <= |s| && Contains(s[n..], t)
    ensures Contains(s, t)
  {
    var i :| 0 <= i <= |s[n..]| && StartsWith(s[n..][i..], t);
    assert s[n..][i..] == s[n + i..];
  }

  /** A substring of a substring is a substring. */
  lemma ContainsTransitive(s: string, t: string, u: string)
    requires Contains(s, t) && Contains(t, u)
    ensures Contains(s, u)
  {
    var i :| 0 <= i <= |s| && StartsWith(s[i..], t);
    var j :| 0 <= j <= |t| && StartsWith(t[j..], u);
    forall k | 0 <= k < |u| ensures s[i + j + k] == u[k] {
      calc {
        u[k];
        t[j..][..|u|][k];
        t[j + k];
        s[i..][..|t|][j + k];
        s[i + j + k];
      }
    }
    assert s[i + j..][..|u|] == u;
    assert StartsWith(s[i + j..], u);
  }

  /** Each piece of a concatenation is a substring of it. */
  lemma ContainsMiddle(a: string, t: string, b: string)
    ensures Contains(a + t + b, t)
  {
    assert (a + t + b)[|a|..][..|t|] == t;
  }

  /** A non-empty substring's first character occurs in the text. */
  lemma ContainsFirstChar(s: string, t: string)
    requires Contains(s, t) && t != []
    ensures t[0] in s
  {
    var i :| 0 <= i <= |s| && StartsWith(s[i..], t);
    assert s[i..][..|t|][0] == s[i];
  }

  /** Each line is a substring of the text JoinLines writes. */
  lemma {:induction false} JoinLinesContains(lines: seq<string>, k: nat)
    requires k < |lines|
    ensures Contains(JoinLines(lines), lines[k])
  {
    if k == 0 {
      ContainsMiddle("", lines[0], "\n" + JoinLines(lines[1..]));
      assert "" + lines[0] + ("\n" + JoinLines(lines[1..])) == JoinLines(lines);
    } else {
      JoinLinesContains(lines[1..], k - 1);
      var n := |lines[0]| + 1;
      assert JoinLines(lines)[n..] == JoinLines(lines[1..]);
      ContainsInSuffix(JoinLines(lines), n, lines[k]);
    }
  }
}
