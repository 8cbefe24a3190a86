/**
 * Running `fix_project_references` a second time over its own output. With the
 * pattern as written, `\s*` also steps over line breaks, so a second run can find
 * a match that starts before a replacement the first run made and reaches into
 * it (FixTwiceDiffers). When the whitespace runs stay on one line, every match the
 * second run finds is a replacement the first run wrote, character for character,
 * and the second run changes nothing (FixSingleLineIdempotent).
 */
module FixedPoint {
  import opened Wrappers
  import opened Text
  import opened References
  import opened Names

  /** An unfinished assignment, whose value's closing quote sits after a line break,
      followed by a line that starts with "=". */
  const Opening := "ROOT_URLCONF=\""
  const Unfinished := Opening + "ROOT_URLCONF\n=\"\""

  /** What a first run over Unfinished produces, and what a second run produces from that. */
  const FixedOnce := Opening + "ROOT_URLCONF = \"s.urls\""
  const LeftBehind := "s.urls\""
  const FixedTwice := "ROOT_URLCONF = \"s.urls\"" + LeftBehind

  /** As written, a second run over the output of a first run can change it again. */
  lemma FixTwiceDiffers()
    ensures FixProjectReferences(Unfinished, "s") == FixedOnce
    ensures FixProjectReferences(FixedOnce, "s") == FixedTwice
    ensures FixProjectReferences(FixProjectReferences(Unfinished, "s"), "s")
            != FixProjectReferences(Unfinished, "s")
  {
    RootPassOnUnfinished();
    NoWsgiIn(FixedOnce);
    SubWithoutKeyStart(FixedOnce, WsgiKey, Assignment(WsgiKey, WsgiValue("s")), true);
    RootPassOnFixedOnce();
    NoWsgiIn(FixedTwice);
    SubWithoutKeyStart(FixedTwice, WsgiKey, Assignment(WsgiKey, WsgiValue("s")), true);
    assert |FixedTwice| != |FixedOnce|;
  }

  lemma RootReplacement()
    ensures Assignment(RootKey, RootValue("s")) == "ROOT_URLCONF = \"s.urls\""
  {
  }

  /** The first run: no match before index 14, where the match runs to the end. */
  lemma RootPassOnUnfinished()
    ensures Sub(Unfinished, RootKey, Assignment(RootKey, RootValue("s")), true) == FixedOnce
  {
    var t := Unfinished;
    var r1 := Assignment(RootKey, RootValue("s"));
    UnfinishedNoEarlyMatch();
    UnfinishedMatchAt14();
    SubFirstMatch(t, RootKey, r1, true, 14, 16);
    UnfinishedParts();
    assert Sub(t[30..], RootKey, r1, true) == [];
    RootReplacement();
    assert t[..14] + r1 + [] == Opening + r1;
  }

  lemma UnfinishedParts()
    ensures Unfinished[..14] == Opening && Unfinished[30..] == []
  {
  }

  /** The second run: the match at index 0 now reaches the opening quote of the
      replacement, and the replacement's value is left behind after it. */
  lemma RootPassOnFixedOnce()
    ensures Sub(FixedOnce, RootKey, Assignment(RootKey, RootValue("s")), true) == FixedTwice
  {
    var w := FixedOnce;
    var r1 := Assignment(RootKey, RootValue("s"));
    FixedOnceMatchAt0();
    assert w[0..] == w;
    SubFirstMatch(w, RootKey, r1, true, 0, 30);
    FixedOnceTail(r1);
    RootReplacement();
    assert w[..0] + r1 + w[30..] == r1 + w[30..];
  }

  /** What the match at index 0 of FixedOnce leaves behind, and it holds no match. */
  lemma FixedOnceTail(r1: string)
    ensures FixedOnce[30..] == LeftBehind
    ensures Sub(FixedOnce[30..], RootKey, r1, true) == FixedOnce[30..]
  {
    var rest := FixedOnce[30..];
    assert rest == LeftBehind;
    SubWithoutKeyStart(rest, RootKey, r1, true);
  }

  lemma FixedOnceMatchAt0()
    ensures Match(FixedOnce, RootKey, true) == Some(30)
  {
    var w := FixedOnce;
    assert StartsWith(w, RootKey);
    assert SkipGap(w, 12, true) == 12;
    assert SkipGap(w, 13, true) == 13;
    CloseQuoteFinds(w, 14, 29);
  }

  lemma NoWsgiIn(s: string)
    requires s == FixedOnce || s == FixedTwice
    ensures WsgiKey[0] !in s
  {
  }

  lemma UnfinishedNoEarlyMatch()
    ensures forall i :: 0 <= i < 14 ==> Match(Unfinished[i..], RootKey, true).None?
  {
    var t := Unfinished;
    forall i | 0 <= i < 14 ensures Match(t[i..], RootKey, true).None? {
      if i == 0 {
        UnfinishedNoMatchAt0();
      } else if i == 6 {
        KeyMismatch(t[i..], RootKey, true, 1);
      } else {
        KeyMismatch(t[i..], RootKey, true, 0);
      }
    }
  }

  lemma UnfinishedNoMatchAt0()
    ensures Match(Unfinished, RootKey, true).None?
  {
    var t := Unfinished;
    assert StartsWith(t, RootKey);
    assert SkipGap(t, 12, true) == 12;
    assert SkipGap(t, 13, true) == 13;
    CloseQuoteStopsAtLineBreak(t, 14, 26);
  }

  lemma UnfinishedMatchAt14()
    ensures Match(Unfinished[14..], RootKey, true) == Some(16)
  {
    var u := Unfinished[14..];
    assert u == "ROOT_URLCONF\n=\"\"";
    assert StartsWith(u, RootKey);
    assert SkipGap(u, 14, true) == 14;
    assert SkipGap(u, 13, true) == 13;
    assert SkipGap(u, 12, true) == 13;
    assert CloseQuote(u, 15) == Some(15);
  }

  /** A text whose j-th character differs from the key's does not start a match. */
  lemma KeyMismatch(s: string, key: string, multiline: bool, j: nat)
    requires j < |key| && (j < |s| ==> s[j] != key[j])
    ensures Match(s, key, multiline).None?
  {
    if |key| <= |s| {
      assert s[..|key|][j] == s[j];
    }
  }

  lemma CloseQuoteStopsAtLineBreak(s: string, i: nat, j: nat)
    requires i <= j < |s| && s[j] == '\n'
    requires forall k :: i <= k < j ==> !IsQuote(s[k]) && s[k] != '\n'
    ensures CloseQuote(s, i).None?
    decreases j - i
  {
    if i < j {
      CloseQuoteStopsAtLineBreak(s, i + 1, j);
    }
  }

  /** A character that can be part of a key or end a replacement's value: neither
      whitespace, nor "=", nor a quote. */
  predicate IsWordChar(c: char) {
    !IsSpace(c) && c != '=' && !IsQuote(c)
  }

  ghost predicate IsKeyword(key: string) {
    |key| >= 2 && forall k :: 0 <= k < |key| ==> IsWordChar(key[k])
  }

  /** A value a replacement can write between its quotes without ending early or
      leaving its line, and whose last character cannot precede an "=". */
  ghost predicate IsValue(value: string) {
    |value| >= 1 && (forall k :: 0 <= k < |value| ==> IsPlain(value[k]))
    && IsWordChar(value[|value| - 1])
  }

  /** No later position of `a` begins with the first two characters of `b`, and the
      last character of `a` is not the first of `b`. */
  ghost predicate NoOverlap(a: string, b: string) {
    |b| >= 2 && forall p :: 1 <= p < |a| ==> a[p] != b[0] || (p + 1 < |a| && a[p + 1] != b[1])
  }

  /** A match at the start of `t`, if there is one, spells `repl`. */
  ghost predicate MatchesAs(t: string, key: string, repl: string, multiline: bool) {
    Match(t, key, multiline).Some? ==> t[..Match(t, key, multiline).value] == repl
  }

  /** Every match in `s` spells `repl`. */
  ghost predicate Canonical(s: string, key: string, repl: string, multiline: bool) {
    forall i :: 0 <= i < |s| ==> MatchesAs(s[i..], key, repl, multiline)
  }

  lemma StartsWithChars(s: string, p: string)
    requires StartsWith(s, p)
    ensures forall k :: 0 <= k < |p| ==> s[k] == p[k]
  {
    forall k | 0 <= k < |p| ensures s[k] == p[k] {
      assert s[..|p|][k] == s[k];
    }
  }

  lemma SameUpTo(s: string, t: string, n: nat)
    requires n <= |s| && n <= |t| && s[..n] == t[..n]
    ensures forall k :: 0 <= k < n ==> s[k] == t[k]
  {
    forall k | 0 <= k < n ensures s[k] == t[k] {
      assert s[..n][k] == t[..n][k];
    }
  }

  /** The characters of `Assignment(key, value) + y`, position by position. */
  lemma AssignmentChars(key: string, value: string, y: string)
    ensures var z := Assignment(key, value) + y;
            && (forall j :: 0 <= j < |key| ==> z[j] == key[j])
            && z[|key|] == ' ' && z[|key| + 1] == '=' && z[|key| + 2] == ' ' && z[|key| + 3] == '"'
            && (forall j :: |key| + 4 <= j < |key| + 4 + |value| ==> z[j] == value[j - |key| - 4])
            && z[|key| + 4 + |value|] == '"'
            && (forall j :: |key| + 5 + |value| <= j < |z| ==> z[j] == y[j - |key| - 5 - |value|])
  {
    var r := Assignment(key, value);
    var z := r + y;
    StartsWithChars(r, key);
    assert forall j :: 0 <= j < |r| ==> z[j] == r[j];
    assert r[|key|..|key| + 4][0] == ' ' && r[|key|..|key| + 4][1] == '=';
    assert r[|key|..|key| + 4][2] == ' ' && r[|key|..|key| + 4][3] == '"';
    forall j | |key| + 4 <= j < |key| + 4 + |value| ensures z[j] == value[j - |key| - 4] {
      assert r[|key| + 4..|r| - 1][j - |key| - 4] == r[j];
    }
  }

  /** A replacement is itself a match, and it spans exactly the replacement. */
  lemma ReplacementMatches(key: string, value: string, y: string)
    requires IsKeyword(key) && IsValue(value)
    ensures Match(Assignment(key, value) + y, key, false) == Some(|Assignment(key, value)|)
    ensures (Assignment(key, value) + y)[..|Assignment(key, value)|] == Assignment(key, value)
  {
    var r := Assignment(key, value);
    var z := r + y;
    AssignmentChars(key, value, y);
    assert z[..|key|] == key;
    assert PatternAt(z, key, false, |key| + 1, |key| + 3, |r|);
    MatchComplete(z, key, false, |key| + 1, |key| + 3, |r|);
  }

  /** No match of a keyword that `key` does not overlap starts strictly inside a
      replacement for `key`. */
  lemma InsideReplacement(key: string, value: string, key2: string, y: string, p: nat)
    requires IsKeyword(key) && IsValue(value) && IsKeyword(key2) && NoOverlap(key, key2)
    requires 1 <= p < |Assignment(key, value)|
    ensures Match((Assignment(key, value) + y)[p..], key2, false).None?
  {
    var r := Assignment(key, value);
    var zz := r + y;
    var z := zz[p..];
    var n := |key|;
    AssignmentChars(key, value, y);
    assert z[0] == zz[p];
    if p < n {
      if key[p] != key2[0] {
        KeyMismatch(z, key2, false, 0);
      } else {
        assert z[1] == zz[p + 1];
        KeyMismatch(z, key2, false, 1);
      }
    } else if p < n + 4 || p == |r| - 1 {
      KeyMismatch(z, key2, false, 0);
    } else {
      // Inside the value: the first quote is the closing one, and the character
      // before it cannot end a run of whitespace or an "=".
      var c := |r| - 1 - p;
      assert z[c] == zz[|r| - 1] == '"';
      assert z[c - 1] == zz[|r| - 2] == value[|value| - 1];
      forall k | 0 <= k < c ensures !IsQuote(z[k]) {
        assert z[k] == zz[p + k] == value[p + k - n - 4];
      }
      NoMatchBeforeWordQuote(z, key2, c);
    }
  }

  /** A text whose first quote follows a character that is neither whitespace nor "="
      does not start a match. */
  lemma NoMatchBeforeWordQuote(z: string, key2: string, c: nat)
    requires IsKeyword(key2) && 1 <= c < |z| && IsQuote(z[c]) && IsWordChar(z[c - 1])
    requires forall k :: 0 <= k < c ==> !IsQuote(z[k])
    ensures Match(z, key2, false).None?
  {
    forall a: nat, b: nat, e: nat ensures !PatternAt(z, key2, false, a, b, e) {
      NotPatternBeforeWordQuote(z, key2, c, a, b, e);
    }
    if Match(z, key2, false).Some? {
      var a, b := MatchSound(z, key2, false);
    }
  }

  lemma NotPatternBeforeWordQuote(z: string, key2: string, c: nat, a: nat, b: nat, e: nat)
    requires IsKeyword(key2) && 1 <= c < |z| && IsQuote(z[c]) && IsWordChar(z[c - 1])
    requires forall k :: 0 <= k < c ==> !IsQuote(z[k])
    ensures !PatternAt(z, key2, false, a, b, e)
  {
    if StartsWith(z, key2) && |key2| <= a < b < e - 1 && e <= |z| && IsQuote(z[b]) {
      StartsWithChars(z, key2);
      if b == c {
        assert a <= c - 1;
        assert !IsGap(z[c - 1], false) && z[c - 1] != '=';
      } else {
        assert c < b;
        assert !IsGap(z[c], false) && z[c] != '=';
      }
    }
  }

  /** A match in the rewritten text `x` that starts before the replacement at q and
      reaches into it was already a match in the text `s` before rewriting: one that
      ends at the opening quote of the match that was replaced. */
  lemma ThroughRewrite(s: string, x: string, q: nat, key: string, key2: string,
                       a0: nat, b0: nat, e0: nat, a: nat, b: nat, e: nat)
    requires 1 <= q <= |s| && q <= |x| && s[..q] == x[..q]
    requires IsKeyword(key) && IsKeyword(key2) && NoOverlap(key2, key)
    requires StartsWith(x[q..], key)
    requires PatternAt(s[q..], key, false, a0, b0, e0)
    requires PatternAt(x, key2, false, a, b, e) && q < e
    ensures b < q && Match(s, key2, false) == Some(q + b0 + 1) && q + 2 <= q + b0 + 1 < q + e0
    ensures var m := Match(s, key2, false).value; IsGap(s[m - 2], false) || s[m - 2] == '='
  {
    StartsWithChars(x[q..], key);
    assert x[q] == x[q..][0] == key[0] && x[q + 1] == x[q..][1] == key[1];
    StartsWithChars(x, key2);
    assert q >= |key2|;
    assert b < q;
    SameUpTo(s, x, q);
    forall k | q <= k < q + b0 ensures IsPlain(s[k]) {
      assert s[k] == s[q..][k - q];
    }
    assert s[q + b0] == s[q..][b0];
    assert s[q + b0 - 1] == s[q..][b0 - 1];
    assert s[..|key2|] == x[..|key2|];
    MatchComplete(s, key2, false, a, b, q + b0 + 1);
    assert Match(s, key2, false).value - 2 == q + b0 - 1;
  }

  lemma CanonicalSuffix(s: string, key: string, repl: string, multiline: bool, d: nat)
    requires d <= |s| && Canonical(s, key, repl, multiline)
    ensures Canonical(s[d..], key, repl, multiline)
  {
    forall i | 0 <= i < |s| - d ensures MatchesAs(s[d..][i..], key, repl, multiline) {
      assert s[d..][i..] == s[d + i..];
    }
  }

  lemma CanonicalHead(s: string, key: string, repl: string, multiline: bool)
    requires s != [] && Canonical(s, key, repl, multiline)
    ensures MatchesAs(s, key, repl, multiline)
  {
    assert s[0..] == s;
  }

  /** A pass over text in which every match already spells the replacement leaves the
      text as it is, whichever way `\s` is read. */
  lemma {:induction false} CanonicalFixed(s: string, key: string, repl: string, multiline: bool)
    requires Canonical(s, key, repl, multiline)
    ensures Sub(s, key, repl, multiline) == s
    decreases |s|
  {
    if s != [] {
      CanonicalHead(s, key, repl, multiline);
      match Match(s, key, multiline)
      case Some(e) =>
        CanonicalSuffix(s, key, repl, multiline, e);
        CanonicalFixed(s[e..], key, repl, multiline);
        FixedAtMatch(s, key, repl, multiline, e);
      case None =>
        CanonicalSuffix(s, key, repl, multiline, 1);
        CanonicalFixed(s[1..], key, repl, multiline);
        FixedAtPlain(s, key, repl, multiline);
    }
  }

  lemma FixedAtMatch(s: string, key: string, repl: string, multiline: bool, e: nat)
    requires Match(s, key, multiline) == Some(e) && s[..e] == repl
    requires Sub(s[e..], key, repl, multiline) == s[e..]
    ensures Sub(s, key, repl, multiline) == s
  {
    SubStep(s, key, repl, multiline);
    Reassemble(s, e, repl, Sub(s[e..], key, repl, multiline));
  }

  lemma Reassemble(s: string, e: nat, head: string, tail: string)
    requires e <= |s| && s[..e] == head && tail == s[e..]
    ensures head + tail == s
  {
  }

  lemma FixedAtPlain(s: string, key: string, repl: string, multiline: bool)
    requires s != [] && Match(s, key, multiline).None?
    requires Sub(s[1..], key, repl, multiline) == s[1..]
    ensures Sub(s, key, repl, multiline) == s
  {
    SubStep(s, key, repl, multiline);
    assert [s[0]] + s[1..] == s;
  }

  /** After one pass, no match of the same key starts in the unmatched text before a
      replacement: `t` is the text from some unmatched position on, and `x` the same
      text after its first d characters, which contain no match, are followed by the
      replacement of the match at d. */
  lemma SameKeyBeforeReplacement(t: string, x: string, d: nat, key: string, value: string, y: string)
    requires IsKeyword(key) && IsValue(value) && NoOverlap(key, key)
    requires 1 <= d < |t| && d <= |x| && t[..d] == x[..d] && x[d..] == Assignment(key, value) + y
    requires Match(t[d..], key, false).Some? && Match(t, key, false).None?
    ensures Match(x, key, false).None?
  {
    ReplacementStartsWithKey(key, value, y);
    if Match(x, key, false).Some? {
      if Match(x, key, false).value <= d {
        MatchBeforeRewrite(t, x, d, key);
      } else {
        MatchThroughRewrite(t, x, d, key, key);
      }
    }
  }

  lemma ReplacementStartsWithKey(key: string, value: string, y: string)
    ensures StartsWith(Assignment(key, value) + y, key)
  {
    AssignmentChars(key, value, y);
    assert (Assignment(key, value) + y)[..|key|] == key;
  }

  /** A match that ends before the first difference between two texts is a match in both. */
  lemma MatchBeforeRewrite(t: string, x: string, d: nat, key: string)
    requires d <= |t| && d <= |x| && t[..d] == x[..d]
    requires Match(x, key, false).Some? && Match(x, key, false).value <= d
    ensures Match(t, key, false) == Match(x, key, false)
  {
    var e := Match(x, key, false).value;
    var a, b := MatchSound(x, key, false);
    ShorterPrefix(t, x, d, e);
    PatternOnPrefix(x, t, key, false, a, b, e);
    MatchComplete(t, key, false, a, b, e);
  }

  lemma ShorterPrefix(t: string, x: string, d: nat, e: nat)
    requires e <= d <= |t| && d <= |x| && t[..d] == x[..d]
    ensures x[..e] == t[..e]
  {
    assert t[..e] == t[..d][..e];
    assert x[..e] == x[..d][..e];
  }

  /** ThroughRewrite, stated about the matcher. */
  lemma MatchThroughRewrite(t: string, x: string, d: nat, key: string, key2: string)
    requires 1 <= d < |t| && d <= |x| && t[..d] == x[..d]
    requires IsKeyword(key) && IsKeyword(key2) && NoOverlap(key2, key)
    requires StartsWith(x[d..], key) && Match(t[d..], key, false).Some?
    requires Match(x, key2, false).Some? && Match(x, key2, false).value > d
    ensures Match(t, key2, false).Some?
    ensures d + 2 <= Match(t, key2, false).value < Match(t[d..], key, false).value + d
    ensures var c := t[Match(t, key2, false).value - 2]; IsGap(c, false) || c == '='
  {
    var a0, b0 := MatchSound(t[d..], key, false);
    var a, b := MatchSound(x, key2, false);
    ThroughRewrite(t, x, d, key, key2, a0, b0, Match(t[d..], key, false).value, a, b,
                   Match(x, key2, false).value);
  }

  /** A match of another key that starts in unmatched text before a replacement was
      already there before the pass, and spelled its own replacement then: `t` is the
      text from some position on before the pass, `x` the same text after it. */
  lemma OtherKeyBeforeReplacement(t: string, x: string, d: nat, key1: string, value1: string,
                                  key2: string, value2: string, y: string)
    requires IsKeyword(key1) && IsValue(value1) && IsKeyword(key2) && IsValue(value2)
    requires NoOverlap(key1, key2)
    requires 1 <= d < |t| && d <= |x| && t[..d] == x[..d] && x[d..] == Assignment(key2, value2) + y
    requires Match(t[d..], key2, false).Some? && MatchesAs(t, key1, Assignment(key1, value1), false)
    ensures MatchesAs(x, key1, Assignment(key1, value1), false)
  {
    ReplacementStartsWithKey(key2, value2, y);
    if Match(x, key1, false).Some? {
      if Match(x, key1, false).value <= d {
        MatchedBeforeRewrite(t, x, d, key1, Assignment(key1, value1));
      } else {
        NoMatchThroughRewrite(t, x, d, key1, value1, key2);
      }
    }
  }

  lemma MatchedBeforeRewrite(t: string, x: string, d: nat, key: string, repl: string)
    requires d <= |t| && d <= |x| && t[..d] == x[..d]
    requires Match(x, key, false).Some? && Match(x, key, false).value <= d
    requires MatchesAs(t, key, repl, false)
    ensures MatchesAs(x, key, repl, false)
  {
    var e := Match(x, key, false).value;
    MatchBeforeRewrite(t, x, d, key);
    assert t[..e] == t[..d][..e];
    assert x[..e] == x[..d][..e];
  }

  /** A match of key1 reaching into a replacement for key2 would be one in `t` whose
      closing quote follows whitespace or "=", while the replacement for key1 it must
      spell has its closing quote after the value's last character. */
  lemma NoMatchThroughRewrite(t: string, x: string, d: nat, key1: string, value1: string, key2: string)
    requires IsKeyword(key1) && IsValue(value1) && IsKeyword(key2) && NoOverlap(key1, key2)
    requires 1 <= d < |t| && d <= |x| && t[..d] == x[..d]
    requires StartsWith(x[d..], key2) && Match(t[d..], key2, false).Some?
    requires MatchesAs(t, key1, Assignment(key1, value1), false)
    ensures !(Match(x, key1, false).Some? && Match(x, key1, false).value > d)
  {
    if Match(x, key1, false).Some? && Match(x, key1, false).value > d {
      MatchThroughRewrite(t, x, d, key2, key1);
      SpelledReplacementEnd(t, Match(t, key1, false).value, key1, value1);
    }
  }

  /** In a text that begins with a replacement, the character before the replacement's
      closing quote is the value's last. */
  lemma SpelledReplacementEnd(t: string, m: nat, key: string, value: string)
    requires IsValue(value) && 2 <= m <= |t| && t[..m] == Assignment(key, value)
    ensures IsWordChar(t[m - 2])
  {
    var r := Assignment(key, value);
    AssignmentChars(key, value, []);
    assert r + [] == r;
    assert t[..m][m - 2] == t[m - 2];
  }

  /** Each position of the text one pass produces, split into the unmatched text before
      its first replacement, that replacement, and the rest of the output. */
  lemma CanonicalAfterFirstPiece(s: string, q: nat, key: string, value: string, rest: string,
                                 out: string, i: nat)
    requires IsKeyword(key) && IsValue(value) && NoOverlap(key, key)
    requires q < |s| && Match(s[q..], key, false).Some?
    requires forall k :: 0 <= k < q ==> Match(s[k..], key, false).None?
    requires Canonical(rest, key, Assignment(key, value), false)
    requires out == s[..q] + Assignment(key, value) + rest && i < |out|
    ensures MatchesAs(out[i..], key, Assignment(key, value), false)
  {
    var r := Assignment(key, value);
    if i >= q + |r| {
      CanonicalInRest(s[..q] + r, key, r, rest, out, i - q - |r|);
    } else if i >= q {
      ReplacementCanonical(s[..q], key, value, key, r, rest, out, i - q);
    } else {
      CanonicalBeforeFirstPiece(s, q, key, value, rest, out, i);
    }
  }

  lemma CanonicalInRest(head: string, key: string, repl: string, rest: string, out: string, k: nat)
    requires Canonical(rest, key, repl, false)
    requires out == head + rest && k < |rest|
    ensures MatchesAs(out[|head| + k..], key, repl, false)
  {
    InRest(head, rest, k);
  }

  lemma CanonicalBeforeFirstPiece(s: string, q: nat, key: string, value: string, rest: string,
                                  out: string, i: nat)
    requires IsKeyword(key) && IsValue(value) && NoOverlap(key, key)
    requires i < q < |s| && Match(s[q..], key, false).Some?
    requires forall k :: 0 <= k < q ==> Match(s[k..], key, false).None?
    requires out == s[..q] + Assignment(key, value) + rest
    ensures MatchesAs(out[i..], key, Assignment(key, value), false)
  {
    var r := Assignment(key, value);
    BeforeReplacement(s, r + rest, q, i);
    assert Match(s[i..], key, false).None?;
    SameKeyBeforeReplacement(s[i..], out[i..], q - i, key, value, rest);
  }

  /** At every position of a replacement, a match of `key2` spells the replacement for
      `key2`: either `key2` is `key` and the position is the replacement's start, or
      there is no match there. */
  lemma ReplacementCanonical(head: string, key: string, value: string, key2: string, repl2: string,
                             rest: string, out: string, k: nat)
    requires IsKeyword(key) && IsValue(value) && IsKeyword(key2) && NoOverlap(key, key2)
    requires (key2 == key && repl2 == Assignment(key, value)) || key2[0] != key[0]
    requires out == head + Assignment(key, value) + rest && k < |Assignment(key, value)|
    ensures MatchesAs(out[|head| + k..], key2, repl2, false)
  {
    var r := Assignment(key, value);
    assert out == head + (r + rest);
    InReplacement(head, r + rest, k);
    if k == 0 {
      if key2 == key {
        ReplacementMatches(key, value, rest);
      } else {
        ReplacementStartsWithKey(key, value, rest);
        StartsWithChars(r + rest, key);
        KeyMismatch(r + rest, key2, false, 0);
      }
      assert (r + rest)[0..] == r + rest;
    } else {
      InsideReplacement(key, value, key2, rest, k);
    }
  }

  lemma InRest(head: string, rest: string, k: nat)
    requires k < |rest|
    ensures (head + rest)[|head| + k..] == rest[k..]
  {
  }

  lemma InReplacement(head: string, tail: string, k: nat)
    requires k < |tail|
    ensures (head + tail)[|head| + k..] == tail[k..]
  {
  }

  lemma BeforeReplacement(s: string, tail: string, q: nat, i: nat)
    requires i < q <= |s|
    ensures var x := (s[..q] + tail)[i..];
            s[i..][..q - i] == x[..q - i] && s[i..][q - i..] == s[q..] && x[q - i..] == tail
  {
  }

  /** After a pass of the single-line pattern, every match in its output is a
      replacement the pass wrote. */
  lemma {:induction false} SubCanonical(s: string, key: string, value: string)
    requires IsKeyword(key) && IsValue(value) && NoOverlap(key, key)
    ensures Canonical(Sub(s, key, Assignment(key, value), false), key, Assignment(key, value), false)
    decreases |s|
  {
    var r := Assignment(key, value);
    var found, q, e := SubFirstPiece(s, key, r, false);
    if found {
      var rest := Sub(s[q + e..], key, r, false);
      SubCanonical(s[q + e..], key, value);
      var out := s[..q] + r + rest;
      forall i | 0 <= i < |out| ensures MatchesAs(out[i..], key, r, false) {
        CanonicalAfterFirstPiece(s, q, key, value, rest, out, i);
      }
    }
  }

  /** The same split for a pass over another key: a match of key1 in its output still
      spells the replacement for key1. */
  lemma OtherKeyAfterFirstPiece(w: string, q: nat, key1: string, value1: string,
                                key2: string, value2: string, rest: string, out: string, i: nat)
    requires IsKeyword(key1) && IsValue(value1) && IsKeyword(key2) && IsValue(value2)
    requires NoOverlap(key1, key2) && NoOverlap(key2, key1) && key1[0] != key2[0]
    requires Canonical(w, key1, Assignment(key1, value1), false)
    requires q < |w| && Match(w[q..], key2, false).Some?
    requires Canonical(rest, key1, Assignment(key1, value1), false)
    requires out == w[..q] + Assignment(key2, value2) + rest && i < |out|
    ensures MatchesAs(out[i..], key1, Assignment(key1, value1), false)
  {
    var r1 := Assignment(key1, value1);
    var r2 := Assignment(key2, value2);
    if i >= q + |r2| {
      InRest(w[..q] + r2, rest, i - q - |r2|);
      assert MatchesAs(rest[i - q - |r2|..], key1, r1, false);
    } else if i >= q {
      ReplacementCanonical(w[..q], key2, value2, key1, r1, rest, out, i - q);
    } else {
      OtherKeyBeforeFirstPiece(w, q, key1, value1, key2, value2, rest, out, i);
    }
  }

  lemma OtherKeyBeforeFirstPiece(w: string, q: nat, key1: string, value1: string,
                                 key2: string, value2: string, rest: string, out: string, i: nat)
    requires IsKeyword(key1) && IsValue(value1) && IsKeyword(key2) && IsValue(value2)
    requires NoOverlap(key1, key2)
    requires Canonical(w, key1, Assignment(key1, value1), false)
    requires q < |w| && Match(w[q..], key2, false).Some?
    requires out == w[..q] + Assignment(key2, value2) + rest && i < q
    ensures MatchesAs(out[i..], key1, Assignment(key1, value1), false)
  {
    var r2 := Assignment(key2, value2);
    assert out == w[..q] + (r2 + rest);
    BeforeReplacement(w, r2 + rest, q, i);
    assert MatchesAs(w[i..], key1, Assignment(key1, value1), false);
    OtherKeyBeforeReplacement(w[i..], out[i..], q - i, key1, value1, key2, value2, rest);
  }

  /** A pass over key2 keeps every match of key1 spelling the replacement for key1. */
  lemma {:induction false} SubKeepsCanonical(w: string, key1: string, value1: string,
                                             key2: string, value2: string)
    requires IsKeyword(key1) && IsValue(value1) && IsKeyword(key2) && IsValue(value2)
    requires NoOverlap(key1, key2) && NoOverlap(key2, key1) && key1[0] != key2[0]
    requires Canonical(w, key1, Assignment(key1, value1), false)
    ensures Canonical(Sub(w, key2, Assignment(key2, value2), false), key1, Assignment(key1, value1), false)
    decreases |w|
  {
    var r1 := Assignment(key1, value1);
    var r2 := Assignment(key2, value2);
    var found, q, e := SubFirstPiece(w, key2, r2, false);
    if found {
      var rest := Sub(w[q + e..], key2, r2, false);
      CanonicalSuffix(w, key1, r1, false, q + e);
      SubKeepsCanonical(w[q + e..], key1, value1, key2, value2);
      var out := w[..q] + r2 + rest;
      forall i | 0 <= i < |out| ensures MatchesAs(out[i..], key1, r1, false) {
        OtherKeyAfterFirstPiece(w, q, key1, value1, key2, value2, rest, out, i);
      }
    }
  }

  lemma KeysDoNotOverlap()
    ensures IsKeyword(RootKey) && IsKeyword(WsgiKey) && RootKey[0] != WsgiKey[0]
    ensures NoOverlap(RootKey, RootKey) && NoOverlap(WsgiKey, WsgiKey)
    ensures NoOverlap(RootKey, WsgiKey) && NoOverlap(WsgiKey, RootKey)
  {
    RootKeyOverlaps();
    WsgiKeyOverlaps();
  }

  lemma RootKeyOverlaps()
    ensures IsKeyword(RootKey) && NoOverlap(RootKey, RootKey) && NoOverlap(RootKey, WsgiKey)
  {
  }

  lemma WsgiKeyOverlaps()
    ensures IsKeyword(WsgiKey) && NoOverlap(WsgiKey, WsgiKey) && NoOverlap(WsgiKey, RootKey)
  {
  }

  lemma ValuesEndInWordChars(safe: string)
    requires forall k :: 0 <= k < |safe| ==> IsPlain(safe[k])
    ensures IsValue(RootValue(safe)) && IsValue(WsgiValue(safe))
  {
  }

  /** With the whitespace runs kept on one line, and a safe name without quotes or line
      breaks, running the fixer over its own output changes nothing. */
  lemma FixSingleLineIdempotent(text: string, safe: string)
    requires '\\' !in safe
    requires forall k :: 0 <= k < |safe| ==> !IsQuote(safe[k]) && safe[k] != '\n'
    ensures var once := FixProjectReferencesSingleLine(text, safe);
            FixProjectReferencesSingleLine(once, safe) == once
  {
    KeysDoNotOverlap();
    ValuesEndInWordChars(safe);
    var r1 := Assignment(RootKey, RootValue(safe));
    var r2 := Assignment(WsgiKey, WsgiValue(safe));
    var w := Sub(text, RootKey, r1, false);
    SubCanonical(text, RootKey, RootValue(safe));
    var x := Sub(w, WsgiKey, r2, false);
    SubCanonical(w, WsgiKey, WsgiValue(safe));
    SubKeepsCanonical(w, RootKey, RootValue(safe), WsgiKey, WsgiValue(safe));
    CanonicalFixed(x, RootKey, r1, false);
    CanonicalFixed(x, WsgiKey, r2, false);
  }

  /** The same for the safe name the tool derives from a project name: a project
      name without quotes, line breaks or backslashes gives a fixer whose second run
      changes nothing. */
  lemma FixSafeNameIdempotent(text: string, name: string)
    requires '\\' !in name && '"' !in name && '\'' !in name && '\n' !in name
    ensures var once := FixProjectReferencesSingleLine(text, SafeName(name));
            FixProjectReferencesSingleLine(once, SafeName(name)) == once
  {
    var safe := SafeName(name);
    SafeNameKeepsOtherCharacters(name, '\\');
    SafeNameKeepsOtherCharacters(name, '"');
    SafeNameKeepsOtherCharacters(name, '\'');
    SafeNameKeepsOtherCharacters(name, '\n');
    assert forall k :: 0 <= k < |safe| ==> !IsQuote(safe[k]) && safe[k] != '\n';
    FixSingleLineIdempotent(text, safe);
  }
}

