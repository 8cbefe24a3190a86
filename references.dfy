/**
 * `fix_project_references`: two `re.sub` passes over the settings text that
 * point ROOT_URLCONF and WSGI_APPLICATION at the safe project name. The file
 * read and write are taken out; the operation maps text to text.
 *
 * Both passes use one pattern shape, KEY\s*=\s*["'].*?["'], matched by hand:
 * the literal key, whitespace, "=", whitespace, an opening quote of either kind,
 * then the shortest run of characters other than "\n" that reaches a quote of
 * either kind. `re.sub` replaces every match, scanning left to right over
 * non-overlapping matches; the scan is `Sub`, written over suffixes of the text.
 *
 * The `multiline` flag chooses what `\s` matches: with `true` every whitespace
 * character including "\n", as in the source; with `false` every whitespace
 * character except "\n", the corrected pattern under which a second pass leaves
 * the text unchanged (see FixTwiceDiffers and FixSingleLineIdempotent).
 */
module References {
  import opened Wrappers
  import opened Text
  import opened Names

  predicate IsQuote(c: char) {
    c == '"' || c == '\''
  }

  /** A character `\s` matches. */
  predicate IsGap(c: char, multiline: bool) {
    IsSpace(c) && (multiline || c != '\n')
  }

  /** A character the lazy `.*?` steps over: `.` takes anything but "\n", and the
      first quote it reaches ends the match. */
  predicate IsPlain(c: char) {
    c != '\n' && !IsQuote(c)
  }

  /** The greedy `\s*` starting at index i: the index of the first character it stops at. */
  function SkipGap(s: string, i: nat, multiline: bool): (j: nat)
    requires i <= |s|
    ensures i <= j <= |s|
    decreases |s| - i
  {
    if i < |s| && IsGap(s[i], multiline) then SkipGap(s, i + 1, multiline) else i
  }

  /** The lazy `.*?["']` starting at index i: the index of the closing quote, or None
      when a "\n" or the end of the text comes first. */
  function CloseQuote(s: string, i: nat): (r: Option<nat>)
    requires i <= |s|
    ensures r.Some? ==> i <= r.value < |s|
    decreases |s| - i
  {
    if i == |s| || s[i] == '\n' then None
    else if IsQuote(s[i]) then Some(i)
    else CloseQuote(s, i + 1)
  }

  /** SkipGap steps over whitespace only, and stops at the first other character. */
  lemma {:induction false} SkipGapStopsAtNonGap(s: string, i: nat, multiline: bool)
    requires i <= |s|
    ensures forall k :: i <= k < SkipGap(s, i, multiline) ==> IsGap(s[k], multiline)
    ensures SkipGap(s, i, multiline) < |s| ==> !IsGap(s[SkipGap(s, i, multiline)], multiline)
    decreases |s| - i
  {
    if i < |s| && IsGap(s[i], multiline) {
      SkipGapStopsAtNonGap(s, i + 1, multiline);
    }
  }

  /** CloseQuote reports a quote, and everything it stepped over is neither a quote nor "\n". */
  lemma {:induction false} CloseQuoteStopsAtQuote(s: string, i: nat)
    requires i <= |s| && CloseQuote(s, i).Some?
    ensures IsQuote(s[CloseQuote(s, i).value])
    ensures forall k :: i <= k < CloseQuote(s, i).value ==> IsPlain(s[k])
    decreases |s| - i
  {
    if !IsQuote(s[i]) {
      CloseQuoteStopsAtQuote(s, i + 1);
    }
  }

  /** The pattern KEY\s*=\s*["'].*?["'] tried at the start of `s`: the length of the
      match, or None. Only the whitespace runs could backtrack, and giving any of their
      characters back leaves a whitespace character where "=" or a quote is needed, so
      one greedy attempt decides the match. */
  function Match(s: string, key: string, multiline: bool): (r: Option<nat>)
    ensures r.Some? ==> |key| < r.value <= |s|
  {
    if !StartsWith(s, key) then None
    else
      var a := SkipGap(s, |key|, multiline);
      if a == |s| || s[a] != '=' then None
      else
        var b := SkipGap(s, a + 1, multiline);
        if b == |s| || !IsQuote(s[b]) then None
        else
          match CloseQuote(s, b + 1)
          case None => None
          case Some(c) => Some(c + 1)
  }

  /** s[..e] is an instance of the pattern: the key, whitespace up to the "=" at a,
      whitespace up to the opening quote at b, characters the lazy part steps over, and
      the closing quote at e - 1. */
  ghost predicate PatternAt(s: string, key: string, multiline: bool, a: nat, b: nat, e: nat) {
    && StartsWith(s, key) && |key| <= a < b < e - 1 && e <= |s|
    && (forall k :: |key| <= k < a ==> IsGap(s[k], multiline)) && s[a] == '='
    && (forall k :: a < k < b ==> IsGap(s[k], multiline)) && IsQuote(s[b])
    && (forall k :: b < k < e - 1 ==> IsPlain(s[k])) && IsQuote(s[e - 1])
  }

  /** Every match the matcher reports is an instance of the pattern. */
  lemma MatchSound(s: string, key: string, multiline: bool) returns (a: nat, b: nat)
    requires Match(s, key, multiline).Some?
    ensures PatternAt(s, key, multiline, a, b, Match(s, key, multiline).value)
  {
    a := SkipGap(s, |key|, multiline);
    b := SkipGap(s, a + 1, multiline);
    SkipGapStopsAtNonGap(s, |key|, multiline);
    SkipGapStopsAtNonGap(s, a + 1, multiline);
    CloseQuoteStopsAtQuote(s, b + 1);
  }

  /** Every instance of the pattern at the start of `s` is the match reported: in
      particular the pattern has at most one instance there. */
  lemma MatchComplete(s: string, key: string, multiline: bool, a: nat, b: nat, e: nat)
    requires PatternAt(s, key, multiline, a, b, e)
    ensures Match(s, key, multiline) == Some(e)
  {
    SkipGapStops(s, |key|, a, multiline);
    SkipGapStops(s, a + 1, b, multiline);
    CloseQuoteFinds(s, b + 1, e - 1);
  }

  lemma SkipGapStops(s: string, i: nat, j: nat, multiline: bool)
    requires i <= j < |s| && !IsGap(s[j], multiline)
    requires forall k :: i <= k < j ==> IsGap(s[k], multiline)
    ensures SkipGap(s, i, multiline) == j
    decreases j - i
  {
    if i < j {
      SkipGapStops(s, i + 1, j, multiline);
    }
  }

  lemma CloseQuoteFinds(s: string, i: nat, j: nat)
    requires i <= j < |s| && IsQuote(s[j])
    requires forall k :: i <= k < j ==> IsPlain(s[k])
    ensures CloseQuote(s, i) == Some(j)
    decreases j - i
  {
    if i < j {
      CloseQuoteFinds(s, i + 1, j);
    }
  }

  /** An instance of the pattern depends only on the characters it spans. */
  lemma PatternOnPrefix(s: string, t: string, key: string, multiline: bool, a: nat, b: nat, e: nat)
    requires PatternAt(s, key, multiline, a, b, e)
    requires e <= |t| && s[..e] == t[..e]
    ensures PatternAt(t, key, multiline, a, b, e)
  {
    assert forall k :: 0 <= k < e ==> s[k] == t[k] by {
      forall k | 0 <= k < e ensures s[k] == t[k] {
        assert s[..e][k] == t[..e][k];
      }
    }
    assert t[..|key|] == s[..|key|];
  }

  /** `re.sub(pattern, repl, s)`: every match, left to right and without overlap,
      replaced by `repl`; every character no match covers is kept. */
  function Sub(s: string, key: string, repl: string, multiline: bool): string
    decreases |s|
  {
    if s == [] then []
    else
      match Match(s, key, multiline)
      case Some(e) => repl + Sub(s[e..], key, repl, multiline)
      case None => [s[0]] + Sub(s[1..], key, repl, multiline)
  }

  /** Text before the first match is kept as it is. */
  lemma {:induction false} SubKeepsPrefix(s: string, key: string, repl: string, multiline: bool, q: nat)
    requires q <= |s|
    requires forall i :: 0 <= i < q ==> Match(s[i..], key, multiline).None?
    ensures Sub(s, key, repl, multiline) == s[..q] + Sub(s[q..], key, repl, multiline)
  {
    if q > 0 {
      assert Match(s[0..], key, multiline).None?;
      assert s[0..] == s;
      forall i | 0 <= i < q - 1
        ensures Match(s[1..][i..], key, multiline).None?
      {
        assert s[1..][i..] == s[i + 1..];
      }
      SubKeepsPrefix(s[1..], key, repl, multiline, q - 1);
      assert s[1..][q - 1..] == s[q..];
      SubStep(s, key, repl, multiline);
      ConsPrefix(s, q, Sub(s[q..], key, repl, multiline));
    }
  }

  lemma ConsPrefix(s: string, q: nat, tail: string)
    requires 0 < q <= |s|
    ensures [s[0]] + (s[1..][..q - 1] + tail) == s[..q] + tail
  {
    assert s[..q] == [s[0]] + s[1..][..q - 1];
  }

  /** The leftmost match is replaced, the text before it kept, and the scan resumes
      right after it. */
  lemma {:induction false} SubFirstMatch(s: string, key: string, repl: string, multiline: bool, q: nat, e: nat)
    requires q < |s| && Match(s[q..], key, multiline) == Some(e)
    requires forall i :: 0 <= i < q ==> Match(s[i..], key, multiline).None?
    ensures Sub(s, key, repl, multiline) == s[..q] + repl + Sub(s[q + e..], key, repl, multiline)
  {
    SubKeepsPrefix(s, key, repl, multiline, q);
    SubStep(s[q..], key, repl, multiline);
    assert s[q..][e..] == s[q + e..];
  }

  /** Text in which the pattern occurs nowhere comes back unchanged. */
  lemma {:induction false} SubNoMatch(s: string, key: string, repl: string, multiline: bool)
    requires forall i :: 0 <= i < |s| ==> Match(s[i..], key, multiline).None?
    ensures Sub(s, key, repl, multiline) == s
  {
    SubKeepsPrefix(s, key, repl, multiline, |s|);
    assert s[..|s|] == s;
  }

  /** One step of the scan. */
  lemma {:induction false} SubStep(s: string, key: string, repl: string, multiline: bool)
    requires s != []
    ensures Match(s, key, multiline).Some? ==>
              Sub(s, key, repl, multiline) == repl + Sub(s[Match(s, key, multiline).value..], key, repl, multiline)
    ensures Match(s, key, multiline).None? ==>
              Sub(s, key, repl, multiline) == [s[0]] + Sub(s[1..], key, repl, multiline)
  {
  }

  /** The leftmost match at or after index i, if there is one. */
  lemma {:induction false} FindMatch(s: string, key: string, multiline: bool, i: nat)
    returns (found: bool, q: nat, e: nat)
    requires i <= |s|
    requires forall k :: 0 <= k < i ==> Match(s[k..], key, multiline).None?
    ensures !found ==> forall k :: 0 <= k < |s| ==> Match(s[k..], key, multiline).None?
    ensures found ==> q < |s| && Match(s[q..], key, multiline) == Some(e)
    ensures found ==> forall k :: 0 <= k < q ==> Match(s[k..], key, multiline).None?
    decreases |s| - i
  {
    if i == |s| {
      found, q, e := false, 0, 0;
    } else if Match(s[i..], key, multiline).Some? {
      found, q, e := true, i, Match(s[i..], key, multiline).value;
    } else {
      found, q, e := FindMatch(s, key, multiline, i + 1);
    }
  }

  /** Either nothing is replaced, or the output is some unmatched text, one replacement,
      and the scan of the rest. */
  lemma SubFirstPiece(s: string, key: string, repl: string, multiline: bool)
    returns (found: bool, q: nat, e: nat)
    ensures !found ==> forall k :: 0 <= k < |s| ==> Match(s[k..], key, multiline).None?
    ensures !found ==> Sub(s, key, repl, multiline) == s
    ensures found ==> q < |s| && Match(s[q..], key, multiline) == Some(e)
    ensures found ==> forall k :: 0 <= k < q ==> Match(s[k..], key, multiline).None?
    ensures found ==> Sub(s, key, repl, multiline) == s[..q] + repl + Sub(s[q + e..], key, repl, multiline)
  {
    found, q, e := FindMatch(s, key, multiline, 0);
    if found {
      SubFirstMatch(s, key, repl, multiline, q, e);
    } else {
      SubNoMatch(s, key, repl, multiline);
    }
  }

  /** Text in which the key's first character never occurs comes back unchanged. */
  lemma SubWithoutKeyStart(s: string, key: string, repl: string, multiline: bool)
    requires key != [] && key[0] !in s
    ensures Sub(s, key, repl, multiline) == s
  {
    forall i | 0 <= i < |s| ensures Match(s[i..], key, multiline).None? {
      assert s[i..][0] == s[i];
    }
    SubNoMatch(s, key, repl, multiline);
  }

  /** No match that starts before s[p..p + len] ends reaches past p. */
  ghost predicate Untouched(s: string, key: string, multiline: bool, p: nat, len: nat) {
    && p + len <= |s|
    && forall i :: 0 <= i < p + len ==>
         Match(s[i..], key, multiline).None? || i + Match(s[i..], key, multiline).value <= p
  }

  /** A stretch of text that no match reaches into is copied to the output. */
  lemma SubKeepsUntouched(s: string, key: string, repl: string, multiline: bool, p: nat, len: nat)
    requires Untouched(s, key, multiline, p, len)
    ensures Contains(Sub(s, key, repl, multiline), s[p..p + len])
  {
    var k := UntouchedAt(s, key, repl, multiline, p, len);
    assert StartsWith(Sub(s, key, repl, multiline)[k..], s[p..p + len]);
  }

  /** Where SubKeepsUntouched finds the stretch in the output. */
  lemma {:induction false} UntouchedAt(s: string, key: string, repl: string, multiline: bool,
                                       p: nat, len: nat) returns (k: nat)
    requires Untouched(s, key, multiline, p, len)
    ensures k + len <= |Sub(s, key, repl, multiline)|
    ensures Sub(s, key, repl, multiline)[k..k + len] == s[p..p + len]
    decreases |s|, 1
  {
    if len == 0 {
      k := 0;
    } else {
      UntouchedFirst(s, key, multiline, p, len);
      SubStep(s, key, repl, multiline);
      if Match(s, key, multiline).Some? {
        k := UntouchedAfterStep(s, key, repl, multiline, p, len, Match(s, key, multiline).value, repl);
      } else if p == 0 {
        k := UntouchedAtStart(s, key, repl, multiline, len);
      } else {
        k := UntouchedAfterStep(s, key, repl, multiline, p, len, 1, [s[0]]);
      }
    }
  }

  /** One step of the scan, which writes `head` for s[..e], keeps the stretch. */
  lemma {:induction false} UntouchedAfterStep(s: string, key: string, repl: string, multiline: bool,
                                              p: nat, len: nat, e: nat, head: string) returns (k: nat)
    requires Untouched(s, key, multiline, p, len) && 0 < e <= p
    requires Sub(s, key, repl, multiline) == head + Sub(s[e..], key, repl, multiline)
    ensures k + len <= |Sub(s, key, repl, multiline)|
    ensures Sub(s, key, repl, multiline)[k..k + len] == s[p..p + len]
    decreases |s|, 0
  {
    UntouchedSuffix(s, key, multiline, p, len, e);
    var k' := UntouchedAt(s[e..], key, repl, multiline, p - e, len);
    k := Shifted(Sub(s, key, repl, multiline), head, Sub(s[e..], key, repl, multiline),
                 k', len, s[p..p + len]);
  }

  lemma UntouchedAtStart(s: string, key: string, repl: string, multiline: bool, len: nat)
    returns (k: nat)
    requires Untouched(s, key, multiline, 0, len)
    ensures k + len <= |Sub(s, key, repl, multiline)|
    ensures Sub(s, key, repl, multiline)[k..k + len] == s[0..len]
  {
    NoMatchAtStart(s, key, multiline, len);
    SubKeepsPrefix(s, key, repl, multiline, len);
    k := Shifted(Sub(s, key, repl, multiline), [], Sub(s, key, repl, multiline), 0, len, s[..len]);
  }

  lemma Shifted(out: string, head: string, tail: string, k': nat, len: nat, t: string) returns (k: nat)
    requires out == head + tail && k' + len <= |tail| && tail[k'..k' + len] == t
    ensures k == |head| + k' && k + len <= |out| && out[k..k + len] == t
  {
    k := |head| + k';
    assert out[k..k + len] == tail[k'..k' + len];
  }

  lemma UntouchedFirst(s: string, key: string, multiline: bool, p: nat, len: nat)
    requires Untouched(s, key, multiline, p, len) && len > 0
    ensures Match(s, key, multiline).Some? ==> Match(s, key, multiline).value <= p
  {
    assert s[0..] == s;
  }

  lemma UntouchedSuffix(s: string, key: string, multiline: bool, p: nat, len: nat, e: nat)
    requires Untouched(s, key, multiline, p, len) && 0 < e <= p
    ensures Untouched(s[e..], key, multiline, p - e, len)
    ensures s[e..][p - e..p - e + len] == s[p..p + len]
  {
    forall i | 0 <= i < p - e + len
      ensures Match(s[e..][i..], key, multiline).None?
              || i + Match(s[e..][i..], key, multiline).value <= p - e
    {
      assert s[e..][i..] == s[e + i..];
    }
  }

  lemma NoMatchAtStart(s: string, key: string, multiline: bool, len: nat)
    requires Untouched(s, key, multiline, 0, len)
    ensures forall i :: 0 <= i < len ==> Match(s[i..], key, multiline).None?
  {
  }

  const RootKey := "ROOT_URLCONF"
  const WsgiKey := "WSGI_APPLICATION"

  /** The assignment a replacement writes: `KEY = "VALUE"`. */
  function Assignment(key: string, value: string): (r: string)
    ensures |r| == |key| + |value| + 5
    ensures StartsWith(r, key) && r[|key|..|key| + 4] == " = \"" && r[|r| - 1] == '"'
    ensures r[|key| + 4..|r| - 1] == value
  {
    key + " = \"" + value + "\""
  }

  function RootValue(safe: string): string {
    safe + ".urls"
  }

  function WsgiValue(safe: string): string {
    safe + ".wsgi.application"
  }

  /** Both passes of `fix_project_references` with the given reading of `\s`: first
      every ROOT_URLCONF match, then every WSGI_APPLICATION match in the result. */
  function Fix(text: string, safe: string, multiline: bool): string {
    var urls := Sub(text, RootKey, Assignment(RootKey, RootValue(safe)), multiline);
    Sub(urls, WsgiKey, Assignment(WsgiKey, WsgiValue(safe)), multiline)
  }

  /** `fix_project_references` as written. The replacement strings are `re.sub`
      templates; a backslash in them would be read as an escape, which this model
      does not cover. */
  function FixProjectReferences(text: string, safe: string): string
    requires '\\' !in safe
  {
    Fix(text, safe, true)
  }

  /** The corrected fixer, whose whitespace runs stay on one line. */
  function FixProjectReferencesSingleLine(text: string, safe: string): string
    requires '\\' !in safe
  {
    Fix(text, safe, false)
  }

  /** Text in which neither pattern occurs is left as it is. */
  lemma FixWithoutMatches(text: string, safe: string, multiline: bool)
    requires forall i :: 0 <= i < |text| ==> Match(text[i..], RootKey, multiline).None?
    requires forall i :: 0 <= i < |text| ==> Match(text[i..], WsgiKey, multiline).None?
    ensures Fix(text, safe, multiline) == text
  {
    SubNoMatch(text, RootKey, Assignment(RootKey, RootValue(safe)), multiline);
    SubNoMatch(text, WsgiKey, Assignment(WsgiKey, WsgiValue(safe)), multiline);
  }

  /** A text that is one whole match becomes the replacement. */
  lemma SubWholeMatch(s: string, key: string, repl: string, multiline: bool)
    requires Match(s, key, multiline) == Some(|s|)
    ensures Sub(s, key, repl, multiline) == repl
  {
    SubStep(s, key, repl, multiline);
    assert s[|s|..] == [];
  }

  /** An assignment as the replacements write it is itself one whole match, whatever
      `\s` matches, when its value has neither quotes nor line breaks. */
  lemma AssignmentIsMatch(key: string, value: string, multiline: bool)
    requires forall k :: 0 <= k < |value| ==> IsPlain(value[k])
    ensures Match(Assignment(key, value), key, multiline) == Some(|Assignment(key, value)|)
  {
    var r := Assignment(key, value);
    var n := |key|;
    assert r[n..n + 4] == " = \"";
    assert r[n] == ' ' && r[n + 1] == '=' && r[n + 2] == ' ' && r[n + 3] == '"' by {
      assert r[n..n + 4][0] == r[n] && r[n..n + 4][1] == r[n + 1];
      assert r[n..n + 4][2] == r[n + 2] && r[n..n + 4][3] == r[n + 3];
    }
    forall k | n + 3 < k < |r| - 1 ensures IsPlain(r[k]) {
      assert r[k] == r[n + 4..|r| - 1][k - n - 4];
    }
    MatchComplete(r, key, multiline, n + 1, n + 3, |r|);
  }

  /** A character in neither the key nor the value, nor in ` = "`, is not in the assignment. */
  lemma NotInAssignment(key: string, value: string, c: char)
    requires c !in key && c !in value && c != ' ' && c != '=' && c != '"'
    ensures c !in Assignment(key, value)
  {
  }

  const OldRoot := Assignment(RootKey, "old.urls")

  /** The settings line of a project template, `ROOT_URLCONF = "old.urls"`, fixed for
      the project "My-Blog": it becomes `ROOT_URLCONF = "My_Blog.urls"`. */
  lemma RenameExample()
    ensures FixProjectReferences(OldRoot, SafeName("My-Blog")) == Assignment(RootKey, "My_Blog.urls")
  {
    SafeNameOfExample();
    var repl := Assignment(RootKey, RootValue("My_Blog"));
    RenameRootPass(repl);
    RenameWsgiPass(repl);
  }

  lemma RenameRootPass(repl: string)
    requires repl == Assignment(RootKey, RootValue("My_Blog"))
    ensures Sub(OldRoot, RootKey, repl, true) == repl
  {
    AssignmentIsMatch(RootKey, "old.urls", true);
    SubWholeMatch(OldRoot, RootKey, repl, true);
  }

  lemma RenameWsgiPass(repl: string)
    requires repl == Assignment(RootKey, RootValue("My_Blog"))
    ensures Sub(repl, WsgiKey, Assignment(WsgiKey, WsgiValue("My_Blog")), true) == repl
    ensures repl == Assignment(RootKey, "My_Blog.urls")
  {
    assert RootValue("My_Blog") == "My_Blog.urls";
    NotInAssignment(RootKey, "My_Blog.urls", 'W');
    SubWithoutKeyStart(repl, WsgiKey, Assignment(WsgiKey, WsgiValue("My_Blog")), true);
  }
}
