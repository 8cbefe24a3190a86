/**
 * `add_app_to_settings`: registering a new app in the settings module's
 * INSTALLED_APPS list by text editing. The file read and the file write are
 * taken out: the operation maps the settings text to the text it writes, or to
 * None when it returns without writing.
 *
 * The line scan is a two-state machine over the lines of the text. The flag
 * (`in_installed` in the source) turns on at any line that mentions
 * INSTALLED_APPS; while it is on, the first line whose stripped text starts with
 * "]" gets the new entry written before it, and the flag turns off.
 */
module Registrar {
  import opened Wrappers
  import opened Text

  const Marker := "INSTALLED_APPS"

  /** The line written for a new app: four spaces, the name in single quotes, a comma. */
  function Entry(app: string): string {
    "    '" + app + "',"
  }

  /** A line that turns the flag on. */
  predicate IsMarker(line: string) {
    Contains(line, Marker)
  }

  /** A line whose stripped text starts with "]": the close of a list literal. */
  predicate IsCloser(line: string) {
    StartsWith(Strip(line), "]")
  }

  /** The flag after one line, starting from `flag`. The marker test comes first, so a
      line that both mentions INSTALLED_APPS and starts with "]" receives the entry. */
  function Step(flag: bool, line: string): bool {
    (flag || IsMarker(line)) && !IsCloser(line)
  }

  /** The flag once lines[..n] have been scanned. */
  function FlagAfter(lines: seq<string>, n: nat): bool
    requires n <= |lines|
  {
    if n == 0 then false else Step(FlagAfter(lines, n - 1), lines[n - 1])
  }

  /** Whether the entry is written just before lines[i]. */
  predicate InsertsBefore(lines: seq<string>, i: nat)
    requires i < |lines|
  {
    (FlagAfter(lines, i) || IsMarker(lines[i])) && IsCloser(lines[i])
  }

  /** Whether each line gets the entry written before it. */
  function InsertionMarks(lines: seq<string>): (marks: seq<bool>)
    ensures |marks| == |lines|
    ensures forall i :: 0 <= i < |lines| ==> marks[i] == InsertsBefore(lines, i)
  {
    seq(|lines|, i requires 0 <= i < |lines| => InsertsBefore(lines, i))
  }

  /** The lines written for lines[..n], in order, before each is joined with "\n":
      each line, preceded by the entry where its mark is set. */
  function Interleave(lines: seq<string>, marks: seq<bool>, entry: string, n: nat): seq<string>
    requires n <= |lines| == |marks|
  {
    if n == 0 then []
    else Interleave(lines, marks, entry, n - 1)
         + (if marks[n - 1] then [entry] else [])
         + [lines[n - 1]]
  }

  /** What `add_app_to_settings` writes for settings text `content`: nothing when the
      name already occurs anywhere in the text, otherwise every line of the text, each
      followed by "\n", with the entry written before each insertion point. */
  function Registration(content: string, app: string): (r: Option<string>)
    ensures r.None? <==> Contains(content, app)
  {
    if Contains(content, app) then None
    else
      var lines := SplitLines(content);
      Some(JoinLines(Interleave(lines, InsertionMarks(lines), Entry(app), |lines|)))
  }

  /** The settings text once the call returns, whether or not it wrote. */
  function SettingsAfter(content: string, app: string): string {
    match Registration(content, app)
    case None => content
    case Some(written) => written
  }

  /** `add_app_to_settings` with the file taken out: the loop of the source, keeping
      the written text and the flag in step with the scan functions above. */
  method AddAppToSettings(content: string, app: string) returns (written: Option<string>)
    ensures written.None? <==> Contains(content, app)
    ensures written == Registration(content, app)
  {
    if Contains(content, app) {
      return None;  // already added
    }
    var newContent := "";
    var inInstalled := false;
    var lines := SplitLines(content);
    ghost var marks := InsertionMarks(lines);
    for i := 0 to |lines|
      invariant newContent == JoinLines(Interleave(lines, marks, Entry(app), i))
      invariant inInstalled == FlagAfter(lines, i)
    {
      var line := lines[i];
      ghost var before := Interleave(lines, marks, Entry(app), i);
      if IsMarker(line) {
        inInstalled := true;
      }
      if inInstalled && IsCloser(line) {
        JoinLinesAppend(before, Entry(app));
        newContent := newContent + Entry(app) + "\n";
        before := before + [Entry(app)];
        inInstalled := false;
      }
      JoinLinesAppend(before, line);
      newContent := newContent + line + "\n";
      assert marks[i] == InsertsBefore(lines, i);
      assert Interleave(lines, marks, Entry(app), i + 1) == before + [line];
    }
    return Some(newContent);
  }

  // The scan, stated without the flag

  /** No line of lines[lo..hi] closes a list. */
  ghost predicate NoCloserIn(lines: seq<string>, lo: nat, hi: nat)
    requires lo <= hi <= |lines|
  {
    forall k :: lo <= k < hi ==> !IsCloser(lines[k])
  }

  /** Some line of lines[..n] mentions INSTALLED_APPS and no line from it on closes a list. */
  ghost predicate OpenMarker(lines: seq<string>, n: nat)
    requires n <= |lines|
  {
    exists j :: 0 <= j < n && IsMarker(lines[j]) && NoCloserIn(lines, j, n)
  }

  /** The flag is on after lines[..n] exactly when a marker line has been seen that no
      closing line has followed yet. */
  lemma {:induction false} FlagIffOpenMarker(lines: seq<string>, n: nat)
    requires n <= |lines|
    ensures FlagAfter(lines, n) <==> OpenMarker(lines, n)
  {
    if n > 0 {
      FlagIffOpenMarker(lines, n - 1);
      if FlagAfter(lines, n) {
        if IsMarker(lines[n - 1]) {
          assert NoCloserIn(lines, n - 1, n);
        } else {
          var j :| 0 <= j < n - 1 && IsMarker(lines[j]) && NoCloserIn(lines, j, n - 1);
          assert NoCloserIn(lines, j, n);
        }
      }
      if OpenMarker(lines, n) {
        var j :| 0 <= j < n && IsMarker(lines[j]) && NoCloserIn(lines, j, n);
        assert !IsCloser(lines[n - 1]);
        if j < n - 1 {
          assert NoCloserIn(lines, j, n - 1);
        }
      }
    }
  }

  /** The entry goes before lines[i] exactly when lines[i] closes a list and some line
      at or before it mentions INSTALLED_APPS with no closing line in between: the first
      closing line after each marker gets an entry, and no other line does. */
  lemma InsertsBeforeIff(lines: seq<string>, i: nat)
    requires i < |lines|
    ensures InsertsBefore(lines, i) <==>
              IsCloser(lines[i]) && exists j :: 0 <= j <= i && IsMarker(lines[j]) && NoCloserIn(lines, j, i)
  {
    FlagIffOpenMarker(lines, i);
    if IsMarker(lines[i]) {
      assert NoCloserIn(lines, i, i);
    }
    if IsCloser(lines[i]) && exists j :: 0 <= j <= i && IsMarker(lines[j]) && NoCloserIn(lines, j, i) {
      var j :| 0 <= j <= i && IsMarker(lines[j]) && NoCloserIn(lines, j, i);
      if j < i {
        assert OpenMarker(lines, i);
      }
    }
  }

  /** After an entry is written the flag is off again: two entries always have a line
      mentioning INSTALLED_APPS between them (after the first, up to the second). */
  lemma EntriesSeparatedByMarker(lines: seq<string>, i: nat, i2: nat)
    requires i < i2 < |lines|
    requires InsertsBefore(lines, i) && InsertsBefore(lines, i2)
    ensures exists j :: i < j <= i2 && IsMarker(lines[j])
  {
    InsertsBeforeIff(lines, i2);
    var j :| 0 <= j <= i2 && IsMarker(lines[j]) && NoCloserIn(lines, j, i2);
  }

  /** Some line that closes a list comes at or after a line that mentions INSTALLED_APPS. */
  ghost predicate HasClosedBlock(lines: seq<string>) {
    exists j, i :: 0 <= j <= i < |lines| && IsMarker(lines[j]) && IsCloser(lines[i])
  }

  /** The first closing line at or after `j`, given that there is one by `i`. */
  lemma FirstCloser(lines: seq<string>, j: nat, i: nat) returns (c: nat)
    requires j <= i < |lines| && IsCloser(lines[i])
    ensures j <= c <= i && IsCloser(lines[c]) && NoCloserIn(lines, j, c)
    decreases i - j
  {
    if IsCloser(lines[j]) {
      c := j;
    } else {
      c := FirstCloser(lines, j + 1, i);
    }
  }

  lemma {:induction false} InterleaveUnmarked(lines: seq<string>, marks: seq<bool>, entry: string, n: nat)
    requires n <= |lines| == |marks|
    requires forall i :: 0 <= i < n ==> !marks[i]
    ensures Interleave(lines, marks, entry, n) == lines[..n]
  {
    if n > 0 {
      InterleaveUnmarked(lines, marks, entry, n - 1);
      assert lines[..n] == lines[..n - 1] + [lines[n - 1]];
    }
  }

  lemma {:induction false} InterleaveLonger(lines: seq<string>, marks: seq<bool>, entry: string, n: nat, i: nat)
    requires i < n <= |lines| == |marks| && marks[i]
    ensures |Interleave(lines, marks, entry, n)| > n
  {
    if i < n - 1 {
      InterleaveLonger(lines, marks, entry, n - 1, i);
    } else {
      InterleaveAtLeast(lines, marks, entry, n - 1);
    }
  }

  lemma {:induction false} InterleaveAtLeast(lines: seq<string>, marks: seq<bool>, entry: string, n: nat)
    requires n <= |lines| == |marks|
    ensures |Interleave(lines, marks, entry, n)| >= n
  {
    if n > 0 {
      InterleaveAtLeast(lines, marks, entry, n - 1);
    }
  }

  /** The lines are written back unchanged, with no entry added, exactly when no line
      closing a list follows a line mentioning INSTALLED_APPS. */
  lemma InterleaveUnchangedIff(lines: seq<string>, entry: string)
    ensures Interleave(lines, InsertionMarks(lines), entry, |lines|) == lines <==> !HasClosedBlock(lines)
  {
    var marks := InsertionMarks(lines);
    if HasClosedBlock(lines) {
      var j, i :| 0 <= j <= i < |lines| && IsMarker(lines[j]) && IsCloser(lines[i]);
      var c := FirstCloser(lines, j, i);
      InsertsBeforeIff(lines, c);
      InterleaveLonger(lines, marks, entry, |lines|, c);
    } else {
      forall i | 0 <= i < |lines|
        ensures !marks[i]
      {
        InsertsBeforeIff(lines, i);
      }
      InterleaveUnmarked(lines, marks, entry, |lines|);
      assert lines[..|lines|] == lines;
    }
  }

  /** `ls` with every copy of `x` removed. */
  function Without(ls: seq<string>, x: string): seq<string> {
    if ls == [] then []
    else Without(ls[..|ls| - 1], x) + (if ls[|ls| - 1] == x then [] else [ls[|ls| - 1]])
  }

  lemma WithoutAppend(ls: seq<string>, y: string, x: string)
    ensures Without(ls + [y], x) == Without(ls, x) + (if y == x then [] else [y])
  {
    assert (ls + [y])[..|ls|] == ls;
  }

  /** Removing the entries from what is written leaves exactly the input lines, in order,
      when no input line is itself the entry; and every written line is an input line or
      the entry. */
  lemma {:induction false} InterleaveKeepsLines(lines: seq<string>, marks: seq<bool>, entry: string, n: nat)
    requires n <= |lines| == |marks|
    requires forall k :: 0 <= k < n ==> lines[k] != entry
    ensures Without(Interleave(lines, marks, entry, n), entry) == lines[..n]
  {
    if n > 0 {
      InterleaveKeepsLines(lines, marks, entry, n - 1);
      var before := Interleave(lines, marks, entry, n - 1);
      var added := if marks[n - 1] then [entry] else [];
      var line := lines[n - 1];
      assert Interleave(lines, marks, entry, n) == (before + added) + [line];
      assert line != entry;
      WithoutAppend(before + added, line, entry);
      if added != [] {
        WithoutAppend(before, entry, entry);
      } else {
        assert before + added == before;
      }
      assert lines[..n] == lines[..n - 1] + [line];
    }
  }

  lemma {:induction false} InterleaveOnlyAddsEntry(lines: seq<string>, marks: seq<bool>, entry: string, n: nat)
    requires n <= |lines| == |marks|
    ensures forall x :: x in Interleave(lines, marks, entry, n) ==> x == entry || x in lines[..n]
  {
    if n > 0 {
      InterleaveOnlyAddsEntry(lines, marks, entry, n - 1);
      assert lines[..n] == lines[..n - 1] + [lines[n - 1]];
    }
  }

  /** No line of the settings text can be the entry when the name does not occur in it. */
  lemma NoLineIsEntry(content: string, app: string)
    requires !Contains(content, app)
    ensures forall k :: 0 <= k < |SplitLines(content)| ==> SplitLines(content)[k] != Entry(app)
  {
    var lines := SplitLines(content);
    SplitLinesAreSubstrings(content);
    forall k | 0 <= k < |lines|
      ensures lines[k] != Entry(app)
    {
      if lines[k] == Entry(app) {
        ContainsMiddle("    '", app, "',");
        ContainsTransitive(content, lines[k], app);
      }
    }
  }

  /** When it writes, the registrar writes every line of the settings text in the original
      order, each followed by "\n", and the only lines it adds are copies of the entry. */
  lemma RegistrationKeepsLines(content: string, app: string)
    requires !Contains(content, app)
    ensures Registration(content, app).Some?
    ensures exists out :: Registration(content, app).value == JoinLines(out)
                          && Without(out, Entry(app)) == SplitLines(content)
                          && forall x :: x in out ==> x == Entry(app) || x in SplitLines(content)
  {
    var lines := SplitLines(content);
    NoLineIsEntry(content, app);
    InterleaveKeepsLines(lines, InsertionMarks(lines), Entry(app), |lines|);
    InterleaveOnlyAddsEntry(lines, InsertionMarks(lines), Entry(app), |lines|);
    assert lines[..|lines|] == lines;
    var out := Interleave(lines, InsertionMarks(lines), Entry(app), |lines|);
    assert Registration(content, app).value == JoinLines(out);
  }

  /** With no line closing a list at or after a line mentioning INSTALLED_APPS, nothing
      is inserted: the text written is the input split into lines, each followed by "\n". */
  lemma RegistrationWithoutBlock(content: string, app: string)
    requires !Contains(content, app) && !HasClosedBlock(SplitLines(content))
    ensures Registration(content, app) == Some(JoinLines(SplitLines(content)))
  {
    InterleaveUnchangedIff(SplitLines(content), Entry(app));
  }

  /** With such a list, the entry is written. */
  lemma RegistrationWithBlock(content: string, app: string)
    requires !Contains(content, app) && HasClosedBlock(SplitLines(content))
    ensures Registration(content, app).Some?
    ensures Contains(Registration(content, app).value, Entry(app))
  {
    var lines := SplitLines(content);
    var marks := InsertionMarks(lines);
    var out := Interleave(lines, marks, Entry(app), |lines|);
    var j, i :| 0 <= j <= i < |lines| && IsMarker(lines[j]) && IsCloser(lines[i]);
    var c := FirstCloser(lines, j, i);
    InsertsBeforeIff(lines, c);
    EntryInterleaved(lines, marks, Entry(app), |lines|, c);
    var k :| 0 <= k < |out| && out[k] == Entry(app);
    JoinLinesContains(out, k);
  }

  lemma {:induction false} EntryInterleaved(lines: seq<string>, marks: seq<bool>, entry: string, n: nat, i: nat)
    requires i < n <= |lines| == |marks| && marks[i]
    ensures entry in Interleave(lines, marks, entry, n)
  {
    if i < n - 1 {
      EntryInterleaved(lines, marks, entry, n - 1, i);
    }
  }

  /** What is written is either the lines unchanged or holds at least one entry. */
  lemma {:induction false} InterleaveUnchangedOrEntry(lines: seq<string>, marks: seq<bool>, entry: string, n: nat)
    requires n <= |lines| == |marks|
    ensures Interleave(lines, marks, entry, n) == lines[..n] || entry in Interleave(lines, marks, entry, n)
  {
    if n > 0 {
      InterleaveUnchangedOrEntry(lines, marks, entry, n - 1);
      assert lines[..n] == lines[..n - 1] + [lines[n - 1]];
    }
  }

  /** Registering an app twice leaves the settings text as registering it once: a
      written entry makes the name occur, so the second call returns at once; and
      without an entry the text written is already split and joined, so the second scan
      writes it again unchanged. */
  lemma RegistrationIdempotent(content: string, app: string)
    ensures SettingsAfter(SettingsAfter(content, app), app) == SettingsAfter(content, app)
  {
    if !Contains(content, app) {
      var lines := SplitLines(content);
      var out := Interleave(lines, InsertionMarks(lines), Entry(app), |lines|);
      var written := JoinLines(out);
      assert SettingsAfter(content, app) == written;
      InterleaveUnchangedOrEntry(lines, InsertionMarks(lines), Entry(app), |lines|);
      assert lines[..|lines|] == lines;
      if Entry(app) in out {
        var k :| 0 <= k < |out| && out[k] == Entry(app);
        JoinLinesContains(out, k);
        ContainsMiddle("    '", app, "',");
        ContainsTransitive(written, Entry(app), app);
      } else if !Contains(written, app) {
        SplitJoinLines(lines);
        assert SplitLines(written) == lines;
      }
    }
  }
}
