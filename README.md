# djquickstart settings transforms, modelled in Dafny

`djquickstart` is a command-line tool that creates a Django project from a preset
and then edits the generated `settings.py` as text. This project models the text
edits and the name clean-up they depend on:

- `add_app_to_settings` registers an app in the `INSTALLED_APPS` list. If the app
  name already occurs anywhere in the file, nothing is written. Otherwise every line
  is written back with "\n", and the line `    '<app>',` is inserted before the first
  line whose stripped text starts with `]` once an `INSTALLED_APPS` line has been seen. This happens
  once for each such block.
  The model is the method `Registrar.AddAppToSettings`. It returns the text it
  would write, or `None` when the call returns without writing. Its loop is proved
  against the specification function `Registrar.Registration`.
- `fix_project_references` makes two `re.sub` passes. They rewrite every
  `ROOT_URLCONF = "…"` and `WSGI_APPLICATION = "…"` assignment so that it points at
  the safe project name. The pattern `KEY\s*=\s*["'].*?["']` is matched by a
  hand-written matcher, `References.Match`. The matcher is proved sound and complete
  against a declarative description of the pattern, `References.PatternAt`.
  Replace-all is `References.Sub`.
- The safe name is `project_name.replace("-", "_")`, modelled as `Names.SafeName`.
- The Python string built-ins these functions rely on are in `Text`:
  - `str.isspace`, with Python's exact set of whitespace characters;
  - `strip`;
  - `startswith`;
  - substring `in`;
  - `str.splitlines`, with every line boundary Python uses and "\r\n" taken as one.

Reading the file and writing it are taken out. Each transform maps the old settings
text to the new one.

The docstring of `fix_project_references` (djquickstart/cli.py:33) says the step makes
both references match the new project name. A second run of such a patch step is
expected to leave its output alone, and the ROOT_URLCONF assignment the first pass
writes is expected to survive the second pass. The code as written does not always
behave that way: see "Findings". The model follows the code. It proves idempotence
for the corrected pattern, in which the `\s*` runs do not cross line breaks. It also
proves that the written ROOT_URLCONF assignment survives whenever no
WSGI_APPLICATION match reaches into it.

## Model

| member | source | states |
|---|---|---|
| Registrar.AddAppToSettings | djquickstart/cli.py:13-29 | returns no text exactly when the app name already occurs in the settings text; otherwise it returns the text the line scan writes, equal to `Registration` |
| Registrar.Registration | djquickstart/cli.py:16-27 | the text the call writes, or none; it writes nothing exactly when the app name occurs in the text. Its properties: `RegistrationKeepsLines`, `RegistrationWithoutBlock`, `RegistrationWithBlock`, `RegistrationIdempotent` |
| Registrar.Step | djquickstart/cli.py:22-26 | one line's update of `in_installed`. Its property: `FlagIffOpenMarker` |
| Registrar.FlagAfter | djquickstart/cli.py:20-26 | `in_installed` after a prefix of the lines. Its property: `FlagIffOpenMarker` |
| Registrar.FlagIffOpenMarker | djquickstart/cli.py:20-26 | after any number of lines, the `in_installed` flag is on exactly when some line so far mentions INSTALLED_APPS and no line from it onwards starts (after strip) with `]` |
| Registrar.InsertsBeforeIff | djquickstart/cli.py:22-25 | the entry goes before line i exactly when line i starts with `]` after strip and some line at or before i mentions INSTALLED_APPS with no `]` line between them |
| Registrar.EntriesSeparatedByMarker | djquickstart/cli.py:22-26 | between two insertions there is a fresh INSTALLED_APPS line: each entry closes its own block |
| Registrar.FirstCloser | djquickstart/cli.py:24-26 | when a `]` line follows a position, there is a first such line, and no `]` line comes before it |
| Registrar.InterleaveUnchangedIff | djquickstart/cli.py:21-27 | the written lines equal the input lines exactly when there is no INSTALLED_APPS line followed, at or after it, by a `]` line |
| Registrar.InterleaveKeepsLines | djquickstart/cli.py:21-27 | removing the entry lines from the written lines gives back the input lines in order |
| Registrar.InterleaveOnlyAddsEntry | djquickstart/cli.py:21-27 | every written line is the entry or an input line |
| Registrar.InterleaveUnchangedOrEntry | djquickstart/cli.py:21-27 | the written lines are either the input lines or contain the entry |
| Registrar.NoLineIsEntry | djquickstart/cli.py:16-21 | if the app name is absent from the text, no line of it is the entry line |
| Registrar.RegistrationKeepsLines | djquickstart/cli.py:19-29 | when it writes, the text is some line list joined with "\n" after each line; without its entry lines that list is the input's `splitlines()`, and every other line in it is the entry |
| Registrar.RegistrationWithoutBlock | djquickstart/cli.py:19-29 | with no INSTALLED_APPS line followed by a `]` line, the written text is the input's lines, each followed by "\n" |
| Registrar.RegistrationWithBlock | djquickstart/cli.py:19-29 | with such a block, the written text contains the entry |
| Registrar.RegistrationIdempotent | djquickstart/cli.py:13-29 | registering the same app twice leaves the settings as one registration does |
| Text.IsSpace | djquickstart/cli.py:24 | Python's `str.isspace` set, which `strip()` removes and `\s` matches |
| Text.Contains | djquickstart/cli.py:16-22 | the substring test `in`. Its properties: `SplitLinesAreSubstrings`, `JoinLinesContains` |
| Text.LStrip | djquickstart/cli.py:24 | `lstrip()`. Its property: `LStripRemovesLeadingSpace` |
| Text.RStrip | djquickstart/cli.py:24 | `rstrip()`. Its property: `RStripRemovesTrailingSpace` |
| Text.Strip | djquickstart/cli.py:24 | `strip()`. Its property: `StripStartsWithChar` |
| Text.StripStartsWithChar | djquickstart/cli.py:24 | `line.strip().startswith(c)` for a non-space c holds exactly when the first non-space character of the line is c |
| Text.LStripRemovesLeadingSpace | djquickstart/cli.py:24 | `lstrip` removes a prefix made only of whitespace and stops at a non-space character |
| Text.RStripRemovesTrailingSpace | djquickstart/cli.py:24 | `rstrip` removes a suffix made only of whitespace and stops at a non-space character |
| Text.SplitLines | djquickstart/cli.py:21 | no line `splitlines()` returns contains a line boundary |
| Text.SplitLinesAreSubstrings | djquickstart/cli.py:16-21 | every line `splitlines()` returns occurs in the text |
| Text.SplitJoinLines | djquickstart/cli.py:21-27 | splitting lines that were each written with "\n" gives the same lines back |
| Text.JoinSplitLines | djquickstart/cli.py:21-27 | text whose only line boundary is "\n", and which is empty or ends in "\n", is reproduced exactly by splitting it and writing each line with "\n" |
| Text.JoinLinesAppend | djquickstart/cli.py:25-27 | appending one line to the output adds that line and "\n" at the end |
| Text.JoinLinesContains | djquickstart/cli.py:27 | every written line occurs in the written text |
| Names.SafeName | djquickstart/cli.py:71-72 | the safe name has the name's length; each `-` becomes `_` and every other character is kept; it has no `-` |
| Names.SafeNameFixedIff | djquickstart/cli.py:71-72 | a name is its own safe name exactly when it has no `-`; cleaning twice equals cleaning once |
| Names.SafeNameKeepsOtherCharacters | djquickstart/cli.py:71-72 | any character other than `-` and `_` occurs in the safe name exactly when it occurs in the name |
| References.Match | djquickstart/cli.py:37-43 | one attempt of the pattern at the start of a text; a match ends past the key. Its properties: `MatchSound`, `MatchComplete` |
| References.Sub | djquickstart/cli.py:36-46 | `re.sub` replace-all. Its properties: `SubFirstPiece`, `SubKeepsPrefix`, `SubFirstMatch`, `SubNoMatch`, `SubKeepsUntouched` |
| References.Fix | djquickstart/cli.py:36-46 | the ROOT_URLCONF pass followed by the WSGI_APPLICATION pass. Its properties: `FixWithoutMatches`, `RenameExample`, `FixKeepsRoutingAssignment` |
| References.FixProjectReferences | djquickstart/cli.py:32-48 | `fix_project_references` as written. Its properties: `RenameExample`, `FixTwiceDiffers`, `SecondPassConsumesRouting` |
| References.FixProjectReferencesSingleLine | djquickstart/cli.py:32-48 | the corrected fixer. Its property: `FixSingleLineIdempotent` |
| References.MatchSound | djquickstart/cli.py:37 | every match the matcher reports is an instance of the pattern: key, whitespace, `=`, whitespace, a quote, characters other than quotes and "\n", a quote |
| References.MatchComplete | djquickstart/cli.py:37 | every instance of the pattern at a position is the match reported there, so the reported match is the only one |
| References.SkipGapStopsAtNonGap | djquickstart/cli.py:37 | the greedy `\s*` steps over whitespace only |
| References.CloseQuoteStopsAtQuote | djquickstart/cli.py:37 | the lazy `.*?["']` ends at the first quote and never crosses "\n" |
| References.SubKeepsPrefix | djquickstart/cli.py:36-40 | text before the first match is copied unchanged |
| References.SubFirstMatch | djquickstart/cli.py:36-40 | the first match is replaced, and the scan resumes after it |
| References.SubFirstPiece | djquickstart/cli.py:36-40 | either no match exists and the text is unchanged, or the output is the unmatched text before the leftmost match, the replacement, and the replace-all of what follows the match |
| References.SubNoMatch | djquickstart/cli.py:36-46 | text with no match anywhere is unchanged |
| References.SubWithoutKeyStart | djquickstart/cli.py:36-46 | text without the key's first character is unchanged |
| References.AssignmentIsMatch | djquickstart/cli.py:37-44 | a replacement whose value has no quote or "\n" is itself one whole match of its own key's pattern |
| References.FixWithoutMatches | djquickstart/cli.py:32-48 | settings text in which neither pattern occurs is left as it is |
| References.RenameExample | djquickstart/cli.py:36-46 | for the project name `My-Blog`, whose safe name is `My_Blog`, `ROOT_URLCONF = "old.urls"` becomes `ROOT_URLCONF = "My_Blog.urls"` |
| Names.SafeNameOfExample | djquickstart/cli.py:71 | the safe name of `My-Blog` is `My_Blog` |
| FixedPoint.FixTwiceDiffers | djquickstart/cli.py:36-46 | as written, a second run over the output of a first run can change it again |
| FixedPoint.SubCanonical | djquickstart/cli.py:36-40 | with the single-line pattern, every match in the output of a pass is exactly the pass's replacement |
| FixedPoint.SubKeepsCanonical | djquickstart/cli.py:42-46 | the WSGI_APPLICATION pass keeps that property for ROOT_URLCONF |
| FixedPoint.CanonicalFixed | djquickstart/cli.py:36-46 | a pass over text in which every match already spells the replacement changes nothing, whether `\s` matches line breaks (as written) or not |
| FixedPoint.FixSingleLineIdempotent | djquickstart/cli.py:32-48 | with the single-line pattern, and a safe name without quotes or "\n", running the fixer on its own output changes nothing |
| FixedPoint.FixSafeNameIdempotent | djquickstart/cli.py:32-48 | the same for the safe name of any project name without quotes, "\n" or backslashes |
| References.SubKeepsUntouched | djquickstart/cli.py:36-46 | a stretch of text that no match reaches into appears unchanged in the output of a pass |
| PassOverlap.SecondPassConsumesRouting | djquickstart/cli.py:36-46 | as written, and also with the single-line pattern, text with a ROOT_URLCONF assignment can come out of both passes with no ROOT_URLCONF at all |
| PassOverlap.FixKeepsRoutingAssignment | djquickstart/cli.py:32-48 | when the text has a ROOT_URLCONF assignment, the first pass writes `ROOT_URLCONF = "<safe>.urls"`; if no WSGI_APPLICATION match reaches into it, the fixed text still contains it |

## Left out

- The command-line interface is not part of this model. That covers `click`, the preset lookup and the directory checks.
- Running `django-admin startproject`/`startapp` is not part of this model. It is an external subprocess.
- Copying preset files is not part of this model.
- Writing `.env` and the generated secret key is not part of this model. These are file I/O and randomness.
- Reading and writing `settings.py` is taken out. Each transform maps old text to new text.
- Only the one pattern shape the fixer uses is modelled, not general regular expressions.
- References.FixProjectReferences: requires a safe name without a backslash. `re.sub` reads a backslash in the replacement template as an escape, and template escapes are not modelled.
- FixedPoint.FixSingleLineIdempotent: is stated for the corrected single-line pattern and for safe names without quotes or "\n". A quote inside the written value would end the match early.
- PassOverlap.FixKeepsRoutingAssignment: proves that the written ROOT_URLCONF assignment survives only when no WSGI_APPLICATION match reaches into it. Without that condition the as-written code can lose it (see "Findings").
- Strings are sequences of Unicode scalar values. A Python `str` can also hold a lone surrogate, which is not modelled. Encodings are not modelled either.

## Findings

| source | as written | input that shows it | evidently intended | confidence | as-written member | corrected member |
|---|---|---|---|---|---|---|
| djquickstart/cli.py:36-46 | `\s*` in `KEY\s*=\s*["'].*?["']` also matches line breaks, so a match can start on one line and reach into the next | settings text `ROOT_URLCONF="ROOT_URLCONF` + "\n" + `=""`, safe name `s`: the first run gives `ROOT_URLCONF="ROOT_URLCONF = "s.urls"`, and a second run gives `ROOT_URLCONF = "s.urls"s.urls"` | a second run of the patch step leaves its output unchanged; the whitespace runs stay on one line | medium; not executed | FixedPoint.FixTwiceDiffers | FixedPoint.FixSingleLineIdempotent |
| djquickstart/cli.py:36-46 | the WSGI_APPLICATION pass runs over the output of the ROOT_URLCONF pass, and the lazy `.*?` of an application value left open on its line runs into the assignment the first pass wrote | settings text `WSGI_APPLICATION = "fooROOT_URLCONF = "old"`, safe name `s`: the first pass gives `WSGI_APPLICATION = "fooROOT_URLCONF = "s.urls"`, and the second pass gives `WSGI_APPLICATION = "s.wsgi.application"s.urls"`, with no ROOT_URLCONF left | the ROOT_URLCONF assignment the first pass writes is still there afterwards, as the docstring at djquickstart/cli.py:33 promises; it is proved whenever no WSGI_APPLICATION match reaches into it | low; not executed | PassOverlap.SecondPassConsumesRouting | PassOverlap.FixKeepsRoutingAssignment |
