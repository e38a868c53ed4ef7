# UAC auto-elevate finder, modelled in Dafny

The tool walks a folder and prints `Found EXE: <path>` for every Windows
executable whose embedded application manifest asks for both of these:
- automatic elevation, through an `<autoElevate>true</autoElevate>` element;
- administrator rights, through `<requestedExecutionLevel level="requireAdministrator"`.

The model covers the decision made for each entry of the walk, and the walk's output as a whole:

- `AsciiCase` (ascii_case.dfy): the ASCII case-insensitive comparison used to
  keep only files whose extension is `exe`.
- `TokenPattern` (token_pattern.dfy): the two regular expressions are fixed
  sequences of literal tokens and starred character classes (`\s*` and
  `[^>]*`).
  - This module gives such patterns a declarative meaning. `Accepts` means the
    word splits into one word per piece. `Matches` means some substring is
    accepted, which is the unanchored `is_match`.
  - It also gives an executable backtracking matcher (`MatchHere`, `IsMatch`)
    and proves the matcher agrees with the declarative meaning.
- `ManifestPatterns` (manifest_patterns.dfy): the two patterns of
  src/main.rs:87 and src/main.rs:91, and what they accept and refuse.
- `Scanner` (scanner.dfy): a walk entry, and the per-entry decision `Report`.
  - `Report` has the same branches as the nested `if` / `if let` / `match` of `main`.
  - `Scan` models the loop over the walk's entries, proved to print exactly `Output`.

## Model

| member | source | states |
|---|---|---|
| Scanner.ReportIff | src/main.rs:80-99 | an entry is reported exactly when it is a regular file, has an extension equal to `exe` ignoring ASCII case, its manifest was read, and the manifest matches both patterns; the printed line is `Found EXE: ` followed by the path |
| Scanner.ManifestErrorNotReported | src/main.rs:83-84 | a manifest that cannot be read never leads to a report |
| Scanner.NotReportedExamples | src/main.rs:80-84 | a directory, a file with extension `exes`, a file without an extension, and a file whose manifest read fails are not reported |
| Scanner.OneElementNotReported | src/main.rs:95 | the test is a conjunction: a manifest with only `<autoElevate>true</autoElevate>`, or only the self-closed `<requestedExecutionLevel level="requireAdministrator"/>`, is not reported |
| Scanner.ElevatingExeReported | src/main.rs:80-96 | an `.EXE` file whose manifest holds both elements, with any text before, between and after them, is reported with its path |
| Scanner.BothElementsElevate | src/main.rs:95 | text holding an autoElevate match and a requestedExecutionLevel match, in either order and with any text before, between and after them, matches both patterns |
| Scanner.PlainElementsMatch | src/main.rs:87-91 | `<autoElevate>true</autoElevate>` matches the first pattern and `<requestedExecutionLevel level="requireAdministrator"` the second |
| Scanner.ElevatingManifestReported | src/main.rs:80-96 | an `.exe` file whose manifest is `<assembly><trustInfo><security><requestedExecutionLevel level="requireAdministrator"/></security></trustInfo><autoElevate>true</autoElevate></assembly>` is reported as `Found EXE: ` and its path |
| Scanner.AsInvokerManifestNotReported | src/main.rs:91-95 | the same manifest with `level="asInvoker"` is not reported, although it keeps the autoElevate element |
| Scanner.Scan | src/main.rs:75-99 | the loop over the walk prints exactly `Output`: one line per reported entry, in walk order, and nothing for unreadable walk entries |
| Scanner.SilentItemDoesNotStopScan | src/main.rs:75-99 | an entry that prints nothing leaves the lines of the entries before and after it unchanged |
| Scanner.ManifestErrorDoesNotStopScan | src/main.rs:84-99 | a manifest read error in the middle of the walk drops only that entry: the scan goes on |
| Scanner.OutputAppend | src/main.rs:75 | the output of two walks one after the other is the two outputs in turn |
| Scanner.OutputSound | src/main.rs:95-96 | every printed line comes from a readable entry that is reported |
| Scanner.OutputComplete | src/main.rs:95-96 | every readable, reported entry's line is printed |
| Scanner.OutputBounded | src/main.rs:75-99 | at most one line is printed per walk entry |
| AsciiCase.EqIgnoreAsciiCaseIsLowerEq | src/main.rs:82 | comparing ignoring ASCII case is the same as comparing the two strings with `A`-`Z` folded to `a`-`z` |
| AsciiCase.EqIgnoreAsciiCaseEquivalence | src/main.rs:82 | the comparison is reflexive, symmetric and transitive |
| AsciiCase.IsExeSpelledOut | src/main.rs:82 | an extension passes exactly when it has three characters spelling `exe`, each letter in either case |
| AsciiCase.IsExeExamples | src/main.rs:82 | `exe`, `EXE` and `eXe` pass; `ex`, `exes` and `exe ` fail |
| TokenPattern.IsMatchCorrect | src/main.rs:95 | the executable matcher finds the pattern exactly when some substring of the text is in the pattern's language |
| TokenPattern.MatchHereCorrect | src/main.rs:95 | the matcher succeeds at the front of a text exactly when some prefix is in the pattern's language |
| TokenPattern.MatchesContainsToken | src/main.rs:87-91 | every literal token of a pattern occurs in every text the pattern is found in |
| TokenPattern.IsMatchExtend | src/main.rs:95 | a text the pattern is found in still matches with anything before and after it |
| TokenPattern.FillMatches | src/main.rs:87-91 | tokens with any runs of the gap classes between them match the interleaved pattern |
| TokenPattern.AcceptedIsFilled | src/main.rs:87-91 | conversely, every word the interleaved pattern accepts is its tokens with runs of the gap classes between them |
| TokenPattern.IsMatchIffShape | src/main.rs:87-95 | an interleaved pattern is found in a text exactly when some substring is its tokens with runs of the gap classes between them |
| TokenPattern.NoPairNoMatch | src/main.rs:87-95 | a text in which two adjacent characters of one of a pattern's literal tokens never stand side by side does not match |
| ManifestPatterns.AutoElevateNeedsTokens | src/main.rs:87 | a text matching the autoElevate pattern contains `autoElevate` and `true` as written, and a `/` |
| ManifestPatterns.RequireAdministratorNeedsTokens | src/main.rs:91 | a text matching the requestedExecutionLevel pattern contains `requestedExecutionLevel` and `"requireAdministrator"` (with double quotes) as written |
| ManifestPatterns.AutoElevateToleratesWhitespace | src/main.rs:87 | any whitespace, or none, around every token of the autoElevate element still matches |
| ManifestPatterns.AutoElevateSpacedExample | src/main.rs:87 | `< autoElevate >  true  < / autoElevate >` matches |
| ManifestPatterns.RequireAdministratorToleratesLayout | src/main.rs:91 | whitespace after `<` and around `=`, and any attributes without `>` before `level`, still match |
| ManifestPatterns.RequireAdministratorExamples | src/main.rs:91 | `<requestedExecutionLevel level="requireAdministrator"` matches, with or without a `uiAccess="false"` attribute before `level` |
| ManifestPatterns.AutoElevateShape | src/main.rs:87 | the autoElevate pattern is found exactly when some substring is `<`, `autoElevate`, `>`, `true`, `<`, `/`, `autoElevate`, `>` with whitespace runs between them |
| ManifestPatterns.RequireAdministratorShape | src/main.rs:91 | the requestedExecutionLevel pattern is found exactly when some substring is `<`, `requestedExecutionLevel`, `level`, `=`, `"requireAdministrator"` with whitespace runs between them, except characters other than `>` before `level` |
| ManifestPatterns.PatternsUnanchored | src/main.rs:87-95 | if a text matches either pattern, so does the text with any prefix and suffix |
| ManifestPatterns.AutoElevateIsCaseSensitive | src/main.rs:87 | `<autoElevate>True</autoElevate>`, `<autoElevate>yes</autoElevate>` and `<AutoElevate>true</AutoElevate>` do not match |
| ManifestPatterns.AutoElevateAloneIsNotAdministrator | src/main.rs:91 | the autoElevate element alone does not match the requestedExecutionLevel pattern |
| ManifestPatterns.AdministratorAloneIsNotAutoElevate | src/main.rs:87 | the self-closed `<requestedExecutionLevel level="requireAdministrator"/>` alone does not match the autoElevate pattern |
| ManifestPatterns.RequireAdministratorRefusesAsInvoker | src/main.rs:91 | `level="asInvoker"` does not match |
| ManifestPatterns.RequireAdministratorRefusesSingleQuotes | src/main.rs:91 | `level='requireAdministrator'` in single quotes does not match |
| ManifestPatterns.RequireAdministratorStopsAtClose | src/main.rs:91 | a requestedExecutionLevel start tag whose attributes (any text without `<`, `>` or `level`) end at `>`, followed by text without `<`, does not match: `[^>]*` cannot cross the `>` that closes the start tag |
| ManifestPatterns.StopsAtCloseExamples | src/main.rs:91 | `level="requireAdministrator"` after `<requestedExecutionLevel>` or after `<requestedExecutionLevel uiAccess="false">` does not match |
| ManifestPatterns.AutoElevateLacksPair | src/main.rs:87 | a text with no `t` followed by `r`, no `r` followed by `u`, or no `a` followed by `u` does not match the autoElevate pattern |
| ManifestPatterns.RequireAdministratorLacksValue | src/main.rs:91 | a text in which no `"` is followed by `r` does not match the requestedExecutionLevel pattern |

## Left out

- `get_manifest` (src/main.rs:47-55) reads the file and parses a PE64 image with
  the `pelite` crate, which is not part of this model. Its result is an input
  of each entry, of type `Result<string, ExportError>`.
- The `Display` and `From` implementations of `ExportError`
  (src/main.rs:17-45) only format and wrap errors. `ExportError` keeps only its
  three cases.
- The command-line checks (src/main.rs:58-73) are left out. They cover the
  argument count, the folder test and `process::exit`.
- Several facts about an entry are inputs of the entry, not computed:
  - the directory walk of `WalkDir` (an entry it cannot read is the `Err` case of an item);
  - `Path::is_file`;
  - `Path::extension`;
  - the rendering of `path.display()`.
- Printing is modelled as the sequence of lines the walk prints.
- The `to_str().unwrap()` at src/main.rs:83 would panic on a path that is not
  valid UTF-8. The model's paths are strings, so that panic is not modelled.
- The extension is compared as a string of characters. The program compares
  the bytes of an `OsStr` with the ASCII string `exe`. The two agree, because
  only ASCII letters fold.
- The model does not contain a general regular-expression engine, and
  `Regex::new(...).unwrap()` cannot fail for these two fixed patterns. Only
  the two fixed patterns are modelled, as token patterns. `\s` is the fixed
  list of Unicode White_Space code points (`TokenPattern.IsWs`).
- TokenPattern.IsMatch: does not model which substring the regex crate reports
  or the capture group; only whether the pattern is found, which is all that
  `is_match` answers.

