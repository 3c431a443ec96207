# fileflow core: rule lookup and collision-safe moves, in Dafny

fileflow watches a folder and moves each new file into a destination
folder chosen by user rules. This project models the two pieces of its
Rust backend that hold the logic:

- **Rule lookup** (`src-tauri/src/config.rs`, modules `Configuration`,
  `Glob`, `Strings`). `get_destination_folder` scans the ordered rules for
  the first one that matches the file and has a non-empty destination.
  If no rule yields one, it falls back to the legacy `mappings` table:
  first under the lower-cased extension, then under `"other"`. A rule
  condition is one of three kinds:
  - `FileType`: a case-insensitive equality test, or the wildcard `"*"`.
  - `Name`: a case-sensitive substring test, or a `*` glob turned into an
    anchored regular expression.
  - `CreatedDate`: a stub that is always false.
- **Organizer** (`src-tauri/src/file_organizer.rs`, modules `Organizer`,
  `Collision`, `Paths`). `organize_file_to_destination` works in four steps:
  1. It creates the destination directory when it is missing.
  2. It tries the file's own name there.
  3. If that name is taken, it probes `"stem (n).ext"` (or `"stem (n)"`
     when the extension is empty) for n = 1, 2, … until a name is free.
  4. It renames the file to that name.

  `organize_file` first gets the destination from the rule lookup. It
  passes the lower-cased extension, or `"other"` when the file has none.

The rule lookup is pure and is modelled as functions and lemmas. The
organizer changes the file system in place. It is modelled as the class
`Organizer.FileSystem`, which holds a map from directory path to that
directory's entries (name → file id). The probe loop is a `while` loop,
proved against the specification function `Collision.ChosenName`. Each
of the class's operations is specified by a pure function of the old
state (`Organizer.ToDestination`, `Organizer.Organize`). The lemmas
about these functions state what the source promises.

The glob translation is modelled exactly as written. The source first
replaces `*` by `.*` and then escapes every `.`, so each `*` becomes `\.*`.
In a pattern without `\` or the other regex syntax (`Glob.MetaFree`),
that regular expression matches a run of literal dots and nothing else.
So `"*.pdf"` matches `".pdf"` and `"..pdf"` but not `"a.pdf"`
(`Glob.StarPatternLanguage`, `Glob.StarDotPdfRejectsLetters`).
These claims rest on the model's own reading of `Regex::new` and
`is_match` for the text that such patterns produce. That text consists of
plain characters, `\.` and `\.*`. `Glob.ParseRegex` reads it into atoms,
and `Glob.FullMatch` defines what an anchored match of those atoms is. Any
other text is left to the regex crate, as the parameter `Glob.RegexOracle`:
whether `Regex::new` compiles the text, and what the compiled expression
matches. A `*` right after a `\` produces such text
(`Glob.BackslashStarLeavesFragment`).

Three further facts about the code shape the model:
- `get_destination_folder` still falls back to the legacy `mappings`
  table when no rule yields a destination.
- In a `Name` pattern without `\` or the other regex syntax, `*` matches
  only runs of dots, not any sequence.
- The watcher calls `organize_file` for every created path that is a
  regular file and still exists after a short delay
  (src-tauri/src/file_watcher.rs:23-34).

## Model

| member | source | states |
|---|---|---|
| `Strings.Lower` | src-tauri/src/config.rs:121-122 | `to_lowercase` (ASCII): same length, each character lower-cased on its own |
| `Strings.LowerIdempotent` | src-tauri/src/config.rs:121-122 | lower-casing twice equals lower-casing once |
| `Strings.LowerIsStarIff` | src-tauri/src/config.rs:122 | a value lower-cases to `"*"` exactly when it is `"*"` |
| `Strings.Contains` | src-tauri/src/config.rs:133-136 | `contains` is true exactly when the needle occurs at some index of the name |
| `Strings.ContainsEmpty` | src-tauri/src/config.rs:135-137 | the empty pattern occurs in every name |
| `Strings.Decimal` | src-tauri/src/file_organizer.rs:50-54 | the counter is written as a non-empty string of decimal digits, with a leading `0` only for zero itself |
| `Strings.DecimalRoundTrip` | src-tauri/src/file_organizer.rs:50-54 | reading the digits back gives the counter again |
| `Strings.DecimalInjective` | src-tauri/src/file_organizer.rs:50-54 | distinct counters are written differently |
| `Paths.FileName` | src-tauri/src/file_organizer.rs:34-36 | `file_name` is absent if and only if the final component is empty, `.` or `..`; otherwise it is that component |
| `Paths.LastDot` | src-tauri/src/file_organizer.rs:42-49 | the index found is a `.` with no `.` after it; absent exactly when there is no `.` |
| `Paths.FileStem` | src-tauri/src/file_organizer.rs:42-45 | `file_stem` is a prefix of the name |
| `Paths.Extension` | src-tauri/src/file_organizer.rs:46-49 | `extension` contains no `.`, and the stem, a dot and the extension give the name back; without an extension the stem is the whole name |
| `Paths.ExtensionAbsentIff` | src-tauri/src/file_organizer.rs:6-10 | a name has no extension exactly when it is `..` or has no `.` after its first character |
| `Paths.ExtensionExamples` | src-tauri/src/file_organizer.rs:6-10 | `.bashrc` has no extension, `foo.` has the empty one, `a.tar.gz` splits into `a.tar` and `gz` |
| `Paths.Join` | src-tauri/src/file_organizer.rs:55 | `dest_path.join(name)` is the directory, a `/` unless the directory is empty or already ends in one, then the name |
| `Glob.GlobToRegex` | src-tauri/src/config.rs:127-129 | the two chained `replace` calls equal the character-wise rewrite `Glob.Rewrite`: `*` becomes `\.*`, `.` becomes `\.`, every other character stays |
| `Glob.MetaFreeParses` | src-tauri/src/config.rs:127-130 | for a pattern without other regex syntax, the rewritten text always compiles, to the pattern's atoms |
| `Glob.BackslashStarLeavesFragment` | src-tauri/src/config.rs:126-130 | for `a\*.txt` the rewrite gives `a\\.*\.txt`, which is outside the fragment, so the regex crate decides the match |
| `Glob.ParseRegex` | src-tauri/src/config.rs:130 | defines which regular-expression texts the model reads itself: plain characters, `\.` and `\.*`. Whatever it parses renders back to the same text, and its literals hold no regex syntax. It is not a model of the regex crate in general |
| `Glob.RenderParses` | src-tauri/src/config.rs:130 | parsing the rendered text of any such atoms gives them back, so `Glob.ParseRegex` and `Glob.Render` are inverse on the fragment |
| `Glob.FullMatch` | src-tauri/src/config.rs:130-131 | defines what `^…$` with `is_match` means on the fragment: a match uses only dots and the pattern's literal characters, and without a dot run it is exactly as long as the atoms |
| `Glob.NameMatches` | src-tauri/src/config.rs:124-137 | a pattern without `*` matches exactly the names that contain it, and the empty pattern matches every name; a pattern with `*` is the anchored match of its rewritten text when that is in the modelled fragment, otherwise the regex crate's answer, and when the text does not compile, the substring test again |
| `Glob.StarPatternIsFullMatch` | src-tauri/src/config.rs:126-131 | a star pattern without other regex syntax is an anchored whole-name match, independent of the regex crate's behaviour elsewhere |
| `Glob.ExpansionMatches` | src-tauri/src/config.rs:126-131 | every name obtained by replacing each `*` with some dots matches |
| `Glob.MatchIsExpansion` | src-tauri/src/config.rs:126-131 | every name that matches is such an expansion |
| `Glob.StarPatternLanguage` | src-tauri/src/config.rs:126-131 | a star pattern matches a name if and only if the name is the pattern with each `*` replaced by a run of dots |
| `Glob.StarDotPdfMatchesDots` | src-tauri/src/config.rs:126-131 | `"*.pdf"` matches `".pdf"` and `"..pdf"` |
| `Glob.StarDotPdfRejectsLetters` | src-tauri/src/config.rs:126-131 | `"*.pdf"` matches neither `"a.pdf"` nor `"report.pdf"` |
| `Configuration.FirstRuleDestination` | src-tauri/src/config.rs:86-92 | a result is non-empty and is some rule's destination; no result means no rule both matches and has a destination |
| `Configuration.MappingFallback` | src-tauri/src/config.rs:94-107 | a fallback result is a non-empty folder from the mappings |
| `Configuration.DestinationFolder` | src-tauri/src/config.rs:78-108 | every destination returned is a non-empty string |
| `Configuration.FirstYieldWins` | src-tauri/src/config.rs:86-92 | the first rule that matches with a non-empty destination decides the result |
| `Configuration.ResultIsFirstYield` | src-tauri/src/config.rs:86-92 | a result from the rules is the destination of the first rule that yields, and no earlier rule yields |
| `Configuration.LaterRulesIgnored` | src-tauri/src/config.rs:86-92 | once a prefix of the rules yields, appending rules changes nothing |
| `Configuration.EmptyDestinationSkipped` | src-tauri/src/config.rs:87-91 | inserting a rule with an empty destination anywhere leaves the result unchanged, even if it matches |
| `Configuration.FallbackWhenNoRuleYields` | src-tauri/src/config.rs:94-107 | with no yielding rule, the result is the lower-cased extension's folder if present and non-empty, else the `"other"` folder if non-empty, else none |
| `Configuration.RulesBeforeMappings` | src-tauri/src/config.rs:85-107 | a yielding rule takes precedence over every mapping |
| `Configuration.FileTypeIgnoresCase` | src-tauri/src/config.rs:120-123 | `FileType` ignores the case of both its value and the extension |
| `Configuration.OverlappingRulesOrder` | src-tauri/src/config.rs:86-92 | for any two rules that both yield for a file, the one listed first decides, in either order |
| `Configuration.OverlappingRulesExample` | src-tauri/src/config.rs:86-92 | `report.pdf` matches both a `FileType("PDF")` rule and a `Name("report")` rule, and goes wherever the earlier of the two says |
| `Configuration.DefaultConfig` | src-tauri/src/config.rs:38-46 | the default configuration watches no folder and gives no destination for any file |
| `Configuration.FileTypeMatches` | src-tauri/src/config.rs:120-123 | `FileType` holds if and only if the lower-cased value equals the lower-cased extension or the value is `"*"` |
| `Configuration.CreatedDateMatches` | src-tauri/src/config.rs:139-154 | `CreatedDate` never holds |
| `Configuration.Matches` | src-tauri/src/config.rs:112-156 | a `FileType` rule matches as `FileTypeMatches` says, a `Name` rule without `*` matches exactly the names containing the pattern (every name for the empty one), and a `CreatedDate` rule matches nothing |
| `Configuration.Yields` | src-tauri/src/config.rs:87-88 | a rule ends the scan only if it matches; a rule with an empty destination or a `CreatedDate` condition never does, and a `FileType("*")` rule does exactly when its destination is non-empty |
| `Collision.Candidate` | src-tauri/src/file_organizer.rs:50-54 | a candidate starts with the stem and is as long as the stem, the counter's digits, ` ()` and, unless the extension is empty, a dot and the extension |
| `Collision.CandidateShape` | src-tauri/src/file_organizer.rs:50-54 | a candidate is the stem, ` (`, the counter's digits, `)`, then `.` and the extension unless it is empty |
| `Collision.Probe` | src-tauri/src/file_organizer.rs:38-55 | probe 0 is the file's own name; every later probe is longer than it |
| `Collision.ExtOrEmpty` | src-tauri/src/file_organizer.rs:46-49 | the extension, or `""` when there is none; it holds no `.`, and with an extension the name is stem, dot, extension |
| `Collision.CandidateInjective` | src-tauri/src/file_organizer.rs:50-54 | distinct counters give distinct candidate names |
| `Collision.ProbeInjective` | src-tauri/src/file_organizer.rs:38-57 | the original name and candidates 1, 2, … are pairwise distinct |
| `Collision.ProbesTakenBound` | src-tauri/src/file_organizer.rs:41-57 | pigeonhole: if the first k probes are all taken, the directory holds at least k names |
| `Collision.FirstFreeProbe` | src-tauri/src/file_organizer.rs:41-57 | the probe found is free, and every probe before it is taken |
| `Collision.FreeIndex` | src-tauri/src/file_organizer.rs:38-57 | a free probe exists; the one chosen is the first free one |
| `Collision.FreeIndexUnique` | src-tauri/src/file_organizer.rs:38-57 | being free with every earlier probe taken identifies the chosen probe |
| `Collision.ChosenName` | src-tauri/src/file_organizer.rs:38-57 | the chosen name is never present in the directory, and it is the original name exactly when that is free |
| `Collision.ChosenNameSmallestCounter` | src-tauri/src/file_organizer.rs:38-57 | when the name is taken, the result is the candidate with the smallest free n ≥ 1, built from the file's stem and extension |
| `Collision.SuccessiveCollisions` | src-tauri/src/file_organizer.rs:38-57 | files with one name, moved in turn, get the name, then `stem (1).ext`, `stem (2).ext`, … |
| `Collision.ReportExample` | src-tauri/src/file_organizer.rs:38-57 | an existing `report.txt` makes the next one `report (1).txt` |
| `Organizer.WithDir` | src-tauri/src/file_organizer.rs:28-32 | a missing destination directory is created empty; an existing one and every other entry are left as they are |
| `Organizer.Renamed` | src-tauri/src/file_organizer.rs:59-60 | after the rename the target holds the source's file, the source entry is gone unless it is the target, and every other entry and directory is unchanged |
| `Organizer.ToDestination` | src-tauri/src/file_organizer.rs:65-101 | succeeds if and only if the file name is valid and the source exists; the result is destination/chosen name; the destination directory exists afterwards, and on failure nothing else has changed |
| `Organizer.LookupExtension` | src-tauri/src/file_organizer.rs:6-10 | the lookup extension is `"other"` when the name has none, otherwise the extension lower-cased, so it is itself lower-case |
| `Organizer.LookupName` | src-tauri/src/file_organizer.rs:12-15 | the name passed to the rule lookup and to the "no matching rule" error: the final component, or `""` when the path has none (`.` and `..` included) |
| `Organizer.LookupInfo` | src-tauri/src/file_organizer.rs:17-25 | what `organize_file` passes to `get_destination_folder`: a path ending in the name, the lower-case extension or `"other"`, the file name or `""`, and the creation time unchanged |
| `Organizer.Organize` | src-tauri/src/file_organizer.rs:5-63 | without a looked-up destination the result is the "no matching rule" error on the unchanged file system; success implies a destination was found |
| `Organizer.ToDestinationMoves` | src-tauri/src/file_organizer.rs:65-101 | on success the source entry is gone, the destination holds the same file under a previously free name, the returned path is destination/name, and every other entry is unchanged |
| `Organizer.ToDestinationNeverOverwrites` | src-tauri/src/file_organizer.rs:76-100 | every entry that was in the destination, other than the moved file, is still there with the same file |
| `Organizer.ToDestinationKeepsFreeName` | src-tauri/src/file_organizer.rs:76-79 | the file keeps its name if and only if that name was free in the destination |
| `Organizer.ToDestinationErrors` | src-tauri/src/file_organizer.rs:66-98 | an invalid file name and a vanished source are the two failures; after either, only the destination directory has been created |
| `Organizer.OrganizeWithoutRule` | src-tauri/src/file_organizer.rs:24-26 | without a destination, `organize_file` fails with "no matching rule" and changes nothing |
| `Organizer.OrganizeUsesLookup` | src-tauri/src/file_organizer.rs:24-62 | a file `organize_file` moves goes to the looked-up folder, under a name that was free there |
| `Organizer.LookupExtensionExamples` | src-tauri/src/file_organizer.rs:6-10 | the lookup extension is lower-cased (`Photo.JPG` → `jpg`), is `"other"` for a dotfile whose only dot is the leading one (`.bashrc`) or a name without a dot, and `""` for `foo.` |
| `Organizer.NoExtensionMatchesOtherType` | src-tauri/src/file_organizer.rs:6-10 | a file without an extension is matched by every `FileType` rule whose value lower-cases to `"other"` |
| `Organizer.ScenarioPdfRule` | src-tauri/src/file_organizer.rs:5-63 | a `pdf` rule moves `/in/a.pdf` to `/docs/a.pdf` and creates `/docs` |
| `Organizer.ScenarioReportCollision` | src-tauri/src/file_organizer.rs:65-101 | with `/out/report.txt` present, a new `report.txt` becomes `/out/report (1).txt` and the old file stays |
| `Organizer.FileSystem.Exists` | src-tauri/src/file_organizer.rs:41 | `exists()` is true exactly when the directory holds the name |
| `Organizer.FileSystem.EnsureDir` | src-tauri/src/file_organizer.rs:28-32 | the new state is the old one with the directory created if it was missing |
| `Organizer.FileSystem.FreeName` | src-tauri/src/file_organizer.rs:38-57 | the probe loop terminates and returns the chosen name |
| `Organizer.FileSystem.Rename` | src-tauri/src/file_organizer.rs:59-60 | succeeds exactly when the source exists; then the file is moved to the target, otherwise nothing changes |
| `Organizer.FileSystem.OrganizeFileToDestination` | src-tauri/src/file_organizer.rs:65-101 | result and new state are those of `ToDestination` on the old state |
| `Organizer.FileSystem.OrganizeFile` | src-tauri/src/file_organizer.rs:5-63 | result and new state are those of `Organize` on the old state |

## Left out

- `Config::load`, `Config::save`, `Config::config_path` (config.rs:49-76): file I/O and JSON serialisation, not modelled. `Config::default` is `Configuration.DefaultConfig`.
- `file_watcher.rs`, `commands.rs`, `main.rs` and `update-checker.js`: notification callbacks, threads, the settle delay, locks, broadcast channels, Tauri commands and network update checks. These are concurrency and I/O glue around `organize_file`.
- Regular expressions outside the modelled fragment: patterns containing `\ + ? ( ) | [ ] { } ^ $`. For these, whether `Regex::new` compiles the text and what the compiled expression matches are parameters (`Glob.RegexOracle`), not a model of the regex crate. A compile failure falls back to `contains` as in the source. In particular, a `*` right after a `\` becomes `\\.*`: the regex crate reads `\\` as a literal backslash and `.*` as any sequence, so that `*` matches any text, not only dots. The model leaves that match to the parameter.
- Unicode case mapping: `to_lowercase` is modelled as ASCII lower-casing.
- Non-UTF-8 file names: the `"file"` stem and `""` name fallbacks for names that are not valid UTF-8 are not modelled.
- Path normalisation and Windows separators: a source path is given as its parent directory and final component, and directories are opaque path keys. `join` is the Unix rule.
- Directory structure: `create_dir_all` adds only the destination key, not its parents. Subdirectory entries are not listed among a directory's names, so `exists()` sees files only.
- OS failures: `create_dir_all` never fails in the model. `rename` fails only when the source has vanished. Permission and cross-device errors are not modelled.
- Organizer.FileSystem.FreeName: the counter is an unbounded `nat`. In the source `counter` is an `i32` (file_organizer.rs:39, 77), so `counter += 1` would panic in a debug build or wrap in a release build after 2³¹−1 collisions. `Collision.ProbesTakenBound` shows that the counter never exceeds the number of names in the directory plus one, so that needs a directory of more than 2³¹−2 entries.
- Races between the `exists()` probes and `rename`: each operation is modelled as atomic.
- Error strings: they are modelled as the constructors of `Organizer.OrganizeError`, without their formatted text.
- Duplicated code: `organize_file` repeats the body of `organize_file_to_destination` after the lookup. The model calls the latter; the two behave identically.
- Creation time: `SystemTime` is modelled as `Time`, an `int` that no condition reads, because `CreatedDate` never inspects it. Reading the creation time from the file's metadata is a parameter of `Organizer.Organize`.
