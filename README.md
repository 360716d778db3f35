# copy_data.py, modelled in Dafny

`copy_data.py` copies seismic data files from a station archive
(`<source_root>/DataTramSonTayQN*/SHORT/<yymmdd>/<yymmddhh>/<yymmddhh>.<nn>`)
into a destination tree. In that tree each station folder is renamed by a
spreadsheet mapping: `<dest_root>/<mapped>/<yymmdd>/<yymmddhh>/<file>`. This
project models the four parts of the script that make decisions:

- **`load_mapping`** (`mapping_loader.dfy`). The row loop that turns
  spreadsheet rows into a mapping from source folder pattern (column A) to
  destination folder name (column B). Cells are trimmed with Python's
  `str.strip()` (`text.dfy`). The mapping is a Python `dict`, modelled as an
  insertion-ordered map (`ordered_map.dfy`): a key keeps the position of its
  first insertion and takes the value of its last.
- **`match_mapping`** (`pattern_matcher.dfy`). The longest-prefix lookup. It
  strips trailing `*` from each key, ignores keys that become empty, and
  picks the longest matching prefix. Because the comparison is strict, the
  first key in mapping order wins among prefixes of equal length.
- **`iter_source_files`** (`source_walker.dfy`). The directory walk and its
  name filters, over a directory tree given as a value.
- **`copy_files`** (`copy_executor.dfy`). The routing, skip-existing,
  dry-run and counting loop. The destination file system is a class
  `DestFs` whose `files` map records, for each path present, the source
  path its content was copied from.

Three loops in the script update variables step by step: the row loop, the
lookup loop and the copy loop. Each is an imperative method
(`LoadMapping`, `MatchMapping`, `CopyFiles`) with loop invariants. Each
method is proved equal to a pure function (`Load`, `Match`, `Run`), and the
script's promises are proved about those functions as lemmas.
`scenarios.dfy` works one concrete run through the whole model.

## Model

| member | source | states |
|---|---|---|
| `MappingLoader.LoadMapping` | copy_data.py:22-30 | The row loop yields `Load(rows)`; the result has distinct keys, and every key and value is non-empty. |
| `MappingLoader.CellText` | copy_data.py:26-27 | A cell's text: an empty cell reads as `""`, a filled one as its `str.strip()`. It has no contract of its own; `Text.Strip` states what trimming does. |
| `MappingLoader.RowEntry` | copy_data.py:24-28 | The entry one row contributes, or nothing. Its contract is `RowKept`. |
| `MappingLoader.Absorb` | copy_data.py:28-29 | `mapping[source_name] = dest_name` when the row is kept, otherwise no change. Its contract is `AbsorbGet` and `AbsorbKeys`. |
| `MappingLoader.AbsorbGet` | copy_data.py:28-29 | After one more row, the key that row defines maps to its column B, and every other key keeps its value. |
| `MappingLoader.AbsorbKeys` | copy_data.py:28-29 | One more row appends its key if the key is new, and otherwise leaves the key order as it was. |
| `MappingLoader.Load` | copy_data.py:23-29 | The mapping after all rows are read top to bottom. It is the function `LoadMapping` is proved equal to, and its contract is `LoadGet`, `LoadKeys`, `LoadOrder` and `LoadWellFormed`. |
| `MappingLoader.RowKept` | copy_data.py:24-28 | A row contributes an entry exactly when it has at least two cells and both trimmed cells are non-empty. The entry maps the trimmed column A to the trimmed column B. Empty rows and one-cell rows contribute nothing. |
| `MappingLoader.LoadWellFormed` | copy_data.py:26-29 | Every loaded key occurs once. Every stored key and value is non-empty and has no leading or trailing whitespace. |
| `MappingLoader.LoadGet` | copy_data.py:23-29 | Looking a key up in the loaded mapping gives column B of the last row that defines it, or nothing if no row does: later duplicates overwrite earlier ones. |
| `MappingLoader.AbsorbLastValue` | copy_data.py:28-29 | One more row keeps the mapping equal to "the value of the last defining row" for every key. |
| `MappingLoader.LoadKeys` | copy_data.py:23-29 | A key is in the loaded mapping if and only if some row defines it. |
| `MappingLoader.LoadOrder` | copy_data.py:29 | The loaded keys are in the order of the rows that first defined them: a key that a later row overwrites keeps its original position. |
| `MappingLoader.LastRowIsLast` | copy_data.py:23-29 | The last defining row is absent exactly when no row defines the key; otherwise no later row defines it. |
| `MappingLoader.FirstRowIsFirst` | copy_data.py:23-29 | No row before the first defining row defines the key; the first defining row exists exactly when some row defines the key. |
| `MappingLoader.FirstRowsAppend` | copy_data.py:29 | Reading one more row leaves the first defining rows of the known keys in place; a newly defined key comes after all of them. |
| `OrderedMaps.PutSpec` | copy_data.py:29 | `mapping[k] = v`: afterwards `k` maps to `v` and every other key keeps its value. The key order is unchanged, or gains `k` at the end if `k` is new. Keys stay distinct, and no entry appears besides the old ones and the new pair. |
| `OrderedMaps.Put` | copy_data.py:29 | `d[k] = v` on an insertion-ordered dict: replace in place, or append. Its contract is `PutSpec`. |
| `OrderedMaps.Get` | copy_data.py:29 | A lookup finds nothing exactly when the key is absent; otherwise the mapping holds that key with the value found. |
| `OrderedMaps.Find` | copy_data.py:29 | The position found holds the key and is its first occurrence; nothing is found exactly when no entry has the key. |
| `Text.Strip` | copy_data.py:26-27 | `str.strip()`: the result is a contiguous slice of the input, only whitespace is cut from either end, and the result neither starts nor ends with whitespace. |
| `Text.StripIdempotent` | copy_data.py:26-27 | Stripping twice is stripping once. |
| `Text.StripEmptyIffAllSpace` | copy_data.py:26-28 | A cell strips to the empty string exactly when it is all whitespace, so whitespace-only cells count as empty and their rows are dropped. |
| `Text.StripTrailing` | copy_data.py:109 | `rstrip("*")`: the result is a prefix of the key, every character removed is `*`, and the result does not end with `*`, so all trailing stars are removed. |
| `PatternMatcher.KeyPrefix` | copy_data.py:109 | `source_pattern.rstrip("*")`. It is `Text.StripTrailing` with `*`, whose contract states what is removed. |
| `PatternMatcher.Candidate` | copy_data.py:110-112 | An entry can match a name when its star-stripped prefix is non-empty and starts the name. This predicate is the specification used by `IsBest`. |
| `PatternMatcher.IsBest` | copy_data.py:108-114 | The entry the lookup must choose: a candidate; no candidate is longer; every earlier candidate is strictly shorter. This predicate is the specification that `BestIndex`, `Match` and `MatchMapping` are proved against. |
| `PatternMatcher.BestIsUnique` | copy_data.py:112 | At most one entry is the best, so `Match`'s result is determined by the mapping and the name. |
| `PatternMatcher.BestIndex` | copy_data.py:106-114 | The entry chosen matches. No matching prefix is longer, and every earlier match is strictly shorter, so the first one wins among equal lengths. Nothing is chosen exactly when no entry's non-empty star-stripped prefix starts the name. |
| `PatternMatcher.Match` | copy_data.py:105-115 | The result is `None` exactly when no key's non-empty star-stripped prefix starts the name. Otherwise it is the value of the best entry: the longest match, and the earliest one among equals. |
| `PatternMatcher.MatchMapping` | copy_data.py:105-115 | The loop over the mapping with `best_match` and `best_len` returns exactly `Match`. |
| `PatternMatcher.NoneExtended` | copy_data.py:112-114 | With no earlier match, a matching next entry becomes the best one, and a non-matching one leaves no match. |
| `PatternMatcher.BestExtended` | copy_data.py:112-114 | A next entry replaces the best one only if it matches with a strictly longer prefix; otherwise the best one stays. |
| `PatternMatcher.StarsOnlyNeverMatch` | copy_data.py:109-111 | A key made only of `*` (including the empty key) never matches any name. |
| `SourceWalker.Lookup` | copy_data.py:91-92 | `level1_dir / "SHORT"`: the entry found is in the directory and has that name; nothing is found when no entry has it. |
| `SourceWalker.ShortEntries` | copy_data.py:91-94 | When it finds entries, the top-level entry is a directory holding a directory `SHORT` with exactly those entries. A directory with no `SHORT` entry gives nothing. The converse is `ShortEntriesFinds`. |
| `SourceWalker.LookupFinds` | copy_data.py:91 | In a directory whose entries have distinct names, `dir / name` finds the entry of that name. |
| `SourceWalker.ShortEntriesFinds` | copy_data.py:91-94 | A top-level directory whose `SHORT` entry is a directory gives exactly that directory's entries for the day loop. |
| `SourceWalker.IsTopName` | copy_data.py:83-88 | The glob `DataTramSonTayQN*`: the name starts with `DataTramSonTayQN`. This is a predicate, used by `SourceFilesExact`. |
| `SourceWalker.IsDayName` | copy_data.py:84-95 | `^\d{6}$`: exactly 6 ASCII digits. This is a predicate, used by `SourceFilesExact`. |
| `SourceWalker.IsHourName` | copy_data.py:85-98 | `^\d{8}$`: exactly 8 ASCII digits. This is a predicate, used by `SourceFilesExact`. |
| `SourceWalker.IsDataFileName` | copy_data.py:86-101 | `^\d{8}\.\d{2}$`: 8 ASCII digits, a dot, 2 ASCII digits. This is a predicate, used by `SourceFilesExact`. |
| `SourceWalker.SourceFiles` | copy_data.py:88-102 | Every file the walker yields passes all four name checks and has a top-level directory of its top name. The converse is `SourceFilesExact`. |
| `SourceWalker.FromTop` | copy_data.py:88-102 | Every file one top-level entry yields passes all four name checks and carries that entry's name, which must be a directory. |
| `SourceWalker.FromDays` | copy_data.py:94-102 | Every file the day loop yields carries the top name and passes the day, hour and file-name checks. |
| `SourceWalker.FromHours` | copy_data.py:97-102 | Every file the hour loop yields carries the top and day names and passes the hour and file-name checks. |
| `SourceWalker.FromFiles` | copy_data.py:100-102 | The file loop yields at most one file per entry, and each carries the top, day and hour names and a data-file name. |
| `SourceWalker.SourceFilesExact` | copy_data.py:82-102 | The walker yields a file if and only if it is present along `<top>/SHORT/<day>/<hour>/<file>`, with each of these a directory except the data file, which is a regular file. The top name must start with `DataTramSonTayQN`, the day must be 6 digits, the hour 8 digits, and the file name 8 digits, a dot and 2 digits. |
| `SourceWalker.PresentSplit` | copy_data.py:88-93 | A file is present under the first top-level entry or under one of the others. |
| `SourceWalker.FromTopExact` | copy_data.py:89-102 | One top-level entry yields a file if and only if it is a directory of that name, the names pass their checks and the file is present under its `SHORT` directory. |
| `SourceWalker.FromDaysExact` | copy_data.py:94-102 | The day loop yields exactly the accepted files present under day directories with 6-digit names. |
| `SourceWalker.FromHoursExact` | copy_data.py:97-102 | The hour loop yields exactly the accepted files present under hour directories with 8-digit names. |
| `SourceWalker.FromFilesExact` | copy_data.py:100-102 | The file loop yields exactly the regular files whose names are 8 digits, a dot and 2 digits. |
| `SourceWalker.SourceFilesNoDuplicates` | copy_data.py:88-102 | In a tree where no directory lists a name twice, the walker yields no file twice. |
| `SourceWalker.FromTopNoDuplicates` | copy_data.py:91-102 | One well-formed top-level directory yields no file twice. |
| `SourceWalker.FromDaysNoDuplicates` | copy_data.py:94-102 | Day directories with distinct names yield no file twice. |
| `SourceWalker.FromHoursNoDuplicates` | copy_data.py:97-102 | Hour directories with distinct names yield no file twice. |
| `SourceWalker.FromFilesNoDuplicates` | copy_data.py:100-102 | Files with distinct names are yielded at most once each. |
| `CopyExecutor.DestFs.Copy` | copy_data.py:139-140 | After `copy2`, the destination path holds the content of the source; nothing else changes. |
| `CopyExecutor.DestFs.Exists` | copy_data.py:133 | `dest_file.exists()`: the path is present in the destination file system, including files copied earlier in the same run. It is a predicate and has no contract. |
| `CopyExecutor.SourcePath` | copy_data.py:100-102 | `source_root/<top>/SHORT/<day>/<hour>/<file>`, the path the yielded `data_file` refers to. It has no contract. |
| `CopyExecutor.DestPath` | copy_data.py:131-132 | `dest_root / mapped / day / hour / file`. Its contract is `DestPathInjective`. |
| `CopyExecutor.DestPathInjective` | copy_data.py:131-132 | Two files get the same destination path only when they are routed to the same folder and share day, hour and file name. |
| `CopyExecutor.Route` | copy_data.py:127-130 | A file is routed to a folder only when the lookup finds a non-empty name, and then to that name. It is unrouted exactly when the lookup finds nothing or `""` (`if not mapped_level1`). |
| `CopyExecutor.Step` | copy_data.py:127-142 | One loop iteration. An unrouted file and a dry run change nothing. Otherwise nothing changes, or the count goes up by one and the destination path holds the file's source. With skip-existing on, that happens only if the destination was absent. |
| `CopyExecutor.Run` | copy_data.py:125-143 | The loop over a sequence of files, one `Step` each. It is the function `CopyFiles` is proved equal to, and the `CopyExecutor` lemmas below state what it promises. |
| `CopyExecutor.CopyFiles` | copy_data.py:118-143 | The loop over the walked files leaves exactly the count and destination file system that `Run` gives from a zero count and the initial file system. |
| `CopyExecutor.RunSnoc` | copy_data.py:126-142 | Handling one more file is one more step of the loop body. |
| `CopyExecutor.Routed` | copy_data.py:127-130 | The files that get a destination folder are the walked files whose lookup finds a non-empty name. Each routed file appears as often as in the walk, and an unrouted file not at all. |
| `CopyExecutor.DryRunChangesNothing` | copy_data.py:136-137 | A dry run copies nothing and counts nothing: the file system and count are as before. |
| `CopyExecutor.UnroutedIgnored` | copy_data.py:127-130 | Files without a mapping change neither the count nor the file system: the run equals the run over the routed files alone. |
| `CopyExecutor.RoutedFilesPresent` | copy_data.py:131-142 | No file is removed. Outside a dry run, every routed file is present at `dest_root/mapped/day/hour/file` afterwards. |
| `CopyExecutor.OnlyDestinationsWritten` | copy_data.py:131-142 | Every file present afterwards was there before with unchanged content, or is the destination path of a routed file and holds that file's content. |
| `CopyExecutor.SkipExistingNeverOverwrites` | copy_data.py:133-135 | With skip-existing on, every file present before the run is still there with the same content. |
| `CopyExecutor.CountWithoutSkip` | copy_data.py:125-143 | Without skip-existing and outside a dry run, the count equals the number of walked files that have a mapping. |
| `CopyExecutor.CountWithSkip` | copy_data.py:125-143 | With skip-existing on, the count equals the number of destination files the run created. |
| `CopyExecutor.OneMoreCreated` | copy_data.py:133-142 | Writing a path that was not present adds one to the files created since the start. |
| `CopyExecutor.CountBound` | copy_data.py:125-143 | The count never decreases and never exceeds the number of walked files that have a mapping. |
| `CopyExecutor.LoadedMappingRoutesByMatch` | copy_data.py:127-128 | With a mapping built by `load_mapping`, a file is skipped as unmapped exactly when the lookup returns nothing, since no stored name is empty. |
| `Scenarios.AlphaTreeYieldsItsFile` | copy_data.py:82-102 | A tree holding one station directory with one data file yields that file. |
| `Scenarios.AlphaDayYieldsItsFile` | copy_data.py:94-102 | The day directory of that tree yields its one data file. |
| `Scenarios.StripUnchanged` | copy_data.py:26-27 | A cell with no surrounding whitespace is stored as written. |
| `Scenarios.OneRowLoads` | copy_data.py:22-30 | A single row with two non-blank cells loads as a one-entry mapping. |
| `Scenarios.AlphaRowLoads` | copy_data.py:22-30 | The row `DataTramSonTayQNAlpha*` → `SiteA` loads as that one entry. |
| `Scenarios.ScenarioKeyPrefixes` | copy_data.py:109 | The star-stripped prefixes of the scenario keys. |
| `Scenarios.LongerPrefixWins` | copy_data.py:105-115 | With keys `DataTramSonTayQN*` and `DataTramSonTayQNAlpha*`, the longer prefix wins in both orders of the two entries. |
| `Scenarios.AlphaIsCopied` | copy_data.py:118-143 | The scenario copies its one file to `<dest>/SiteA/210101/21010112/21010112.00` and counts 1. |
| `Scenarios.UnrelatedMappingCopiesNothing` | copy_data.py:118-143 | With a mapping no station matches, the scenario copies nothing and counts 0. |

## Left out

- Command-line parsing and the platform default paths (copy_data.py:33-79), and `main` with its existence checks and `SystemExit` exits (copy_data.py:146-170): these are program glue around the core.
- Opening the workbook with openpyxl and the check that it is installed (copy_data.py:9-21): these are a foreign library. The model starts from the rows the reader yields, each a sequence of optional cells.
- The `str()` conversion of non-text cell values (copy_data.py:26-27): the model's cells are already text.
- `Text.IsSpace`: covers the whitespace characters of Python's `str.isspace()`, written out one by one. The model has no Unicode database behind it.
- `shutil.copy2` metadata, `mkdir(parents=True, exist_ok=True)` and I/O errors such as a full disk or missing permissions (copy_data.py:139-140): the model treats a copy as "the destination path now holds the source's content".
- The `WARN`, `SKIP`, `DRY RUN`, `COPIED` and `Done` lines the script prints: they are output only, and no decision depends on them.
- The order in which `glob` and `iterdir` list entries (copy_data.py:88-100) is not specified. The model walks each directory's entries in the sequence given. It proves only membership and no-duplicates facts about the files yielded, never their order.
- `SourceWalker.IsDayName`, `IsHourName`, `IsDataFileName`: model the regular expressions as exact-length ASCII-digit checks. Python's `\d` also accepts non-ASCII digits, and its `$` also matches before a trailing newline; the model accepts neither.
- `SourceWalker.IsTopName`: compares names case-sensitively. The name `SHORT` is also compared case-sensitively. On a case-insensitive file system (Windows) the glob and the `SHORT` lookup would also accept other cases.
- `CopyExecutor.DestFs.Exists`: two destination paths are the same file only when they are equal component by component. On a case-insensitive destination file system (the script supports Windows), `exists()` and `copy2` treat `SiteA/…` and `sitea/…` as one file. With skip-existing on, two rows mapping stations to `SiteA` and `sitea` would then skip the second file, while the model copies and counts both. `DestPathInjective`, `SkipExistingNeverOverwrites` and `CountWithSkip` hold only for a case-sensitive destination.
- `CopyExecutor.DestPath`: a mapped name of `.` or `..` is one ordinary path component in the model. `pathlib` drops `.` (`Path("D") / "."` is `D`), and the operating system resolves `..` to the parent folder.
- Errors while walking the source tree, such as a `PermissionError` from `iterdir()` on an unreadable day or hour directory (copy_data.py:94-100): in the program they end the run after some files have been copied. The model's walk never fails.
- File names that are not valid UTF-8 on POSIX systems, which reach Python as lone surrogate characters (`surrogateescape`): Dafny's `char` cannot hold them, so the model covers only names that are valid Unicode text.
- Symbolic links, and file-system entries that are neither files nor directories: the tree holds only regular files and directories.
- A destination path that already exists as a directory, and mapped names that contain path separators or are absolute paths (which `pathlib` would treat specially): a destination path is the sequence of its components, and a copy always succeeds.
- Concurrent changes to the source or destination trees during a run: the model sees each tree as one value.
- A destination root inside the source tree: the model keeps the source tree and the destination file system as two separate values. In the program, the lazy walk could then yield files copied earlier in the same run, `exists()` could see a source file, and `copy2` could raise `SameFileError`.
