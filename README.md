# log-analyzer core, modelled in Dafny

This project models the `core/` package of log-analyzer. The package reads two
kinds of log file and turns them into a plain-text report.

- **Plain-text logs.** `core/parser.py` scans each line for the regular
  expression `HttpStatus:\s*(\d{3})`. It keeps the captured code when it lies
  in 100..599. `core/analyzer.py` counts the codes of each file, adds the
  counts across files, and renders the report: one `File: <basename>`
  section per file, then a `TOTAL (all files):` section.
- **API CSV logs.** `core/api_parser.py` turns each row of a `;`-separated
  file into an entry `(success, msg)`. A row becomes an entry when its
  `success` cell spells a boolean. The column lookup ignores letter case.
  `core/api_analyzer.py` counts true and false outcomes per file and tallies
  the messages of the false ones. It adds everything across files and
  renders a report. Each message breakdown is sorted by count descending,
  then by message ascending.

Modules:

- `Wrappers`: `Option`.
- `Text`: the Python string operations the core uses, over ASCII. These are
  `strip`, `lower`, decimal digits and `str(int)`, `os.path.basename`,
  `"\n".join` and `str` ordering.
- `Dicts`: a Python `dict` with its insertion order. It is a sequence of
  `(key, value)` pairs with distinct keys; `Put` is `d[k] = v`.
- `Sorting`: `sorted` under a strict total order. The ghost `SortSet` is
  specified by sortedness, and `SortedUnique` proves that sorted output is
  unique.
- `Tally`: `collections.Counter`. `Counts` is `Counter(list)`, `AddCounts`
  is `Counter.update`, and `SumTallies` adds many tallies.
- `Layout`: what the two reports share. A file opens with a
  `File: <basename>` line; every other line is blank or indented.
- `LogParser`, `LogAnalyzer`, `ApiParser`, `ApiAnalyzer`: one module per core
  file.

How the outside world is modelled:

- **File system.** It is a parameter: a map from path to file. A path the map
  does not hold is one that `open` refuses.
- **Text files.** A text file is the list of its lines. It can also carry the
  number of lines delivered before a `UnicodeDecodeError`.
- **CSV files.** A CSV file is what `csv.DictReader` delivers: the header
  names and the rows. A row is a map from header name to cell, and a cell
  missing at the end of a short row is `None`. The file can also carry the
  number of rows delivered before a decoding or tokenising error.
- **Loops.** Loops that fill a list or a dict are methods with loop
  invariants. Each method is proved equal to a function of its inputs. The
  properties the source promises are then proved about that function.

Three behaviours of the code are easy to miss:

- **Decode errors in `parse_log_file`.** A decode error part-way through a
  file ends the scan without raising, and the codes read before the error
  are returned (`core/parser.py:15-30`).
- **A missing `msg` cell can raise.** A row with a valid `success` but a
  missing `msg` cell makes `None.strip()` raise `AttributeError`
  (`core/api_parser.py:71`). `parse_api_csv_files` does not catch that
  error (`core/api_parser.py:88`), so a malformed row can end the whole call
  with an exception. The model has an explicit crash outcome for this
  (`RowOutcome.Crash`, `FilesOutcome.Raised`).
- **The API report ends with one newline.** It is `"\n".join(lines)` with no
  newline added. The text still ends with `"\n"`, because its last line is
  empty (`core/api_analyzer.py:114-115`).

## Model

| member | source | states |
|---|---|---|
| Text.Strip | core/api_parser.py:71 | definition: `str.strip()` over ASCII whitespace; its meaning is stated by `StripSpec` and `StripSplit` |
| Text.TrimLeftSpec | core/api_parser.py:26 | `lstrip` removes exactly a leading run of whitespace and leaves a result that is empty or starts with a non-space |
| Text.TrimRightSpec | core/api_parser.py:26 | `rstrip` removes exactly a trailing run of whitespace and leaves a result that is empty or ends with a non-space |
| Text.StripSpec | core/api_parser.py:71 | `strip()` returns a stripped infix of its argument with only whitespace on both sides |
| Text.StripSplit | core/api_parser.py:71 | the argument is whitespace, then `strip()` of it, then whitespace, and the position of the infix is returned |
| Text.StripFramed | core/api_parser.py:26 | `strip()` of a stripped word surrounded by whitespace is that word |
| Text.TrimLeftFramed | core/api_parser.py:26 | `lstrip` of whitespace followed by text that starts with a non-space is that text, and is empty when the text is all whitespace |
| Text.TrimLeftAllSpace | core/api_parser.py:26 | `lstrip` of all-whitespace text is empty |
| Text.TrimRightFramed | core/api_parser.py:26 | `rstrip` of text ending in a non-space, followed by whitespace, is that text |
| Text.StripIdempotent | core/api_analyzer.py:33 | stripping an already stripped message changes nothing |
| Text.Lower | core/api_parser.py:26 | `lower()` keeps the length |
| Text.LowerStripCommute | core/api_parser.py:26 | `lower()` is idempotent and commutes with `strip()` |
| Text.LowerIdempotent | core/api_parser.py:26 | lower-casing twice is lower-casing once |
| Text.LowerConcat | core/api_parser.py:26 | `lower()` works character by character over a concatenation |
| Text.LowerKeepsSpace | core/api_parser.py:26 | `lower()` leaves whitespace unchanged |
| Text.LowerKeepsStripped | core/api_parser.py:26 | lower-casing a stripped word leaves it stripped |
| Text.DigitsValue | core/parser.py:21 | definition: `int(code_str)` on a run of decimal digits; `NatToStringRoundTrip` and `DigitsRoundTrip` relate it to `str` |
| Text.IntToString | core/analyzer.py:53 | definition: `str(n)` for an integer of either sign, as the reports print counts |
| Text.DigitChar | core/analyzer.py:53 | the digit character of a value below 10 is a decimal digit of that value |
| Text.NatToString | core/analyzer.py:53 | `str(n)` is a non-empty run of digits with no leading zero |
| Text.NatToStringRoundTrip | core/parser.py:21 | `int(str(n)) == n` |
| Text.DigitsRoundTrip | core/parser.py:21 | `str(int(s)) == s` for digit strings without a leading zero |
| Text.DigitsPositive | core/parser.py:21 | digits that do not start with `0` have a positive value |
| Text.Basename | core/analyzer.py:49 | definition: `os.path.basename`, the part after the last `/`; stated by `BasenameSpec` |
| Text.BasenameSpec | core/analyzer.py:49 | `basename(p)` is the suffix of `p` after its last `/`, and contains no `/` |
| Text.JoinLines | core/analyzer.py:66 | definition: `"\n".join(lines)`, a newline between consecutive lines and none after the last |
| Text.JoinEndsWithEmptyLine | core/api_analyzer.py:114-115 | joining lines whose last one is empty gives text ending in `"\n"` |
| Text.StrLess | core/api_analyzer.py:91 | definition: `str` `<`, lexicographic by character code with a proper prefix first |
| Text.StrLessIrreflexive | core/api_analyzer.py:91 | `str` `<` is irreflexive |
| Text.StrLessTransitive | core/api_analyzer.py:91 | `str` `<` is transitive |
| Text.StrLessTotal | core/api_analyzer.py:91 | two different strings are ordered one way or the other |
| Dicts.IndexOf | core/parser.py:44 | a key held by a dict sits at the returned position |
| Dicts.Put | core/parser.py:44 | `d[k] = v` keeps the keys distinct; it replaces the value in place when `k` is present and appends `(k, v)` otherwise; no other entry changes |
| Dicts.Dedup | core/parser.py:43-44 | the keys that a run of assignments leaves are distinct and are exactly the assigned keys |
| Sorting.Insert | core/analyzer.py:52 | inserting a new element into a sorted sequence keeps it sorted and adds exactly that element |
| Sorting.LeastExists | core/analyzer.py:52 | a non-empty finite set has a least element under a strict total order |
| Sorting.HasLeast | core/analyzer.py:52 | a least element exists |
| Sorting.LeastNew | core/analyzer.py:52 | an element below the least of the others is the least of all |
| Sorting.LeastOld | core/analyzer.py:52 | an element not below the least of the others leaves it the least |
| Sorting.SortSet | core/analyzer.py:52 | `sorted(s)` is sorted, has the size of `s` and holds exactly the elements of `s` |
| Sorting.SortedUnique | core/api_analyzer.py:91 | two sorted sequences with the same elements are equal, so `sorted` has one answer |
| Sorting.SortElements | core/analyzer.py:52 | the sort method returns `sorted(s)` |
| Tally.Counts | core/analyzer.py:6-10 | definition: `dict(Counter(codes))`, one increment per element in list order; stated by `CountsSpec` and `TotalCounts` |
| Tally.CountsSpec | core/analyzer.py:6-10 | `Counter(codes)` has a key exactly for each code that occurs, and each value is that code's number of occurrences |
| Tally.AddCounts | core/analyzer.py:31 | `Counter.update` gives the union of the keys, and each count is the sum of the two, an absent key counting as 0 |
| Tally.InSomeIndex | core/analyzer.py:30-31 | a key is in some tally exactly when some index holds it |
| Tally.SumTallies | core/analyzer.py:29-32 | the sum of many tallies has a key exactly when some tally has it, with the per-key column sum as its value |
| Tally.TotalRemove | core/analyzer.py:6-10 | the sum of a tally's values splits off one key |
| Tally.TotalUpdate | core/api_analyzer.py:34 | changing one count changes the sum of the values by the difference |
| Tally.TotalCounts | core/analyzer.py:6-10 | the values of `Counter(codes)` sum to `len(codes)` |
| Tally.ColumnSumConcat | core/analyzer.py:30-31 | the per-key sum over two runs of tallies is the sum of the two |
| Tally.ColumnSumPermutation | core/analyzer.py:30-31 | the per-key sum does not depend on the order of the tallies |
| Tally.ColumnSumRemoveAt | core/analyzer.py:30-31 | the per-key sum splits off one tally |
| Tally.SumTalliesPermutation | core/analyzer.py:29-32 | adding up tallies gives the same result in any order |
| Tally.TotalAddCounts | core/api_analyzer.py:62-63 | after `update`, the values sum to the sum of both tallies |
| Tally.TotalAddStep | core/api_analyzer.py:62-63 | one key at a time, `update` keeps the sums adding up |
| Tally.AddNothing | core/analyzer.py:31 | updating with an empty tally changes nothing |
| Tally.AddOneMore | core/api_analyzer.py:62-63 | `update` with one more key adds that key's count to the old value |
| Tally.CountsSnoc | core/api_analyzer.py:34 | counting one more element is `d[x] = d.get(x, 0) + 1` |
| Tally.CountsBump | core/api_analyzer.py:34 | the in-place increment keeps the counter equal to `Counter` of the elements seen |
| Tally.SumOfCounts | core/analyzer.py:29-32 | the sum of the per-list counters is the counter of all the lists joined |
| Tally.CountsConcat | core/analyzer.py:29-32 | the counter of two joined lists is the `update` of their counters |
| Tally.CountOf | core/analyzer.py:10 | the count read with default 0 is the number of occurrences |
| Tally.SameCounts | core/analyzer.py:10 | two tallies with the same keys and the same counts are equal |
| Layout.HeaderLines | core/analyzer.py:49-50 | the `File: <basename>` lines of the files, in the dict's order |
| Layout.IndentedConcat | core/analyzer.py:53 | lines that are blank or indented stay so when joined |
| Layout.IndentedExcludes | core/analyzer.py:59 | an unindented line cannot be among indented ones |
| Layout.FileHeadersConcat | core/analyzer.py:48-56 | the file headers of joined sections are the headers of each, in order |
| Layout.FileHeadersSingle | core/analyzer.py:50 | one line is a file header or not |
| Layout.FileHeadersIndented | core/analyzer.py:53-56 | indented lines hold no file header |
| Layout.OccurrencesConcat | core/analyzer.py:59 | occurrences of a line in joined lists add up |
| Layout.OccurrencesAbsent | core/analyzer.py:59 | a line not present occurs zero times |
| Layout.OccursOnceBetween | core/analyzer.py:59 | a line placed once between lists that lack it occurs exactly once, at that position |
| LogParser.ReadLines | core/parser.py:16-17 | the lines the loop sees are a prefix of the file's lines; a decode error cuts them short |
| LogParser.SpaceRunEnd | core/parser.py:6 | the greedy `\s*` ends after a run of whitespace, at the end of the line or before a non-space |
| LogParser.MatchGroupUnique | core/parser.py:6 | once `HttpStatus:` is matched, the captured three digits are fixed by the greedy whitespace run |
| LogParser.TryAt | core/parser.py:6 | the pattern matches at a position exactly when this returns where its group starts |
| LogParser.Search | core/parser.py:18 | `re.search` finds the leftmost position where the pattern matches, or none when there is none |
| LogParser.LineCode | core/parser.py:18-25 | definition: what one line adds to `codes`, the leftmost match's three digits when their value is in 100..599; stated by `LineCodeSpec` |
| LogParser.LineCodeSpec | core/parser.py:18-25 | a line yields code `c` exactly when `c` is in 100..599 and is the value of the leftmost match's three digits |
| LogParser.LineCodeFound | core/parser.py:18-25 | a yielded code comes from the leftmost match and is in 100..599 |
| LogParser.LeftmostInRange | core/parser.py:18-25 | a leftmost match whose value is in 100..599 yields that value |
| LogParser.LeftmostOutOfRange | core/parser.py:24 | a leftmost match outside 100..599 yields nothing, even if a later match on the line is valid |
| LogParser.SpaceThenDigits | core/parser.py:6 | one space then three digits: the group starts right after the space |
| LogParser.NoTrailingBoundary | core/parser.py:6 | `HttpStatus: 4041` yields 404, because there is no boundary after the three digits |
| LogParser.SearchAnywhere | core/parser.py:18 | the match can start mid-line and `\s*` takes tabs and spaces |
| LogParser.LeadingZeroOutOfRange | core/parser.py:24 | `HttpStatus: 099` yields nothing |
| LogParser.FirstMatchOnly | core/parser.py:18-25 | `HttpStatus: 999 HttpStatus: 200` yields nothing: only the leftmost match counts |
| LogParser.CodesOf | core/parser.py:17-25 | definition: the codes of a run of lines, line by line in order; stated by `CodesOfBounds` and `CodesOfConcat` |
| LogParser.FileCodes | core/parser.py:8-30 | definition: what `parse_log_file(path)` returns: the codes of the lines read, `[]` when the file cannot be opened |
| LogParser.CodesOfBounds | core/parser.py:17-25 | each line gives at most one code, and every code is in 100..599 |
| LogParser.CodesOfConcat | core/parser.py:17-25 | codes keep the order of their lines |
| LogParser.DecodeFailureKeepsPrefix | core/parser.py:15-30 | after a decode error the returned codes are a prefix of the codes of the whole file |
| LogParser.ParseLogFile | core/parser.py:8-30 | `parse_log_file` returns the codes of the lines read, in order, at most one per line, all in 100..599; a missing file gives `[]` and a decode error keeps what came before |
| LogParser.ScanLines | core/parser.py:17-25 | the line loop appends exactly the codes of the lines it reads |
| LogParser.CodesOfSnoc | core/parser.py:17-25 | one more line appends that line's code, if it has one |
| LogParser.ParseLogFiles | core/parser.py:33-45 | the result's keys are exactly the input paths, deduplicated in first-seen order, and each maps to `parse_log_file` of its path |
| LogAnalyzer.CountCodesForMultipleFiles | core/analyzer.py:13-20 | the same file keys in the same order, each mapped to `Counter` of its codes |
| LogAnalyzer.AggregateTotalCounts | core/analyzer.py:23-32 | the total has a key exactly when some file has it; each value is the sum over files of that file's count, absent counting as 0 |
| LogAnalyzer.AggregateOrderFree | core/analyzer.py:30-31 | the total does not depend on the order of the files |
| LogAnalyzer.TotalIsCountOfAllCodes | core/analyzer.py:13-32 | counting per file and then adding gives the `Counter` of all codes of all files |
| LogAnalyzer.CountLine | core/analyzer.py:53 | definition: the line `  <code>: <count>` |
| LogAnalyzer.SectionBody | core/analyzer.py:51-56 | definition: a file's code lines, or `  No HttpStatus codes found.` when it has none, then a blank line |
| LogAnalyzer.FileSection | core/analyzer.py:49-56 | definition: `File: <basename>` followed by the file's body |
| LogAnalyzer.FileSections | core/analyzer.py:48-56 | definition: the file sections in the dict's order |
| LogAnalyzer.TotalSection | core/analyzer.py:59-64 | definition: `TOTAL (all files):`, then the total's code lines or `  No HttpStatus codes found in any file.` |
| LogAnalyzer.ReportLines | core/analyzer.py:47-64 | definition: the file sections followed by the total section |
| LogAnalyzer.Report | core/analyzer.py:35-66 | definition: `No log files analyzed.\n` for no files, otherwise the joined lines plus `"\n"`; properties in `FilesInInputOrder`, `OneTotalSection`, `CodeLinesSorted` |
| LogAnalyzer.IntLessOrder | core/analyzer.py:52 | `<` on codes is a strict total order, so `sorted` is determined |
| LogAnalyzer.CodeLines | core/analyzer.py:52-53 | one indented line per code of the tally |
| LogAnalyzer.CodeLinesSorted | core/analyzer.py:52-53 | the code lines list each code of the tally once, in strictly ascending order, as `  <code>: <count>` |
| LogAnalyzer.BodiesIndented | core/analyzer.py:51-64 | every line of a file's body and of the total's body is blank or indented |
| LogAnalyzer.CodeLinesIndented | core/analyzer.py:53 | code lines are indented |
| LogAnalyzer.FileSectionHeaders | core/analyzer.py:48-56 | a file's section holds exactly one file header, its own |
| LogAnalyzer.FileSectionsHeaders | core/analyzer.py:48-56 | the file sections hold the files' headers in input order |
| LogAnalyzer.FilesInInputOrder | core/analyzer.py:48-64 | the report's `File:` lines are the files' basenames in input order and nothing else |
| LogAnalyzer.FileSectionsNoTotal | core/analyzer.py:48-56 | no file section holds the total header |
| LogAnalyzer.OneTotalSection | core/analyzer.py:59 | the report holds exactly one `TOTAL (all files):` line, right after the file sections |
| LogAnalyzer.FileSectionsSnoc | core/analyzer.py:48-56 | the loop over files appends one section per file |
| LogAnalyzer.LinesForSnoc | core/analyzer.py:52-53 | the loop over codes appends one line per code |
| LogAnalyzer.AppendCodeLines | core/analyzer.py:52-53 | the sorted code loop appends exactly the code lines of the tally |
| LogAnalyzer.AppendLinesFor | core/analyzer.py:52-53 | the code loop appends one line per listed code |
| LogAnalyzer.FormatFileSection | core/analyzer.py:49-56 | a file's lines are its header, its code lines or `  No HttpStatus codes found.`, then a blank line |
| LogAnalyzer.FormatTotalSection | core/analyzer.py:59-64 | the total header, then the code lines or `  No HttpStatus codes found in any file.` |
| LogAnalyzer.FormatCountsForDisplay | core/analyzer.py:35-66 | the report is `No log files analyzed.\n` when there are no files, otherwise the joined sections plus `"\n"`; it always ends with `"\n"` |
| ApiParser.Normalize | core/api_parser.py:26 | definition: `value.strip().lower()` |
| ApiParser.ToBool | core/api_parser.py:18-31 | definition: `_to_bool`; its meaning is stated by `ToBoolSpec` and `ToBoolNormalized` |
| ApiParser.ToBoolSpec | core/api_parser.py:24-31 | true exactly when the value, stripped and lower-cased, is one of `true 1 yes y`; false exactly for `false 0 no n`; otherwise None |
| ApiParser.ToBoolNormalized | core/api_parser.py:26 | `_to_bool(v) == _to_bool(v.strip().lower())` |
| ApiParser.PaddedTrue | core/api_parser.py:26-28 | `" TRUE\t"` is true |
| ApiParser.CapitalNo | core/api_parser.py:29-30 | `"No"` is false |
| ApiParser.UnknownWord | core/api_parser.py:31 | `"maybe"` is None |
| ApiParser.MissingCell | core/api_parser.py:24-25 | a missing cell (`None`) is not a boolean |
| ApiParser.HeaderMap | core/api_parser.py:58 | definition: `{h.lower(): h for h in fieldnames}`; stated by `HeaderMapSpec` and `HeaderMapLastWins` |
| ApiParser.HeaderMapSpec | core/api_parser.py:58 | every header is reachable by its lower-case form, and each entry maps a lower-case name to a header spelling it |
| ApiParser.HeaderMapLastWins | core/api_parser.py:58 | when two headers share a lower-case form, the later one wins |
| ApiParser.GetCol | core/api_parser.py:60-62 | definition: `get_col`, `""` when no header matches or the matched header is empty; stated by `GetColFound` and `GetColMissing` |
| ApiParser.GetColFound | core/api_parser.py:60-62 | the lookup ignores letter case and reads the cell under the header that spells the column; an absent cell reads as `""` and a missing trailing cell as None |
| ApiParser.GetColMissing | core/api_parser.py:60-62 | a column that no header spells reads as `""` |
| ApiParser.SuccessOf | core/api_parser.py:65-66 | definition: `_to_bool(get_col(row, "success"))` |
| ApiParser.ParseRow | core/api_parser.py:65-72 | definition: one pass of the row loop: skip, emit `(success, msg.strip())`, or raise on a missing `msg` cell |
| ApiParser.FirstCrash | core/api_parser.py:64-72 | definition: the first row whose pass raises; stated by `FirstCrashSpec` |
| ApiParser.EntriesOf | core/api_parser.py:64-72 | definition: the entries the row loop appends, in row order; stated by `EntriesOfCount` and `EntriesOfStripped` |
| ApiParser.FirstCrashSpec | core/api_parser.py:64-72 | the crashing row reported is the first row whose missing `msg` raises; None exactly when no row raises |
| ApiParser.EntriesOfConcat | core/api_parser.py:64-72 | entries keep the order of their rows |
| ApiParser.RecognisedSnoc | core/api_parser.py:65-69 | one more row is recognised exactly when its `success` spells a boolean |
| ApiParser.EntriesOfCount | core/api_parser.py:64-72 | without a crash, there is exactly one entry per row with a recognised `success` and none for the others |
| ApiParser.EntriesOfStripped | core/api_parser.py:71 | every emitted `msg` is stripped |
| ApiParser.ReadRows | core/api_parser.py:64 | definition: the rows the loop sees, cut short by a decoding or tokenising error |
| ApiParser.CsvOutcome | core/api_parser.py:34-74 | definition: how `parse_api_csv_file(path)` ends: entries, a caught error, or the uncaught error at a row |
| ApiParser.NoHeaderNoEntries | core/api_parser.py:53-54 | a file without a header row yields no entries |
| ApiParser.ParsedEntries | core/api_parser.py:34-74 | a parsed file's messages are stripped, and it has at most one entry per row |
| ApiParser.ParseApiCsvFile | core/api_parser.py:34-74 | `parse_api_csv_file` returns the entries of the rows read, or fails with a caught error, or raises at the first row whose `msg` cell is missing |
| ApiParser.NoCrashExtends | core/api_parser.py:64-72 | a row that does not raise keeps the loop going |
| ApiParser.NoCrashSnoc | core/api_parser.py:64-72 | appending a row that does not raise keeps the rows crash-free |
| ApiParser.FirstCrashAt | core/api_parser.py:64-72 | the first raising row is where the loop stops |
| ApiParser.EntriesOrEmpty | core/api_parser.py:86-91 | definition: the value stored for a path: its entries, or `[]` after a caught error |
| ApiParser.FilesOutcomeOf | core/api_parser.py:84-92 | when no file raises, the keys are the input paths deduplicated in first-seen order |
| ApiParser.FilesDoneIff | core/api_parser.py:85-92 | the call returns a dict exactly when no file raises the uncaught error |
| ApiParser.FilesDoneNoCrash | core/api_parser.py:85-92 | a returned dict means no file raised |
| ApiParser.FilesValues | core/api_parser.py:86-91 | each path maps to its entries, or to `[]` when its read failed with a caught error |
| ApiParser.FilesRaisedFirst | core/api_parser.py:85-88 | a raised error comes from the first raising path, at its first raising row |
| ApiParser.RaisedStays | core/api_parser.py:85-88 | once a path raises, later paths change nothing |
| ApiParser.FilesStep | core/api_parser.py:85-91 | one more path either raises or assigns `result[path]` |
| ApiParser.ParseApiCsvFiles | core/api_parser.py:77-92 | `parse_api_csv_files` ends as described by the per-path outcomes: a dict over the paths, or the first uncaught error |
| ApiAnalyzer.SuccessCount | core/api_analyzer.py:28-30 | definition: the number of successful entries |
| ApiAnalyzer.FalseMessages | core/api_analyzer.py:31-34 | definition: the stripped messages of the failed entries, in order |
| ApiAnalyzer.Analysis | core/api_analyzer.py:18-36 | definition: `analyze_api_entries`; stated by `AnalysisSpec` and `AnalyzeApiEntries` |
| ApiAnalyzer.SuccessCountConcat | core/api_analyzer.py:28-30 | true counts of two runs of entries add up |
| ApiAnalyzer.FalseMessagesConcat | core/api_analyzer.py:31-34 | the failure messages of two runs are those of each, in order |
| ApiAnalyzer.OutcomesPartition | core/api_analyzer.py:28-32 | every entry is counted once, as true or as false |
| ApiAnalyzer.FalseMessagesStripped | core/api_analyzer.py:33 | every failure message key is stripped |
| ApiAnalyzer.AnalysisSpec | core/api_analyzer.py:18-36 | `true_count + false_count == len(entries)`, the message counts sum to `false_count`, and every key is stripped |
| ApiAnalyzer.SuccessLeavesMessages | core/api_analyzer.py:29-30 | a successful entry changes neither the message tally nor the false count |
| ApiAnalyzer.SuccessAddsNoMessage | core/api_analyzer.py:29-30 | a successful entry adds no failure message |
| ApiAnalyzer.SuccessSnoc | core/api_analyzer.py:29-30 | a successful entry raises `true_count` by one and adds no message |
| ApiAnalyzer.FailureSnoc | core/api_analyzer.py:31-34 | a failed entry adds its stripped message and leaves `true_count` alone |
| ApiAnalyzer.AnalyzeApiEntries | core/api_analyzer.py:18-36 | the loop's result is the analysis of the entries; the counts add up to the number of entries and the message counts to `false_count` |
| ApiAnalyzer.CountOutcomes | core/api_analyzer.py:24-34 | the loop counts the successes, the failures and each stripped failure message |
| ApiAnalyzer.AnalyzeApiFiles | core/api_analyzer.py:39-46 | exactly the input paths as keys, in order, each mapped to the analysis of its entries |
| ApiAnalyzer.TotalOf | core/api_analyzer.py:49-65 | definition: `aggregate_api_totals` over a list of results; stated by `TotalMessages`, `TotalConservesFailures` and `TotalIsAnalysisOfAll` |
| ApiAnalyzer.TotalMessages | core/api_analyzer.py:57-63 | the total message tally is the sum of the per-file tallies |
| ApiAnalyzer.TotalConservesFailures | core/api_analyzer.py:55-65 | when each file's messages sum to its false count, so do the totals' |
| ApiAnalyzer.TotalIsAnalysisOfAll | core/api_analyzer.py:49-65 | the totals of per-file analyses are the analysis of all entries joined |
| ApiAnalyzer.TotalSuccesses | core/api_analyzer.py:60 | the total true count is the true count of all entries |
| ApiAnalyzer.TotalFailures | core/api_analyzer.py:61-63 | the total false count and message tally are those of all entries |
| ApiAnalyzer.AnalyzeThenTotal | core/api_analyzer.py:39-65 | analysing each file and then adding gives the analysis of every entry of every file |
| ApiAnalyzer.AddInto | core/api_analyzer.py:62-63 | the inner loop adds one tally into the running total, as `Counter.update` would |
| ApiAnalyzer.AddIntoStep | core/api_analyzer.py:62-63 | one more message adds its count to the running value |
| ApiAnalyzer.AggregateApiTotals | core/api_analyzer.py:49-65 | the totals add true and false counts across files; each message's total is the sum of its per-file counts, absent counting as 0 |
| ApiAnalyzer.MsgLess | core/api_analyzer.py:91 | definition: the order of the sort key `(-count, msg)` |
| ApiAnalyzer.Items | core/api_analyzer.py:91 | definition: `false_msgs.items()` as a set of pairs |
| ApiAnalyzer.BreakdownLine | core/api_analyzer.py:93-97 | definition: one breakdown line; its text is stated by `BreakdownLineForm` |
| ApiAnalyzer.MsgLessOrder | core/api_analyzer.py:91 | the key `(-count, msg)` is a strict total order on tally items |
| ApiAnalyzer.BreakdownLineForm | core/api_analyzer.py:93-97 | a breakdown line is six spaces, then `(no msg)` for the empty message or the message in double quotes, and ends in ` time` when the count is 1 and ` times` otherwise |
| ApiAnalyzer.BreakdownLineMessage | core/api_analyzer.py:94-97 | the line starts with six spaces, then `(no msg)` for the empty message or the message in double quotes |
| ApiAnalyzer.BreakdownLineWord | core/api_analyzer.py:93 | the line ends in ` time` when the count is 1 and in ` times` otherwise |
| ApiAnalyzer.Breakdown | core/api_analyzer.py:91-97 | one line per message of the tally |
| ApiAnalyzer.ItemsSize | core/api_analyzer.py:91 | `items()` has one pair per key |
| ApiAnalyzer.BreakdownSorted | core/api_analyzer.py:91-97 | the breakdown lists every message once with its count, by count descending, then message ascending |
| ApiAnalyzer.ResultLines | core/api_analyzer.py:86-97 | definition: the two count lines, then the breakdown only when `false_count > 0` |
| ApiAnalyzer.ApiFileSection | core/api_analyzer.py:84-99 | definition: `File: <basename>`, the result lines, a blank line |
| ApiAnalyzer.ApiFileSections | core/api_analyzer.py:83-99 | definition: the file sections in the dict's order |
| ApiAnalyzer.ApiTotalSection | core/api_analyzer.py:101-114 | definition: `TOTAL (across all files):`, the totals' result lines, a blank line |
| ApiAnalyzer.ApiReportLines | core/api_analyzer.py:83-114 | definition: the file sections followed by the total section |
| ApiAnalyzer.ApiReport | core/api_analyzer.py:68-115 | definition: `No API CSV files analyzed.\n` for no files, otherwise the joined lines; properties in `ApiFilesInInputOrder`, `ApiOneTotalSection`, `BreakdownSorted` |
| ApiAnalyzer.ResultLinesIndented | core/api_analyzer.py:86-99 | a result's lines and the blank line after them are blank or indented |
| ApiAnalyzer.BreakdownLinesIndented | core/api_analyzer.py:93-97 | breakdown lines are indented |
| ApiAnalyzer.ApiFileSectionsSnoc | core/api_analyzer.py:83-99 | the loop over files appends one section per file |
| ApiAnalyzer.ApiFileSectionHeaders | core/api_analyzer.py:84-99 | a file's section holds exactly one file header, its own |
| ApiAnalyzer.ApiFileSectionsHeaders | core/api_analyzer.py:83-99 | the file sections hold the files' headers in input order |
| ApiAnalyzer.ApiFilesInInputOrder | core/api_analyzer.py:83-114 | the report's `File:` lines are the files' basenames in input order and nothing else |
| ApiAnalyzer.ApiFileSectionsNoTotal | core/api_analyzer.py:83-99 | no file section holds the total header |
| ApiAnalyzer.ApiOneTotalSection | core/api_analyzer.py:101 | the report holds exactly one `TOTAL (across all files):` line, right after the file sections |
| ApiAnalyzer.AppendBreakdown | core/api_analyzer.py:91-97 | the sorted breakdown loop appends exactly the breakdown of the tally |
| ApiAnalyzer.AppendBreakdownLines | core/api_analyzer.py:92-97 | the breakdown loop appends one line per item |
| ApiAnalyzer.BreakdownLinesSnoc | core/api_analyzer.py:92-97 | one more item appends its line |
| ApiAnalyzer.FormatResultLines | core/api_analyzer.py:86-97 | the two count lines, then the breakdown only when `false_count > 0` |
| ApiAnalyzer.FormatApiFileSection | core/api_analyzer.py:84-99 | a file's lines are its header, its result lines, then a blank line |
| ApiAnalyzer.FormatApiTotalSection | core/api_analyzer.py:101-114 | the total header, the totals' result lines, then a blank line |
| ApiAnalyzer.FormatApiResultsForDisplay | core/api_analyzer.py:68-115 | the report is `No API CSV files analyzed.\n` when there are no files, otherwise the joined sections; it always ends with `"\n"` |

## Left out

- The user interface (`app/ui.py`) and the file-dialog glue (`app/controller.py`) are not part of this model.
- Real file I/O is not modelled. The file system is a map parameter, and an unopenable file is a path the map lacks.
- UTF-8 decoding and the byte-order mark are not modelled. A decode error is a count of the lines (or rows) delivered before it.
- `csv.DictReader` tokenisation and quoting are not modelled. Rows are given as maps from header name to cell, with None for a missing trailing cell. Extra cells beyond the header, which `DictReader` files under the key None, are never read by `get_col` and are not modelled.
- A CSV file whose header row cannot be read is modelled as an absent file. Both end in the same caught error.
- A `None` entry in `fieldnames` (skipped at `core/api_parser.py:58`) is not modelled: header names are strings.
- The `print` error messages (`core/parser.py:28`, `core/api_parser.py:90`) are a side channel and are not modelled.
- Unicode is not modelled. `strip`, `lower` and the regex classes `\s` and `\d` are defined over ASCII.
- `os.path.basename` is the suffix after the last `/`, as on POSIX. Windows separators are not modelled.
- Tally.Counts: `Counter` keeps its keys in first-seen order; the model's tally is a `map` and keeps none. The only reader sorts the keys (`core/analyzer.py:52`), so no result shows the difference.
- LogAnalyzer.AggregateTotalCounts: the total `Counter` is a `map` for the same reason. Its key order is not kept; the report sorts the codes (`core/analyzer.py:61`).
- ApiAnalyzer.AnalyzeApiEntries: `false_msgs` is a `map`, so the insertion order of its keys is not kept. The only readers sort the items or add them up, so that order never shows in any result.
- ApiAnalyzer.AggregateApiTotals: the running message total is a `map` for the same reason. Its key order is not kept.
- Sorting.SortElements: Python's `sorted` is a stable merge sort. Here it is a method proved to return the unique sorted order. All sorted keys are distinct, so stability makes no difference.
- LogAnalyzer.FormatCountsForDisplay: the total passed in is any tally. The report does not check that it matches the per-file counts; `TotalIsCountOfAllCodes` relates the two separately.
- ApiAnalyzer.FormatApiResultsForDisplay: as above, the totals passed in are any result. `AnalyzeThenTotal` relates them to the per-file results.
- Python integers in the reports are unbounded, like Dafny's, so there is no overflow to model.
