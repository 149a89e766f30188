# Honeypot log processing, modelled in Dafny

The HACS200 honeypot puts SSH attackers in front of a man-in-the-middle proxy and
records what they do. This project models three parts of its tooling:

- **The JSON-to-CSV converter** (`data_collection/data_collection_optimized.py`):
  - It repairs near-JSON log files: trailing commas are removed and the elements of
    `"commands": [...]` arrays are re-quoted.
  - It parses each file as a whole or line by line.
  - Every entry becomes one CSV row, with its commands split at semicolons, its duration
    checked, and the time from the attacker's connection to the last command taken
    from the matching `.out` transcript.
  - Per-file counters are added into global counters, and the exit code reports a run
    in which nothing converted.
- **The proxy's configuration** (`mitm.js`):
  - `--key=value` and `--key value` arguments are read into a flat object, with
    booleans and numbers converted.
  - That object is deep-merged into the built-in defaults, and the result is exported.
- **The legacy session-log parser** (`old/process.py`): a two-state line machine
  that collects the header fields and the command lines of each block between
  `==== Attack ====` and `================`.

Modules and files:

- `wrappers.dfy`: Option and Result.
- `text.dfy`: the Python and JavaScript string operations the code relies on.
- `json.dfy`: decoded JSON values and the Python operations applied to them.
- `transcript.dfy`: the transcript timing.
- `repair.dfy`: `fix_json_content`.
- `commands.dfy`: `split_commands_by_semicolons`.
- `normalize.dfy`: one entry becomes one row.
- `file_processor.dfy`: `process_single_file`.
- `orchestrator.dfy`: `main`.
- `cli_args.dfy`: the argument loop of `mitm.js`.
- `config_merge.dfy`: `mergeConfig` and the export.
- `session_parser.dfy`: `old/process.py`.

How the code is modelled:

- Code that loops and updates variables is a method. Each method is proved equal to a
  specification function, and the properties are lemmas about those functions.
- The file system, `json.loads`, the local-time clock, Python's `float()` and its
  rendering of floats and containers are function parameters.
- The session parser's seven marker texts are a parameter; `SessionParser.Log` holds
  the ones the script uses.

## Model

| member | source | states |
|---|---|---|
| Transcript.ExtractTimestamp | data_collection/data_collection_optimized.py:38-43 | a timestamp exists exactly when the line has at least two whitespace-separated fields, and it splits back into exactly the first two |
| Transcript.TimestampToMs | data_collection/data_collection_optimized.py:46-60 | a value is produced only for exactly two fields whose second holds exactly one '.' (otherwise the unpacking raises ValueError) |
| Transcript.TimestampOfFields | data_collection/data_collection_optimized.py:50-57 | with the fields and pieces known, the value is the clock's epoch milliseconds plus the integer after the '.' |
| Transcript.FractionAddedAsInteger | data_collection/data_collection_optimized.py:51-57 | the digits after the '.' are added as a plain number of milliseconds ("10:00:00.5" is 5 ms past the second) |
| Transcript.FirstLineWith | data_collection/data_collection_optimized.py:73-75 | the index found holds the marker and no earlier line does; none is found only when no line holds it |
| Transcript.FirstLineWithIs | data_collection/data_collection_optimized.py:73-75 | the MULTILINE search for the connect marker returns exactly the first line containing it |
| Transcript.LastLineWithEither | data_collection/data_collection_optimized.py:86-95 | the index found holds one of the two command markers and no later line does; none is found only when no line holds either |
| Transcript.LastLineWithEitherIs | data_collection/data_collection_optimized.py:86-95 | the last command line is exactly the last line containing either marker |
| Transcript.CalculateMitmTime | data_collection/data_collection_optimized.py:63-106 | the time is never negative; it is positive only when the transcript exists, has a connect line and a command line, and both of their timestamps are readable, so any missing marker or unreadable timestamp gives 0 |
| Transcript.MitmTimeIsElapsed | data_collection/data_collection_optimized.py:72-103 | when both lines carry readable timestamps, the time is max(0, last command time - connect time) |
| Transcript.CapturedMarker | data_collection/data_collection_optimized.py:86-90 | what the single capturing group yields on a line is one of the two marker texts |
| Transcript.FindAllCaptured | data_collection/data_collection_optimized.py:86-90 | every item `re.findall` returns for the command pattern is a marker text, never a line |
| Transcript.MarkerHasNoTime | data_collection/data_collection_optimized.py:95-101 | neither marker text yields a timestamp that converts to milliseconds |
| Transcript.NoTimeWithoutDot | data_collection/data_collection_optimized.py:46-60 | a text whose second word has no '.' has no readable time |
| Transcript.MitmTimeAsWrittenIsZero | data_collection/data_collection_optimized.py:86-101 | the function as written returns 0 for every transcript |
| Repair.StripIsDrop | data_collection/data_collection_optimized.py:112 | the single `re.sub` pass removes exactly the commas of the original text that are followed by optional whitespace and `]` or `}`, and keeps everything else |
| Repair.StripTrailingCommasKeepsOtherChars | data_collection/data_collection_optimized.py:112 | every character other than a comma keeps its count, so the text keeps its number of lines |
| Repair.StripTrailingCommasNotIdempotent | data_collection/data_collection_optimized.py:112 | one pass turns "[1,,]" into "[1,]", and a second pass would give "[1]" |
| Repair.EscapeText | data_collection/data_collection_optimized.py:173-177 | in a replacement template, an escaped backslash becomes one backslash, an escaped quote stays as it is, and a digit escape is an error |
| Repair.SafeDoubled | data_collection/data_collection_optimized.py:152 | doubling every backslash makes any text a template that expands without error |
| Repair.FixElement | data_collection/data_collection_optimized.py:144-153 | every rewritten element starts and ends with a double quote |
| Repair.FixElementSafe | data_collection/data_collection_optimized.py:144-153 | every rewritten element is a template that `re.sub` expands without raising |
| Repair.UnquotedEscapeCancels | data_collection/data_collection_optimized.py:167-175 | for an unquoted element, template processing undoes the backslash doubling, so only its quotes arrive escaped |
| Repair.QuotedEscapeCancels | data_collection/data_collection_optimized.py:145-150 | for a quoted element whose inner text holds no QUOTE_PLACEHOLDER, the rewritten element is a safe template and template processing gives back the inner text exactly |
| Repair.PlaceholderMangled | data_collection/data_collection_optimized.py:145-150 | a quoted element whose inner text is literally QUOTE_PLACEHOLDER reaches the line as an escaped quote |
| Repair.Emit | data_collection/data_collection_optimized.py:143-154 | a finished segment contributes at most one element |
| Repair.ScanArrayElements | data_collection/data_collection_optimized.py:131-170 | the character loop and its final flush compute the element list of the scanner specification |
| Repair.ArrayElementsQuoted | data_collection/data_collection_optimized.py:131-170 | every element the scanner emits is double-quoted and a safe template |
| Repair.QuotedRunIsOneElement | data_collection/data_collection_optimized.py:137-141 | a quoted run is a single element, whatever commas it holds |
| Repair.QuoteFreeElements | data_collection/data_collection_optimized.py:137-170 | without quote characters, each comma separates, blank segments are dropped, and the other segments are rewritten one by one |
| Repair.BracketGroup | data_collection/data_collection_optimized.py:119 | the group lies between a `[` preceded only by whitespace and the first `]` after it, and holds no `]` |
| Repair.EmptyBrackets | data_collection/data_collection_optimized.py:126 | a match of the empty-array pattern is at least two characters long |
| Repair.Search | data_collection/data_collection_optimized.py:119 | the reported position is one where the pattern matches |
| Repair.SearchLeftmost | data_collection/data_collection_optimized.py:119 | no match starts before the reported position, and there is none anywhere when nothing is reported |
| Repair.SubAllNoMatch | data_collection/data_collection_optimized.py:173-179 | a substitution over text with no match leaves the text unchanged |
| Repair.SubAllFirst | data_collection/data_collection_optimized.py:173-179 | the first replacement lands where the search reports; the text before it is kept, and substitution resumes after the match |
| Repair.LiteralsPlain | data_collection/data_collection_optimized.py:173-179 | the fixed replacement texts expand to themselves |
| Repair.ExpandJoin | data_collection/data_collection_optimized.py:175 | template processing of the comma-joined elements is the join of the separately processed elements |
| Repair.TemplateSafe | data_collection/data_collection_optimized.py:175 | the whole replacement template of the rebuilt array expands without raising |
| Repair.ArrayTextElements | data_collection/data_collection_optimized.py:172-177 | the text that reaches the line is `"commands": [`, the expanded elements joined by ", ", then `]` |
| Repair.EmptyBracketsAreBlankGroup | data_collection/data_collection_optimized.py:119-126 | an empty-array match is an array match with a blank group, extended over one comma exactly when a comma follows |
| Repair.BlankGroupIsEmptyBrackets | data_collection/data_collection_optimized.py:119-126 | an array match with a blank group is an empty-array match |
| Repair.SameFirstMatch | data_collection/data_collection_optimized.py:119-126 | when the first array has a blank group, the empty-array pattern first matches at the same position |
| Repair.BlankArrayRewritten | data_collection/data_collection_optimized.py:119-126 | a blank array (and a comma right after it) becomes `"commands": [],`; the text before the match is kept |
| Repair.RebuiltArrayRewritten | data_collection/data_collection_optimized.py:172-181 | a non-blank array is replaced by the rebuilt array text; the text before the match is kept |
| Repair.FixCommandsLineCharFree | data_collection/data_collection_optimized.py:115-181 | a line rewrite never introduces a line break |
| Repair.FixJsonContentLines | data_collection/data_collection_optimized.py:183-185 | the repaired text has as many lines as the input, and line k is line k of the comma-stripped text, rewritten on its own |
| Commands.NonEmptyStripped | data_collection/data_collection_optimized.py:193-194 | stripping and dropping empty parts never adds parts |
| Commands.PiecesShape | data_collection/data_collection_optimized.py:193-194 | every piece of a split command is non-empty, stripped and free of `;` |
| Commands.SplitCommandsBySemicolons | data_collection/data_collection_optimized.py:188-198 | the `extend`/`append` loop computes the command-by-command specification |
| Commands.SplitAppend | data_collection/data_collection_optimized.py:190-197 | splitting distributes over concatenation of command lists |
| Commands.SplitOne | data_collection/data_collection_optimized.py:191-197 | each command is replaced in place by its pieces, or kept when it is not a `;`-string |
| Commands.SplitIsSemicolonFree | data_collection/data_collection_optimized.py:188-198 | no string in the result contains `;` |
| Commands.SplitKeepsFree | data_collection/data_collection_optimized.py:188-198 | a list without `;`-strings, non-strings included, comes back unchanged |
| Commands.SplitIdempotent | data_collection/data_collection_optimized.py:188-198 | splitting twice is the same as splitting once |
| Json.Lookup | data_collection/data_collection_optimized.py:251-252 | a key is found exactly when some member has it, and the value found is stored under it |
| Json.Get | data_collection/data_collection_optimized.py:250-251 | `get` fails exactly on a non-dict, and yields the default for a missing key; every field read of an entry goes through it |
| Json.Truncate | data_collection/data_collection_optimized.py:268 | `int()` of a float truncates toward zero |
| Json.IntOf | data_collection/data_collection_optimized.py:267-270 | `int()` keeps an integer, and fails on None, lists and dicts |
| Json.Iterated | data_collection/data_collection_optimized.py:255-256 | `len` and iteration work exactly on lists, strings and dicts: the items, one entry per character, one per key |
| Normalize.ProcessEntry | data_collection/data_collection_optimized.py:248-310 | an entry converts exactly when it is a dict whose commands have a length; anything else is a failed entry |
| Normalize.ConvertedEntry | data_collection/data_collection_optimized.py:250-306 | the row's commands are the split list; `num_commands`, the duration and the transcript time read back as numbers; the split and fixed flags and the validation-log line are set exactly when the source counts them |
| Normalize.RowCommandsSplitOnce | data_collection/data_collection_optimized.py:256-297 | the commands of every row are free of `;`, so splitting them again changes nothing |
| Normalize.UnsplitEntry | data_collection/data_collection_optimized.py:255-258 | an entry without `;`-strings is never counted as split and keeps its commands |
| Normalize.DurationPrefersMs | data_collection/data_collection_optimized.py:266 | a truthy `duration_ms` of any type wins over `duration`; the duration is its `int()`, or 0 when that raises |
| Normalize.DurationFallsBack | data_collection/data_collection_optimized.py:266 | a missing or falsy `duration_ms` falls back to `duration` of any type, or to 0 when that key is missing too |
| Normalize.DurationDefaultsToZero | data_collection/data_collection_optimized.py:266-270 | with neither key, or with a value `int()` rejects, the duration is 0 |
| FileProcessor.ParsedLines | data_collection/data_collection_optimized.py:235-241 | the line-by-line fallback yields at most one entry per line |
| FileProcessor.ParseLines | data_collection/data_collection_optimized.py:234-241 | the fallback loop computes the line-by-line specification |
| FileProcessor.ParsedLinesFromLines | data_collection/data_collection_optimized.py:235-241 | every fallback entry comes from a non-blank line that parses to it |
| FileProcessor.ConvertEntries | data_collection/data_collection_optimized.py:248-310 | the entry loop's rows, counters and validation-log lines are the tally of the entries' outcomes in order |
| FileProcessor.ReadEntries | data_collection/data_collection_optimized.py:228-241 | the entries are the parsed list, a lone parsed value as a one-entry list, or the line-by-line fallback when the whole text does not parse |
| FileProcessor.ConvertContent | data_collection/data_collection_optimized.py:221-316 | once the file is read, blank content gives no rows and zero counters, nothing parsed gives one failure, and otherwise the entry loop's tally |
| FileProcessor.ProcessSingleFile | data_collection/data_collection_optimized.py:201-316 | the whole per-file procedure computes its specification, including the blank-file, unreadable-file and nothing-parsed paths, with the corrected elapsed time in each row |
| FileProcessor.TallyAllCounts | data_collection/data_collection_optimized.py:248-310 | every entry is either converted or counted as failed; the counters agree with the rows and the log lines |
| FileProcessor.TallyAllAppend | data_collection/data_collection_optimized.py:248-310 | the loop over a + b is the loop over a followed by the loop over b: rows and log lines keep entry order |
| FileProcessor.TallyOne | data_collection/data_collection_optimized.py:248-310 | a single entry yields its row and one conversion, or one failure |
| FileProcessor.AllConverted | data_collection/data_collection_optimized.py:248-306 | when every entry converts, there is one row per entry, in order, and no failure |
| FileProcessor.ProcessFileCounts | data_collection/data_collection_optimized.py:201-316 | for any file contents, `entries` counts the rows and each other counter stays within it |
| FileProcessor.BlankFileIsEmpty | data_collection/data_collection_optimized.py:221-222 | blank content gives no rows and all-zero counters |
| FileProcessor.NothingParsedFails | data_collection/data_collection_optimized.py:243-245 | when nothing parses, the file counts as one failure and gives no rows |
| Orchestrator.Aggregate | data_collection/data_collection_optimized.py:380-392 | the aggregation loop produces the field-by-field sum of the per-file counters and the rows and log lines concatenated in file order |
| Orchestrator.ResultsOf | data_collection/data_collection_optimized.py:370-377 | `Pool.map` gives one result per log file, in file order |
| Orchestrator.RunConversion | data_collection/data_collection_optimized.py:354-434 | the run computes its specification: no files means exit 0 with nothing written, otherwise process, aggregate and decide the exit code; rows carry the corrected elapsed time |
| Orchestrator.SumAppend | data_collection/data_collection_optimized.py:380-392 | summing the counters of a + b adds the sums of a and of b |
| Orchestrator.SumPermutation | data_collection/data_collection_optimized.py:380-392 | the sum does not depend on the order in which the counters are merged |
| Orchestrator.RowsInFileOrder | data_collection/data_collection_optimized.py:386 | the rows of a + b are the rows of a followed by the rows of b |
| Orchestrator.SumEntriesZero | data_collection/data_collection_optimized.py:430 | the total entries are zero exactly when every file has zero, and the failures are positive exactly when some file has one |
| Orchestrator.FlattenLength | data_collection/data_collection_optimized.py:386-388 | the number of rows equals the summed `entries` when each file's count matches its rows |
| Orchestrator.ExitCodeMeaning | data_collection/data_collection_optimized.py:430-434 | the exit code is 1 exactly when there were log files, none yielded a row, and at least one counted a failure |
| Orchestrator.RunCounts | data_collection/data_collection_optimized.py:380-392 | one CSV row per converted entry, every file processed, and the exit code is 0 or 1 |
| Orchestrator.StatsPermutation | data_collection/data_collection_optimized.py:376-377 | when the files are reordered, each file's counters move with it |
| Orchestrator.RunOrderIndependent | data_collection/data_collection_optimized.py:376-392 | processing the same files in another order gives the same counters and the same exit code |
| CliArgs.Coerce | mitm.js:16-19 | "true" and "false" become booleans and nothing else does; any other given text is stored as itself exactly when it is empty or not a number; a number is the flag's 1 or the value `Number()` reads |
| CliArgs.OptionAt | mitm.js:10-13 | an option is read exactly at arguments starting with `--`; it consumes one or two arguments, and the second only as its value |
| CliArgs.ParseArgs | mitm.js:8-21 | the loop, with the `++i` that consumes a value, computes the parse specification |
| CliArgs.KeyValueOption | mitm.js:11-12 | `--key=value` stores the text up to the first `=` as the key and up to the next `=` as the value; the rest is dropped |
| CliArgs.BareFlag | mitm.js:13 | without `=`, the next argument is the value exactly when it exists, is non-empty and does not start with `--`; otherwise the value is `true` |
| CliArgs.NonOptionIgnored | mitm.js:8-10 | a leading argument that does not start with `--` changes nothing |
| CliArgs.LaterOptionWins | mitm.js:8-21 | a final option sets its key over whatever came before and leaves every other key as it was |
| CliArgs.RepeatedKeyOverwrites | mitm.js:11-19 | a repeated `--key=value` keeps the last value |
| CliArgs.CoerceBooleans | mitm.js:16-17 | the strings `true` and `false` are stored as booleans |
| CliArgs.CoerceFlagAndEmpty | mitm.js:13-19 | a bare flag is stored as the number 1 (`Number(true)`), an empty value as the empty string |
| CliArgs.CoerceInteger | mitm.js:18 | the decimal text of an integer of magnitude at most 2^53 is stored as that integer |
| CliArgs.CoerceNonNumeric | mitm.js:16-19 | a text other than "true" and "false" that holds an ASCII character no JavaScript number contains (not whitespace, a letter, a digit, a sign or a point: '/', ':' or ',', as in a path) is stored as that string |
| CliArgs.CoerceTwoPoints | mitm.js:16-19 | a text with two points (an IP address such as 172.20.0.2) is stored as that string |
| CliArgs.CoerceBlank | mitm.js:18 | a non-empty whitespace-only value is stored as the number 0 |
| ConfigMerge.Base | mitm.js:71 | `result[key] \|\| {}` is a truthy value or an empty object |
| ConfigMerge.MergeConfig | mitm.js:66-78 | the key loop, with its recursive calls, computes the merge specification, errors included |
| ConfigMerge.MergeShape | mitm.js:69-75 | a merged object has the keys of both sides; untouched default keys keep their value, and non-object overrides replace it |
| ConfigMerge.NestedMergeKeepsSiblings | mitm.js:70-71 | a nested object override keeps the default's sibling keys it does not mention |
| ConfigMerge.MergeIntoNonObject | mitm.js:69-75 | a non-empty override into a value that is not a plain object throws |
| ConfigMerge.ScalarOverrides | mitm.js:72-74 | overrides without nested objects give the map union, overrides winning |
| ConfigMerge.MergeSelf | mitm.js:66-78 | merging a configuration into itself gives it back |
| ConfigMerge.ExportedConfig | mitm.js:80 | the exported configuration is the defaults with the parsed command-line values laid over the top level |
| ConfigMerge.ExportReplacesTopLevel | mitm.js:24-80 | each default key keeps its whole default value unless the command line sets it, in which case it holds that scalar |
| SessionParser.LogPrefixes | old/process.py:25-34 | the four header prefixes are non-empty, as `str.split` needs |
| SessionParser.Step | old/process.py:14-37 | one line keeps the invariant that an open session has its header bound |
| SessionParser.Feed | old/process.py:14-37 | the loop keeps that invariant over any number of lines |
| SessionParser.ParseLog | old/process.py:10-37 | the line loop computes the session list of the specification, or the error that aborts it |
| SessionParser.FeedStopsAtError | old/process.py:14-37 | once an exception is raised, later lines change nothing |
| SessionParser.FeedAppend | old/process.py:14-37 | reading a + b is reading a, then b from where a left off |
| SessionParser.OutsideLinesIgnored | old/process.py:24 | outside a session, every line other than a marker is ignored |
| SessionParser.SessionPerClose | old/process.py:20-23 | sessions are only appended, exactly one per closing marker |
| SessionParser.Restart | old/process.py:16-19 | an opening marker, inside or outside a session, starts afresh and drops the header and commands read so far |
| SessionParser.CommandStep | old/process.py:35-37 | inside a session, a line with no known prefix is appended stripped |
| SessionParser.CommandsAppended | old/process.py:35-37 | command lines are appended in order, blank lines included |
| SessionParser.SessionBlock | old/process.py:16-37 | a block of command lines between the markers is one session with an empty header and the bracketed, comma-joined command list |
| SessionParser.UnclosedSessionDropped | old/process.py:14-19 | a session still open at the end of the input is not recorded |
| SessionParser.StrayClose | old/process.py:20-22 | a closing marker before any opening marker aborts the run (NameError) |
| SessionParser.CloseStep | old/process.py:20-23 | a closing marker records the bound session and leaves it bound |
| SessionParser.DoubleClose | old/process.py:20-23 | a second closing marker records the same session again |
| SessionParser.BadCountAborts | old/process.py:27-28 | a command count that `int()` rejects aborts the run |
| SessionParser.ConnectedStep | old/process.py:25-26 | a connection-time line sets that header field to the stripped text after the prefix |
| SessionParser.CountStep | old/process.py:27-28 | a count line stores `int()` of the stripped text after the prefix, or aborts the run; the commands collected so far are untouched and the count is never checked against them |
| SessionParser.HeaderStep | old/process.py:31-34 | an IP line sets the IP to the stripped text after the prefix; a duration line stores `float()` of it or aborts the run; the other fields and the commands are untouched |
| SessionParser.RepeatedHeaderOverwrites | old/process.py:25-34 | for each of the four header fields, a second line for that field overwrites whatever the first one set |
| SessionParser.ListFieldUnquoted | old/process.py:21 | the command list is not quoted: a command holding ", " reads the same as two commands |
| Text.IntToStringRoundTrip | data_collection/data_collection_optimized.py:295-296 | `int(str(n)) == n` for the counters written into the row |
| Text.JoinSplit | data_collection/data_collection_optimized.py:183-185 | joining the split lines with the separator gives the text back |

## Findings

| source | as written | input that shows it | evidently intended | confidence | as-written member | corrected member |
|---|---|---|---|---|---|---|
| data_collection/data_collection_optimized.py:86-99 | `re.findall` with a pattern holding one capturing group returns the captured marker ("line from reader:" or "Noninteractive mode attacker command:"), not the line. `extract_timestamp` then yields "line from" or "Noninteractive mode", which has no '.', so `timestamp_to_ms` fails and the function returns 0 | any transcript, e.g. "2024-01-01 10:00:00.000 Attacker connected: x" followed by "2024-01-01 10:00:05.000 line from reader: ls" gives 0 instead of 5000 | the timestamp of the last command LINE, so the result is the milliseconds from the connection to the last command | not executed | Transcript.MitmTimeAsWrittenIsZero | Transcript.MitmTimeIsElapsed |

The row builder of the file processor uses the corrected `Transcript.CalculateMitmTime`.

## Left out

- The file system, directory walk, CSV writing, console output and the `[WARNING]` print: the file contents are a parameter (`None` for a file that is missing or cannot be read), and the discovered log files are a list given to `Orchestrator.RunConversion`.
- Parallelism: `Pool.map` keeps the order of its inputs, so it is modelled as a sequential loop.
- Decoding with `errors='ignore'`: files are taken as already-decoded text.
- `json.loads` and `json.dumps` are not modelled. Parsing is a parameter. A row keeps its command list as values rather than the dumped text.
- CSV formatting: rows keep the entry's JSON values. How `csv.DictWriter` prints them (`None` as an empty cell) is not modelled.
- The validation log: its clearing at start-up, the append of each line and the wall-clock stamp are left out. Each line is returned as a `Normalize.Diagnostic`, in entry order. The append is taken to succeed. `open` uses a path relative to the working directory, so a run from another directory raises FileNotFoundError there; the per-entry handler would then count the entry as failed and write no row, after the split, fixed and duration counters were already raised. `Normalize.ProcessEntry` always converts such an entry.
- Local-time conversion is a parameter. This covers `datetime.strptime`, `dt.timestamp()` and the float multiplication and truncation of line 57.
- Python's `float()` (old/process.py line 34) and its rendering of floats, lists and dicts by `str()` are parameters.
- Text.PyInt: accepts only an optional sign and ASCII digits around whitespace. Python's `int()` also takes underscores and non-ASCII digits.
- Transcript.TimestampToMs: reads `int(ms_part)` with the same restriction (`Text.ParseInt`), so a fraction such as "0_5" or one in non-ASCII digits is rejected where Python accepts it.
- Json.Truncate: JSON `Infinity`/`NaN` are not represented. `int(inf)` raises OverflowError in Python, which the per-entry handler would count as a failed entry.
- Repair.EscapeText: treats every digit escape as an error. Python reads `\0` and three-digit octal escapes as characters. This never matters here, because every template the rewrite builds is proved free of digit escapes.
- Text.Lower: folds only ASCII letters. Python's `.lower()` also folds non-ASCII letters ("ÄJA" becomes "äja", and "İ" becomes two characters). Such letters can reach it through a JSON string value of `is_bot` or `is_noninteractive` (`Normalize.LoweredText`), and the model leaves them unchanged.
- CliArgs.Coerce: `Number()` is restricted to optional whitespace, an optional sign and decimal digits. JavaScript also accepts hexadecimal, binary and octal literals, decimals, exponents and `Infinity`, which are kept as strings here. The JavaScript whitespace set is approximated by Python's. `Number()` returns an IEEE double, so an integer of magnitude above 2^53 is rounded ("9007199254740993" becomes 9007199254740992); the model stores the exact integer, and `CliArgs.CoerceInteger` is stated only up to 2^53.
- `__proto__` and other `Object.prototype` keys are treated as ordinary keys in both the argument object and the merge.
- ConfigMerge.Merged, ConfigMerge.MergeConfig, ConfigMerge.MergeIntoNonObject: merging a non-empty object override into an array is reported as an error. JavaScript would set properties on the array. The command line never produces such an override.
- The deep copy `JSON.parse(JSON.stringify(defaults))` is the identity on the JSON values modelled here. `for...in` key order is not modelled, because the merge result does not depend on it.
- The usage check and pandas export of old/process.py (lines 1-8 and 39-48) are not modelled; the model ends with the session list. The marker texts are the parameter `m`, instantiated with `SessionParser.Log`.
- FileProcessor.ProcessSingleFile: every row's `time_to_last_command_ms` is the corrected `Transcript.CalculateMitmTime`. The program as written puts "0" in every row (see "## Findings", and `Transcript.MitmTimeAsWrittenIsZero`).
- Orchestrator.RunConversion: the rows it collects carry the same corrected time, where the program as written writes "0".
- Json.Lookup: returns the first member with the key. `json.loads` keeps the last of duplicate keys, so the model agrees with Python only on objects whose keys are distinct.
- old/process.py reads the file line by line; the model takes the lines as a sequence.
- The `if`/`elif` chain of old/process.py lines 25-37 updates the `session_data` dictionary in place. The model computes the new header as a value with `SessionParser.SessionLine`, and `SessionParser.ParseLog` assigns it back to its loop variables.
