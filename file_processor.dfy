/** `process_single_file` (data_collection/data_collection_optimized.py, lines
    201-316): read one log file, repair it, parse it as a whole or line by line,
    and turn each entry into a row while counting what happened. */
module FileProcessor {
  import opened Wrappers
  import opened Text
  import opened Json
  import opened Transcript
  import opened Repair
  import opened Normalize

  /** What the processing reads from outside: the files (`None` when a file is
      missing or cannot be read), `json.loads` (`None` for a JSONDecodeError), the
      local-time conversion of a timestamp, and `str()` of floats and containers. */
  datatype Env = Env(
    files: string -> Option<string>,
    loads: string -> Option<JsonValue>,
    clock: EpochClock,
    render: JsonValue -> string)

  /** The per-file counters of lines 203-209. */
  datatype FileStats = FileStats(entries: nat, failed: nat, commandsSplit: nat, durationErrors: nat, numCommandsFixed: nat)

  const NoStats := FileStats(0, 0, 0, 0, 0)
  const FailedFile := FileStats(0, 1, 0, 0, 0)

  /** The rows, the counters and the validation-log lines of one file. */
  datatype FileResult = FileResult(rows: seq<Row>, stats: FileStats, diagnostics: seq<Diagnostic>)

  /** The transcript that belongs to a log file: every `.log` in the path becomes `.out`. */
  function TranscriptPath(logFile: string): string {
    ReplaceAll(logFile, ".log", ".out")
  }

  // ---------------------------------------------------------------------------
  // The parse ladder (lines 225-245)
  // ---------------------------------------------------------------------------

  /** What one line of a newline-delimited document contributes. */
  function LineEntry(line: string, loads: string -> Option<JsonValue>): seq<JsonValue> {
    var t := Strip(line);
    if t != "" && loads(t).Some? then [loads(t).value] else []
  }

  /** The entries of a newline-delimited document, line by line, in order. */
  function ParsedLines(lines: seq<string>, loads: string -> Option<JsonValue>): (data: seq<JsonValue>)
    ensures |data| <= |lines|
    decreases |lines|
  {
    if |lines| == 0 then []
    else ParsedLines(lines[..|lines| - 1], loads) + LineEntry(lines[|lines| - 1], loads)
  }

  /** The fallback loop of lines 234-242. */
  method ParseLines(lines: seq<string>, loads: string -> Option<JsonValue>) returns (data: seq<JsonValue>)
    ensures data == ParsedLines(lines, loads)
  {
    data := [];
    for i := 0 to |lines|
      invariant data == ParsedLines(lines[..i], loads)
    {
      ghost var before := data;
      var line := Strip(lines[i]);
      if line != "" {
        var parsed := loads(line);
        if parsed.Some? {
          data := data + [parsed.value];
        }
      }
      assert data == before + LineEntry(lines[i], loads);
      ParsedLinesSnoc(lines, i, loads);
    }
    assert lines[..|lines|] == lines;
  }

  lemma ParsedLinesSnoc(lines: seq<string>, i: nat, loads: string -> Option<JsonValue>)
    requires i < |lines|
    ensures ParsedLines(lines[..i + 1], loads) == ParsedLines(lines[..i], loads) + LineEntry(lines[i], loads)
  {
    assert lines[..i + 1][..i] == lines[..i];
  }

  /** The entries of a repaired document: the whole document when it parses (a
      non-list is wrapped into a one-element list), else the lines that parse. */
  function Entries(fixedContent: string, loads: string -> Option<JsonValue>): seq<JsonValue> {
    match loads(fixedContent)
    case Some(JArr(items)) => items
    case Some(v) => [v]
    case None => ParsedLines(Split(fixedContent, [LineBreak]), loads)
  }

  // ---------------------------------------------------------------------------
  // The entry loop (lines 248-310)
  // ---------------------------------------------------------------------------

  function Count(b: bool): nat {
    if b then 1 else 0
  }

  /** What one entry adds to the file's result. */
  function Tally(acc: FileResult, outcome: Option<Converted>): FileResult {
    match outcome
    case None => acc.(stats := acc.stats.(failed := acc.stats.failed + 1))
    case Some(c) =>
      var s := acc.stats;
      FileResult(
        acc.rows + [c.row],
        FileStats(s.entries + 1, s.failed, s.commandsSplit + Count(c.split),
                  s.durationErrors + Count(c.diagnostic.Some?), s.numCommandsFixed + Count(c.fixed)),
        acc.diagnostics + (if c.diagnostic.Some? then [c.diagnostic.value] else []))
  }

  /** The result of the entry loop, from the outcomes of its entries in order. */
  function TallyAll(outcomes: seq<Option<Converted>>): FileResult
    decreases |outcomes|
  {
    if |outcomes| == 0 then FileResult([], NoStats, [])
    else Tally(TallyAll(outcomes[..|outcomes| - 1]), outcomes[|outcomes| - 1])
  }

  /** The conversion the entry loop applies to every entry of one file. */
  type Converter = JsonValue -> Option<Converted>

  function EntryConverter(logFile: string, mitmTime: nat, render: JsonValue -> string): Converter {
    (e: JsonValue) => ProcessEntry(e, logFile, mitmTime, render)
  }

  /** The outcome of every entry, in order. */
  function Outcomes(data: seq<JsonValue>, convert: Converter): (o: seq<Option<Converted>>)
    ensures |o| == |data|
    ensures forall k :: 0 <= k < |data| ==> o[k] == convert(data[k])
  {
    seq(|data|, k requires 0 <= k < |data| => convert(data[k]))
  }

  /** The entry loop of lines 248-310: the counters live in a record that the loop
      updates, and the rows and validation-log lines in lists that it appends to. */
  method ConvertEntries(data: seq<JsonValue>, convert: Converter) returns (result: FileResult)
    ensures result == TallyAll(Outcomes(data, convert))
  {
    ghost var outcomes := Outcomes(data, convert);
    var rows: seq<Row> := [];
    var stats := NoStats;
    var diagnostics: seq<Diagnostic> := [];
    for i := 0 to |data|
      invariant FileResult(rows, stats, diagnostics) == TallyAll(outcomes[..i])
    {
      ghost var before := FileResult(rows, stats, diagnostics);
      var outcome := convert(data[i]);
      if outcome.None? {
        stats := stats.(failed := stats.failed + 1);
      } else {
        var c := outcome.value;
        rows := rows + [c.row];
        if c.split {
          stats := stats.(commandsSplit := stats.commandsSplit + 1);
        }
        if c.fixed {
          stats := stats.(numCommandsFixed := stats.numCommandsFixed + 1);
        }
        if c.diagnostic.Some? {
          stats := stats.(durationErrors := stats.durationErrors + 1);
          diagnostics := diagnostics + [c.diagnostic.value];
        }
        stats := stats.(entries := stats.entries + 1);
      }
      assert FileResult(rows, stats, diagnostics) == Tally(before, outcome);
      assert outcomes[..i + 1][..i] == outcomes[..i];
    }
    assert outcomes[..|data|] == outcomes;
    result := FileResult(rows, stats, diagnostics);
  }

  /** What `process_single_file` returns for `logFile`. */
  function ProcessFile(logFile: string, env: Env): FileResult {
    var mitmTime := CalculateMitmTime(env.files(TranscriptPath(logFile)), env.clock);
    match env.files(logFile)
    case None => FileResult([], FailedFile, [])
    case Some(content) => ProcessContent(logFile, content, mitmTime, env)
  }

  /** What `process_single_file` returns once `logFile` has been read as `content`. */
  function ProcessContent(logFile: string, content: string, mitmTime: nat, env: Env): FileResult {
    if Strip(content) == "" then FileResult([], NoStats, [])
    else
      var data := Entries(FixJsonContent(content), env.loads);
      if |data| == 0 then FileResult([], FailedFile, [])
      else TallyAll(Outcomes(data, EntryConverter(logFile, mitmTime, env.render)))
  }

  /** Lines 201-316. */
  method ProcessSingleFile(logFile: string, env: Env) returns (result: FileResult)
    ensures result == ProcessFile(logFile, env)
  {
    var mitmTime := CalculateMitmTime(env.files(TranscriptPath(logFile)), env.clock);
    var read := env.files(logFile);
    if read.None? {
      return FileResult([], FailedFile, []);
    }
    result := ConvertContent(logFile, read.value, mitmTime, env);
  }

  /** Lines 221-316: the blank-file check, the parse with its line-by-line
      fallback, and the entry loop. */
  method ConvertContent(logFile: string, content: string, mitmTime: nat, env: Env) returns (result: FileResult)
    ensures result == ProcessContent(logFile, content, mitmTime, env)
  {
    if Strip(content) == "" {
      return FileResult([], NoStats, []);
    }
    var data := ReadEntries(FixJsonContent(content), env.loads);
    if |data| == 0 {
      return FileResult([], FailedFile, []);
    }
    result := ConvertEntries(data, EntryConverter(logFile, mitmTime, env.render));
  }

  /** Lines 228-241: `json.loads` of the whole text, a lone object taken as a
      one-entry list, and the line-by-line fallback when the whole text fails. */
  method ReadEntries(fixedContent: string, loads: string -> Option<JsonValue>) returns (data: seq<JsonValue>)
    ensures data == Entries(fixedContent, loads)
  {
    var whole := loads(fixedContent);
    if whole.Some? {
      data := if whole.value.JArr? then whole.value.items else [whole.value];
    } else {
      data := ParseLines(Split(fixedContent, [LineBreak]), loads);
    }
  }

  // ---------------------------------------------------------------------------
  // Properties
  // ---------------------------------------------------------------------------

  /** `v` is what some line of `lines` contributes: a non-blank line that parses to `v`. */
  ghost predicate ParsedFromLine(lines: seq<string>, loads: string -> Option<JsonValue>, v: JsonValue) {
    exists j :: 0 <= j < |lines| && LineEntry(lines[j], loads) == [v]
  }

  /** Every entry of the fallback parse comes from a line of its own, in order. */
  lemma {:induction false} ParsedLinesFromLines(lines: seq<string>, loads: string -> Option<JsonValue>)
    ensures forall k :: 0 <= k < |ParsedLines(lines, loads)| ==> ParsedFromLine(lines, loads, ParsedLines(lines, loads)[k])
    decreases |lines|
  {
    if |lines| > 0 {
      var init, last := lines[..|lines| - 1], lines[|lines| - 1];
      ParsedLinesFromLines(init, loads);
      var prev := ParsedLines(init, loads);
      var e := LineEntry(last, loads);
      var all := ParsedLines(lines, loads);
      assert all == prev + e;
      assert |e| <= 1;
      forall k | 0 <= k < |all|
        ensures ParsedFromLine(lines, loads, all[k])
      {
        if k < |prev| {
          assert ParsedFromLine(init, loads, prev[k]);
          var j :| 0 <= j < |init| && LineEntry(init[j], loads) == [prev[k]];
          assert lines[j] == init[j];
        } else {
          assert e == [all[k]];
          assert LineEntry(lines[|lines| - 1], loads) == [all[k]];
        }
      }
    }
  }

  /** The counters of the entry loop: one row per converted entry, each further
      counter at most once per row, and one validation-log line per duration error. */
  predicate Consistent(r: FileResult) {
    && r.stats.entries == |r.rows|
    && r.stats.commandsSplit <= r.stats.entries
    && r.stats.numCommandsFixed <= r.stats.entries
    && r.stats.durationErrors <= r.stats.entries
    && r.stats.durationErrors == |r.diagnostics|
  }

  /** Every entry is either converted or counted as failed. */
  lemma {:induction false} TallyAllCounts(outcomes: seq<Option<Converted>>)
    ensures Consistent(TallyAll(outcomes))
    ensures TallyAll(outcomes).stats.entries + TallyAll(outcomes).stats.failed == |outcomes|
    decreases |outcomes|
  {
    if |outcomes| > 0 {
      TallyAllCounts(outcomes[..|outcomes| - 1]);
    }
  }

  /** Two results one after the other: rows and log lines concatenated, counters added. */
  function Combine(x: FileResult, y: FileResult): FileResult {
    FileResult(
      x.rows + y.rows,
      FileStats(x.stats.entries + y.stats.entries, x.stats.failed + y.stats.failed,
                x.stats.commandsSplit + y.stats.commandsSplit,
                x.stats.durationErrors + y.stats.durationErrors,
                x.stats.numCommandsFixed + y.stats.numCommandsFixed),
      x.diagnostics + y.diagnostics)
  }

  lemma TallyCombine(x: FileResult, y: FileResult, outcome: Option<Converted>)
    ensures Tally(Combine(x, y), outcome) == Combine(x, Tally(y, outcome))
  {
    match outcome
    case None =>
    case Some(c) =>
      assert x.rows + y.rows + [c.row] == x.rows + (y.rows + [c.row]);
      var d: seq<Diagnostic> := if c.diagnostic.Some? then [c.diagnostic.value] else [];
      assert x.diagnostics + y.diagnostics + d == x.diagnostics + (y.diagnostics + d);
  }

  lemma CombineEmpty(x: FileResult)
    ensures Combine(x, FileResult([], NoStats, [])) == x
  {
    assert x.rows + [] == x.rows && x.diagnostics + [] == x.diagnostics;
  }

  /** The loop over `a + b` is the loop over `a` followed by the loop over `b`:
      rows and log lines keep the order of the entries. */
  lemma {:induction false} TallyAllAppend(a: seq<Option<Converted>>, b: seq<Option<Converted>>)
    ensures TallyAll(a + b) == Combine(TallyAll(a), TallyAll(b))
    decreases |b|
  {
    if |b| == 0 {
      assert a + b == a;
      CombineEmpty(TallyAll(a));
    } else {
      var b', e := b[..|b| - 1], b[|b| - 1];
      assert (a + b)[..|a + b| - 1] == a + b';
      assert (a + b)[|a + b| - 1] == e;
      TallyAllAppend(a, b');
      TallyCombine(TallyAll(a), TallyAll(b'), e);
    }
  }

  /** A single entry yields its row and one conversion, or one failure. */
  lemma TallyOne(outcome: Option<Converted>)
    ensures var r := TallyAll([outcome]);
            match outcome
            case None => r == FileResult([], FailedFile, [])
            case Some(c) => r.rows == [c.row] && r.stats.entries == 1 && r.stats.failed == 0
  {
    assert [outcome][..0] == [];
  }

  /** When every entry converts, there is one row per entry, in order, and no failure. */
  lemma {:induction false} AllConverted(outcomes: seq<Option<Converted>>)
    requires forall k :: 0 <= k < |outcomes| ==> outcomes[k].Some?
    ensures |TallyAll(outcomes).rows| == |outcomes|
    ensures TallyAll(outcomes).stats.failed == 0
    ensures forall k :: 0 <= k < |outcomes| ==> TallyAll(outcomes).rows[k] == outcomes[k].value.row
    decreases |outcomes|
  {
    if |outcomes| > 0 {
      var init := outcomes[..|outcomes| - 1];
      AllConverted(init);
      var prev := TallyAll(init).rows;
      assert TallyAll(outcomes).rows == prev + [outcomes[|outcomes| - 1].value.row];
      assert forall k :: 0 <= k < |init| ==> init[k] == outcomes[k];
    }
  }

  /** Whatever the file holds, the result is consistent: `entries` counts the rows. */
  lemma ProcessFileCounts(logFile: string, env: Env)
    ensures Consistent(ProcessFile(logFile, env))
  {
    match env.files(logFile)
    case None =>
    case Some(content) =>
      if Strip(content) != "" {
        var data := Entries(FixJsonContent(content), env.loads);
        var mitmTime := CalculateMitmTime(env.files(TranscriptPath(logFile)), env.clock);
        TallyAllCounts(Outcomes(data, EntryConverter(logFile, mitmTime, env.render)));
      }
  }

  /** Blank content gives no rows and all-zero counters. */
  lemma BlankFileIsEmpty(logFile: string, env: Env)
    requires env.files(logFile).Some? && IsBlank(env.files(logFile).value)
    ensures ProcessFile(logFile, env) == FileResult([], NoStats, [])
  {
  }

  /** When neither the whole document nor any line parses, the file counts as one
      failure and yields no rows. */
  lemma NothingParsedFails(logFile: string, env: Env)
    requires env.files(logFile).Some? && !IsBlank(env.files(logFile).value)
    requires Entries(FixJsonContent(env.files(logFile).value), env.loads) == []
    ensures ProcessFile(logFile, env) == FileResult([], FailedFile, [])
  {
  }
}
