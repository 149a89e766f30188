/** `main` (data_collection/data_collection_optimized.py, lines 319-434) without
    its I/O: every log file is processed, the per-file counters are added into the
    global ones, the rows are concatenated in file order, and the exit code says
    whether the whole run failed. */
module Orchestrator {
  import opened FileProcessor
  import opened Normalize

  /** The global counters of lines 27-35. */
  datatype Totals = Totals(
    totalFiles: nat,
    processedFiles: nat,
    totalEntries: nat,
    failedEntries: nat,
    commandsSplit: nat,
    durationErrors: nat,
    numCommandsFixed: nat)

  /** What a run produces: the exit code, the CSV rows, the counters and the
      validation-log lines. */
  datatype Outcome = Outcome(exitCode: int, rows: seq<Row>, totals: Totals, diagnostics: seq<Diagnostic>)

  // ---------------------------------------------------------------------------
  // Sums of per-file counters
  // ---------------------------------------------------------------------------

  function AddStats(x: FileStats, y: FileStats): FileStats {
    FileStats(x.entries + y.entries, x.failed + y.failed, x.commandsSplit + y.commandsSplit,
              x.durationErrors + y.durationErrors, x.numCommandsFixed + y.numCommandsFixed)
  }

  /** The per-file counters added up, field by field. */
  function SumStats(xs: seq<FileStats>): FileStats
    decreases |xs|
  {
    if |xs| == 0 then NoStats else AddStats(SumStats(xs[..|xs| - 1]), xs[|xs| - 1])
  }

  /** The global counters after merging the counters `xs` of `totalFiles` files. */
  function Collect(totalFiles: nat, xs: seq<FileStats>): Totals {
    var s := SumStats(xs);
    Totals(totalFiles, |xs|, s.entries, s.failed, s.commandsSplit, s.durationErrors, s.numCommandsFixed)
  }

  function StatsOf(results: seq<FileResult>): (xs: seq<FileStats>)
    ensures |xs| == |results|
    ensures forall k :: 0 <= k < |results| ==> xs[k] == results[k].stats
  {
    seq(|results|, k requires 0 <= k < |results| => results[k].stats)
  }

  function Flatten<T>(xss: seq<seq<T>>): seq<T>
    decreases |xss|
  {
    if |xss| == 0 then [] else Flatten(xss[..|xss| - 1]) + xss[|xss| - 1]
  }

  function RowsOf(results: seq<FileResult>): seq<Row> {
    Flatten(seq(|results|, k requires 0 <= k < |results| => results[k].rows))
  }

  function DiagnosticsOf(results: seq<FileResult>): seq<Diagnostic> {
    Flatten(seq(|results|, k requires 0 <= k < |results| => results[k].diagnostics))
  }

  /** The aggregation loop of lines 380-392. */
  method Aggregate(totalFiles: nat, results: seq<FileResult>) returns (totals: Totals, allRows: seq<Row>, diagnostics: seq<Diagnostic>)
    ensures totals == Collect(totalFiles, StatsOf(results))
    ensures allRows == RowsOf(results)
    ensures diagnostics == DiagnosticsOf(results)
  {
    ghost var rowLists := seq(|results|, k requires 0 <= k < |results| => results[k].rows);
    ghost var diagLists := seq(|results|, k requires 0 <= k < |results| => results[k].diagnostics);
    totals := Totals(totalFiles, 0, 0, 0, 0, 0, 0);
    allRows := [];
    diagnostics := [];
    for i := 0 to |results|
      invariant totals == Collect(totalFiles, StatsOf(results[..i]))
      invariant allRows == Flatten(rowLists[..i])
      invariant diagnostics == Flatten(diagLists[..i])
    {
      var s := results[i].stats;
      allRows := allRows + results[i].rows;
      diagnostics := diagnostics + results[i].diagnostics;
      totals := totals.(processedFiles := totals.processedFiles + 1);
      totals := totals.(totalEntries := totals.totalEntries + s.entries);
      totals := totals.(failedEntries := totals.failedEntries + s.failed);
      totals := totals.(commandsSplit := totals.commandsSplit + s.commandsSplit);
      totals := totals.(durationErrors := totals.durationErrors + s.durationErrors);
      totals := totals.(numCommandsFixed := totals.numCommandsFixed + s.numCommandsFixed);
      assert StatsOf(results[..i + 1]) == StatsOf(results[..i]) + [s];
      assert rowLists[..i + 1][..i] == rowLists[..i];
      assert diagLists[..i + 1][..i] == diagLists[..i];
    }
    assert results[..|results|] == results;
    assert rowLists[..|results|] == rowLists;
    assert diagLists[..|results|] == diagLists;
  }

  // ---------------------------------------------------------------------------
  // The run
  // ---------------------------------------------------------------------------

  /** Lines 354-356 and 430-434: no log file means success before anything is
      written; otherwise the run fails when nothing converted and something failed. */
  function ExitCode(fileCount: nat, totals: Totals): int {
    if fileCount == 0 then 0
    else if totals.totalEntries == 0 && totals.failedEntries > 0 then 1
    else 0
  }

  function ResultsOf(logFiles: seq<string>, env: Env): (results: seq<FileResult>)
    ensures |results| == |logFiles|
    ensures forall k :: 0 <= k < |logFiles| ==> results[k] == ProcessFile(logFiles[k], env)
  {
    seq(|logFiles|, k requires 0 <= k < |logFiles| => ProcessFile(logFiles[k], env))
  }

  /** What a run over the discovered `logFiles` produces. */
  function Run(logFiles: seq<string>, env: Env): Outcome {
    if |logFiles| == 0 then Outcome(0, [], Totals(0, 0, 0, 0, 0, 0, 0), [])
    else
      var results := ResultsOf(logFiles, env);
      var totals := Collect(|logFiles|, StatsOf(results));
      Outcome(ExitCode(|logFiles|, totals), RowsOf(results), totals, DiagnosticsOf(results))
  }

  /** `main` after the directory walk: `Pool.map` keeps the order of the files, so
      it is modelled as a loop over them. */
  method RunConversion(logFiles: seq<string>, env: Env) returns (outcome: Outcome)
    ensures outcome == Run(logFiles, env)
  {
    if |logFiles| == 0 {
      return Outcome(0, [], Totals(0, 0, 0, 0, 0, 0, 0), []);
    }
    var results: seq<FileResult> := [];
    for i := 0 to |logFiles|
      invariant results == ResultsOf(logFiles[..i], env)
    {
      var r := ProcessSingleFile(logFiles[i], env);
      results := results + [r];
    }
    assert logFiles[..|logFiles|] == logFiles;
    var totals, allRows, diagnostics := Aggregate(|logFiles|, results);
    var exitCode := if totals.totalEntries == 0 && totals.failedEntries > 0 then 1 else 0;
    outcome := Outcome(exitCode, allRows, totals, diagnostics);
  }

  // ---------------------------------------------------------------------------
  // Properties
  // ---------------------------------------------------------------------------

  lemma {:induction false} SumAppend(a: seq<FileStats>, b: seq<FileStats>)
    ensures SumStats(a + b) == AddStats(SumStats(a), SumStats(b))
    decreases |b|
  {
    if |b| == 0 {
      assert a + b == a;
      AddZero(SumStats(a));
    } else {
      var b', z := b[..|b| - 1], b[|b| - 1];
      assert (a + b)[..|a + b| - 1] == a + b';
      assert (a + b)[|a + b| - 1] == z;
      SumAppend(a, b');
      AddAssoc(SumStats(a), SumStats(b'), z);
    }
  }

  lemma AddZero(x: FileStats)
    ensures AddStats(x, NoStats) == x
  {
  }

  lemma AddAssoc(x: FileStats, y: FileStats, z: FileStats)
    ensures AddStats(AddStats(x, y), z) == AddStats(x, AddStats(y, z))
  {
  }

  /** Taking one element out of a sequence. */
  lemma MultisetRemove<T>(xs: seq<T>, i: nat, ys: seq<T>, y: T)
    requires i < |xs| && xs[i] == y && multiset(xs) == multiset(ys + [y])
    ensures multiset(xs[..i] + xs[i + 1..]) == multiset(ys)
  {
    var front, back := xs[..i], xs[i + 1..];
    assert xs == front + [y] + back;
    assert multiset(xs) == multiset(front) + multiset{y} + multiset(back);
    assert multiset(front + back) == multiset(front) + multiset(back);
    assert multiset(ys + [y]) == multiset(ys) + multiset{y};
    var m1, m2 := multiset(front + back), multiset(ys);
    assert m1 + multiset{y} == m2 + multiset{y};
    forall z
      ensures m1[z] == m2[z]
    {
      assert (m1 + multiset{y})[z] == (m2 + multiset{y})[z];
    }
  }

  /** The global counters depend only on which per-file counters were merged, not
      on the order of merging. */
  lemma {:induction false} SumPermutation(xs: seq<FileStats>, ys: seq<FileStats>)
    requires multiset(xs) == multiset(ys)
    ensures SumStats(xs) == SumStats(ys)
    decreases |ys|
  {
    if |ys| == 0 {
      assert |xs| == |multiset(xs)| == 0;
    } else {
      var y, ys' := ys[|ys| - 1], ys[..|ys| - 1];
      assert ys == ys' + [y];
      assert y in multiset(xs);
      var i :| 0 <= i < |xs| && xs[i] == y;
      var front, back := xs[..i], xs[i + 1..];
      MultisetRemove(xs, i, ys', y);
      SumPermutation(front + back, ys');
      assert xs == front + [y] + back;
      SumAppend(front + [y], back);
      SumAppend(front, [y]);
      SumAppend(front, back);
      assert [y][..0] == [];
      AddAssoc(SumStats(front), y, SumStats(back));
      AddAssoc(SumStats(front), SumStats(back), y);
    }
  }

  lemma {:induction false} FlattenAppend<T>(a: seq<seq<T>>, b: seq<seq<T>>)
    ensures Flatten(a + b) == Flatten(a) + Flatten(b)
    decreases |b|
  {
    if |b| == 0 {
      assert a + b == a;
    } else {
      var b' := b[..|b| - 1];
      assert (a + b)[..|a + b| - 1] == a + b';
      assert (a + b)[|a + b| - 1] == b[|b| - 1];
      FlattenAppend(a, b');
    }
  }

  /** Rows are concatenated in file order: the rows of `a + b` are those of `a`
      followed by those of `b`. */
  lemma RowsInFileOrder(a: seq<FileResult>, b: seq<FileResult>)
    ensures RowsOf(a + b) == RowsOf(a) + RowsOf(b)
  {
    var la := seq(|a|, k requires 0 <= k < |a| => a[k].rows);
    var lb := seq(|b|, k requires 0 <= k < |b| => b[k].rows);
    assert seq(|a + b|, k requires 0 <= k < |a + b| => (a + b)[k].rows) == la + lb;
    FlattenAppend(la, lb);
  }

  lemma {:induction false} SumEntriesZero(xs: seq<FileStats>)
    ensures SumStats(xs).entries == 0 <==> forall k :: 0 <= k < |xs| ==> xs[k].entries == 0
    ensures SumStats(xs).failed > 0 <==> exists k :: 0 <= k < |xs| && xs[k].failed > 0
    decreases |xs|
  {
    if |xs| > 0 {
      var init := xs[..|xs| - 1];
      SumEntriesZero(init);
      assert forall k :: 0 <= k < |init| ==> init[k] == xs[k];
    }
  }

  lemma {:induction false} FlattenLength(results: seq<FileResult>)
    requires forall k :: 0 <= k < |results| ==> results[k].stats.entries == |results[k].rows|
    ensures |RowsOf(results)| == SumStats(StatsOf(results)).entries
    decreases |results|
  {
    if |results| > 0 {
      var init := results[..|results| - 1];
      FlattenLength(init);
      assert StatsOf(results) == StatsOf(init) + [results[|results| - 1].stats];
      assert StatsOf(results)[..|results| - 1] == StatsOf(init);
      var lists := seq(|results|, k requires 0 <= k < |results| => results[k].rows);
      assert lists[..|results| - 1] == seq(|init|, k requires 0 <= k < |init| => init[k].rows);
    }
  }

  /** The run fails exactly when there were log files, none of them yielded a row,
      and at least one of them counted a failure. */
  lemma ExitCodeMeaning(logFiles: seq<string>, env: Env)
    ensures Run(logFiles, env).exitCode == 1 <==>
              && |logFiles| > 0
              && (forall k :: 0 <= k < |logFiles| ==> ProcessFile(logFiles[k], env).rows == [])
              && (exists k :: 0 <= k < |logFiles| && ProcessFile(logFiles[k], env).stats.failed > 0)
  {
    if |logFiles| > 0 {
      var results := ResultsOf(logFiles, env);
      var xs := StatsOf(results);
      SumEntriesZero(xs);
      forall k | 0 <= k < |logFiles|
        ensures xs[k].entries == |ProcessFile(logFiles[k], env).rows|
      {
        ProcessFileCounts(logFiles[k], env);
      }
    }
  }

  /** One CSV row per converted entry, and every file is processed. */
  lemma RunCounts(logFiles: seq<string>, env: Env)
    ensures |Run(logFiles, env).rows| == Run(logFiles, env).totals.totalEntries
    ensures Run(logFiles, env).totals.processedFiles == Run(logFiles, env).totals.totalFiles == |logFiles|
    ensures Run(logFiles, env).exitCode == 0 || Run(logFiles, env).exitCode == 1
  {
    if |logFiles| > 0 {
      var results := ResultsOf(logFiles, env);
      forall k | 0 <= k < |results|
        ensures results[k].stats.entries == |results[k].rows|
      {
        ProcessFileCounts(logFiles[k], env);
      }
      FlattenLength(results);
    }
  }

  /** Processing the same files in another order gives the same counters and the
      same exit code. */
  lemma RunOrderIndependent(logFiles: seq<string>, others: seq<string>, env: Env)
    requires multiset(logFiles) == multiset(others)
    ensures Run(logFiles, env).totals == Run(others, env).totals
    ensures Run(logFiles, env).exitCode == Run(others, env).exitCode
  {
    assert |logFiles| == |multiset(logFiles)| == |others|;
    if |logFiles| > 0 {
      var xs := StatsOf(ResultsOf(logFiles, env));
      var ys := StatsOf(ResultsOf(others, env));
      StatsPermutation(logFiles, others, env);
      SumPermutation(xs, ys);
    }
  }

  function Apply<A, B>(f: A -> B, xs: seq<A>): (r: seq<B>)
    ensures |r| == |xs|
    ensures forall k :: 0 <= k < |xs| ==> r[k] == f(xs[k])
  {
    seq(|xs|, k requires 0 <= k < |xs| => f(xs[k]))
  }

  /** Applying a function elementwise keeps a reordering a reordering. */
  lemma {:induction false} ApplyPermutation<A, B>(f: A -> B, xs: seq<A>, ys: seq<A>)
    requires multiset(xs) == multiset(ys)
    ensures multiset(Apply(f, xs)) == multiset(Apply(f, ys))
    decreases |ys|
  {
    if |ys| == 0 {
      assert |xs| == |multiset(xs)| == 0;
    } else {
      var y, ys' := ys[|ys| - 1], ys[..|ys| - 1];
      assert ys == ys' + [y];
      assert y in multiset(xs);
      var i :| 0 <= i < |xs| && xs[i] == y;
      MultisetRemove(xs, i, ys', y);
      var front, back := xs[..i], xs[i + 1..];
      ApplyPermutation(f, front + back, ys');
      assert xs == front + [y] + back;
      ApplyAppend(f, ys', [y]);
      ApplyAppend(f, front + [y], back);
      ApplyAppend(f, front, [y]);
      ApplyAppend(f, front, back);
    }
  }

  lemma ApplyAppend<A, B>(f: A -> B, a: seq<A>, b: seq<A>)
    ensures Apply(f, a + b) == Apply(f, a) + Apply(f, b)
  {
  }

  /** Per-file counters follow their files through a reordering. */
  lemma StatsPermutation(logFiles: seq<string>, others: seq<string>, env: Env)
    requires multiset(logFiles) == multiset(others)
    ensures multiset(StatsOf(ResultsOf(logFiles, env))) == multiset(StatsOf(ResultsOf(others, env)))
  {
    var f := (name: string) => ProcessFile(name, env).stats;
    ApplyPermutation(f, logFiles, others);
    assert StatsOf(ResultsOf(logFiles, env)) == Apply(f, logFiles);
    assert StatsOf(ResultsOf(others, env)) == Apply(f, others);
  }
}
