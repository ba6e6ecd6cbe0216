/**
  `Update`: reconcile the walked files one after another, stop at the first
  file that fails, and otherwise end with either the "no changes" notice or
  the table of every row collected.
*/
module Run {
  import opened Wrappers
  import opened Objects
  import opened Remote
  import opened Reconcile

  /** A document written back to its path. */
  datatype Persisted = Persisted(file: string, doc: Document)

  /** What the run prints at the end: the notice, or the table of rows. */
  datatype Report = NoChanges | Table(rows: seq<Row>)

  /** The file loop part-way: still going with the rows so far, or stopped by an error. */
  datatype RunState = Running(rows: seq<Row>, persisted: seq<Persisted>) | Stopped(error: string, persisted: seq<Persisted>)

  /** The run's result: the first error (no report), or the report. Writes already made stay made. */
  datatype RunResult = Failed(error: string, persisted: seq<Persisted>) | Completed(report: Report, persisted: seq<Persisted>)

  /** The notice when no row was collected, the table of all rows otherwise. */
  function Render(rows: seq<Row>): (r: Report)
    ensures r.NoChanges? <==> |rows| == 0
    ensures r.Table? ==> r.rows == rows
  {
    if |rows| == 0 then NoChanges else Table(rows)
  }

  /**
    The lines handed to the table, as cells: the notice alone, or the
    header followed by one line per row. Every table line reads back as its row.
  */
  function Lines(report: Report): (lines: seq<seq<string>>)
    ensures report.NoChanges? ==> lines == [[NoChangesNotice]]
    ensures report.Table? ==>
              && |lines| == |report.rows| + 1
              && lines[0] == TableHeader
              && forall k :: 0 <= k < |report.rows| ==>
                   |lines[k + 1]| == |TableHeader| && RowOf(lines[k + 1]) == Some(report.rows[k])
  {
    match report
    case NoChanges => [[NoChangesNotice]]
    case Table(rows) => [TableHeader] + seq(|rows|, k requires 0 <= k < |rows| => rows[k].Cells())
  }

  function WrittenBy(file: string, outcome: FileOutcome): seq<Persisted>
  {
    if outcome.write.Some? then [Persisted(file, outcome.write.value)] else []
  }

  /** The loop over `paths[..n]`: once a file has failed, later files are not touched. */
  function RunUpTo(update: string -> Result<FileOutcome>, paths: seq<string>, n: nat): (r: RunState)
    requires n <= |paths|
  {
    if n == 0 then Running([], [])
    else
      match RunUpTo(update, paths, n - 1)
      case Stopped(e, persisted) => Stopped(e, persisted)
      case Running(rows, persisted) =>
        match update(paths[n - 1])
        case Err(e) => Stopped(e, persisted)
        case Ok(outcome) => Running(rows + outcome.rows, persisted + WrittenBy(paths[n - 1], outcome))
  }

  /** One file's update, as the loop calls it. */
  function FileStep(files: Files, remote: Remote, target: string): string -> Result<FileOutcome>
  {
    file => UpdateFile(files, remote, target, file)
  }

  /** After the loop: a stop becomes the run's error, otherwise the rows are rendered. */
  function Finish(state: RunState): RunResult
  {
    match state
    case Stopped(e, persisted) => Failed(e, persisted)
    case Running(rows, persisted) => Completed(Render(rows), persisted)
  }

  /**
    `Update` over the walked file list: it fails exactly when some file
    fails, with the error of the first such file; otherwise it shows the
    notice exactly when no file reported a row.
  */
  function Update(files: Files, remote: Remote, target: string, paths: seq<string>): (r: RunResult)
    ensures r.Failed? <==> exists k :: 0 <= k < |paths| && UpdateFile(files, remote, target, paths[k]).Err?
    ensures r.Failed? ==>
              exists k :: 0 <= k < |paths| && UpdateFile(files, remote, target, paths[k]) == Err(r.error)
                          && forall j :: 0 <= j < k ==> UpdateFile(files, remote, target, paths[j]).Ok?
    ensures r.Completed? ==>
              (r.report.NoChanges? <==>
                 forall k :: 0 <= k < |paths| ==>
                   UpdateFile(files, remote, target, paths[k]).Ok? && |UpdateFile(files, remote, target, paths[k]).value.rows| == 0)
  {
    var update := FileStep(files, remote, target);
    RunOutcome(update, paths);
    Finish(RunUpTo(update, paths, |paths|))
  }

  /** The first of `paths[..n]` whose update fails. */
  function FirstFailure(update: string -> Result<FileOutcome>, paths: seq<string>, n: nat): (r: Option<nat>)
    requires n <= |paths|
    ensures r.Some? ==> r.value < n && update(paths[r.value]).Err?
    ensures r.Some? ==> forall k :: 0 <= k < r.value ==> update(paths[k]).Ok?
    ensures r.None? ==> forall k :: 0 <= k < n ==> update(paths[k]).Ok?
  {
    if n == 0 then None
    else
      var earlier := FirstFailure(update, paths, n - 1);
      if earlier.Some? then earlier
      else if update(paths[n - 1]).Err? then Some(n - 1)
      else None
  }

  /** The rows of the files of `paths[..n]` that were updated, in file order. */
  function RowsOfFiles(update: string -> Result<FileOutcome>, paths: seq<string>, n: nat): seq<Row>
    requires n <= |paths|
  {
    if n == 0 then []
    else
      RowsOfFiles(update, paths, n - 1)
      + match update(paths[n - 1])
        case Ok(outcome) => outcome.rows
        case Err(_) => []
  }

  /** The documents written back for the files of `paths[..n]`, in file order. */
  function WritesOfFiles(update: string -> Result<FileOutcome>, paths: seq<string>, n: nat): seq<Persisted>
    requires n <= |paths|
  {
    if n == 0 then []
    else
      WritesOfFiles(update, paths, n - 1)
      + match update(paths[n - 1])
        case Ok(outcome) => WrittenBy(paths[n - 1], outcome)
        case Err(_) => []
  }

  /**
    The file loop after `n` files: with no failure so far it has the rows and
    writes of every file in order; otherwise it holds the first failure's
    error and the writes of the files before it.
  */
  lemma {:induction false} RunUpToSpec(update: string -> Result<FileOutcome>, paths: seq<string>, n: nat)
    requires n <= |paths|
    ensures match FirstFailure(update, paths, n)
            case None =>
              RunUpTo(update, paths, n)
              == Running(RowsOfFiles(update, paths, n), WritesOfFiles(update, paths, n))
            case Some(k) =>
              RunUpTo(update, paths, n)
              == Stopped(update(paths[k]).error, WritesOfFiles(update, paths, k))
  {
    if n == 0 {
      assert RunUpTo(update, paths, 0) == Running([], []);
    } else {
      var m := n - 1;
      RunUpToSpec(update, paths, m);
      var before := RunUpTo(update, paths, m);
      var u := update(paths[m]);
      var rows := RowsOfFiles(update, paths, m);
      var writes := WritesOfFiles(update, paths, m);
      match FirstFailure(update, paths, m)
      case Some(k) =>
        assert FirstFailure(update, paths, n) == Some(k);
        assert RunUpTo(update, paths, n) == before;
      case None =>
        assert before == Running(rows, writes);
        if u.Err? {
          assert FirstFailure(update, paths, n) == Some(m);
          assert RunUpTo(update, paths, n) == Stopped(u.error, writes);
        } else {
          assert FirstFailure(update, paths, n).None?;
          assert RowsOfFiles(update, paths, n) == rows + u.value.rows;
          assert WritesOfFiles(update, paths, n) == writes + WrittenBy(paths[m], u.value);
          assert RunUpTo(update, paths, n)
              == Running(rows + u.value.rows, writes + WrittenBy(paths[m], u.value));
        }
    }
  }

  /**
    When some file fails, the run fails with the first failing file's error,
    the writes of the files before it and no report (the converse is
    `RunCompletes`).
  */
  lemma RunStopsAtFirstError(update: string -> Result<FileOutcome>, paths: seq<string>, k: nat)
    requires k < |paths|
    requires update(paths[k]).Err?
    requires forall j :: 0 <= j < k ==> update(paths[j]).Ok?
    ensures Finish(RunUpTo(update, paths, |paths|)) == Failed(update(paths[k]).error, WritesOfFiles(update, paths, k))
  {
    RunUpToSpec(update, paths, |paths|);
    var first := FirstFailure(update, paths, |paths|);
    assert first.Some?;
    assert first.value == k;
  }

  /**
    When every file succeeds, the loop completes with all rows in file order
    and every write: the notice when there are no rows, the table otherwise.
  */
  lemma RunCompletes(update: string -> Result<FileOutcome>, paths: seq<string>)
    requires FirstFailure(update, paths, |paths|).None?
    ensures var result := Finish(RunUpTo(update, paths, |paths|));
            var rows := RowsOfFiles(update, paths, |paths|);
            && result.Completed?
            && result.persisted == WritesOfFiles(update, paths, |paths|)
            && (result.report.NoChanges? <==> |rows| == 0)
            && (result.report.Table? ==> result.report.rows == rows)
  {
    RunUpToSpec(update, paths, |paths|);
  }

  /** With every file updated, no row at all was reported exactly when no file reported one. */
  lemma {:induction false} NoRowsIffNoFileRows(update: string -> Result<FileOutcome>, paths: seq<string>, n: nat)
    requires n <= |paths|
    requires forall k :: 0 <= k < n ==> update(paths[k]).Ok?
    ensures |RowsOfFiles(update, paths, n)| == 0 <==> forall k :: 0 <= k < n ==> |update(paths[k]).value.rows| == 0
  {
    if n > 0 {
      NoRowsIffNoFileRows(update, paths, n - 1);
    }
  }

  /**
    The run's result for any per-file update: it fails exactly when some file
    fails, with the first failing file's error, and otherwise shows the notice
    exactly when no file reported a row.
  */
  lemma RunOutcome(update: string -> Result<FileOutcome>, paths: seq<string>)
    ensures var r := Finish(RunUpTo(update, paths, |paths|));
            && (r.Failed? <==> exists k :: 0 <= k < |paths| && update(paths[k]).Err?)
            && (r.Failed? ==>
                  exists k :: 0 <= k < |paths| && update(paths[k]) == Err(r.error)
                              && forall j :: 0 <= j < k ==> update(paths[j]).Ok?)
            && (r.Completed? ==>
                  (r.report.NoChanges? <==>
                     forall k :: 0 <= k < |paths| ==> update(paths[k]).Ok? && |update(paths[k]).value.rows| == 0))
  {
    RunUpToSpec(update, paths, |paths|);
    var first := FirstFailure(update, paths, |paths|);
    if first.None? {
      NoRowsIffNoFileRows(update, paths, |paths|);
    }
  }
}
