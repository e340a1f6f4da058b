/**
 * The resumable bulk downloader (download.py): a CSV job list whose rows are
 * `[status, url, title]`, where status `"1"` marks a finished download. The run
 * migrates the header, pads the rows, then walks the rows in order, asking the
 * external tool for a title and an audio download for each pending one and
 * rewriting the whole file after every successful download.
 *
 * The CSV text is taken as already split into rows. The external tool is an
 * oracle indexed by row position, and the file on disk is a ghost field.
 */
module Download {
  import opened Wrappers
  import opened Text

  type Row = seq<string>

  /** What reading the CSV file yields: no file, a `csv.Error`, or its rows
      (the header first; `[]` when `next(reader)` meets an empty file). */
  datatype StoreFile = Missing | Unreadable | Records(records: seq<Row>)

  /** How the `yt-dlp -x --audio-format mp3 <url>` call ends: exit code 0, a
      `CalledProcessError`, a `FileNotFoundError` (the tool cannot be launched),
      or any other exception. */
  datatype DownloadOutcome = Exited0 | NonZeroExit | LaunchFailure | OtherError

  /** What the tool and the file system do for one row: the title printed by
      `yt-dlp --print %(title)s` (`None` when that call raises), the download
      outcome, and whether the rewrite of the CSV after a success succeeds. */
  datatype Attempt = Attempt(title: Option<string>, download: DownloadOutcome, saved: bool)

  /** How `download_mp3_from_urls` returns. `Finished(Some(i))` is the `break`
      at row `i`. */
  datatype Exit =
    | NoArgument
    | ToolNotFound
    | FileNotFound
    | EmptyFile
    | CsvError
    | NoUrls
    | Finished(stoppedAt: Option<nat>)

  /** The file after a run, with the way the run ended. */
  datatype RunResult = RunResult(exit: Exit, disk: StoreFile)

  const TitleColumn := "Title"
  const DoneMark := "1"
  const MissingTitle := "Title not found"

  // ---------------------------------------------------------------------------
  // Loading: header migration and row padding
  // ---------------------------------------------------------------------------

  /** The header with `Title` appended when it has no such column. */
  function Migrate(header: Row): (r: Row)
    ensures TitleColumn in r
    ensures |r| >= |header| && r[..|header|] == header
    ensures TitleColumn in header <==> r == header
    ensures TitleColumn !in header ==> r == header + [TitleColumn]
  {
    if TitleColumn in header then header else header + [TitleColumn]
  }

  /** Migrating twice is migrating once. */
  lemma MigrateIdempotent(header: Row)
    ensures Migrate(Migrate(header)) == Migrate(header)
  {
  }

  /** `while len(row) < 3: row.append('')` */
  function Padded(row: Row): (r: Row)
    ensures |r| == if |row| < 3 then 3 else |row|
    ensures r[..|row|] == row
    ensures forall k | |row| <= k < |r| :: r[k] == ""
    decreases 3 - |row|
  {
    if |row| < 3 then Padded(row + [""]) else row
  }

  /** A row with at least three fields needs no padding, so padding is idempotent. */
  lemma PaddedIdempotent(row: Row)
    ensures Padded(Padded(row)) == Padded(row)
    ensures |row| >= 3 ==> Padded(row) == row
  {
  }

  predicate WellFormed(rows: seq<Row>) {
    forall k | 0 <= k < |rows| :: |rows[k]| >= 3
  }

  function PadAll(rows: seq<Row>): (r: seq<Row>)
    ensures |r| == |rows| && WellFormed(r)
    ensures forall k | 0 <= k < |rows| :: r[k] == Padded(rows[k])
  {
    seq(|rows|, k requires 0 <= k < |rows| => Padded(rows[k]))
  }

  // ---------------------------------------------------------------------------
  // One row
  // ---------------------------------------------------------------------------

  predicate IsDone(row: Row)
    requires |row| >= 1
  {
    row[0] == DoneMark
  }

  /** The title stored after a success: the stripped output of the title call,
      or the placeholder when that call failed. */
  function TitleText(title: Option<string>): (r: string)
    ensures title.None? ==> r == MissingTitle
    ensures title.Some? ==> Trimmed(r) && |r| <= |title.value|
  {
    match title
    case None => MissingTitle
    case Some(t) => Strip(t)
  }

  /** `data[i][0] = '1'; data[i][2] = video_title`: only the status and the
      title change. */
  function Settle(row: Row, a: Attempt): (r: Row)
    requires |row| >= 3
    ensures |r| == |row| && IsDone(r)
    ensures r[2] == TitleText(a.title)
    ensures forall k | 0 <= k < |row| && k != 0 && k != 2 :: r[k] == row[k]
  {
    row[0 := DoneMark][2 := TitleText(a.title)]
  }

  /** Row `k` is pending and its download exits with code 0. */
  predicate Succeeds(rows: seq<Row>, attempts: nat -> Attempt, k: nat)
    requires k < |rows| && WellFormed(rows)
  {
    !IsDone(rows[k]) && attempts(k).download == Exited0
  }

  /** Row `k` is pending and the tool cannot be launched for it: the loop breaks. */
  predicate HaltsAt(rows: seq<Row>, attempts: nat -> Attempt, k: nat)
    requires k < |rows| && WellFormed(rows)
  {
    !IsDone(rows[k]) && attempts(k).download == LaunchFailure
  }

  // ---------------------------------------------------------------------------
  // The loop over the rows
  // ---------------------------------------------------------------------------

  /** The first row at or after `from` where the loop breaks. */
  function FirstHalt(rows: seq<Row>, attempts: nat -> Attempt, from: nat): (r: Option<nat>)
    requires WellFormed(rows)
    ensures r.Some? ==> from <= r.value < |rows| && HaltsAt(rows, attempts, r.value)
    ensures r.Some? ==> forall k | from <= k < r.value :: !HaltsAt(rows, attempts, k)
    ensures r.None? ==> forall k | from <= k < |rows| :: !HaltsAt(rows, attempts, k)
    decreases |rows| - from
  {
    if from >= |rows| then None
    else if HaltsAt(rows, attempts, from) then Some(from)
    else FirstHalt(rows, attempts, from + 1)
  }

  /** The number of rows the loop goes through before it ends or breaks. */
  function End(rows: seq<Row>, attempts: nat -> Attempt): (n: nat)
    requires WellFormed(rows)
    ensures n <= |rows|
    ensures forall k | 0 <= k < n :: !HaltsAt(rows, attempts, k)
    ensures n < |rows| ==> HaltsAt(rows, attempts, n)
  {
    match FirstHalt(rows, attempts, 0)
    case None => |rows|
    case Some(i) => i
  }

  /** The rows in memory once the first `j` rows have been through the loop. */
  function RowsAfter(rows: seq<Row>, attempts: nat -> Attempt, j: nat): (r: seq<Row>)
    requires WellFormed(rows) && j <= |rows|
    ensures |r| == |rows| && WellFormed(r)
  {
    seq(|rows|, k requires 0 <= k < |rows| =>
      if k < j && Succeeds(rows, attempts, k) then Settle(rows[k], attempts(k)) else rows[k])
  }

  /** The file once the first `j` rows have been through the loop: the last
      successful rewrite, or the file as it was. */
  function DiskAfter(file: StoreFile, header: Row, rows: seq<Row>, attempts: nat -> Attempt, j: nat): StoreFile
    requires WellFormed(rows) && j <= |rows|
  {
    if j == 0 then file
    else if Succeeds(rows, attempts, j - 1) && attempts(j - 1).saved then Records([header] + RowsAfter(rows, attempts, j))
    else DiskAfter(file, header, rows, attempts, j - 1)
  }

  // ---------------------------------------------------------------------------
  // The whole run
  // ---------------------------------------------------------------------------

  /** `download_mp3_from_urls` given the argument count, whether the tool
      exists, what reading the CSV yields and what the tool does per row. */
  function Outcome(argc: nat, toolFound: bool, file: StoreFile, attempts: nat -> Attempt): RunResult {
    if argc < 2 then RunResult(NoArgument, file)
    else if !toolFound then RunResult(ToolNotFound, file)
    else if file.Missing? then RunResult(FileNotFound, file)
    else if file.Unreadable? then RunResult(CsvError, file)
    else if file.records == [] then RunResult(EmptyFile, file)
    else
      var header := Migrate(file.records[0]);
      var rows := PadAll(file.records[1..]);
      if rows == [] then RunResult(NoUrls, file)
      else RunResult(Finished(FirstHalt(rows, attempts, 0)), DiskAfter(file, header, rows, attempts, End(rows, attempts)))
  }

  /** The state of one run: the migrated header, the rows in memory and the
      file on disk. */
  class Downloader {
    var header: Row
    var data: seq<Row>
    ghost var disk: StoreFile

    constructor(file: StoreFile)
      ensures header == [] && data == [] && disk == file
    {
      header, data := [], [];
      disk := file;
    }

    predicate Valid()
      reads this
    {
      WellFormed(data)
    }

    /** The body of the `with open(urls_file, 'r')` block once the header has
        been read: migrate it, then pad every row in place. */
    method Load(records: seq<Row>)
      requires records != []
      modifies this
      ensures header == Migrate(records[0])
      ensures data == PadAll(records[1..])
      ensures disk == old(disk)
      ensures Valid()
    {
      header := records[0];
      if TitleColumn !in header {
        header := header + [TitleColumn];
      }
      data := records[1..];
      var i := 0;
      while i < |data|
        invariant 0 <= i <= |data| == |records| - 1
        invariant header == Migrate(records[0])
        invariant forall k | 0 <= k < i :: data[k] == Padded(records[1 + k])
        invariant forall k | i <= k < |data| :: data[k] == records[1 + k]
        invariant disk == old(disk)
      {
        while |data[i]| < 3
          invariant |data| == |records| - 1
          invariant header == Migrate(records[0])
          invariant Padded(data[i]) == Padded(records[1 + i])
          invariant forall k | 0 <= k < i :: data[k] == Padded(records[1 + k])
          invariant forall k | i < k < |data| :: data[k] == records[1 + k]
          invariant disk == old(disk)
          decreases 3 - |data[i]|
        {
          data := data[i := data[i] + [""]];
        }
        i := i + 1;
      }
    }

    /** Step 1 of a pending row: the placeholder, replaced by the stripped
        output of the title call when that call succeeds. */
    static method FetchTitle(title: Option<string>) returns (videoTitle: string)
      ensures videoTitle == TitleText(title)
    {
      videoTitle := MissingTitle;
      if title.Some? {
        videoTitle := Strip(title.value);
      }
    }

    /** The body of the loop for row `i`; `halts` is the `break` when the
        tool cannot be launched. */
    method ProcessRow(ghost rows: seq<Row>, ghost file: StoreFile, attempts: nat -> Attempt, i: nat)
      returns (halts: bool)
      requires WellFormed(rows) && i < |rows|
      requires data == RowsAfter(rows, attempts, i)
      requires disk == DiskAfter(file, header, rows, attempts, i)
      modifies this
      ensures header == old(header)
      ensures halts == HaltsAt(rows, attempts, i)
      ensures halts ==> data == old(data) && disk == old(disk)
      ensures !halts ==> data == RowsAfter(rows, attempts, i + 1)
      ensures !halts ==> disk == DiskAfter(file, header, rows, attempts, i + 1)
    {
      RowsAfterStep(rows, attempts, i);
      halts := false;
      if data[i][0] == DoneMark {
        OtherStep(file, header, rows, attempts, i);
        return;
      }
      var attempt := attempts(i);
      var videoTitle := FetchTitle(attempt.title);
      if attempt.download == LaunchFailure {
        halts := true;
        return;
      }
      // A non-zero exit or any other exception leaves the flag unset.
      var downloadSuccessful := attempt.download == Exited0;
      if downloadSuccessful {
        SuccessStep(file, header, rows, attempts, i);
        var row := data[i];
        SettleInPlace(row, attempt, videoTitle);
        row := row[0 := DoneMark][2 := videoTitle];
        data := data[i := row];
        if attempt.saved {
          disk := Records([header] + data);
        }
      } else {
        OtherStep(file, header, rows, attempts, i);
      }
    }

    /** The `for i, row in enumerate(data)` loop. */
    method ProcessRows(attempts: nat -> Attempt) returns (stoppedAt: Option<nat>)
      requires Valid()
      modifies this
      ensures stoppedAt == FirstHalt(old(data), attempts, 0)
      ensures data == RowsAfter(old(data), attempts, End(old(data), attempts))
      ensures disk == DiskAfter(old(disk), header, old(data), attempts, End(old(data), attempts))
      ensures header == old(header) && Valid()
    {
      ghost var rows := data;
      ghost var file := disk;
      stoppedAt := None;
      var i := 0;
      while i < |data|
        invariant 0 <= i <= |data| == |rows|
        invariant header == old(header)
        invariant data == RowsAfter(rows, attempts, i)
        invariant disk == DiskAfter(file, header, rows, attempts, i)
        invariant forall k | 0 <= k < i :: !HaltsAt(rows, attempts, k)
      {
        var halts := ProcessRow(rows, file, attempts, i);
        if halts {
          stoppedAt := Some(i);
          break;
        }
        i := i + 1;
      }
      FirstHaltAt(rows, attempts, i);
    }

    /** `download_mp3_from_urls()`, reading `file` from the disk. */
    method Run(argc: nat, toolFound: bool, file: StoreFile, attempts: nat -> Attempt) returns (exit: Exit)
      requires disk == file
      modifies this
      ensures RunResult(exit, disk) == Outcome(argc, toolFound, file, attempts)
    {
      if argc < 2 {
        return NoArgument;
      }
      if !toolFound {
        return ToolNotFound;
      }
      match file {
        case Missing =>
          return FileNotFound;
        case Unreadable =>
          return CsvError;
        case Records(records) =>
          if records == [] {
            return EmptyFile;
          }
          Load(records);
          if data == [] {
            return NoUrls;
          }
          var stoppedAt := ProcessRows(attempts);
          return Finished(stoppedAt);
      }
    }
  }

  /** Where the loop leaves off: past every row, or at the first row it breaks on. */
  lemma FirstHaltAt(rows: seq<Row>, attempts: nat -> Attempt, i: nat)
    requires WellFormed(rows) && i <= |rows|
    requires forall k | 0 <= k < i :: !HaltsAt(rows, attempts, k)
    requires i < |rows| ==> HaltsAt(rows, attempts, i)
    ensures FirstHalt(rows, attempts, 0) == (if i < |rows| then Some(i) else None)
    ensures End(rows, attempts) == i
  {
  }

  /** One more row through the loop: a success settles that row, anything
      else leaves the rows as they were. */
  lemma RowsAfterStep(rows: seq<Row>, attempts: nat -> Attempt, i: nat)
    requires WellFormed(rows) && i < |rows|
    ensures RowsAfter(rows, attempts, i)[i] == rows[i]
    ensures Succeeds(rows, attempts, i) ==>
      RowsAfter(rows, attempts, i + 1) == RowsAfter(rows, attempts, i)[i := Settle(rows[i], attempts(i))]
    ensures !Succeeds(rows, attempts, i) ==> RowsAfter(rows, attempts, i + 1) == RowsAfter(rows, attempts, i)
  {
  }

  /** A row that does not succeed changes neither the rows nor the file. */
  lemma OtherStep(file: StoreFile, header: Row, rows: seq<Row>, attempts: nat -> Attempt, i: nat)
    requires WellFormed(rows) && i < |rows| && !Succeeds(rows, attempts, i)
    ensures RowsAfter(rows, attempts, i + 1) == RowsAfter(rows, attempts, i)
    ensures DiskAfter(file, header, rows, attempts, i + 1) == DiskAfter(file, header, rows, attempts, i)
  {
    RowsAfterStep(rows, attempts, i);
  }

  /** A success settles its row, and the file becomes the new rows when the
      rewrite succeeds. */
  lemma SuccessStep(file: StoreFile, header: Row, rows: seq<Row>, attempts: nat -> Attempt, i: nat)
    requires WellFormed(rows) && i < |rows| && Succeeds(rows, attempts, i)
    ensures RowsAfter(rows, attempts, i + 1) == RowsAfter(rows, attempts, i)[i := Settle(rows[i], attempts(i))]
    ensures attempts(i).saved ==>
      DiskAfter(file, header, rows, attempts, i + 1) == Records([header] + RowsAfter(rows, attempts, i + 1))
    ensures !attempts(i).saved ==>
      DiskAfter(file, header, rows, attempts, i + 1) == DiskAfter(file, header, rows, attempts, i)
  {
    RowsAfterStep(rows, attempts, i);
  }

  /** The two field assignments of the loop are `Settle`. */
  lemma SettleInPlace(row: Row, a: Attempt, videoTitle: string)
    requires |row| >= 3 && videoTitle == TitleText(a.title)
    ensures row[0 := DoneMark][2 := videoTitle] == Settle(row, a)
  {
  }

  // ---------------------------------------------------------------------------
  // Properties of the loop
  // ---------------------------------------------------------------------------

  /** Rows keep their number, order, width and URL. A row changes only when
      it was pending and its download exited with code 0 before the loop
      stopped, and then it becomes `Settle` of itself. A finished row never
      changes, and the rows at and after the break are untouched. */
  lemma RowsAfterChanges(rows: seq<Row>, attempts: nat -> Attempt, j: nat)
    requires WellFormed(rows) && j <= |rows|
    ensures var r := RowsAfter(rows, attempts, j);
      forall k | 0 <= k < |rows| ::
        && |r[k]| == |rows[k]|
        && r[k][1] == rows[k][1]
        && (IsDone(r[k]) <==> IsDone(rows[k]) || (k < j && Succeeds(rows, attempts, k)))
        && (r[k] == rows[k] || (k < j && Succeeds(rows, attempts, k) && r[k] == Settle(rows[k], attempts(k))))
  {
  }

  /** Two tool oracles that agree on the pending rows before `j` give the same
      rows and the same file after `j` rows: finished rows are never sent to
      the tool. */
  lemma {:induction false} OnlyPendingRowsConsulted(file: StoreFile, header: Row, rows: seq<Row>, a: nat -> Attempt, b: nat -> Attempt, j: nat)
    requires WellFormed(rows) && j <= |rows|
    requires forall k | 0 <= k < j && !IsDone(rows[k]) :: a(k) == b(k)
    ensures RowsAfter(rows, a, j) == RowsAfter(rows, b, j)
    ensures DiskAfter(file, header, rows, a, j) == DiskAfter(file, header, rows, b, j)
    decreases j
  {
    assert forall k | 0 <= k < j :: Succeeds(rows, a, k) == Succeeds(rows, b, k);
    if j > 0 {
      OnlyPendingRowsConsulted(file, header, rows, a, b, j - 1);
      assert RowsAfter(rows, a, j) == RowsAfter(rows, b, j);
    }
  }

  /** The break happens at the same row for two oracles that agree on the
      pending rows up to and including the row where the first one breaks. */
  lemma {:induction false} FirstHaltAgrees(rows: seq<Row>, a: nat -> Attempt, b: nat -> Attempt, from: nat)
    requires WellFormed(rows) && from <= End(rows, a)
    requires forall k | from <= k < |rows| && k <= End(rows, a) && !IsDone(rows[k]) :: a(k) == b(k)
    ensures FirstHalt(rows, b, from) == FirstHalt(rows, a, from)
    decreases |rows| - from
  {
    if from < |rows| {
      assert HaltsAt(rows, a, from) == HaltsAt(rows, b, from);
      if !HaltsAt(rows, a, from) {
        FirstHaltAgrees(rows, a, b, from + 1);
      }
    }
  }

  /** The run reads the tool's results only for pending rows up to the break:
      what the tool would do for a finished row, or for any row after the
      break, makes no difference. */
  lemma LaterRowsNotExamined(file: StoreFile, header: Row, rows: seq<Row>, a: nat -> Attempt, b: nat -> Attempt)
    requires WellFormed(rows)
    requires forall k | 0 <= k < |rows| && k <= End(rows, a) && !IsDone(rows[k]) :: a(k) == b(k)
    ensures FirstHalt(rows, b, 0) == FirstHalt(rows, a, 0) && End(rows, b) == End(rows, a)
    ensures RowsAfter(rows, b, End(rows, b)) == RowsAfter(rows, a, End(rows, a))
    ensures DiskAfter(file, header, rows, b, End(rows, b)) == DiskAfter(file, header, rows, a, End(rows, a))
  {
    FirstHaltAgrees(rows, a, b, 0);
    OnlyPendingRowsConsulted(file, header, rows, a, b, End(rows, a));
  }

  /** The file on disk is always either the file as it was or the snapshot
      written right after some successful download: the header followed by
      every row in order, as they were in memory at that moment. */
  lemma {:induction false} DiskIsLastSnapshot(file: StoreFile, header: Row, rows: seq<Row>, attempts: nat -> Attempt, j: nat)
    requires WellFormed(rows) && j <= |rows|
    ensures var d := DiskAfter(file, header, rows, attempts, j);
      || (d == file && forall i | 0 <= i < j :: !(Succeeds(rows, attempts, i) && attempts(i).saved))
      || exists i | 0 < i <= j ::
           && Succeeds(rows, attempts, i - 1) && attempts(i - 1).saved
           && d == Records([header] + RowsAfter(rows, attempts, i))
           && forall n | i <= n < j :: !(Succeeds(rows, attempts, n) && attempts(n).saved)
    decreases j
  {
    if j > 0 {
      DiskIsLastSnapshot(file, header, rows, attempts, j - 1);
      if Succeeds(rows, attempts, j - 1) && attempts(j - 1).saved {
        assert DiskAfter(file, header, rows, attempts, j) == Records([header] + RowsAfter(rows, attempts, j));
      }
    }
  }

  /** The file never marks a row done whose download has not exited with code
      0 (unless it was already done), and a written file has the migrated
      header and three or more fields in every row. */
  lemma DiskNeverClaimsUnfinished(file: StoreFile, header: Row, rows: seq<Row>, attempts: nat -> Attempt, j: nat)
    requires WellFormed(rows) && j <= |rows|
    requires DiskAfter(file, header, rows, attempts, j) != file
    ensures var d := DiskAfter(file, header, rows, attempts, j);
      && d.Records? && |d.records| == |rows| + 1 && d.records[0] == header
      && WellFormed(d.records[1..])
      && forall k | 0 <= k < |rows| && IsDone(d.records[1 + k]) ::
           IsDone(rows[k]) || (k < j && attempts(k).download == Exited0)
  {
    var d := DiskAfter(file, header, rows, attempts, j);
    DiskIsLastSnapshot(file, header, rows, attempts, j);
    var i :| 0 < i <= j && Succeeds(rows, attempts, i - 1) && attempts(i - 1).saved
             && d == Records([header] + RowsAfter(rows, attempts, i));
    var r := RowsAfter(rows, attempts, i);
    var records := [header] + r;
    assert records[1..] == r;
    assert d.records == records;
    forall k | 0 <= k < |rows| && IsDone(records[1 + k])
      ensures IsDone(rows[k]) || (k < j && attempts(k).download == Exited0)
    {
      assert records[1 + k] == r[k];
      DoneAfter(rows, attempts, i, k);
    }
  }

  /** A row done after `j` rows was done before, or was one of them and its
      download exited with code 0. */
  lemma DoneAfter(rows: seq<Row>, attempts: nat -> Attempt, j: nat, k: nat)
    requires WellFormed(rows) && j <= |rows| && k < |rows|
    requires IsDone(RowsAfter(rows, attempts, j)[k])
    ensures IsDone(rows[k]) || (k < j && Succeeds(rows, attempts, k))
  {
    if !(k < j && Succeeds(rows, attempts, k)) {
      assert RowsAfter(rows, attempts, j)[k] == rows[k];
    }
  }

  /** When the rewrite after a success fails, the row stays done in memory
      while the file keeps what it had. */
  lemma FailedSaveKeepsFile(file: StoreFile, header: Row, rows: seq<Row>, attempts: nat -> Attempt, j: nat)
    requires WellFormed(rows) && j < |rows|
    requires Succeeds(rows, attempts, j) && !attempts(j).saved
    ensures DiskAfter(file, header, rows, attempts, j + 1) == DiskAfter(file, header, rows, attempts, j)
    ensures IsDone(RowsAfter(rows, attempts, j + 1)[j])
    ensures !IsDone(RowsAfter(rows, attempts, j)[j])
  {
  }

  /** A download that exits non-zero or raises leaves its row pending and the
      loop goes on to the next row. */
  lemma FailureIsContained(rows: seq<Row>, attempts: nat -> Attempt, k: nat)
    requires WellFormed(rows) && k < |rows| && !IsDone(rows[k])
    requires attempts(k).download == NonZeroExit || attempts(k).download == OtherError
    requires forall n | 0 <= n < k :: !HaltsAt(rows, attempts, n)
    ensures End(rows, attempts) > k
    ensures RowsAfter(rows, attempts, End(rows, attempts))[k] == rows[k]
  {
    var e := End(rows, attempts);
    assert !HaltsAt(rows, attempts, k);
    assert e > k;
  }

  /** A second pass over the rows a first pass left in memory leaves every row
      the first pass finished as the first pass left it, and never asks the
      tool about it. */
  lemma ResumeSkipsFinished(rows: seq<Row>, a: nat -> Attempt, b: nat -> Attempt, c: nat -> Attempt)
    requires WellFormed(rows)
    ensures var first := RowsAfter(rows, a, End(rows, a));
      && (forall k | 0 <= k < End(rows, a) && Succeeds(rows, a, k) :: IsDone(first[k]))
      && (forall k | 0 <= k < |rows| && IsDone(first[k]) :: RowsAfter(first, b, End(first, b))[k] == first[k])
      && ((forall k | 0 <= k < |rows| && !IsDone(first[k]) :: b(k) == c(k)) ==>
            RowsAfter(first, b, End(first, b)) == RowsAfter(first, c, End(first, c)))
  {
    var first := RowsAfter(rows, a, End(rows, a));
    RowsAfterChanges(rows, a, End(rows, a));
    RowsAfterChanges(first, b, End(first, b));
    if forall k | 0 <= k < |rows| && !IsDone(first[k]) :: b(k) == c(k) {
      LaterRowsNotExamined(Missing, [], first, b, c);
    }
  }

  /** A row already done when the loop starts is, in any file the loop writes,
      exactly as it was read. */
  lemma SnapshotKeepsDone(file: StoreFile, header: Row, rows: seq<Row>, attempts: nat -> Attempt, j: nat, k: nat)
    requires WellFormed(rows) && j <= |rows| && k < |rows| && IsDone(rows[k])
    requires DiskAfter(file, header, rows, attempts, j) != file
    ensures var d := DiskAfter(file, header, rows, attempts, j);
      d.Records? && |d.records| == |rows| + 1 && d.records[1 + k] == rows[k]
  {
    var d := DiskAfter(file, header, rows, attempts, j);
    DiskNeverClaimsUnfinished(file, header, rows, attempts, j);
    DiskIsLastSnapshot(file, header, rows, attempts, j);
    var i :| 0 < i <= j && d == Records([header] + RowsAfter(rows, attempts, i));
    var r := RowsAfter(rows, attempts, i);
    assert !Succeeds(rows, attempts, k);
    assert r[k] == rows[k];
    assert d.records[1 + k] == r[k];
  }

  /** A run that reaches the loop leaves a file with a header and at least one row. */
  lemma FinishedRunLeavesRows(argc: nat, file: StoreFile, a: nat -> Attempt)
    requires Outcome(argc, true, file, a).exit.Finished?
    ensures var d := Outcome(argc, true, file, a).disk;
      d.Records? && |d.records| >= 2
  {
    var header := Migrate(file.records[0]);
    var rows := PadAll(file.records[1..]);
    var d := DiskAfter(file, header, rows, a, End(rows, a));
    if d != file {
      DiskNeverClaimsUnfinished(file, header, rows, a, End(rows, a));
    }
  }

  /** Running again on the file a run left behind: every row that file marks
      done comes out of the second run as it was read (padded to three fields
      if the second run rewrites the file), and the second run's result,
      file included, depends only on what the tool does for the rows the
      file still marks pending. */
  lemma ResumeFromFile(argc: nat, file: StoreFile, a: nat -> Attempt, b: nat -> Attempt, c: nat -> Attempt)
    requires Outcome(argc, true, file, a).exit.Finished?
    ensures var d := Outcome(argc, true, file, a).disk;
      && d.Records? && |d.records| >= 2
      && var second := PadAll(d.records[1..]);
         && Outcome(argc, true, d, b).exit.Finished?
         && (forall k | 0 <= k < |second| && IsDone(second[k]) ::
               var d2 := Outcome(argc, true, d, b).disk;
               d2.Records? && |d2.records| == |d.records|
               && (d2.records[1 + k] == d.records[1 + k] || d2.records[1 + k] == Padded(d.records[1 + k])))
         && ((forall k | 0 <= k < |second| && !IsDone(second[k]) :: b(k) == c(k)) ==>
               Outcome(argc, true, d, b) == Outcome(argc, true, d, c))
  {
    FinishedRunLeavesRows(argc, file, a);
    var d := Outcome(argc, true, file, a).disk;
    var header := Migrate(d.records[0]);
    var second := PadAll(d.records[1..]);
    var d2 := DiskAfter(d, header, second, b, End(second, b));
    assert Outcome(argc, true, d, b) == RunResult(Finished(FirstHalt(second, b, 0)), d2);
    forall k | 0 <= k < |second| && IsDone(second[k])
      ensures d2.Records? && |d2.records| == |d.records|
      ensures d2.records[1 + k] == d.records[1 + k] || d2.records[1 + k] == Padded(d.records[1 + k])
    {
      if d2 != d {
        SnapshotKeepsDone(d, header, second, b, End(second, b), k);
      }
    }
    if forall k | 0 <= k < |second| && !IsDone(second[k]) :: b(k) == c(k) {
      LaterRowsNotExamined(d, header, second, c, b);
    }
  }

  // ---------------------------------------------------------------------------
  // Properties of the whole run
  // ---------------------------------------------------------------------------

  /** Every early return leaves the file as it was; only a run that reaches
      the loop can rewrite it. */
  lemma EarlyExitsLeaveFileAlone(argc: nat, toolFound: bool, file: StoreFile, attempts: nat -> Attempt)
    ensures var r := Outcome(argc, toolFound, file, attempts);
      && (!r.exit.Finished? ==> r.disk == file)
      && (argc < 2 ==> r.exit == NoArgument)
      && (argc >= 2 && !toolFound ==> r.exit == ToolNotFound)
      && (r.exit.Finished? <==> argc >= 2 && toolFound && file.Records? && |file.records| >= 2)
  {
  }

  /** A file whose rows are all finished is never rewritten, whatever the tool
      would do. */
  lemma AllDoneLeavesFileAlone(argc: nat, toolFound: bool, file: StoreFile, attempts: nat -> Attempt)
    requires file.Records? && |file.records| >= 2
    requires forall k | 1 <= k < |file.records| :: |file.records[k]| >= 1 && file.records[k][0] == DoneMark
    ensures Outcome(argc, toolFound, file, attempts).disk == file
  {
    var rows := PadAll(file.records[1..]);
    assert forall k | 0 <= k < |rows| :: IsDone(rows[k]) by {
      forall k | 0 <= k < |rows| ensures IsDone(rows[k]) {
        assert rows[k][..|file.records[1 + k]|] == file.records[1 + k];
      }
    }
    var e := End(rows, attempts);
    NoSuccessNoWrite(file, Migrate(file.records[0]), rows, attempts, e);
  }

  lemma {:induction false} NoSuccessNoWrite(file: StoreFile, header: Row, rows: seq<Row>, attempts: nat -> Attempt, j: nat)
    requires WellFormed(rows) && j <= |rows|
    requires forall k | 0 <= k < j :: !Succeeds(rows, attempts, k)
    ensures DiskAfter(file, header, rows, attempts, j) == file
    decreases j
  {
    if j > 0 {
      NoSuccessNoWrite(file, header, rows, attempts, j - 1);
    }
  }

  /** Two rows in an old two-column file; the first downloads with title
      "Song A", the second exits non-zero. */
  const ScenarioFile := Records([["Timestamp", "URL"], ["", "https://a"], ["", "https://b"]])

  function ScenarioAttempts(k: nat): Attempt {
    if k == 0 then Attempt(Some("Song A"), Exited0, true) else Attempt(Some("Song B"), NonZeroExit, true)
  }

  lemma ScenarioLoad()
    ensures Migrate(ScenarioFile.records[0]) == ["Timestamp", "URL", "Title"]
    ensures PadAll(ScenarioFile.records[1..]) == [["", "https://a", ""], ["", "https://b", ""]]
  {
    assert ScenarioFile.records[1..] == [["", "https://a"], ["", "https://b"]];
    assert Padded(["", "https://a"]) == ["", "https://a", ""];
    assert Padded(["", "https://b"]) == ["", "https://b", ""];
  }

  lemma ScenarioLoop(rows: seq<Row>)
    requires rows == [["", "https://a", ""], ["", "https://b", ""]]
    ensures FirstHalt(rows, ScenarioAttempts, 0) == None && End(rows, ScenarioAttempts) == 2
  {
    assert !HaltsAt(rows, ScenarioAttempts, 0) && !HaltsAt(rows, ScenarioAttempts, 1);
    FirstHaltAt(rows, ScenarioAttempts, 2);
  }

  lemma ScenarioTitle()
    ensures TitleText(ScenarioAttempts(0).title) == "Song A"
  {
    assert Trimmed("Song A");
  }

  lemma ScenarioRowsAfter(rows: seq<Row>)
    requires rows == [["", "https://a", ""], ["", "https://b", ""]]
    ensures RowsAfter(rows, ScenarioAttempts, 1) == [["1", "https://a", "Song A"], ["", "https://b", ""]]
  {
    ScenarioTitle();
    assert Succeeds(rows, ScenarioAttempts, 0);
    var done := RowsAfter(rows, ScenarioAttempts, 1);
    assert Settle(rows[0], ScenarioAttempts(0)) == ["1", "https://a", "Song A"];
    assert done[0] == ["1", "https://a", "Song A"];
    assert done[1] == ["", "https://b", ""];
  }

  lemma ScenarioDisk(header: Row, rows: seq<Row>)
    requires rows == [["", "https://a", ""], ["", "https://b", ""]]
    ensures DiskAfter(ScenarioFile, header, rows, ScenarioAttempts, 2)
      == Records([header] + [["1", "https://a", "Song A"], ["", "https://b", ""]])
  {
    assert !Succeeds(rows, ScenarioAttempts, 1);
    assert Succeeds(rows, ScenarioAttempts, 0);
    ScenarioRowsAfter(rows);
  }

  /** The run goes through both rows of the scenario and leaves the file with
      the migrated header, the first row done with its title and the second
      row pending with an empty title. */
  lemma TwoRowScenario()
    ensures Outcome(2, true, ScenarioFile, ScenarioAttempts)
      == RunResult(Finished(None),
                   Records([["Timestamp", "URL", "Title"], ["1", "https://a", "Song A"], ["", "https://b", ""]]))
  {
    ScenarioLoad();
    var header := Migrate(ScenarioFile.records[0]);
    var rows := PadAll(ScenarioFile.records[1..]);
    ScenarioLoop(rows);
    ScenarioDisk(header, rows);
  }
}
