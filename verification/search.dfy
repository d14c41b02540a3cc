/**
 * The search window's own logic: debouncing the search box, running the
 * external file search, turning its output into table rows, and the texts of
 * the status line.  The external search (`mdfind`), `os.stat`, the local-time
 * formatting of timestamps and the reveal action are parameters.
 */
module Search {
  import opened Wrappers
  import opened Decimal
  import opened PyText
  import opened PosixPath
  import opened SizeFormat
  import opened Rows

  /** What `os.stat(path)` does for one path. */
  datatype StatOutcome =
    | Stat(size: nat, mtime: int)
    | FileNotFound
    | PermissionDenied
      /** Any other `OSError` (a path component that is not a directory, say), with `str(e)`. */
    | OtherOsError(message: string)

  /** What running `mdfind -name <query>` does. */
  datatype SearchRun =
    | Completed(returncode: int, stdout: string, stderr: string)
      /**
       * `subprocess.run` raised: the process could not be started, or its
       * output could not be decoded as text; `str(e)` of the exception.
       */
    | LaunchFailed(message: string)

  /** The status line. */
  datatype Status =
    | Blank
    | Found(count: nat)
    | NoResults
    | SearchFailed(detail: string)
    | FileSize(sizeText: string)
    | OpenFailed(detail: string)

  /** The exact text the status label shows. */
  function StatusText(s: Status): string {
    match s
    case Blank => ""
    case Found(count) => "找到 " + Digits(count) + " 个结果"
    case NoResults => "未找到结果"
    case SearchFailed(detail) => "搜索出错: " + detail
    case FileSize(sizeText) => "文件大小: " + sizeText
    case OpenFailed(detail) => "打开文件失败: " + detail
  }

  lemma {:induction false} DigitsInjective(m: nat, n: nat)
    requires Digits(m) == Digits(n)
    ensures m == n
  {
    ParseDigits(m);
    ParseDigits(n);
  }

  /** Different statuses never show the same text, so the label tells every outcome apart. */
  lemma StatusTextInjective(s: Status, s': Status)
    requires StatusText(s) == StatusText(s')
    ensures s == s'
  {
    var t, t' := StatusText(s), StatusText(s');
    match s
    case Blank =>
      assert t' == [];
    case Found(c) =>
      assert t[0] == '找';
      assert t[|t| - 1] == '果';
      if s'.Found? {
        assert Digits(c) == t[3..|t| - 4];
        assert Digits(s'.count) == t'[3..|t'| - 4];
        DigitsInjective(c, s'.count);
      }
    case NoResults =>
      assert t[0] == '未';
      assert |t| == 5;
    case SearchFailed(d) =>
      assert t[0] == '搜';
      if s'.SearchFailed? {
        assert d == t[6..];
        assert s'.detail == t'[6..];
      }
    case FileSize(x) =>
      assert t[0] == '文';
      if s'.FileSize? {
        assert x == t[6..];
        assert s'.sizeText == t'[6..];
      }
    case OpenFailed(d) =>
      assert t[0] == '打';
      if s'.OpenFailed? {
        assert d == t[8..];
        assert s'.detail == t'[8..];
      }
  }

  /** The lines that satisfy `keep`, unchanged and in order. */
  function Filter(lines: seq<string>, keep: string -> bool): (kept: seq<string>)
    ensures |kept| <= |lines|
    decreases |lines|
  {
    if lines == [] then []
    else (if keep(lines[0]) then [lines[0]] else []) + Filter(lines[1..], keep)
  }

  /** The filter keeps or drops each line on its own, keeping the order. */
  lemma {:induction false} FilterAppend(a: seq<string>, b: seq<string>, keep: string -> bool)
    ensures Filter(a + b, keep) == Filter(a, keep) + Filter(b, keep)
    decreases |a|
  {
    if a == [] {
      assert a + b == b;
    } else {
      var h := if keep(a[0]) then [a[0]] else [];
      calc {
        Filter(a + b, keep);
        { assert (a + b)[0] == a[0]; assert (a + b)[1..] == a[1..] + b; }
        h + Filter(a[1..] + b, keep);
        { FilterAppend(a[1..], b, keep); }
        h + (Filter(a[1..], keep) + Filter(b, keep));
        Filter(a, keep) + Filter(b, keep);
      }
    }
  }

  /** `line.strip()` is truthy. */
  predicate HasText(line: string) {
    Strip(line) != []
  }

  /** A line is kept exactly when it is not all whitespace. */
  lemma HasTextSingle(line: string)
    ensures Filter([line], HasText) == if AllSpace(line) then [] else [line]
  {
    StripShape(line);
    assert [line][1..] == [];
  }

  /** The paths of one search: `[path for path in stdout.splitlines() if path.strip()]`. */
  function ResultPaths(stdout: string): seq<string> {
    Filter(SplitLines(stdout), HasText)
  }

  /** The row for a path whose attributes were read. */
  function MakeRow(path: string, size: nat, mtime: int, formatTime: int -> string): Row {
    Row(Basename(path), Dirname(path), FormatSizeKb(size), formatTime(mtime), path, Some(size), Some(mtime))
  }

  /**
   * One pass of the population loop over path `p`, given the rows added so
   * far and the error that stopped the loop, if one did: a path that is
   * missing or not permitted adds no row; any other error stops the loop.
   */
  function Step(acc: (seq<Row>, Option<string>), p: string, stat: string -> StatOutcome, formatTime: int -> string): (seq<Row>, Option<string>) {
    if acc.1.Some? then acc
    else
      match stat(p)
      case Stat(size, mtime) => (acc.0 + [MakeRow(p, size, mtime, formatTime)], None)
      case OtherOsError(message) => (acc.0, Some(message))
      case _ => acc
  }

  /** The rows the population loop adds for `paths`, and the message of the error that ended it early, if any. */
  function Populate(paths: seq<string>, stat: string -> StatOutcome, formatTime: int -> string): (seq<Row>, Option<string>)
    decreases |paths|
  {
    if paths == [] then ([], None)
    else Step(Populate(paths[..|paths| - 1], stat, formatTime), paths[|paths| - 1], stat, formatTime)
  }

  /** The index of the first path whose stat fails with an unexpected error, or `|paths|`. */
  function FailureIndex(paths: seq<string>, stat: string -> StatOutcome): (f: nat)
    ensures f <= |paths|
    ensures forall j :: 0 <= j < f ==> !stat(paths[j]).OtherOsError?
    ensures f < |paths| ==> stat(paths[f]).OtherOsError?
    decreases |paths|
  {
    if paths == [] || stat(paths[0]).OtherOsError? then 0
    else 1 + FailureIndex(paths[1..], stat)
  }

  lemma {:induction false} FailureIndexSnoc(pre: seq<string>, p: string, stat: string -> StatOutcome)
    ensures FailureIndex(pre + [p], stat)
      == if FailureIndex(pre, stat) < |pre| then FailureIndex(pre, stat)
         else if stat(p).OtherOsError? then |pre| else |pre| + 1
    decreases |pre|
  {
    if pre == [] {
      assert pre + [p] == [p];
      assert [p][1..] == [];
    } else {
      assert (pre + [p])[0] == pre[0];
      assert (pre + [p])[1..] == pre[1..] + [p];
      FailureIndexSnoc(pre[1..], p, stat);
    }
  }

  /** The row of one path if its attributes can be read, and none otherwise. */
  function RowOf(p: string, stat: string -> StatOutcome, formatTime: int -> string): (rows: seq<Row>)
    ensures |rows| <= 1
    ensures rows == [] <==> !stat(p).Stat?
  {
    match stat(p)
    case Stat(size, mtime) => [MakeRow(p, size, mtime, formatTime)]
    case _ => []
  }

  /** The rows for the readable paths among `paths`, in order. */
  function RowsFor(paths: seq<string>, stat: string -> StatOutcome, formatTime: int -> string): (rows: seq<Row>)
    ensures |rows| <= |paths|
    decreases |paths|
  {
    if paths == [] then []
    else RowOf(paths[0], stat, formatTime) + RowsFor(paths[1..], stat, formatTime)
  }

  lemma {:induction false} RowsForAppend(a: seq<string>, b: seq<string>, stat: string -> StatOutcome, formatTime: int -> string)
    ensures RowsFor(a + b, stat, formatTime) == RowsFor(a, stat, formatTime) + RowsFor(b, stat, formatTime)
    decreases |a|
  {
    if a == [] {
      assert a + b == b;
    } else {
      assert (a + b)[1..] == a[1..] + b;
      assert (a + b)[0] == a[0];
      RowsForAppend(a[1..], b, stat, formatTime);
      var h := RowOf(a[0], stat, formatTime);
      calc {
        RowsFor(a + b, stat, formatTime);
        h + RowsFor(a[1..] + b, stat, formatTime);
        h + (RowsFor(a[1..], stat, formatTime) + RowsFor(b, stat, formatTime));
        (h + RowsFor(a[1..], stat, formatTime)) + RowsFor(b, stat, formatTime);
      }
    }
  }

  predicate AllReadable(paths: seq<string>, stat: string -> StatOutcome) {
    forall j :: 0 <= j < |paths| ==> stat(paths[j]).Stat?
  }

  lemma AllReadableCons(paths: seq<string>, stat: string -> StatOutcome)
    requires paths != []
    ensures AllReadable(paths, stat) <==> stat(paths[0]).Stat? && AllReadable(paths[1..], stat)
  {
    var tl := paths[1..];
    if stat(paths[0]).Stat? && AllReadable(tl, stat) {
      forall j | 0 <= j < |paths| ensures stat(paths[j]).Stat? {
        if j > 0 {
          assert paths[j] == tl[j - 1];
        }
      }
    }
  }

  /** A row for every path exactly when every path's attributes can be read. */
  lemma {:induction false} RowsForAll(paths: seq<string>, stat: string -> StatOutcome, formatTime: int -> string)
    ensures |RowsFor(paths, stat, formatTime)| == |paths| <==> AllReadable(paths, stat)
    decreases |paths|
  {
    if paths != [] {
      var tl := paths[1..];
      RowsForAll(tl, stat, formatTime);
      AllReadableCons(paths, stat);
      assert |RowsFor(paths, stat, formatTime)|
        == |RowOf(paths[0], stat, formatTime)| + |RowsFor(tl, stat, formatTime)|;
    }
  }

  /**
   * The rows are exactly the rows of the readable paths: every row belongs to
   * a path of the list whose attributes could be read, and every such path
   * has its row.
   */
  lemma {:induction false} RowsForMembers(paths: seq<string>, stat: string -> StatOutcome, formatTime: int -> string)
    ensures forall r :: r in RowsFor(paths, stat, formatTime) ==>
      r.path in paths && stat(r.path).Stat?
      && r == MakeRow(r.path, stat(r.path).size, stat(r.path).mtime, formatTime)
    ensures forall p :: p in paths && stat(p).Stat? ==>
      MakeRow(p, stat(p).size, stat(p).mtime, formatTime) in RowsFor(paths, stat, formatTime)
    decreases |paths|
  {
    if paths != [] {
      RowsForMembers(paths[1..], stat, formatTime);
      assert paths == [paths[0]] + paths[1..];
    }
  }

  /**
   * A row shows its path split at the last slash (the name holds no slash and
   * completes the path), its directory as `dirname`, and a size text that
   * reads back as the whole kibibytes of the stored size, at least one.
   */
  lemma MakeRowShape(path: string, size: nat, mtime: int, formatTime: int -> string)
    ensures var r := MakeRow(path, size, mtime, formatTime);
      && r.path == path && r.size == Some(size) && r.mtime == Some(mtime)
      && '/' !in r.name && Head(path) + r.name == path
      && (Head(path) == [] || Head(path)[|Head(path)| - 1] == '/')
      && r.directory == Dirname(path)
      && ReadSize(r.sizeText) == Some((if size / 1024 < 1 then 1 else size / 1024, KB))
      && r.timeText == formatTime(mtime)
  {
    SplitPath(path);
    KbTextReadsBack(size);
  }

  /**
   * Sorting the size column by its display text misorders rows: the row of a
   * 10 KiB file ("10 KB") sorts before that of a 9 KiB file ("9 KB"), which
   * the numeric comparison of `__lt__` orders the other way.
   */
  lemma SizeTextMisorders(small: Row, big: Row)
    requires small.size == Some(9216) && small.sizeText == FormatSizeKb(9216)
    requires big.size == Some(10240) && big.sizeText == FormatSizeKb(10240)
    ensures small.sizeText == "9 KB" && big.sizeText == "10 KB"
    ensures TextLess(2, big, small) && !TextLess(2, small, big)
    ensures Less(2, small, big) && !Less(2, big, small)
  {
    NineAndTenKb();
    assert LexLess("10 KB", "9 KB");
    assert !LexLess("9 KB", "10 KB");
  }

  lemma NineAndTenKb()
    ensures FormatSizeKb(9216) == "9 KB" && FormatSizeKb(10240) == "10 KB"
  {
    assert Digits(9) == "9";
    assert Digits(10) == "10" by {
      assert Digits(1) == "1";
    }
  }

  /** Before any error, a pass adds the row of its path, if it has one. */
  lemma StepAddsRowOf(acc: (seq<Row>, Option<string>), p: string, stat: string -> StatOutcome, formatTime: int -> string)
    requires acc.1.None? && !stat(p).OtherOsError?
    ensures Step(acc, p, stat, formatTime) == (acc.0 + RowOf(p, stat, formatTime), None)
  {
    if !stat(p).Stat? {
      assert acc.0 + [] == acc.0;
    }
  }

  /**
   * The population loop adds the rows of the readable paths before the first
   * unexpected error, in their order, and reports that error's message.
   */
  lemma PopulateMeaning(paths: seq<string>, stat: string -> StatOutcome, formatTime: int -> string)
    ensures var f := FailureIndex(paths, stat);
      Populate(paths, stat, formatTime)
        == (RowsFor(paths[..f], stat, formatTime), if f < |paths| then Some(stat(paths[f]).message) else None)
  {
    PopulateFailure(paths, stat, formatTime);
    PopulateRows(paths, stat, formatTime);
  }

  /** The loop stops with the message of the first unexpected stat error, if there is one. */
  lemma {:induction false} PopulateFailure(paths: seq<string>, stat: string -> StatOutcome, formatTime: int -> string)
    ensures var f := FailureIndex(paths, stat);
      Populate(paths, stat, formatTime).1 == if f < |paths| then Some(stat(paths[f]).message) else None
    decreases |paths|
  {
    if paths != [] {
      var pre, p := paths[..|paths| - 1], paths[|paths| - 1];
      PopulateFailure(pre, stat, formatTime);
      assert paths == pre + [p];
      FailureIndexSnoc(pre, p, stat);
      var fp := FailureIndex(pre, stat);
      if fp < |pre| {
        assert paths[fp] == pre[fp];
      }
    }
  }

  /** The loop adds the rows of the readable paths before the first unexpected stat error. */
  lemma {:induction false} PopulateRows(paths: seq<string>, stat: string -> StatOutcome, formatTime: int -> string)
    ensures Populate(paths, stat, formatTime).0 == RowsFor(paths[..FailureIndex(paths, stat)], stat, formatTime)
    decreases |paths|
  {
    if paths != [] {
      var pre, p := paths[..|paths| - 1], paths[|paths| - 1];
      PopulateRows(pre, stat, formatTime);
      PopulateFailure(pre, stat, formatTime);
      assert paths == pre + [p];
      FailureIndexSnoc(pre, p, stat);
      var fp, f := FailureIndex(pre, stat), FailureIndex(paths, stat);
      if fp < |pre| {
        assert paths[..f] == pre[..fp];
      } else if stat(p).OtherOsError? {
        assert paths[..f] == pre[..fp];
      } else {
        assert pre[..fp] == pre;
        assert paths[..f] == pre + [p];
        StepAddsRowOf(Populate(pre, stat, formatTime), p, stat, formatTime);
        RowsForAppend(pre, [p], stat, formatTime);
        assert RowsFor([p], stat, formatTime) == RowOf(p, stat, formatTime) by {
          assert [p][1..] == [];
        }
      }
    }
  }

  /** One more path extends the population of the paths before it by one pass. */
  lemma PopulateStep(paths: seq<string>, i: nat, stat: string -> StatOutcome, formatTime: int -> string)
    requires i < |paths|
    ensures Populate(paths[..i + 1], stat, formatTime)
      == Step(Populate(paths[..i], stat, formatTime), paths[i], stat, formatTime)
  {
    assert paths[..i + 1][..i] == paths[..i];
  }

  /** Once the loop has stopped on an error, later paths change nothing. */
  lemma {:induction false} PopulateStops(paths: seq<string>, i: nat, stat: string -> StatOutcome, formatTime: int -> string)
    requires i <= |paths|
    requires Populate(paths[..i], stat, formatTime).1.Some?
    ensures Populate(paths, stat, formatTime) == Populate(paths[..i], stat, formatTime)
    decreases |paths| - i
  {
    if i < |paths| {
      var pre := paths[..|paths| - 1];
      assert pre[..i] == paths[..i];
      PopulateStops(pre, i, stat, formatTime);
    } else {
      assert paths[..i] == paths;
    }
  }

  /** The rows and status line a search with a non-empty query leaves behind. */
  function SearchOutcome(run: SearchRun, stat: string -> StatOutcome, formatTime: int -> string): (seq<Row>, Status) {
    match run
    case LaunchFailed(message) => ([], SearchFailed(message))
    case Completed(returncode, stdout, stderr) =>
      if returncode != 0 then ([], SearchFailed("搜索失败: " + stderr))
      else
        var paths := ResultPaths(stdout);
        var (rows, failure) := Populate(paths, stat, formatTime);
        match failure
        case Some(message) => (rows, SearchFailed(message))
        case None => (rows, if |paths| > 0 then Found(|paths|) else NoResults)
  }

  /**
   * The table never holds more rows than the status line counts, and it is
   * empty whenever the status line is blank or says there are no results.
   */
  ghost predicate TableMatchesStatus(rows: seq<Row>, status: Status) {
    && (status.Found? ==> |rows| <= status.count)
    && (status.NoResults? ==> rows == [])
    && (status.Blank? ==> rows == [])
  }

  /**
   * What a finished search shows: a failed or unstartable search shows an
   * error and an empty table; otherwise, unless a path's stat fails
   * unexpectedly, the count is the number of non-blank output lines (paths
   * that could not be read included), "no results" exactly when there are
   * none, and the rows are those of the readable paths, in output order.
   */
  lemma SearchOutcomeMeaning(run: SearchRun, stat: string -> StatOutcome, formatTime: int -> string)
    ensures var (rows, status) := SearchOutcome(run, stat, formatTime);
      && TableMatchesStatus(rows, status)
      && (run.LaunchFailed? ==> rows == [] && status == SearchFailed(run.message))
      && (run.Completed? && run.returncode != 0 ==>
            rows == [] && status == SearchFailed("搜索失败: " + run.stderr))
      && (run.Completed? && run.returncode == 0 ==>
            var paths := ResultPaths(run.stdout);
            var f := FailureIndex(paths, stat);
            && rows == RowsFor(paths[..f], stat, formatTime)
            && (f < |paths| ==> status == SearchFailed(stat(paths[f]).message))
            && (f == |paths| ==> status == if paths == [] then NoResults else Found(|paths|)))
  {
    if run.Completed? && run.returncode == 0 {
      var paths := ResultPaths(run.stdout);
      PopulateMeaning(paths, stat, formatTime);
      var f := FailureIndex(paths, stat);
      assert |paths[..f]| == f;
    }
  }

  /**
   * Paths dropped because they could not be read still count: when none of
   * the paths fails unexpectedly, the status counts all of them, and the
   * table has a row for each exactly when all of them could be read.
   */
  lemma DroppedPathsStillCount(stdout: string, stderr: string, stat: string -> StatOutcome, formatTime: int -> string)
    requires var paths := ResultPaths(stdout);
      forall j :: 0 <= j < |paths| ==> !stat(paths[j]).OtherOsError?
    ensures var paths := ResultPaths(stdout);
      var (rows, status) := SearchOutcome(Completed(0, stdout, stderr), stat, formatTime);
      && status == (if paths == [] then NoResults else Found(|paths|))
      && (|rows| == |paths| <==> AllReadable(paths, stat))
  {
    var paths := ResultPaths(stdout);
    NoFailureIndex(paths, stat);
    assert paths[..|paths|] == paths;
    SearchOutcomeMeaning(Completed(0, stdout, stderr), stat, formatTime);
    RowsForAll(paths, stat, formatTime);
  }

  lemma {:induction false} NoFailureIndex(paths: seq<string>, stat: string -> StatOutcome)
    requires forall j :: 0 <= j < |paths| ==> !stat(paths[j]).OtherOsError?
    ensures FailureIndex(paths, stat) == |paths|
    decreases |paths|
  {
    if paths != [] {
      assert forall j :: 0 <= j < |paths| - 1 ==> paths[1..][j] == paths[j + 1];
      NoFailureIndex(paths[1..], stat);
    }
  }

  /**
   * The debounce step of `on_search_text_changed` on the remembered text and
   * the timer flag: text equal to the remembered text changes nothing (the
   * timer is not restarted); other text is remembered and the timer runs.
   */
  function TextChanged(last: string, pending: bool, text: string): (r: (string, bool))
    ensures r.0 == text
    ensures text == last ==> r.1 == pending
    ensures text != last ==> r.1
  {
    if text == last then (last, pending) else (text, true)
  }

  /** A second notification with the same text has no further effect. */
  lemma TextChangedIdempotent(last: string, pending: bool, text: string)
    ensures var (l, p) := TextChanged(last, pending, text);
      TextChanged(l, p, text) == (l, p)
  {
  }

  class SearchWindow {
    /** The search box's current text. */
    var inputText: string
    var lastSearchText: string
    /** Whether the single-shot 300 ms search timer is running. */
    var timerPending: bool
    /** The table's rows, in the order they were added. */
    var rows: seq<Row>
    var status: Status
    /** Every query handed to the external search, oldest first. */
    ghost var queries: seq<string>

    ghost predicate Valid()
      reads this
    {
      TableMatchesStatus(rows, status)
    }

    constructor ()
      ensures Valid()
      ensures inputText == "" && lastSearchText == "" && !timerPending
      ensures rows == [] && status == Blank && queries == []
    {
      inputText := "";
      lastSearchText := "";
      timerPending := false;
      rows := [];
      status := Blank;
      queries := [];
    }

    /**
     * `on_search_text_changed`: the debounce step `TextChanged` on the
     * remembered text and the timer; nothing else changes.
     */
    method OnSearchTextChanged(text: string)
      modifies this
      ensures (lastSearchText, timerPending) == TextChanged(old(lastSearchText), old(timerPending), text)
      ensures inputText == old(inputText) && rows == old(rows) && status == old(status)
      ensures queries == old(queries)
    {
      if text == lastSearchText {
        return;
      }
      lastSearchText := text;
      timerPending := true;
    }

    /**
     * The user edits the search box (`clear_search` is the edit to ""): the box
     * signals a change only when its text actually changes.
     */
    method EditText(text: string)
      requires Valid()
      modifies this
      ensures Valid()
      ensures inputText == text
      ensures text != old(inputText) && text != old(lastSearchText) ==> lastSearchText == text && timerPending
      ensures text == old(inputText) || text == old(lastSearchText) ==>
        lastSearchText == old(lastSearchText) && timerPending == old(timerPending)
      ensures rows == old(rows) && status == old(status) && queries == old(queries)
    {
      if text != inputText {
        inputText := text;
        OnSearchTextChanged(text);
      }
    }

    /** `clear_search` (the Escape shortcut): the search box is emptied. */
    method ClearSearch()
      requires Valid()
      modifies this
      ensures Valid()
      ensures inputText == ""
      ensures old(inputText) != "" && old(lastSearchText) != "" ==> lastSearchText == "" && timerPending
      ensures old(inputText) == "" || old(lastSearchText) == "" ==>
        lastSearchText == old(lastSearchText) && timerPending == old(timerPending)
      ensures rows == old(rows) && status == old(status) && queries == old(queries)
    {
      EditText("");
    }

    /**
     * `perform_search`: reads the search box as it is now, stripped; an empty
     * query clears the table and the status line and runs no search;
     * otherwise the external search runs once with the query, and the table
     * and status line are replaced by what it produced.
     */
    method PerformSearch(mdfind: string -> SearchRun, stat: string -> StatOutcome, formatTime: int -> string)
      requires Valid()
      modifies this
      ensures Valid()
      ensures inputText == old(inputText) && lastSearchText == old(lastSearchText)
      ensures timerPending == old(timerPending)
      ensures Strip(inputText) == [] ==> rows == [] && status == Blank && queries == old(queries)
      ensures Strip(inputText) != [] ==>
        && queries == old(queries) + [Strip(inputText)]
        && (rows, status) == SearchOutcome(mdfind(Strip(inputText)), stat, formatTime)
    {
      var query := Strip(inputText);
      if query == [] {
        rows := [];
        status := Blank;
        return;
      }
      rows := [];
      queries := queries + [query];
      var run := mdfind(query);
      match run {
        case LaunchFailed(message) =>
          status := SearchFailed(message);
        case Completed(returncode, stdout, stderr) =>
          if returncode != 0 {
            status := SearchFailed("搜索失败: " + stderr);
          } else {
            var paths := ResultPaths(stdout);
            var failure := AddResultRows(paths, stat, formatTime);
            if failure.Some? {
              status := SearchFailed(failure.value);
            } else {
              status := if |paths| > 0 then Found(|paths|) else NoResults;
            }
          }
      }
      assert (rows, status) == SearchOutcome(run, stat, formatTime);
      assert Valid() by {
        SearchOutcomeMeaning(run, stat, formatTime);
      }
    }

    /**
     * The population loop of `perform_search`: appends a row for each path
     * whose attributes can be read, skips missing and forbidden paths, and
     * stops at the first other error, whose message it returns.
     */
    method AddResultRows(paths: seq<string>, stat: string -> StatOutcome, formatTime: int -> string)
      returns (failure: Option<string>)
      requires rows == []
      modifies this
      ensures (rows, failure) == Populate(paths, stat, formatTime)
      ensures inputText == old(inputText) && lastSearchText == old(lastSearchText)
      ensures timerPending == old(timerPending) && status == old(status) && queries == old(queries)
    {
      failure := None;
      var i := 0;
      while i < |paths| && failure.None?
        invariant 0 <= i <= |paths|
        invariant rows == Populate(paths[..i], stat, formatTime).0
        invariant failure == Populate(paths[..i], stat, formatTime).1
        invariant inputText == old(inputText) && lastSearchText == old(lastSearchText)
        invariant timerPending == old(timerPending) && status == old(status) && queries == old(queries)
      {
        var path := paths[i];
        PopulateStep(paths, i, stat, formatTime);
        match stat(path) {
          case Stat(size, mtime) =>
            rows := rows + [MakeRow(path, size, mtime, formatTime)];
          case FileNotFound =>
          case PermissionDenied =>
          case OtherOsError(message) =>
            failure := Some(message);
        }
        i := i + 1;
      }
      if failure.Some? {
        PopulateStops(paths, i, stat, formatTime);
      } else {
        assert paths[..i] == paths;
      }
    }

    /** The timer fires: it stops, and the search runs. */
    method OnTimerTimeout(mdfind: string -> SearchRun, stat: string -> StatOutcome, formatTime: int -> string)
      requires Valid() && timerPending
      modifies this
      ensures Valid() && !timerPending
      ensures inputText == old(inputText) && lastSearchText == old(lastSearchText)
      ensures Strip(inputText) == [] ==> rows == [] && status == Blank && queries == old(queries)
      ensures Strip(inputText) != [] ==>
        && queries == old(queries) + [Strip(inputText)]
        && (rows, status) == SearchOutcome(mdfind(Strip(inputText)), stat, formatTime)
    {
      timerPending := false;
      PerformSearch(mdfind, stat, formatTime);
    }

    /**
     * `update_status_for_item`: a row with a path and a stored size shows its
     * full size text in the status line; any other row changes nothing.
     */
    method UpdateStatusForItem(item: Row)
      requires Valid()
      modifies this
      ensures Valid()
      ensures item.path != [] && item.size.Some? ==> status == FileSize(FormatSizeFull(item.size.value))
      ensures !(item.path != [] && item.size.Some?) ==> status == old(status)
      ensures rows == old(rows) && inputText == old(inputText) && lastSearchText == old(lastSearchText)
      ensures timerPending == old(timerPending) && queries == old(queries)
    {
      if item.path != [] && item.size.Some? {
        status := FileSize(FormatSizeFull(item.size.value));
      }
    }

    /** `on_item_clicked`: the clicked row updates the status line. */
    method OnItemClicked(item: Row)
      requires Valid()
      modifies this
      ensures Valid()
      ensures item.path != [] && item.size.Some? ==> status == FileSize(FormatSizeFull(item.size.value))
      ensures !(item.path != [] && item.size.Some?) ==> status == old(status)
      ensures rows == old(rows) && inputText == old(inputText) && lastSearchText == old(lastSearchText)
      ensures timerPending == old(timerPending) && queries == old(queries)
    {
      UpdateStatusForItem(item);
    }

    /** `on_current_item_changed`: only a current row updates the status line. */
    method OnCurrentItemChanged(current: Option<Row>)
      requires Valid()
      modifies this
      ensures Valid()
      ensures current.Some? && current.value.path != [] && current.value.size.Some? ==>
        status == FileSize(FormatSizeFull(current.value.size.value))
      ensures !(current.Some? && current.value.path != [] && current.value.size.Some?) ==> status == old(status)
      ensures rows == old(rows) && inputText == old(inputText) && lastSearchText == old(lastSearchText)
      ensures timerPending == old(timerPending) && queries == old(queries)
    {
      if current.Some? {
        UpdateStatusForItem(current.value);
      }
    }

    /**
     * `on_item_double_clicked`: a row with a path is revealed in the file
     * browser; `showInFinder` gives the message of the error raised, if one was, and
     * only that error reaches the status line. The table never changes.
     */
    method OnItemDoubleClicked(item: Row, showInFinder: string -> Option<string>)
      requires Valid()
      modifies this
      ensures Valid()
      ensures item.path != [] && showInFinder(item.path).Some? ==> status == OpenFailed(showInFinder(item.path).value)
      ensures !(item.path != [] && showInFinder(item.path).Some?) ==> status == old(status)
      ensures rows == old(rows) && inputText == old(inputText) && lastSearchText == old(lastSearchText)
      ensures timerPending == old(timerPending) && queries == old(queries)
    {
      if item.path != [] {
        var failure := showInFinder(item.path);
        if failure.Some? {
          status := OpenFailed(failure.value);
        }
      }
    }
  }
}
