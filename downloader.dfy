/**
 * `PaperDownloader`: the per-paper download of a PDF into `papers/<YYYY-MM-DD>/<id>.pdf`,
 * recorded in one `paper_downloads` row that moves from `downloading` to `completed` or
 * `failed`; at most three GET attempts; a streamed body written to `<path>.tmp` and renamed
 * on success; and the batch submission of papers to the worker pool.
 *
 * The network is an oracle `net`: `net(k)` is what the `k`-th GET attempt of one call does.
 * The file system is a map from path to contents; sleeps are recorded, not waited for.
 */
module Downloader {

  import opened Basics
  import opened PyStr
  import opened Clock
  import opened Records
  import opened RecordStore

  const BaseDir: string := "papers"
  const RetryTimes: nat := 3
  const RetryDelay: nat := 5
  const DownloadDelay: nat := 1
  const ChunkSize: nat := 8192
  const MaxWorkers: nat := 2
  const NoUrlMessage: string := "PDF URL不存在"
  const SuccessMessage: string := "下载成功"

  // ---------------------------------------------------------------------
  // The download path
  // ---------------------------------------------------------------------

  /** `str(base_dir / created_at.strftime('%Y-%m-%d') / f"{arxiv_id}.pdf")` */
  function GetDownloadPath(paper: Paper): (r: string)
    requires Valid(paper.createdAt)
    ensures |r| == 22 + |paper.arxivId|
    ensures r[..7] == BaseDir + "/" && r[7..17] == DateString(paper.createdAt) && r[17] == '/'
    ensures r[18..|r| - 4] == paper.arxivId && r[|r| - 4..] == ".pdf"
  {
    var r := BaseDir + "/" + DateString(paper.createdAt) + "/" + paper.arxivId + ".pdf";
    assert r[..7] == BaseDir + "/" && r[7..17] == DateString(paper.createdAt) && r[17] == '/';
    assert r[18..|r| - 4] == paper.arxivId && r[|r| - 4..] == ".pdf";
    r
  }

  /** The path names the paper: two papers share it exactly when they share the id and the creation date. */
  lemma DownloadPathInjective(a: Paper, b: Paper)
    requires Valid(a.createdAt) && Valid(b.createdAt)
    ensures GetDownloadPath(a) == GetDownloadPath(b) <==> a.arxivId == b.arxivId && SameDate(a.createdAt, b.createdAt)
  {
    DateStringSameDate(a.createdAt, b.createdAt);
    if a.arxivId == b.arxivId && SameDate(a.createdAt, b.createdAt) {
      assert DateString(a.createdAt) == DateString(b.createdAt);
    }
  }

  // ---------------------------------------------------------------------
  // One GET attempt
  // ---------------------------------------------------------------------

  /** What one `requests.get(pdf_url, stream=True)` does. */
  datatype Attempt =
    | ConnectionFails(error: string)       // `requests.get` raises
    | Responds(
        status: int,
        reason: string,
        contentLength: Option<string>,     // the `content-length` header, if sent
        chunks: seq<seq<byte>>,            // what `iter_content` yields, in order
        streamError: Option<string>)       // `iter_content` raises after the last chunk

  /** The outcome of the `try` body of one attempt: the total size, or the text of the exception. */
  datatype Try = Ok(total: int) | Err(error: string)

  /** `raise_for_status()` then `int(response.headers.get('content-length', 0))`. */
  function AttemptTotal(a: Attempt, url: string): (r: Try)
    ensures a.ConnectionFails? ==> r == Err(a.error)
    ensures r.Ok? ==> a.Responds? && !(400 <= a.status < 600)
    ensures a.Responds? && !(400 <= a.status < 600) && a.contentLength.None? ==> r == Ok(0)
    ensures a.Responds? && !(400 <= a.status < 600) && a.contentLength.Some? ==>
              (r.Ok? <==> PyInt(a.contentLength.value).Some?)
    ensures r.Ok? && a.contentLength.Some? ==> PyInt(a.contentLength.value) == Some(r.total)
  {
    match a
    case ConnectionFails(e) => Err(e)
    case Responds(status, reason, contentLength, _, _) =>
      if 400 <= status < 600 then Err(HttpErrorText(status, reason, url))
      else
        match contentLength
        case None => Ok(0)
        case Some(text) =>
          match PyInt(text)
          case Some(v) => Ok(v)
          case None => Err(InvalidLiteralText(text))
  }

  /** The message of the `HTTPError` that `raise_for_status()` raises for a 4xx or 5xx status. */
  function HttpErrorText(status: int, reason: string, url: string): string
    requires 400 <= status < 600
  {
    NatToString(status) + (if status < 500 then " Client Error: " else " Server Error: ") + reason + " for url: " + url
  }

  /** The message of the `ValueError` that `int()` raises for a header it cannot read. */
  function InvalidLiteralText(text: string): string {
    "invalid literal for int() with base 10: '" + text + "'"
  }

  /** What the retry loop ends with: the first attempt that succeeded, or the last error. */
  datatype RetryResult = Got(attempt: nat, total: int) | GaveUp(error: string)

  /**
   * `for retry in range(3)`, from attempt `k` on: stop at the first attempt whose `try`
   * body completes; after the third failure, re-raise its exception.
   */
  function RetryFrom(net: nat -> Attempt, url: string, k: nat): (r: RetryResult)
    requires k < RetryTimes
    decreases RetryTimes - k
    ensures r.Got? ==> k <= r.attempt < RetryTimes && AttemptTotal(net(r.attempt), url) == Ok(r.total)
    ensures r.Got? ==> forall j :: k <= j < r.attempt ==> AttemptTotal(net(j), url).Err?
    ensures r.GaveUp? ==> forall j :: k <= j < RetryTimes ==> AttemptTotal(net(j), url).Err?
    ensures r.GaveUp? ==> r.error == AttemptTotal(net(RetryTimes - 1), url).error
  {
    match AttemptTotal(net(k), url)
    case Ok(total) => Got(k, total)
    case Err(e) =>
      if k < RetryTimes - 1 then
        var r := RetryFrom(net, url, k + 1);
        FailuresExtend(net, url, k, if r.Got? then r.attempt else RetryTimes);
        r
      else GaveUp(e)
  }

  /** A failed attempt `k` followed by failed attempts `k + 1 .. hi - 1` makes `k .. hi - 1` all failed. */
  lemma FailuresExtend(net: nat -> Attempt, url: string, k: nat, hi: nat)
    requires AttemptTotal(net(k), url).Err?
    requires forall j :: k + 1 <= j < hi ==> AttemptTotal(net(j), url).Err?
    ensures forall j :: k <= j < hi ==> AttemptTotal(net(j), url).Err?
  {
  }

  /** How many GETs the retry loop issues. */
  function RequestCount(r: RetryResult): nat {
    match r
    case Got(k, _) => k + 1
    case GaveUp(_) => RetryTimes
  }

  // ---------------------------------------------------------------------
  // Streaming the body
  // ---------------------------------------------------------------------

  /** The bytes written: every chunk in order (an empty chunk writes nothing). */
  function Concat(chunks: seq<seq<byte>>): (r: seq<byte>)
  {
    if chunks == [] then [] else Concat(chunks[..|chunks| - 1]) + chunks[|chunks| - 1]
  }

  /** `(downloaded_size / total_size) * 100` */
  function Pct(downloaded: nat, total: int): real
    requires total > 0
  {
    (downloaded as real / total as real) * 100.0
  }

  /** The row after the chunks so far: its progress is that of the last byte count committed. */
  function StreamRow(start: PaperDownload, chunks: seq<seq<byte>>, total: int): PaperDownload {
    if total > 0 && Concat(chunks) != [] then start.(progress := Pct(|Concat(chunks)|, total)) else start
  }

  /** The rows committed while streaming: one per non-empty chunk, and only when `total_size > 0`. */
  function StreamCommits(start: PaperDownload, chunks: seq<seq<byte>>, total: int): seq<PaperDownload> {
    if chunks == [] then []
    else
      var init := chunks[..|chunks| - 1];
      StreamCommits(start, init, total)
        + (if chunks[|chunks| - 1] != [] && total > 0 then [start.(progress := Pct(|Concat(chunks)|, total))] else [])
  }

  /** One more chunk: its bytes are appended, and a row is committed when it is non-empty and `total > 0`. */
  lemma StreamStep(start: PaperDownload, chunks: seq<seq<byte>>, i: nat, total: int)
    requires i < |chunks|
    ensures Concat(chunks[..i + 1]) == Concat(chunks[..i]) + chunks[i]
    ensures StreamCommits(start, chunks[..i + 1], total)
            == StreamCommits(start, chunks[..i], total)
               + (if chunks[i] != [] && total > 0 then [start.(progress := Pct(|Concat(chunks[..i + 1])|, total))] else [])
    ensures StreamRow(start, chunks[..i + 1], total)
            == if chunks[i] != [] && total > 0 then start.(progress := Pct(|Concat(chunks[..i + 1])|, total))
               else StreamRow(start, chunks[..i], total)
  {
    assert chunks[..i + 1][..i] == chunks[..i];
  }

  /** A percentage of a larger byte count is no smaller. */
  lemma PctMonotone(a: nat, b: nat, total: int)
    requires a <= b && total > 0
    ensures 0.0 <= Pct(a, total) <= Pct(b, total)
  {
    var t := total as real;
    assert a as real / t <= b as real / t by {
      assert a as real / t * t == a as real;
      assert b as real / t * t == b as real;
    }
  }

  /** Each committed row is the start row with a positive progress, at most that of all bytes so far. */
  lemma {:induction false} StreamCommitsShape(start: PaperDownload, chunks: seq<seq<byte>>, total: int)
    ensures StreamCommits(start, chunks, total) != [] ==> total > 0
    ensures forall i :: 0 <= i < |StreamCommits(start, chunks, total)| ==>
              && StreamCommits(start, chunks, total)[i] == start.(progress := StreamCommits(start, chunks, total)[i].progress)
              && 0.0 < StreamCommits(start, chunks, total)[i].progress
              && (total > 0 ==> StreamCommits(start, chunks, total)[i].progress <= Pct(|Concat(chunks)|, total))
  {
    if chunks != [] {
      var init := chunks[..|chunks| - 1];
      var last := chunks[|chunks| - 1];
      var prev := StreamCommits(start, init, total);
      var c := StreamCommits(start, chunks, total);
      StreamCommitsShape(start, init, total);
      assert Concat(chunks) == Concat(init) + last;
      assert c == prev + (if last != [] && total > 0 then [start.(progress := Pct(|Concat(chunks)|, total))] else []);
      if total > 0 {
        PctMonotone(|Concat(init)|, |Concat(chunks)|, total);
        forall i | 0 <= i < |c|
          ensures c[i] == start.(progress := c[i].progress) && 0.0 < c[i].progress <= Pct(|Concat(chunks)|, total)
        {
          if i < |prev| {
            assert c[i] == prev[i];
          } else {
            assert last != [] && c[i].progress == Pct(|Concat(chunks)|, total);
            assert (|Concat(chunks)| as real / total as real) > 0.0;
          }
        }
      } else {
        assert c == prev;
      }
    }
  }

  /** The committed progress values never decrease. */
  lemma {:induction false} StreamProgressRises(start: PaperDownload, chunks: seq<seq<byte>>, total: int)
    ensures forall i, j :: 0 <= i < j < |StreamCommits(start, chunks, total)| ==>
              StreamCommits(start, chunks, total)[i].progress <= StreamCommits(start, chunks, total)[j].progress
  {
    if chunks != [] {
      var init := chunks[..|chunks| - 1];
      var prev := StreamCommits(start, init, total);
      var c := StreamCommits(start, chunks, total);
      var last := chunks[|chunks| - 1];
      StreamProgressRises(start, init, total);
      StreamCommitsShape(start, init, total);
      assert Concat(chunks) == Concat(init) + last;
      assert c == prev + (if last != [] && total > 0 then [start.(progress := Pct(|Concat(chunks)|, total))] else []);
      forall i, j | 0 <= i < j < |c| ensures c[i].progress <= c[j].progress {
        assert c[i] == prev[i];
        if j < |prev| {
          assert c[j] == prev[j];
        } else {
          PctMonotone(|Concat(init)|, |Concat(chunks)|, total);
          assert c[j].progress == Pct(|Concat(chunks)|, total);
        }
      }
    }
  }

  /** The last committed row during the stream is the row after the stream. */
  lemma {:induction false} StreamRowIsLastCommit(start: PaperDownload, chunks: seq<seq<byte>>, total: int)
    ensures var c := StreamCommits(start, chunks, total);
            StreamRow(start, chunks, total) == if c == [] then start else c[|c| - 1]
    ensures StreamCommits(start, chunks, total) == [] <==> total <= 0 || Concat(chunks) == []
  {
    if chunks != [] {
      var init := chunks[..|chunks| - 1];
      StreamRowIsLastCommit(start, init, total);
      assert Concat(chunks) == Concat(init) + chunks[|chunks| - 1];
    }
  }

  /** Without a positive `content-length`, nothing is committed mid-stream and progress stays 0. */
  lemma NoLengthNoProgress(start: PaperDownload, chunks: seq<seq<byte>>, total: int)
    requires total <= 0
    ensures StreamCommits(start, chunks, total) == [] && StreamRow(start, chunks, total) == start
  {
    StreamRowIsLastCommit(start, chunks, total);
  }

  /** With a truthful `content-length`, progress stays within 100 and reaches 100 at the last chunk. */
  lemma TruthfulLengthReaches100(start: PaperDownload, chunks: seq<seq<byte>>)
    requires |Concat(chunks)| > 0
    ensures var c := StreamCommits(start, chunks, |Concat(chunks)|);
            && c != []
            && (forall i :: 0 <= i < |c| ==> c[i].progress <= 100.0)
            && c[|c| - 1].progress == 100.0
  {
    var total := |Concat(chunks)|;
    StreamCommitsShape(start, chunks, total);
    StreamRowIsLastCommit(start, chunks, total);
    assert Pct(total, total) == 100.0;
  }

  // ---------------------------------------------------------------------
  // One download, as a specification
  // ---------------------------------------------------------------------

  /** How `download_paper` ends: a returned pair, or the `UnboundLocalError` on `temp_path` escaping. */
  datatype Outcome = Returned(ok: bool, message: string) | RaisedUnbound

  /** Everything one `download_paper` call does to the world. */
  datatype Effect = Effect(
    rows: seq<PaperDownload>,             // the `paper_downloads` table afterwards
    commits: seq<PaperDownload>,          // the states of the paper's row, in commit order
    files: map<string, seq<byte>>,        // the file system afterwards
    sleeps: seq<nat>,                     // `time.sleep` calls, in seconds
    requests: nat,                        // GET attempts
    outcome: Outcome)

  /** Writing a row at `at`: appended when `at` is the table length, replaced in place otherwise. */
  function Put(rows: seq<PaperDownload>, at: nat, row: PaperDownload): (r: seq<PaperDownload>)
    requires at <= |rows|
    ensures |r| == if at == |rows| then |rows| + 1 else |rows|
    ensures r[at] == row && forall j :: 0 <= j < |rows| && j != at ==> r[j] == rows[j]
  {
    if at == |rows| then rows + [row] else rows[at := row]
  }

  /** The slot of the paper's row: the first existing one, or a new one at the end. */
  function RowSlot(rows: seq<PaperDownload>, paperId: int): (at: nat)
    ensures at <= |rows|
    ensures at < |rows| ==> rows[at].paperId == paperId && forall j :: 0 <= j < at ==> rows[j].paperId != paperId
    ensures at == |rows| ==> forall j :: 0 <= j < |rows| ==> rows[j].paperId != paperId
  {
    var idx := FirstDownload(rows, paperId);
    if idx < 0 then |rows| else idx
  }

  /** The row as committed before the first attempt: `downloading`, progress 0, the download path. */
  function StartRow(rows: seq<PaperDownload>, paper: Paper): PaperDownload
    requires Valid(paper.createdAt)
  {
    var at := RowSlot(rows, paper.id);
    var base := if at < |rows| then rows[at] else NewPaperDownload(paper.id);
    base.(status := Downloading, progress := 0.0, path := Some(GetDownloadPath(paper)))
  }

  predicate HasUrl(paper: Paper) {
    paper.pdfUrl.Some? && paper.pdfUrl.value != ""
  }

  /**
   * What follows a successful attempt: the stream into `path + '.tmp'`, then either the
   * rename and `completed`, or the `except` block with `failed` and the `.tmp` removed.
   */
  function FinishSpec(rows: seq<PaperDownload>, at: nat, start: PaperDownload, files: map<string, seq<byte>>,
                      path: string, chunks: seq<seq<byte>>, streamError: Option<string>, total: int): Effect
    requires at <= |rows|
  {
    var tmp := path + ".tmp";
    var streamed := StreamRow(start, chunks, total);
    var mid := StreamCommits(start, chunks, total);
    match streamError
    case Some(e) =>
      var failed := streamed.(status := Failed, error := Some(e));
      Effect(Put(rows, at, failed), mid + [failed], files - {tmp}, [], 0, Returned(false, e))
    case None =>
      var done := streamed.(status := Completed, progress := 100.0);
      Effect(Put(rows, at, done), mid + [done], (files - {tmp})[path := Concat(chunks)], [DownloadDelay], 0,
             Returned(true, SuccessMessage))
  }

  /**
   * What follows the `downloading` commit of row slot `at`: the retry loop, then either
   * `failed` and the escaping exception, or the finish after the first successful attempt.
   */
  function TransferSpec(rows: seq<PaperDownload>, at: nat, start: PaperDownload, files: map<string, seq<byte>>,
                        path: string, url: string, net: nat -> Attempt): Effect
    requires at <= |rows|
  {
    match RetryFrom(net, url, 0)
    case GaveUp(e) =>
      var failed := start.(status := Failed, error := Some(e));
      Effect(Put(rows, at, failed), [failed], files, Repeat(RetryDelay, RetryTimes - 1), RetryTimes, RaisedUnbound)
    case Got(k, total) =>
      var f := FinishSpec(rows, at, start, files, path, net(k).chunks, net(k).streamError, total);
      f.(sleeps := Repeat(RetryDelay, k) + f.sleeps, requests := k + 1)
  }

  /** `download_paper(paper)` on table `rows` and file system `files`. */
  function DownloadSpec(rows: seq<PaperDownload>, files: map<string, seq<byte>>, paper: Paper, net: nat -> Attempt): Effect
    requires Valid(paper.createdAt)
  {
    if !HasUrl(paper) then Effect(rows, [], files, [], 0, Returned(false, NoUrlMessage))
    else
      var start := StartRow(rows, paper);
      var t := TransferSpec(rows, RowSlot(rows, paper.id), start, files, GetDownloadPath(paper), paper.pdfUrl.value, net);
      t.(commits := [start] + t.commits)
  }

  // ---------------------------------------------------------------------
  // Properties of one download
  // ---------------------------------------------------------------------

  /** Without a PDF URL nothing is read, written, committed or requested. */
  lemma NoUrlTouchesNothing(rows: seq<PaperDownload>, files: map<string, seq<byte>>, paper: Paper, net: nat -> Attempt)
    requires Valid(paper.createdAt) && !HasUrl(paper)
    ensures var e := DownloadSpec(rows, files, paper, net);
            e.rows == rows && e.commits == [] && e.files == files && e.sleeps == [] && e.requests == 0
            && e.outcome == Returned(false, NoUrlMessage)
  {
  }

  /** After the first commit, every commit goes to slot `at`, which ends holding the last one. */
  lemma TransferWritesSlot(rows: seq<PaperDownload>, at: nat, start: PaperDownload, files: map<string, seq<byte>>,
                           path: string, url: string, net: nat -> Attempt)
    requires at <= |rows|
    ensures var t := TransferSpec(rows, at, start, files, path, url, net);
            t.commits != [] && t.rows == Put(rows, at, t.commits[|t.commits| - 1])
  {
  }

  /**
   * With a URL, the first commit sets the paper's row to `downloading` with progress 0 and
   * the download path; the row is the first existing one for the paper, or exactly one new
   * row at the end; every commit of the call goes to that row, and no other row changes.
   */
  lemma FirstCommitDownloading(rows: seq<PaperDownload>, files: map<string, seq<byte>>, paper: Paper, net: nat -> Attempt)
    requires Valid(paper.createdAt) && HasUrl(paper)
    ensures var e := DownloadSpec(rows, files, paper, net);
            && e.commits != [] && e.commits[0] == StartRow(rows, paper)
            && e.commits[0].status == Downloading && e.commits[0].progress == 0.0
            && e.commits[0].path == Some(GetDownloadPath(paper)) && e.commits[0].paperId == paper.id
    ensures var e := DownloadSpec(rows, files, paper, net);
            var at := RowSlot(rows, paper.id);
            && (at < |rows| ==> e.commits[0].error == rows[at].error && |e.rows| == |rows|)
            && (at == |rows| ==> e.commits[0].error == None && |e.rows| == |rows| + 1)
            && at < |e.rows| && e.rows[at] == e.commits[|e.commits| - 1]
            && (forall j :: 0 <= j < |rows| && j != at ==> e.rows[j] == rows[j])
  {
    var at := RowSlot(rows, paper.id);
    var start := StartRow(rows, paper);
    TransferWritesSlot(rows, at, start, files, GetDownloadPath(paper), paper.pdfUrl.value, net);
    if at < |rows| {
      assert rows[at].paperId == paper.id;
    }
  }

  /** The finish commits the stream's rows and then one terminal row. */
  lemma FinishCommits(rows: seq<PaperDownload>, at: nat, start: PaperDownload, files: map<string, seq<byte>>,
                      path: string, chunks: seq<seq<byte>>, streamError: Option<string>, total: int)
    requires at <= |rows|
    ensures var f := FinishSpec(rows, at, start, files, path, chunks, streamError, total);
            var last := f.commits[|f.commits| - 1];
            && f.commits == StreamCommits(start, chunks, total) + [last]
            && (streamError.None? ==> last.status == Completed && f.outcome == Returned(true, SuccessMessage))
            && (streamError.Some? ==> last.status == Failed && last.error == streamError && f.outcome == Returned(false, streamError.value))
  {
  }

  /** Every call with a URL ends its row `completed` or `failed`, and returns `True` exactly when `completed`. */
  lemma EndsTerminal(rows: seq<PaperDownload>, files: map<string, seq<byte>>, paper: Paper, net: nat -> Attempt)
    requires Valid(paper.createdAt) && HasUrl(paper)
    ensures |DownloadSpec(rows, files, paper, net).commits| >= 2
    ensures var e := DownloadSpec(rows, files, paper, net);
            var last := e.commits[|e.commits| - 1];
            && (last.status == Completed || last.status == Failed)
            && (last.status == Completed <==> e.outcome == Returned(true, SuccessMessage))
            && (last.status == Failed ==> last.error.Some?)
    ensures forall i :: 0 < i < |DownloadSpec(rows, files, paper, net).commits| - 1 ==>
              DownloadSpec(rows, files, paper, net).commits[i].status == Downloading
  {
    var start := StartRow(rows, paper);
    var at := RowSlot(rows, paper.id);
    var path := GetDownloadPath(paper);
    var e := DownloadSpec(rows, files, paper, net);
    match RetryFrom(net, paper.pdfUrl.value, 0)
    case GaveUp(_) =>
    case Got(k, total) =>
      var r := net(k);
      var mid := StreamCommits(start, r.chunks, total);
      var f := FinishSpec(rows, at, start, files, path, r.chunks, r.streamError, total);
      FinishCommits(rows, at, start, files, path, r.chunks, r.streamError, total);
      StreamCommitsShape(start, r.chunks, total);
      assert e.commits == [start] + f.commits;
      assert forall i :: 0 < i < |e.commits| - 1 ==> e.commits[i] == mid[i - 1];
  }

  /**
   * At most three GETs, at least one; a sleep of 5 seconds between consecutive attempts and
   * none after the last; the 1-second delay only after a completed download.
   */
  lemma RetryBounds(rows: seq<PaperDownload>, files: map<string, seq<byte>>, paper: Paper, net: nat -> Attempt)
    requires Valid(paper.createdAt) && HasUrl(paper)
    ensures var e := DownloadSpec(rows, files, paper, net);
            && 1 <= e.requests <= RetryTimes
            && e.requests == RequestCount(RetryFrom(net, paper.pdfUrl.value, 0))
            && e.sleeps == Repeat(RetryDelay, e.requests - 1)
                           + (if e.outcome == Returned(true, SuccessMessage) then [DownloadDelay] else [])
  {
  }

  /** The attempts before the one streamed all failed, and the streamed one is the first success. */
  lemma StreamsFirstSuccess(paper: Paper, net: nat -> Attempt)
    requires HasUrl(paper)
    ensures var r := RetryFrom(net, paper.pdfUrl.value, 0);
            r.Got? ==> && net(r.attempt).Responds?
                       && (forall j :: 0 <= j < r.attempt ==> AttemptTotal(net(j), paper.pdfUrl.value).Err?)
  {
  }

  /**
   * A completed download leaves the concatenated chunks at the download path and no
   * `.tmp` file, commits `completed` with progress 100, and leaves `download_error` as it was.
   */
  lemma SuccessWritesFile(rows: seq<PaperDownload>, files: map<string, seq<byte>>, paper: Paper, net: nat -> Attempt)
    requires Valid(paper.createdAt) && HasUrl(paper)
    requires DownloadSpec(rows, files, paper, net).outcome.Returned? && DownloadSpec(rows, files, paper, net).outcome.ok
    ensures var e := DownloadSpec(rows, files, paper, net);
            var r := RetryFrom(net, paper.pdfUrl.value, 0);
            var path := GetDownloadPath(paper);
            && r.Got? && net(r.attempt).Responds? && net(r.attempt).streamError.None?
            && path in e.files && e.files[path] == Concat(net(r.attempt).chunks)
            && path + ".tmp" !in e.files
            && (forall p :: p in files && p != path && p != path + ".tmp" ==> p in e.files && e.files[p] == files[p])
            && e.commits[|e.commits| - 1].status == Completed && e.commits[|e.commits| - 1].progress == 100.0
            && e.commits[|e.commits| - 1].error == StartRow(rows, paper).error
  {
    var path := GetDownloadPath(paper);
    assert path != path + ".tmp" by {
      assert |path + ".tmp"| == |path| + 4;
    }
  }

  /**
   * A stream that raises after the temporary path is bound marks the row `failed` with the
   * error text, removes the `.tmp` file, creates no file at the download path, and returns
   * `(False, str(e))`.
   */
  lemma StreamFailureCleansUp(rows: seq<PaperDownload>, files: map<string, seq<byte>>, paper: Paper, net: nat -> Attempt)
    requires Valid(paper.createdAt) && HasUrl(paper)
    requires RetryFrom(net, paper.pdfUrl.value, 0).Got?
    requires net(RetryFrom(net, paper.pdfUrl.value, 0).attempt).streamError.Some?
    ensures var e := DownloadSpec(rows, files, paper, net);
            var err := net(RetryFrom(net, paper.pdfUrl.value, 0).attempt).streamError.value;
            var path := GetDownloadPath(paper);
            && e.outcome == Returned(false, err)
            && e.commits[|e.commits| - 1].status == Failed && e.commits[|e.commits| - 1].error == Some(err)
            && path + ".tmp" !in e.files
            && (path in e.files <==> path in files)
            && (forall p :: p in files && p != path + ".tmp" ==> p in e.files && e.files[p] == files[p])
            && e.files.Keys <= files.Keys
  {
    var path := GetDownloadPath(paper);
    assert path != path + ".tmp" by {
      assert |path + ".tmp"| == |path| + 4;
    }
  }

  /**
   * When every attempt fails, `failed` is committed with the last error, but the call does
   * not return: the `except` block reaches the unbound `temp_path` and raises. No file is
   * touched, three GETs were made with two sleeps between them.
   */
  lemma AllRetriesFailRaises(rows: seq<PaperDownload>, files: map<string, seq<byte>>, paper: Paper, net: nat -> Attempt)
    requires Valid(paper.createdAt) && HasUrl(paper)
    requires forall j :: 0 <= j < RetryTimes ==> AttemptTotal(net(j), paper.pdfUrl.value).Err?
    ensures var e := DownloadSpec(rows, files, paper, net);
            var err := AttemptTotal(net(RetryTimes - 1), paper.pdfUrl.value).error;
            && e.outcome == RaisedUnbound
            && e.commits == [StartRow(rows, paper), StartRow(rows, paper).(status := Failed, error := Some(err))]
            && e.files == files && e.requests == 3 && e.sleeps == [RetryDelay, RetryDelay]
  {
    var url := paper.pdfUrl.value;
    assert RetryFrom(net, url, 2) == GaveUp(AttemptTotal(net(2), url).error);
    assert RetryFrom(net, url, 1).GaveUp?;
    assert RetryFrom(net, url, 0).GaveUp?;
  }

  /** One mid-stream commit per non-empty chunk when the length is positive, none otherwise. */
  lemma MidStreamProgress(rows: seq<PaperDownload>, files: map<string, seq<byte>>, paper: Paper, net: nat -> Attempt)
    requires Valid(paper.createdAt) && HasUrl(paper)
    requires RetryFrom(net, paper.pdfUrl.value, 0).Got?
    ensures var e := DownloadSpec(rows, files, paper, net);
            var r := RetryFrom(net, paper.pdfUrl.value, 0);
            var mid := e.commits[1..|e.commits| - 1];
            && mid == StreamCommits(StartRow(rows, paper), net(r.attempt).chunks, r.total)
            && (r.total <= 0 ==> mid == [])
            && (forall i, j :: 0 <= i < j < |mid| ==> mid[i].progress <= mid[j].progress)
  {
    var r := RetryFrom(net, paper.pdfUrl.value, 0);
    var start := StartRow(rows, paper);
    var chunks := net(r.attempt).chunks;
    var mid := StreamCommits(start, chunks, r.total);
    var e := DownloadSpec(rows, files, paper, net);
    assert e.commits[1..|e.commits| - 1] == mid;
    StreamProgressRises(start, chunks, r.total);
    if r.total <= 0 {
      NoLengthNoProgress(start, chunks, r.total);
    }
  }

  /** The finish commits only rows of the start row's paper. */
  lemma FinishCommitsOfStart(rows: seq<PaperDownload>, at: nat, start: PaperDownload, files: map<string, seq<byte>>,
                             path: string, chunks: seq<seq<byte>>, streamError: Option<string>, total: int)
    requires at <= |rows|
    ensures var f := FinishSpec(rows, at, start, files, path, chunks, streamError, total);
            forall i :: 0 <= i < |f.commits| ==> f.commits[i].paperId == start.paperId
  {
    StreamCommitsShape(start, chunks, total);
    var mid := StreamCommits(start, chunks, total);
    assert forall i :: 0 <= i < |mid| ==> mid[i].paperId == start.paperId;
  }

  /** The transfer commits only rows of the start row's paper. */
  lemma TransferCommitsOfStart(rows: seq<PaperDownload>, at: nat, start: PaperDownload, files: map<string, seq<byte>>,
                               path: string, url: string, net: nat -> Attempt)
    requires at <= |rows|
    ensures var t := TransferSpec(rows, at, start, files, path, url, net);
            forall i :: 0 <= i < |t.commits| ==> t.commits[i].paperId == start.paperId
  {
    match RetryFrom(net, url, 0)
    case GaveUp(_) =>
    case Got(k, total) =>
      FinishCommitsOfStart(rows, at, start, files, path, net(k).chunks, net(k).streamError, total);
  }

  /** Every row the call commits is a row of the paper it downloads. */
  lemma CommitsOfPaper(rows: seq<PaperDownload>, files: map<string, seq<byte>>, paper: Paper, net: nat -> Attempt)
    requires Valid(paper.createdAt)
    ensures forall i :: 0 <= i < |DownloadSpec(rows, files, paper, net).commits| ==>
              DownloadSpec(rows, files, paper, net).commits[i].paperId == paper.id
  {
    if HasUrl(paper) {
      var start := StartRow(rows, paper);
      var at := RowSlot(rows, paper.id);
      if at < |rows| {
        assert rows[at].paperId == paper.id;
      }
      TransferCommitsOfStart(rows, at, start, files, GetDownloadPath(paper), paper.pdfUrl.value, net);
      DownloadSpecWithUrl(rows, files, paper, net);
    }
  }

  /**
   * The `paper_id` foreign key survives a download: when every row of `rows` references a
   * paper of `t` and so does the paper being downloaded, every row afterwards does too.
   */
  lemma DownloadKeepsForeignKey(t: Table, rows: seq<PaperDownload>, files: map<string, seq<byte>>, paper: Paper, net: nat -> Attempt)
    requires Valid(paper.createdAt) && ValidDownloads(t, rows) && HasPaperId(t, paper.id)
    ensures ValidDownloads(t, DownloadSpec(rows, files, paper, net).rows)
  {
    if HasUrl(paper) {
      var e := DownloadSpec(rows, files, paper, net);
      var at := RowSlot(rows, paper.id);
      FirstCommitDownloading(rows, files, paper, net);
      CommitsOfPaper(rows, files, paper, net);
      assert e.rows[at].paperId == paper.id;
      forall i | 0 <= i < |e.rows|
        ensures HasPaperId(t, e.rows[i].paperId)
      {
        if i != at {
          assert e.rows[i] == rows[i];
        }
      }
    }
  }

  /** With a URL, the call is the first commit followed by the transfer. */
  lemma DownloadSpecWithUrl(rows: seq<PaperDownload>, files: map<string, seq<byte>>, paper: Paper, net: nat -> Attempt)
    requires Valid(paper.createdAt) && HasUrl(paper)
    ensures var t := TransferSpec(rows, RowSlot(rows, paper.id), StartRow(rows, paper), files, GetDownloadPath(paper), paper.pdfUrl.value, net);
            DownloadSpec(rows, files, paper, net) == t.(commits := [StartRow(rows, paper)] + t.commits)
  {
  }

  /** A state that is `start` committed and then effect `t` is the effect `t` with `start` as first commit. */
  lemma AfterStartCommit(e: Effect, t: Effect, start: PaperDownload,
                         commits0: seq<PaperDownload>, sleeps0: seq<nat>, requests0: nat,
                         rows2: seq<PaperDownload>, commits2: seq<PaperDownload>, files2: map<string, seq<byte>>,
                         sleeps2: seq<nat>, requests2: nat, outcome: Outcome)
    requires e == t.(commits := [start] + t.commits)
    requires rows2 == t.rows && commits2 == commits0 + [start] + t.commits
    requires files2 == t.files && sleeps2 == sleeps0 + t.sleeps && requests2 == requests0 + t.requests
    requires outcome == t.outcome
    ensures rows2 == e.rows && commits2 == commits0 + e.commits
    ensures files2 == e.files && sleeps2 == sleeps0 + e.sleeps && requests2 == requests0 + e.requests
    ensures outcome == e.outcome
  {
    assert commits0 + [start] + t.commits == commits0 + ([start] + t.commits);
  }

  /** Writing the same slot again after an append or an update keeps one row there. */
  lemma PutAgain(rows: seq<PaperDownload>, at: nat, a: PaperDownload, b: PaperDownload)
    requires at <= |rows|
    ensures at < |Put(rows, at, a)| && Put(Put(rows, at, a), at, b) == Put(rows, at, b)
  {
  }

  // ---------------------------------------------------------------------
  // The downloader
  // ---------------------------------------------------------------------

  class PaperDownloader {
    /** The file system under the working directory. */
    var files: map<string, seq<byte>>
    /** The `time.sleep` calls made, in seconds. */
    var sleeps: seq<nat>
    /** The number of GET requests issued. */
    var requests: nat
    /** The papers handed to the worker pool, in submission order. */
    var submitted: seq<Paper>

    constructor (files0: map<string, seq<byte>>)
      ensures files == files0 && sleeps == [] && requests == 0 && submitted == []
    {
      files, sleeps, requests, submitted := files0, [], 0, [];
    }

    /**
     * The retry loop under the semaphore: `for retry in range(3)` with its `break`, the
     * 5-second sleep before each further attempt, and the re-raise after the last.
     */
    method Fetch(url: string, net: nat -> Attempt) returns (retry: nat, fetched: Try)
      modifies this`requests, this`sleeps
      ensures retry < RetryTimes
      ensures fetched.Ok? ==> RetryFrom(net, url, 0) == Got(retry, fetched.total)
      ensures fetched.Err? ==> RetryFrom(net, url, 0) == GaveUp(fetched.error) && retry == RetryTimes - 1
      ensures requests == old(requests) + retry + 1
      ensures sleeps == old(sleeps) + Repeat(RetryDelay, retry)
    {
      retry := 0;
      while true
        invariant retry < RetryTimes
        invariant RetryFrom(net, url, 0) == RetryFrom(net, url, retry)
        invariant requests == old(requests) + retry
        invariant sleeps == old(sleeps) + Repeat(RetryDelay, retry)
        decreases RetryTimes - retry
      {
        requests := requests + 1;
        fetched := AttemptTotal(net(retry), url);
        if fetched.Ok? {
          break;
        }
        if retry < RetryTimes - 1 {
          sleeps := sleeps + [RetryDelay];
          assert Repeat(RetryDelay, retry + 1) == Repeat(RetryDelay, retry) + [RetryDelay];
          retry := retry + 1;
        } else {
          break;
        }
      }
    }

    /**
     * `with open(temp_path, 'wb')` and the chunk loop: every non-empty chunk is appended to
     * the temporary file, and with `total > 0` the new progress is committed.
     */
    method Stream(db: DBManager, ghost rows0: seq<PaperDownload>, at: nat, start: PaperDownload,
                  chunks: seq<seq<byte>>, total: int, tmp: string) returns (record: PaperDownload)
      requires at <= |rows0| && db.downloads == Put(rows0, at, start)
      requires HasPaperId(db.table, start.paperId)
      modifies this`files, db`downloads, db`downloadCommits
      ensures record == StreamRow(start, chunks, total)
      ensures files == old(files)[tmp := Concat(chunks)]
      ensures db.downloads == Put(rows0, at, record)
      ensures db.downloadCommits == old(db.downloadCommits) + StreamCommits(start, chunks, total)
    {
      var downloaded: nat := 0;
      files := files[tmp := []];
      record := start;
      var i := 0;
      while i < |chunks|
        invariant 0 <= i <= |chunks|
        invariant record.paperId == start.paperId
        invariant downloaded == |Concat(chunks[..i])|
        invariant files == old(files)[tmp := Concat(chunks[..i])]
        invariant record == StreamRow(start, chunks[..i], total)
        invariant db.downloads == Put(rows0, at, record)
        invariant db.downloadCommits == old(db.downloadCommits) + StreamCommits(start, chunks[..i], total)
      {
        var chunk := chunks[i];
        StreamStep(start, chunks, i, total);
        if chunk != [] {
          files := files[tmp := files[tmp] + chunk];
          downloaded := downloaded + |chunk|;
          if total > 0 {
            record := record.(progress := Pct(downloaded, total));
            PutAgain(rows0, at, start, record);
            db.CommitDownload(at, record);
          }
        } else {
          assert Concat(chunks[..i]) + chunk == Concat(chunks[..i]);
        }
        i := i + 1;
      }
      assert chunks[..i] == chunks;
    }

    /** `download_paper(paper)`, with `net(k)` the outcome of the `k`-th GET attempt. */
    method DownloadPaper(db: DBManager, paper: Paper, net: nat -> Attempt) returns (outcome: Outcome)
      requires Valid(paper.createdAt)
      requires db.Valid() && HasPaperId(db.table, paper.id)
      modifies this`files, this`sleeps, this`requests, db`downloads, db`downloadCommits
      ensures db.Valid()
      ensures var e := DownloadSpec(old(db.downloads), old(files), paper, net);
              && db.downloads == e.rows && db.downloadCommits == old(db.downloadCommits) + e.commits
              && files == e.files && sleeps == old(sleeps) + e.sleeps && requests == old(requests) + e.requests
              && outcome == e.outcome
    {
      if !HasUrl(paper) {
        return Returned(false, NoUrlMessage);
      }
      var url := paper.pdfUrl.value;
      ghost var rows0, files0, commits0, sleeps0, requests0 := db.downloads, files, db.downloadCommits, sleeps, requests;
      var path := GetDownloadPath(paper);
      var at, start := Begin(db, paper, path);
      outcome := Transfer(db, rows0, at, start, path, url, net);
      DownloadKeepsForeignKey(db.table, rows0, files0, paper, net);
      DownloadSpecWithUrl(rows0, files0, paper, net);
      AfterStartCommit(DownloadSpec(rows0, files0, paper, net), TransferSpec(rows0, at, start, files0, path, url, net), start,
                       commits0, sleeps0, requests0, db.downloads, db.downloadCommits, files, sleeps, requests, outcome);
    }

    /**
     * The first existing row of the paper, or a new `PaperDownload`, set to `downloading`
     * with progress 0 and the download path, and committed.
     */
    method Begin(db: DBManager, paper: Paper, path: string) returns (at: nat, start: PaperDownload)
      requires Valid(paper.createdAt) && path == GetDownloadPath(paper)
      requires HasPaperId(db.table, paper.id)
      modifies db`downloads, db`downloadCommits
      ensures start.paperId == paper.id
      ensures at == RowSlot(old(db.downloads), paper.id) && start == StartRow(old(db.downloads), paper)
      ensures db.downloads == Put(old(db.downloads), at, start)
      ensures db.downloadCommits == old(db.downloadCommits) + [start]
    {
      var idx := FirstDownload(db.downloads, paper.id);
      var record: PaperDownload;
      if idx < 0 {
        at, record := |db.downloads|, NewPaperDownload(paper.id);
      } else {
        at, record := idx, db.downloads[idx];
      }
      start := record.(status := Downloading, progress := 0.0, path := Some(path));
      db.CommitDownload(at, start);
    }

    /** Everything after the `downloading` commit, as `TransferSpec` describes it. */
    method Transfer(db: DBManager, ghost rows0: seq<PaperDownload>, at: nat, start: PaperDownload,
                    path: string, url: string, net: nat -> Attempt) returns (outcome: Outcome)
      requires at <= |rows0| && db.downloads == Put(rows0, at, start)
      requires HasPaperId(db.table, start.paperId)
      modifies this`files, this`sleeps, this`requests, db`downloads, db`downloadCommits
      ensures var e := TransferSpec(rows0, at, start, old(files), path, url, net);
              && db.downloads == e.rows && db.downloadCommits == old(db.downloadCommits) + e.commits
              && files == e.files && sleeps == old(sleeps) + e.sleeps && requests == old(requests) + e.requests
              && outcome == e.outcome
    {
      var retry, fetched := Fetch(url, net);
      if fetched.Err? {
        // every attempt failed: the `except` block commits `failed`, then `temp_path` is unbound
        var record := start.(status := Failed, error := Some(fetched.error));
        PutAgain(rows0, at, start, record);
        db.CommitDownload(at, record);
        return RaisedUnbound;
      }
      var response := net(retry);
      outcome := Finish(db, rows0, at, start, path, response.chunks, response.streamError, fetched.total);
    }

    /** The stream and what follows it, as `FinishSpec` describes it. */
    method Finish(db: DBManager, ghost rows0: seq<PaperDownload>, at: nat, start: PaperDownload,
                  path: string, chunks: seq<seq<byte>>, streamError: Option<string>, total: int) returns (outcome: Outcome)
      requires at <= |rows0| && db.downloads == Put(rows0, at, start)
      requires HasPaperId(db.table, start.paperId)
      modifies this`files, this`sleeps, db`downloads, db`downloadCommits
      ensures var e := FinishSpec(rows0, at, start, old(files), path, chunks, streamError, total);
              && db.downloads == e.rows && db.downloadCommits == old(db.downloadCommits) + e.commits
              && files == e.files && sleeps == old(sleeps) + e.sleeps && outcome == e.outcome
    {
      var tmp := path + ".tmp";
      var record := Stream(db, rows0, at, start, chunks, total, tmp);
      ghost var mid := StreamCommits(start, chunks, total);

      if streamError.Some? {
        // the `except` block: `failed`, and the `.tmp` file removed
        var e := streamError.value;
        record := record.(status := Failed, error := Some(e));
        PutAgain(rows0, at, start, record);
        db.CommitDownload(at, record);
        assert db.downloadCommits == old(db.downloadCommits) + (mid + [record]);
        if tmp in files {
          files := files - {tmp};
        }
        assert files == old(files) - {tmp};
        return Returned(false, e);
      }

      // rename the temporary file, then `completed`
      files := (files - {tmp})[path := files[tmp]];
      assert files == (old(files) - {tmp})[path := Concat(chunks)];
      record := record.(status := Completed, progress := 100.0);
      PutAgain(rows0, at, start, record);
      db.CommitDownload(at, record);
      assert db.downloadCommits == old(db.downloadCommits) + (mid + [record]);
      sleeps := sleeps + [DownloadDelay];
      return Returned(true, SuccessMessage);
    }

    /** `download_papers(papers)`: every paper is submitted, in order; one handle per paper. */
    method DownloadPapers(papers: seq<Paper>) returns (handles: seq<nat>)
      modifies this`submitted
      ensures submitted == old(submitted) + papers
      ensures |handles| == |papers| && forall i :: 0 <= i < |papers| ==> handles[i] == |old(submitted)| + i
      ensures forall i :: 0 <= i < |papers| ==> submitted[handles[i]] == papers[i]
    {
      handles := [];
      var i := 0;
      while i < |papers|
        invariant 0 <= i <= |papers|
        invariant submitted == old(submitted) + papers[..i]
        invariant |handles| == i && forall j :: 0 <= j < i ==> handles[j] == |old(submitted)| + j
      {
        handles := handles + [|submitted|];
        submitted := submitted + [papers[i]];
        i := i + 1;
      }
      assert papers[..i] == papers;
    }
  }
}
