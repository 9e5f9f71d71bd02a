/**
 * The record store behind `DBManager`: the committed `papers` table keyed by `arxiv_id`,
 * the `paper_downloads` table, existence checks, the insert-if-absent gate and the queries
 * the crawler and the downloader issue. A commit makes a state current; a rollback leaves
 * the committed state as it was.
 */
module RecordStore {

  import opened Basics
  import opened PyStr
  import opened Clock
  import opened Records

  const SavedMessage: string := "保存成功"
  const DuplicateMessage: string := "论文已存在"

  /** The committed `papers` table, keyed by `arxiv_id`, with the next autoincrement key. */
  datatype Table = Table(papers: map<string, Paper>, nextId: int)

  /** Every row sits under its own `arxiv_id`, and all primary keys are distinct and already issued. */
  ghost predicate ValidTable(t: Table) {
    && (forall k :: k in t.papers ==> t.papers[k].arxivId == k && t.papers[k].id < t.nextId)
    && (forall a, b :: a in t.papers && b in t.papers && a != b ==> t.papers[a].id != t.papers[b].id)
  }

  /** The rows whose `arxiv_id` column equals `arxivId`. */
  function RowsWithId(t: Table, arxivId: string): set<string> {
    set k | k in t.papers && t.papers[k].arxivId == arxivId
  }

  /** `arxiv_id` is unique: at most one row carries it, and one does exactly when it is a key. */
  lemma UniqueArxivId(t: Table, arxivId: string)
    requires ValidTable(t)
    ensures RowsWithId(t, arxivId) == if arxivId in t.papers then {arxivId} else {}
    ensures |RowsWithId(t, arxivId)| <= 1
  {
    if arxivId in t.papers {
      assert RowsWithId(t, arxivId) == {arxivId};
    } else {
      assert RowsWithId(t, arxivId) == {};
    }
  }

  /** `','.join(categories) if categories else ''` */
  function JoinCategories(cats: seq<string>): string {
    if cats == [] then "" else Join(cats, ",")
  }

  /** The stored category text splits back into the list, unless the list was empty (stored as `''`). */
  lemma CategoriesRoundTrip(cats: seq<string>)
    requires forall i :: 0 <= i < |cats| ==> ',' !in cats[i]
    ensures cats == [] ==> JoinCategories(cats) == ""
    ensures cats != [] ==> Split(JoinCategories(cats), ",") == cats
  {
    if cats != [] {
      SplitJoin(cats, ",");
    }
  }

  /** The row `save_paper` builds from an item; `created_at` is the insert time. */
  function NewRecord(t: Table, data: PaperItem, now: DateTime): Paper {
    Paper(t.nextId, data.arxivId, data.title, data.authors, data.institutions, data.summary,
          Some(data.pdfUrl), data.publishedDate, JoinCategories(data.categories), now)
  }

  /** Where the database raises during one `save_paper` call, if it does. */
  datatype Fault = NoFault | CheckRaises(error: string) | CommitRaises(error: string)

  datatype SaveResult = SaveResult(table: Table, ok: bool, message: string)

  /**
   * `save_paper` on committed state `t`: insert when the id is absent, report a duplicate
   * otherwise; an exception from the existence check or from the commit rolls back and
   * reports `str(e)`.
   */
  function Save(t: Table, data: PaperItem, now: DateTime, fault: Fault): (r: SaveResult)
    requires ValidTable(t)
    ensures ValidTable(r.table)
    ensures r.ok <==> data.arxivId !in t.papers && fault == NoFault
    ensures r.ok ==> r.message == SavedMessage
    ensures r.ok ==> r.table.papers.Keys == t.papers.Keys + {data.arxivId}
    ensures r.ok ==> r.table.papers[data.arxivId] == NewRecord(t, data, now) && r.table.nextId == t.nextId + 1
    ensures r.ok ==> forall k :: k in t.papers ==> r.table.papers[k] == t.papers[k]
    ensures !r.ok ==> r.table == t
    ensures !fault.CheckRaises? && data.arxivId in t.papers ==> r.message == DuplicateMessage
    ensures fault.CheckRaises? ==> r.message == fault.error
    ensures fault.CommitRaises? && data.arxivId !in t.papers ==> r.message == fault.error
  {
    if fault.CheckRaises? then SaveResult(t, false, fault.error)
    else if data.arxivId in t.papers then SaveResult(t, false, DuplicateMessage)
    else if fault.CommitRaises? then SaveResult(t, false, fault.error)
    else SaveResult(Table(t.papers[data.arxivId := NewRecord(t, data, now)], t.nextId + 1), true, SavedMessage)
  }

  /** Saving the same paper twice: the first call inserts, the second reports the duplicate and writes nothing. */
  lemma SaveTwice(t: Table, data: PaperItem, now1: DateTime, now2: DateTime)
    requires ValidTable(t) && data.arxivId !in t.papers
    ensures var r1 := Save(t, data, now1, NoFault);
            var r2 := Save(r1.table, data, now2, NoFault);
            && r1.ok && !r2.ok && r2.message == DuplicateMessage
            && r2.table == r1.table
            && |r2.table.papers| == |t.papers| + 1
            && |RowsWithId(r2.table, data.arxivId)| == 1
  {
    var r1 := Save(t, data, now1, NoFault);
    UniqueArxivId(r1.table, data.arxivId);
  }

  /**
   * The categories column of a saved paper reads back as the item's list: `''` for an empty
   * list, otherwise text that splits on `,` into the list (no category holds a comma).
   */
  lemma SavedCategoriesReadBack(t: Table, data: PaperItem, now: DateTime)
    requires ValidTable(t) && data.arxivId !in t.papers
    requires forall i :: 0 <= i < |data.categories| ==> ',' !in data.categories[i]
    ensures Save(t, data, now, NoFault).ok
    ensures data.categories == [] ==> Save(t, data, now, NoFault).table.papers[data.arxivId].categories == ""
    ensures data.categories != [] ==>
              Split(Save(t, data, now, NoFault).table.papers[data.arxivId].categories, ",") == data.categories
  {
    CategoriesRoundTrip(data.categories);
  }

  /** The first row of `rows` at or after `k` for `paperId`, or -1. */
  function FirstDownloadFrom(rows: seq<PaperDownload>, paperId: int, k: nat): (r: int)
    requires k <= |rows|
    decreases |rows| - k
    ensures r == -1 || (k <= r < |rows| && rows[r].paperId == paperId)
    ensures forall j :: k <= j < |rows| && (r == -1 || j < r) ==> rows[j].paperId != paperId
  {
    if k == |rows| then -1
    else if rows[k].paperId == paperId then k
    else FirstDownloadFrom(rows, paperId, k + 1)
  }

  /** `query(PaperDownload).filter_by(paper_id=...).first()`: the index of the first matching row, or -1. */
  function FirstDownload(rows: seq<PaperDownload>, paperId: int): (r: int)
    ensures r == -1 || (0 <= r < |rows| && rows[r].paperId == paperId)
    ensures forall j :: 0 <= j < |rows| && (r == -1 || j < r) ==> rows[j].paperId != paperId
  {
    FirstDownloadFrom(rows, paperId, 0)
  }

  /** `query(Paper).filter(published_date >= start, published_date < end).all()`, as a set of rows. */
  function PublishedBetween(t: Table, start: DateTime, end: DateTime): (r: set<Paper>)
    ensures forall p :: p in r <==> p in t.papers.Values && !Before(p.publishedDate, start) && Before(p.publishedDate, end)
  {
    set k | k in t.papers && !Before(t.papers[k].publishedDate, start) && Before(t.papers[k].publishedDate, end)
      :: t.papers[k]
  }

  /** Some paper row has primary key `id`: the target of the `paper_id` foreign key exists. */
  ghost predicate HasPaperId(t: Table, id: int) {
    exists k :: k in t.papers && t.papers[k].id == id
  }

  /** `paper_id` of every download row references the `id` of a paper row. */
  ghost predicate ValidDownloads(t: Table, rows: seq<PaperDownload>) {
    forall i :: 0 <= i < |rows| ==> HasPaperId(t, rows[i].paperId)
  }

  /** A table that keeps every row of `t` keeps every foreign-key target of `t`. */
  lemma HasPaperIdGrows(t: Table, t2: Table, rows: seq<PaperDownload>)
    requires forall k :: k in t.papers ==> k in t2.papers && t2.papers[k] == t.papers[k]
    requires ValidDownloads(t, rows)
    ensures ValidDownloads(t2, rows)
  {
    forall i | 0 <= i < |rows|
      ensures HasPaperId(t2, rows[i].paperId)
    {
      assert HasPaperId(t, rows[i].paperId);
      var k :| k in t.papers && t.papers[k].id == rows[i].paperId;
      assert k in t2.papers && t2.papers[k].id == rows[i].paperId;
    }
  }

  /** The database as the crawler and the downloader see it through their sessions. */
  class DBManager {
    var table: Table
    var downloads: seq<PaperDownload>
    /** Every committed state of a download row, in commit order. */
    ghost var downloadCommits: seq<PaperDownload>

    ghost predicate Valid()
      reads this
    {
      ValidTable(table) && ValidDownloads(table, downloads)
    }

    /** A session on the existing database, whose tables hold what earlier runs committed. */
    constructor (t0: Table, rows0: seq<PaperDownload>)
      requires ValidTable(t0) && ValidDownloads(t0, rows0)
      ensures Valid()
      ensures table == t0 && downloads == rows0 && downloadCommits == []
    {
      table := t0;
      downloads := rows0;
      downloadCommits := [];
    }

    /** `paper_exists`: some committed paper row has this `arxiv_id`. */
    function PaperExists(arxivId: string): (r: bool)
      reads this
      requires Valid()
      ensures r <==> exists k :: k in table.papers && table.papers[k].arxivId == arxivId
    {
      arxivId in table.papers
    }

    /** `save_paper`: the insert-if-absent gate, committed immediately. */
    method SavePaper(data: PaperItem, now: DateTime, fault: Fault) returns (ok: bool, message: string)
      requires Valid()
      modifies this`table
      ensures Valid()
      ensures SaveResult(table, ok, message) == Save(old(table), data, now, fault)
      ensures ok ==> PaperExists(data.arxivId)
    {
      if fault.CheckRaises? {
        // paper_exists raised: roll back, nothing was added
        return false, fault.error;
      }
      if !PaperExists(data.arxivId) {
        var paper := NewRecord(table, data, now);
        if fault.CommitRaises? {
          // the commit raised: the rollback discards the pending insert
          return false, fault.error;
        }
        ghost var t0 := table;
        table := Table(table.papers[data.arxivId := paper], table.nextId + 1);
        HasPaperIdGrows(t0, table, downloads);
        ok, message := true, SavedMessage;
      } else {
        ok, message := false, DuplicateMessage;
      }
    }

    /** Writes one download row (appending it when `idx` is the table length) and commits. */
    method CommitDownload(idx: nat, row: PaperDownload)
      requires idx <= |downloads| && HasPaperId(table, row.paperId)
      modifies this`downloads, this`downloadCommits
      ensures downloads == if idx == |old(downloads)| then old(downloads) + [row] else old(downloads)[idx := row]
      ensures downloadCommits == old(downloadCommits) + [row]
    {
      if idx == |downloads| {
        downloads := downloads + [row];
      } else {
        downloads := downloads[idx := row];
      }
      downloadCommits := downloadCommits + [row];
    }
  }
}
