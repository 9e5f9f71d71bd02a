/**
 * The persisted records: a paper row (`papers` table), the item the spider yields for it,
 * and a download-status row (`paper_downloads` table) with its column defaults.
 */
module Records {

  import opened Basics
  import opened Clock

  /** One byte of a downloaded body. */
  newtype byte = x: int | 0 <= x < 256

  /** A row of `papers`. `authors` and `institutions` are kept as lists (the JSON text is a library encoding). */
  datatype Paper = Paper(
    id: int,                  // autoincrement primary key
    arxivId: string,          // unique, not null
    title: string,
    authors: seq<string>,
    institutions: seq<string>,
    summary: string,           // the `abstract` column
    pdfUrl: Option<string>,   // nullable
    publishedDate: DateTime,
    categories: string,       // comma-separated
    createdAt: DateTime)      // defaults to the insert time

  /** What the spider yields for one new paper (the fields of `PaperItem`). */
  datatype PaperItem = PaperItem(
    arxivId: string,
    title: string,
    authors: seq<string>,
    institutions: seq<string>,
    summary: string,           // the `abstract` field
    pdfUrl: string,
    publishedDate: DateTime,
    categories: seq<string>)

  /** The four documented values of `download_status`. */
  datatype Status = Pending | Downloading | Completed | Failed

  /** The text stored in the `download_status` column. */
  function StatusText(s: Status): (t: string)
    ensures 0 < |t| <= 20
    ensures ParseStatus(t) == Some(s)
  {
    match s
    case Pending => "pending"
    case Downloading => "downloading"
    case Completed => "completed"
    case Failed => "failed"
  }

  /** Reads a `download_status` column back; any text other than the four values is `None`. */
  function ParseStatus(t: string): Option<Status>
  {
    if t == "pending" then Some(Pending)
    else if t == "downloading" then Some(Downloading)
    else if t == "completed" then Some(Completed)
    else if t == "failed" then Some(Failed)
    else None
  }

  /** The column text identifies the status: distinct statuses are stored as distinct texts. */
  lemma StatusTextInjective(a: Status, b: Status)
    ensures StatusText(a) == StatusText(b) ==> a == b
  {
    assert ParseStatus(StatusText(a)) == Some(a);
  }

  /** A row of `paper_downloads`; `paperId` refers to `Paper.id`. */
  datatype PaperDownload = PaperDownload(
    paperId: int,
    status: Status,
    progress: real,
    path: Option<string>,
    error: Option<string>)

  /** `PaperDownload(paper_id=...)`: the column defaults of a fresh row. */
  function NewPaperDownload(paperId: int): (r: PaperDownload)
    ensures r.paperId == paperId
    ensures r.status == Pending && r.progress == 0.0
    ensures r.path == None && r.error == None
  {
    PaperDownload(paperId, Pending, 0.0, None, None)
  }
}
