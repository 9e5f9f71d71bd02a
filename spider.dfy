/**
 * `ArxivSpider`: the crawler object. It holds the category list and the ids of the papers
 * it emitted, issues the first listing request of each category, parses each listing page
 * into items and at most one follow-up request, and when it closes hands today's papers to
 * the downloader.
 */
module Spider {

  import opened Basics
  import opened PyStr
  import opened Clock
  import opened Records
  import opened RecordStore
  import opened SkipParam
  import opened Listing
  import opened Downloader

  const DefaultCategories: string := "cs.AI,cs.CL"

  /** `categories.extend([c.strip() for c in xs if c.strip()])` */
  method ExtendStripped(categories: seq<string>, xs: seq<string>) returns (r: seq<string>)
    ensures r == categories + StrippedNonEmpty(xs)
  {
    r := categories;
    var i := 0;
    while i < |xs|
      invariant 0 <= i <= |xs|
      invariant r + StrippedNonEmpty(xs[i..]) == categories + StrippedNonEmpty(xs)
    {
      assert xs[i..][1..] == xs[i + 1..];
      var c := Strip(xs[i]);
      if c != "" {
        r := r + [c];
      }
      i := i + 1;
    }
  }

  /** The `categories` list of one entry, built the way `parse` builds it. */
  method BuildCategories(primarySubjects: seq<string>, subjectTexts: seq<string>) returns (categories: seq<string>)
    ensures categories == Categories(primarySubjects, subjectTexts)
  {
    categories := [];
    if primarySubjects != [] {
      categories := ExtendStripped(categories, primarySubjects);
    }
    assert categories == StrippedNonEmpty(primarySubjects);
    ghost var others := OtherCategories(subjectTexts);
    if subjectTexts != [] {
      var otherCats := Split(Strip(subjectTexts[0]), ";");
      assert others == if |otherCats| > 1 then StrippedNonEmpty(otherCats[1..]) else [];
      if |otherCats| > 1 {
        categories := ExtendStripped(categories, otherCats[1..]);
      } else {
        assert categories == categories + others;
      }
    } else {
      assert categories == categories + others;
    }
  }

  /** The spider's own arguments: `categories='cs.AI,cs.CL'` splits into the two categories. */
  lemma DefaultCategoryList()
    ensures Split(DefaultCategories, ",") == ["cs.AI", "cs.CL"]
  {
    var parts := ["cs.AI", "cs.CL"];
    assert Join(parts, ",") == DefaultCategories;
    assert forall i :: 0 <= i < |parts| ==> ',' !in parts[i];
    SplitJoin(parts, ",");
  }

  /**
   * `closed` selects exactly the papers published on today's date, given the window
   * `[today, today + 1 day)` and valid stored dates.
   */
  lemma TodaysPapers(t: Table, today: DateTime)
    requires Valid(today) && NextDay(today).Some?
    requires forall k :: k in t.papers ==> Valid(t.papers[k].publishedDate)
    ensures forall p :: p in PublishedBetween(t, Midnight(today), NextDay(today).value)
                        <==> p in t.papers.Values && SameDate(p.publishedDate, today)
  {
    forall p | p in t.papers.Values
      ensures (!Before(p.publishedDate, Midnight(today)) && Before(p.publishedDate, NextDay(today).value))
              <==> SameDate(p.publishedDate, today)
    {
      var k :| k in t.papers && t.papers[k] == p;
      DayWindow(p.publishedDate, today);
    }
  }

  class ArxivSpider {
    var categories: seq<string>
    var daysBack: int
    /** `new_paper_ids`: the ids of the emitted items, in emission order. */
    var newPaperIds: seq<string>
    /** The spider's own database session is open. */
    var sessionOpen: bool

    /** `ArxivSpider(categories, days_back)`: the categories are the comma-separated parts. */
    constructor (categoriesArg: string, daysBackArg: int)
      ensures categories == Split(categoriesArg, ",")
      ensures daysBack == daysBackArg && newPaperIds == [] && sessionOpen
    {
      categories := Split(categoriesArg, ",");
      daysBack := daysBackArg;
      newPaperIds := [];
      sessionOpen := true;
    }

    /** `start_requests`: one first-page request per category, in order, each at offset 0. */
    method StartRequests() returns (requests: seq<Request>)
      ensures |requests| == |categories|
      ensures forall i :: 0 <= i < |categories| ==> requests[i] == Request(FirstUrl(categories[i]), categories[i])
      ensures forall i :: 0 <= i < |categories| && '=' !in categories[i] ==> SearchSkip(requests[i].url) == Some(0)
    {
      requests := [];
      var i := 0;
      while i < |categories|
        invariant 0 <= i <= |categories| && |requests| == i
        invariant forall j :: 0 <= j < i ==> requests[j] == Request(FirstUrl(categories[j]), categories[j])
      {
        var category := categories[i];
        var url := ListPrefix + category + ListSuffix;
        requests := requests + [Request(url, category)];
        i := i + 1;
      }
      forall j | 0 <= j < |categories| && '=' !in categories[j]
        ensures SearchSkip(requests[j].url) == Some(0)
      {
        FirstUrlSkip(categories[j]);
      }
    }

    /**
     * `parse(response)`: the items of the new entries, in page order, and the request for
     * the next page; `checks(i, id)` is what `_is_paper_exists` met for pair `i`.
     */
    method Parse(page: Page, checks: (nat, string) -> Existence,
                 parseDate: string -> Option<DateTime>, now: DateTime)
      returns (items: seq<PaperItem>, next: Option<Request>)
      modifies this`newPaperIds
      ensures items == PageItems(page, checks, parseDate, now)
      ensures next == NextRequest(page)
      ensures newPaperIds == old(newPaperIds) + IdsOf(items)
    {
      items, next := [], None;
      if !page.hasArticles {
        return;
      }
      var date := ItemDate(page.header, parseDate, now);
      var total := HeaderTotal(page.header);
      items := ParseEntries(page, checks, date);
      // the pagination: `current_skip + 250 < total` with `total > 0`
      var url := NextPageUrl(page.url, total);
      if url.Some? {
        next := Some(Request(url.value, page.category));
      }
    }

    /** The loop over `enumerate(zip(dt_tags, dd_tags))`: record and collect each new entry's item. */
    method ParseEntries(page: Page, checks: (nat, string) -> Existence, date: DateTime) returns (items: seq<PaperItem>)
      modifies this`newPaperIds
      ensures items == Somes(EntryItems(page, checks, date))
      ensures newPaperIds == old(newPaperIds) + IdsOf(items)
    {
      items := [];
      ghost var opts := EntryItems(page, checks, date);
      ghost var ids0 := newPaperIds;
      var n := PairCount(page);
      var i := 0;
      while i < n
        invariant 0 <= i <= n
        invariant items == Somes(opts[..i])
        invariant newPaperIds == ids0 + IdsOf(items)
      {
        var entry := ParseEntry(page.dts[i], page.dds[i], i, checks, date);
        CollectStep(opts, i, items, ids0, newPaperIds);
        if entry.Some? {
          newPaperIds := newPaperIds + [entry.value.arxivId];
          items := items + [entry.value];
        }
        i := i + 1;
      }
      assert opts[..i] == opts;
    }

    /** The body of the loop for pair `i`: skip an entry without an id or with a known id, else build its item. */
    method ParseEntry(dt: DtTag, dd: DdTag, i: nat, checks: (nat, string) -> Existence, date: DateTime)
      returns (entry: Option<PaperItem>)
      ensures entry == EntryItem(dt, dd, i, checks, date)
      ensures entry.Some? ==> EntryId(dt) == Some(entry.value.arxivId)
    {
      var id := EntryId(dt);
      if id.None? || IsPaperExists(checks(i, id.value)) {
        return None;
      }
      var title := Title(dd.titleTexts);
      var authors := StripEach(dd.authorTexts);
      var summary := Strip(if dd.abstractTexts == [] then "" else dd.abstractTexts[0]);
      var cats := BuildCategories(dd.primarySubjects, dd.subjectTexts);
      entry := Some(PaperItem(id.value, title, authors, [], summary, PdfUrl(id.value), date, cats));
    }

    /**
     * `closed(reason)`: the papers published in `[today, today + 1 day)` are submitted to
     * the downloader when there are any; a failing query (`queryFails`) or the
     * `OverflowError` past 9999-12-31 submits nothing; the session is closed in every case.
     */
    method Closed(db: DBManager, downloader: PaperDownloader, today: DateTime, queryFails: bool)
      returns (started: seq<Paper>)
      requires Valid(today)
      modifies this`sessionOpen, downloader`submitted
      ensures !sessionOpen
      ensures downloader.submitted == old(downloader.submitted) + started
      ensures queryFails || NextDay(today).None? ==> started == []
      ensures !queryFails && NextDay(today).Some? ==>
                && (forall p :: p in started <==> p in PublishedBetween(db.table, Midnight(today), NextDay(today).value))
                && (forall i, j :: 0 <= i < j < |started| ==> started[i] != started[j])
    {
      started := [];
      var tomorrow := NextDay(today);
      if !queryFails && tomorrow.Some? {
        // `.all()`: the selected rows, in the order the database returns them
        var rest := PublishedBetween(db.table, Midnight(today), tomorrow.value);
        ghost var all := rest;
        var papers: seq<Paper> := [];
        while rest != {}
          invariant rest <= all
          invariant forall p :: p in papers <==> p in all && p !in rest
          invariant forall i, j :: 0 <= i < j < |papers| ==> papers[i] != papers[j]
          decreases |rest|
        {
          var p :| p in rest;
          papers := papers + [p];
          rest := rest - {p};
        }
        if papers != [] {
          var handles := downloader.DownloadPapers(papers);
          started := papers;
        }
      }
      sessionOpen := false;
    }
  }
}
