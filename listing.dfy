/**
 * What `ArxivSpider.parse` computes from one listing page, over the strings its selectors
 * return: the header's date and entry count, the `dt`/`dd` pairs and the item built from
 * each new pair, and the request for the next page of 250 entries.
 */
module Listing {

  import opened Basics
  import opened PyStr
  import opened Clock
  import opened Records
  import opened SkipParam

  const ItemsPerPage: nat := 250
  const AbsMarker: string := "/abs/"
  const TitleLabel: string := "Title:"
  const ListPrefix: string := "https://arxiv.org/list/"
  const ListSuffix: string := "/recent?skip=0&show=250"
  const PdfPrefix: string := "https://arxiv.org/pdf/"

  /** A `dt` block: the `href` of each of its `a` elements, in document order. */
  datatype DtTag = DtTag(hrefs: seq<string>)

  /** A `dd` block: the text nodes each selector returns, in document order. */
  datatype DdTag = DdTag(
    titleTexts: seq<string>,       // div.meta div.list-title::text
    authorTexts: seq<string>,      // div.meta div.list-authors a::text
    abstractTexts: seq<string>,    // p.mathjax::text
    primarySubjects: seq<string>,  // div.list-subjects span.primary-subject::text
    subjectTexts: seq<string>)     // div.list-subjects::text

  /** A listing response: its URL, the category in its meta, and what the selectors see. */
  datatype Page = Page(
    url: string,
    category: string,
    hasArticles: bool,             // dl#articles is present
    header: string,                // first text of the h3 mentioning "entries", or ""
    dts: seq<DtTag>,
    dds: seq<DdTag>)

  datatype Request = Request(url: string, category: string)

  /** What `paper_exists` did when asked about one entry's id: answered, or raised. */
  datatype Existence = Answer(present: bool) | Raises(error: string)

  // ---------------------------------------------------------------------
  // The header line
  // ---------------------------------------------------------------------

  /** `date_entries_info.split('(')[0].strip()` */
  function HeaderDatePart(h: string): string {
    Strip(Split(h, "(")[0])
  }

  /** The date part is whatever precedes the first `(`, stripped. */
  lemma DatePartBeforeParen(d: string, rest: string)
    requires '(' !in d
    ensures HeaderDatePart(d + "(" + rest) == Strip(d)
  {
    SplitAfter(d, "(", rest);
  }

  /**
   * The total entry count: the integer between the first `of` after `showing first` and
   * the following `entries`; 0 when a phrase is missing or `int()` raises `ValueError`.
   */
  function HeaderTotal(h: string): int {
    if !Contains(h, "showing first") then 0
    else EntriesCount(Split(h, "showing first")[1])
  }

  /** The count after `showing first`: the integer between the first `of` and the next `entries`. */
  function EntriesCount(part: string): int {
    if !Contains(part, "of") then 0
    else
      match PyInt(Split(Split(part, "of")[1], "entries")[0])
      case Some(v) => v
      case None => 0
  }

  /**
   * The phrase `showing first` is found at its first occurrence, and the count is read from the
   * text up to the next one. The general condition is "no `showing first` before the phrase and
   * none after it"; no `s` in `pre` and no `h` in `b` are simpler conditions that imply it.
   */
  lemma TotalAfterShowing(pre: string, b: string)
    requires 's' !in pre && 'h' !in b
    ensures HeaderTotal(pre + "showing first" + b) == EntriesCount(b)
  {
    SplitAfter(pre, "showing first", b);
    NotContainsChar(b, "showing first", 'h');
  }

  /** `of` is found after the first count, and the text up to `entries` is the second. */
  lemma CountBetweenOfAndEntries(a2: string, a3: string, post: string)
    requires 'o' !in a2 && 'f' !in a3 && 'f' !in post && 'e' !in a3
    ensures EntriesCount(a2 + "of" + (a3 + "entries" + post)) == PyInt(a3).GetOr(0)
  {
    var b2 := a3 + "entries" + post;
    assert 'f' !in b2;
    SplitAfter(a2, "of", b2);
    NotContainsChar(b2, "of", 'f');
    SplitAfter(a3, "entries", post);
  }

  lemma Regroup(pre: string, ks: string, ns: string, post: string)
    ensures pre + "showing first " + ks + " of " + ns + " entries" + post
         == pre + "showing first" + (" " + ks + " " + "of" + (" " + ns + " " + "entries" + post))
  {
    assert "showing first " == "showing first" + " ";
    assert " of " == " " + "of" + " ";
    assert " entries" == " " + "entries";
  }

  lemma NotInConcat(a: string, b: string, c: char)
    requires c !in a && c !in b
    ensures c !in a + b
  {
    forall i | 0 <= i < |a + b| ensures (a + b)[i] != c {
      if i < |a| {
        assert (a + b)[i] == a[i];
      } else {
        assert (a + b)[i] == b[i - |a|];
      }
    }
  }

  /** A character that is not a digit does not occur in a string of digits. */
  lemma NotInDigits(s: string, c: char)
    requires AllDigits(s) && !IsDigit(c)
    ensures c !in s
  {
  }

  lemma NoHInCounts(ks: string, ns: string, post: string)
    requires AllDigits(ks) && AllDigits(ns) && 'h' !in post
    ensures 'h' !in " " + ks + " " + "of" + (" " + ns + " " + "entries" + post)
  {
    NotInDigits(ks, 'h');
    NotInDigits(ns, 'h');
    NotInConcat(" ", ks, 'h');
    NotInConcat(" " + ks, " ", 'h');
    NotInConcat(" " + ks + " ", "of", 'h');
    NotInConcat(" ", ns, 'h');
    NotInConcat(" " + ns, " ", 'h');
    NotInConcat(" " + ns + " ", "entries", 'h');
    NotInConcat(" " + ns + " " + "entries", post, 'h');
    NotInConcat(" " + ks + " " + "of", " " + ns + " " + "entries" + post, 'h');
  }

  /**
   * `showing first K of N entries` after a prefix gives total `N`. The general condition is
   * that no `showing first` comes before or after the phrase; no `s` in `pre` and no `h` in
   * `post` are simpler conditions that imply it, and no `f` in `post` is a further restriction
   * that keeps the proof short.
   */
  lemma HeaderTotalShowing(pre: string, k: nat, n: nat, post: string)
    requires 's' !in pre && 'h' !in post && 'f' !in post
    ensures HeaderTotal(pre + "showing first " + NatToString(k) + " of " + NatToString(n) + " entries" + post) == n
  {
    var ks, ns := NatToString(k), NatToString(n);
    NotInDigits(ks, 'o');
    NotInDigits(ns, 'f');
    NotInDigits(ns, 'e');
    var a2 := " " + ks + " ";
    var a3 := " " + ns + " ";
    Regroup(pre, ks, ns, post);
    NoHInCounts(ks, ns, post);
    TotalAfterShowing(pre, a2 + "of" + (a3 + "entries" + post));
    CountBetweenOfAndEntries(a2, a3, post);
    assert AllSpace(" ");
    PyIntOfNatToString(" ", n, " ");
  }

  lemma NatText250And438()
    ensures NatToString(250) == "250" && NatToString(438) == "438"
  {
    assert NatToString(2) == "2" && NatToString(25) == "25";
    assert NatToString(4) == "4" && NatToString(43) == "43";
  }

  /** The header arXiv prints above a listing of 438 entries (`Fri, 5 Jan 2024 (showing first 250 of 438 entries )`). */
  lemma HeaderTotal438()
    ensures HeaderTotal("Fri, 5 Jan 2024 (" + "showing first " + "250" + " of " + "438" + " entries" + " )") == 438
  {
    NatText250And438();
    HeaderTotalShowing("Fri, 5 Jan 2024 (", 250, 438, " )");
  }

  /** `datetime.replace(hour=0, minute=0, second=0)`: only the microseconds survive. */
  function ClearTime(d: DateTime): (r: DateTime)
    ensures SameDate(r, d) && 0 <= r.micros < 1_000_000
    ensures r.micros % 1_000_000 == d.micros % 1_000_000
  {
    d.(micros := d.micros % 1_000_000)
  }

  /**
   * `current_date`: `None` without a header; otherwise the parsed date part, or `now`
   * when `strptime` raises `ValueError` (the page is still processed).
   */
  function PageDate(h: string, parseDate: string -> Option<DateTime>, now: DateTime): Option<DateTime> {
    if h == "" then None
    else
      match parseDate(HeaderDatePart(h))
      case Some(d) => Some(ClearTime(d))
      case None => Some(now)
  }

  /** `current_date if current_date else datetime.utcnow()`: the date every item of the page gets. */
  function ItemDate(h: string, parseDate: string -> Option<DateTime>, now: DateTime): DateTime {
    PageDate(h, parseDate, now).GetOr(now)
  }

  // ---------------------------------------------------------------------
  // One entry
  // ---------------------------------------------------------------------

  /** Index of the first href containing `/abs/` at or after `k`, or -1. */
  function FirstAbsFrom(hrefs: seq<string>, k: nat): (r: int)
    requires k <= |hrefs|
    decreases |hrefs| - k
    ensures r == -1 || (k <= r < |hrefs| && Contains(hrefs[r], AbsMarker))
    ensures forall j :: k <= j < |hrefs| && (r == -1 || j < r) ==> !Contains(hrefs[j], AbsMarker)
  {
    if k == |hrefs| then -1
    else if Contains(hrefs[k], AbsMarker) then k
    else FirstAbsFrom(hrefs, k + 1)
  }

  /** `dt.css('a[href*="/abs/"]::attr(href)').get('')` */
  function AbsLink(hrefs: seq<string>): (r: string)
    ensures r == "" <==> forall j :: 0 <= j < |hrefs| ==> !Contains(hrefs[j], AbsMarker)
    ensures r != "" ==> Contains(r, AbsMarker)
    ensures r != "" ==> 0 <= FirstAbsFrom(hrefs, 0) && r == hrefs[FirstAbsFrom(hrefs, 0)]
  {
    var i := FirstAbsFrom(hrefs, 0);
    if i < 0 then ""
    else hrefs[i]
  }

  /** `arxiv_id_link.split('/abs/')[1]`, guarded: no link or an empty id skips the entry. */
  function EntryId(dt: DtTag): Option<string> {
    var link := AbsLink(dt.hrefs);
    if link == "" then None
    else
      var id := Split(link, AbsMarker)[1];
      if id == "" then None else Some(id)
  }

  /**
   * The id is the text right after the first `/abs/` of the link, up to the end or to
   * the next `/abs/`, and contains no `/abs/` itself.
   */
  lemma IdAfterFirstMarker(link: string)
    requires Contains(link, AbsMarker)
    ensures var i := Find(link, AbsMarker);
            var id := Split(link, AbsMarker)[1];
            var rest := link[i + |AbsMarker|..];
            && !Contains(id, AbsMarker)
            && |id| <= |rest| && rest[..|id|] == id
            && (|id| == |rest| || StartsAt(rest, AbsMarker, |id|))
  {
    var i := Find(link, AbsMarker);
    var rest := link[i + |AbsMarker|..];
    assert Split(link, AbsMarker) == [link[..i]] + Split(rest, AbsMarker);
    if Contains(rest, AbsMarker) {
      var j := Find(rest, AbsMarker);
      assert rest[..j] == Split(rest, AbsMarker)[0];
    }
  }

  /** A relative `/abs/<id>` link yields `<id>`. */
  lemma IdOfAbsPath(id: string)
    requires id != [] && !Contains(id, AbsMarker)
    ensures EntryId(DtTag([AbsMarker + id])) == Some(id)
  {
    var link := AbsMarker + id;
    assert link == [] + AbsMarker + id;
    assert StartsAt(link, AbsMarker, 0);
    SplitAfter([], AbsMarker, id);
    assert Split(link, AbsMarker)[1] == id;
  }

  /** `''.join(title_element).replace('Title:', '').strip()` */
  function Title(texts: seq<string>): string {
    Strip(RemoveAll(Join(texts, ""), TitleLabel))
  }

  /** A labelled title text gives the title without the label and the padding around it. */
  lemma TitleOfLabelled(w1: string, t: string, w2: string)
    requires AllSpace(w1) && AllSpace(w2) && NoEdgeSpace(t)
    requires !Contains(t + w2, TitleLabel)
    ensures Title([w1 + TitleLabel + t + w2]) == t
  {
    var s := w1 + TitleLabel + t + w2;
    assert 'T' !in w1 by {
      assert !IsSpace('T');
    }
    assert RemoveAll(s, TitleLabel) == w1 + t + w2 by {
      assert s == w1 + TitleLabel + (t + w2);
      RemoveOnlyOccurrence(w1, TitleLabel, t + w2);
      assert w1 + (t + w2) == w1 + t + w2;
    }
    assert Join([s], "") == s;
    StripPadded(w1, t, w2);
  }

  /** `[a.strip() for a in texts]` */
  function StripEach(texts: seq<string>): (r: seq<string>)
    ensures |r| == |texts|
    ensures forall i :: 0 <= i < |texts| ==> r[i] == Strip(texts[i])
  {
    if texts == [] then [] else [Strip(texts[0])] + StripEach(texts[1..])
  }

  /** `[c.strip() for c in xs if c.strip()]` */
  function StrippedNonEmpty(xs: seq<string>): (r: seq<string>)
    ensures |r| <= |xs|
    ensures forall i :: 0 <= i < |r| ==> r[i] != "" && NoEdgeSpace(r[i])
  {
    if xs == [] then []
    else
      var rest := StrippedNonEmpty(xs[1..]);
      var c := Strip(xs[0]);
      if c != "" then [c] + rest else rest
  }

  /** The first entry's contribution, then the rest's. */
  lemma StrippedNonEmptyCons(xs: seq<string>)
    requires xs != []
    ensures StrippedNonEmpty(xs) == (if Strip(xs[0]) != "" then [Strip(xs[0])] else []) + StrippedNonEmpty(xs[1..])
  {
  }

  /** Appending an entry appends its stripped form, when that is non-empty: the kept entries stay in input order. */
  lemma {:induction false} StrippedNonEmptySnoc(xs: seq<string>, x: string)
    ensures StrippedNonEmpty([]) == []
    ensures StrippedNonEmpty(xs + [x]) == StrippedNonEmpty(xs) + (if Strip(x) != "" then [Strip(x)] else [])
    decreases |xs|
  {
    var ys := xs + [x];
    if xs != [] {
      assert ys[0] == xs[0] && ys[1..] == xs[1..] + [x];
      StrippedNonEmptySnoc(xs[1..], x);
      StrippedNonEmptyCons(ys);
      StrippedNonEmptyCons(xs);
    } else {
      assert ys == [x] && ys[1..] == [];
      StrippedNonEmptyCons(ys);
    }
  }

  /** Stripping adds no character: a character absent from every input is absent from every output. */
  lemma {:induction false} StrippedNonEmptyOmits(xs: seq<string>, ch: char)
    requires forall i :: 0 <= i < |xs| ==> ch !in xs[i]
    ensures forall i :: 0 <= i < |StrippedNonEmpty(xs)| ==> ch !in StrippedNonEmpty(xs)[i]
  {
    if xs != [] {
      assert forall i :: 0 <= i < |xs| - 1 ==> xs[1..][i] == xs[i + 1];
      StrippedNonEmptyOmits(xs[1..], ch);
      StripInside(xs[0]);
    }
  }

  /** Entries that are already stripped and non-empty pass through unchanged. */
  lemma {:induction false} StrippedNonEmptyKeeps(xs: seq<string>)
    requires forall i :: 0 <= i < |xs| ==> xs[i] != "" && NoEdgeSpace(xs[i])
    ensures StrippedNonEmpty(xs) == xs
  {
    if xs != [] {
      StrippedNonEmptyKeeps(xs[1..]);
      assert [xs[0]] + xs[1..] == xs;
    }
  }

  /** Nothing is kept exactly when every entry strips to the empty string. */
  lemma {:induction false} StrippedNonEmptyBlank(xs: seq<string>)
    ensures (forall i :: 0 <= i < |xs| ==> Strip(xs[i]) == "") <==> StrippedNonEmpty(xs) == []
  {
    if xs != [] {
      StrippedNonEmptyBlank(xs[1..]);
      assert forall i :: 0 <= i < |xs| - 1 ==> xs[1..][i] == xs[i + 1];
      if Strip(xs[0]) == "" {
        assert (forall i :: 0 <= i < |xs| ==> Strip(xs[i]) == "")
           <==> (forall i :: 0 <= i < |xs| - 1 ==> Strip(xs[1..][i]) == "");
      }
    }
  }

  /** The segments after the first `;` of the first subjects text, stripped and non-empty. */
  function OtherCategories(subjectTexts: seq<string>): seq<string> {
    if subjectTexts == [] then []
    else
      var others := Split(Strip(subjectTexts[0]), ";");
      if |others| > 1 then StrippedNonEmpty(others[1..]) else []
  }

  /** The `categories` list of an item: primary subjects first, then the other subjects. */
  function Categories(primary: seq<string>, subjectTexts: seq<string>): seq<string> {
    StrippedNonEmpty(primary) + OtherCategories(subjectTexts)
  }

  /** Without a `;` in the first subjects text only the primary subjects are kept; with one, the segments after it follow. */
  lemma CategoriesWithoutSemicolon(primary: seq<string>, subjectTexts: seq<string>)
    requires subjectTexts != []
    ensures ';' !in Strip(subjectTexts[0]) ==> Categories(primary, subjectTexts) == StrippedNonEmpty(primary)
    ensures ';' in Strip(subjectTexts[0]) ==>
              OtherCategories(subjectTexts) == StrippedNonEmpty(Split(Strip(subjectTexts[0]), ";")[1..])
  {
    ContainsSingle(Strip(subjectTexts[0]), ";");
  }

  /** Every category is non-empty and stripped; the ones after the `;` hold no `;`. */
  lemma CategoriesShape(primary: seq<string>, subjectTexts: seq<string>)
    ensures forall c :: c in Categories(primary, subjectTexts) ==> c != "" && NoEdgeSpace(c)
    ensures forall c :: c in OtherCategories(subjectTexts) ==> ';' !in c
  {
    if subjectTexts != [] {
      var others := Split(Strip(subjectTexts[0]), ";");
      if |others| > 1 {
        var tail := others[1..];
        forall i | 0 <= i < |tail| ensures ';' !in tail[i] {
          assert tail[i] == others[i + 1];
          ContainsSingle(others[i + 1], ";");
        }
        StrippedNonEmptyOmits(tail, ';');
      }
    }
  }

  /** The characters of `s.strip()` all come from `s`. */
  lemma StripInside(s: string)
    ensures forall c :: c in Strip(s) ==> c in s
  {
    var l := LStrip(s);
    var r := RStrip(l);
    assert Strip(s) == r;
    forall c | c in r ensures c in s {
      var i :| 0 <= i < |r| && r[i] == c;
      assert r[i] == l[i];
      assert l[i] == s[|s| - |l| + i];
    }
  }

  /** `f'https://arxiv.org/pdf/{arxiv_id}.pdf'` */
  function PdfUrl(id: string): (r: string)
    ensures |r| == |PdfPrefix| + |id| + 4
    ensures r[..|PdfPrefix|] == PdfPrefix && r[|r| - 4..] == ".pdf"
    ensures r[|PdfPrefix|..|r| - 4] == id
  {
    var r := PdfPrefix + id + ".pdf";
    assert r[..|PdfPrefix|] == PdfPrefix && r[|r| - 4..] == ".pdf";
    assert r[|PdfPrefix|..|r| - 4] == id;
    r
  }

  /** The PDF URL determines the id. */
  lemma PdfUrlInjective(a: string, b: string)
    ensures PdfUrl(a) == PdfUrl(b) <==> a == b
  {
    if PdfUrl(a) == PdfUrl(b) {
      assert a == PdfUrl(a)[|PdfPrefix|..|PdfUrl(a)| - 4];
      assert b == PdfUrl(b)[|PdfPrefix|..|PdfUrl(b)| - 4];
    }
  }

  /** The item `parse` yields for a new entry. */
  function MakeItem(id: string, dd: DdTag, date: DateTime): (r: PaperItem)
    ensures r.arxivId == id && r.pdfUrl == PdfUrl(id) && r.publishedDate == date
    ensures r.institutions == []
    ensures r.title == Title(dd.titleTexts)
    ensures r.authors == StripEach(dd.authorTexts)
    ensures r.summary == Strip(if dd.abstractTexts == [] then "" else dd.abstractTexts[0])
    ensures r.categories == Categories(dd.primarySubjects, dd.subjectTexts)
  {
    PaperItem(id, Title(dd.titleTexts), StripEach(dd.authorTexts), [],
              Strip(if dd.abstractTexts == [] then "" else dd.abstractTexts[0]),
              PdfUrl(id), date, Categories(dd.primarySubjects, dd.subjectTexts))
  }

  /** `_is_paper_exists`: the store's answer, and "absent" when the check raises (fail-open). */
  function IsPaperExists(e: Existence): (r: bool)
    ensures r <==> e == Answer(true)
  {
    match e
    case Answer(present) => present
    case Raises(_) => false
  }

  // ---------------------------------------------------------------------
  // The page
  // ---------------------------------------------------------------------

  /** `zip(dt_tags, dd_tags)` stops at the shorter list. */
  function PairCount(page: Page): (n: nat)
    ensures n <= |page.dts| && n <= |page.dds|
    ensures n == |page.dts| || n == |page.dds|
  {
    if |page.dts| < |page.dds| then |page.dts| else |page.dds|
  }

  /** What pair `i` contributes: an item when it has an id the store did not report present. */
  function EntryItem(dt: DtTag, dd: DdTag, i: nat, checks: (nat, string) -> Existence, date: DateTime): Option<PaperItem> {
    match EntryId(dt)
    case None => None
    case Some(id) => if IsPaperExists(checks(i, id)) then None else Some(MakeItem(id, dd, date))
  }

  /** The contribution of each zipped pair, in page order. */
  function EntryItems(page: Page, checks: (nat, string) -> Existence, date: DateTime): (r: seq<Option<PaperItem>>)
    ensures |r| == PairCount(page)
    ensures forall i :: 0 <= i < |r| ==> r[i] == EntryItem(page.dts[i], page.dds[i], i, checks, date)
  {
    seq(PairCount(page), i requires 0 <= i < PairCount(page) => EntryItem(page.dts[i], page.dds[i], i, checks, date))
  }

  /** The items `parse` yields for a page; `checks(i, id)` is the existence check of pair `i`. */
  function PageItems(page: Page, checks: (nat, string) -> Existence,
                     parseDate: string -> Option<DateTime>, now: DateTime): seq<PaperItem>
  {
    if !page.hasArticles then []
    else Somes(EntryItems(page, checks, ItemDate(page.header, parseDate, now)))
  }

  function IdsOf(items: seq<PaperItem>): (ids: seq<string>)
    ensures |ids| == |items| && forall k :: 0 <= k < |items| ==> ids[k] == items[k].arxivId
  {
    if items == [] then [] else IdsOf(items[..|items| - 1]) + [items[|items| - 1].arxivId]
  }

  /** Appending an item appends its id. */
  lemma IdsOfSnoc(items: seq<PaperItem>, item: PaperItem)
    ensures IdsOf(items + [item]) == IdsOf(items) + [item.arxivId]
  {
    assert (items + [item])[..|items|] == items;
  }

  /** One step of collecting the items of `opts` and appending their ids to `ids0`. */
  lemma CollectStep(opts: seq<Option<PaperItem>>, i: nat, items: seq<PaperItem>, ids0: seq<string>, ids: seq<string>)
    requires i < |opts| && items == Somes(opts[..i]) && ids == ids0 + IdsOf(items)
    ensures opts[i].Some? ==> items + [opts[i].value] == Somes(opts[..i + 1])
                              && ids + [opts[i].value.arxivId] == ids0 + IdsOf(items + [opts[i].value])
    ensures opts[i].None? ==> items == Somes(opts[..i + 1])
  {
    SomesSnoc(opts, i);
    if opts[i].Some? {
      IdsOfSnoc(items, opts[i].value);
    }
  }

  /** Each item comes from a pair whose id the store did not report present, and is that pair's item. */
  lemma ItemFromAbsentEntry(page: Page, checks: (nat, string) -> Existence,
                            parseDate: string -> Option<DateTime>, now: DateTime, k: nat)
    requires k < |PageItems(page, checks, parseDate, now)|
    ensures var item := PageItems(page, checks, parseDate, now)[k];
            exists i :: 0 <= i < PairCount(page) && EntryId(page.dts[i]) == Some(item.arxivId)
                    && !IsPaperExists(checks(i, item.arxivId))
                    && item == MakeItem(item.arxivId, page.dds[i], ItemDate(page.header, parseDate, now))
  {
    var opts := EntryItems(page, checks, ItemDate(page.header, parseDate, now));
    SomesFrom(opts, k);
  }

  /** Every pair with an id the store did not report present contributes its item. */
  lemma AbsentEntryEmitted(page: Page, checks: (nat, string) -> Existence,
                           parseDate: string -> Option<DateTime>, now: DateTime, i: nat)
    requires page.hasArticles && i < PairCount(page)
    requires EntryId(page.dts[i]).Some? && !IsPaperExists(checks(i, EntryId(page.dts[i]).value))
    ensures MakeItem(EntryId(page.dts[i]).value, page.dds[i], ItemDate(page.header, parseDate, now))
            in PageItems(page, checks, parseDate, now)
  {
    var opts := EntryItems(page, checks, ItemDate(page.header, parseDate, now));
    SomesHas(opts, i);
  }

  /** With a truthful store, no id the store holds is emitted. */
  lemma KnownIdsNotEmitted(page: Page, checks: (nat, string) -> Existence,
                           parseDate: string -> Option<DateTime>, now: DateTime, known: set<string>)
    requires forall i, id :: checks(i, id) == Answer(id in known)
    ensures forall item :: item in PageItems(page, checks, parseDate, now) ==> item.arxivId !in known
  {
    var items := PageItems(page, checks, parseDate, now);
    forall item | item in items ensures item.arxivId !in known {
      var k :| 0 <= k < |items| && items[k] == item;
      ItemFromAbsentEntry(page, checks, parseDate, now, k);
    }
  }

  /** An existence check that raises lets the entry through. */
  lemma CheckFailureIsNew(page: Page, checks: (nat, string) -> Existence,
                          parseDate: string -> Option<DateTime>, now: DateTime, i: nat)
    requires page.hasArticles && i < PairCount(page) && EntryId(page.dts[i]).Some?
    requires checks(i, EntryId(page.dts[i]).value).Raises?
    ensures MakeItem(EntryId(page.dts[i]).value, page.dds[i], ItemDate(page.header, parseDate, now))
            in PageItems(page, checks, parseDate, now)
  {
    AbsentEntryEmitted(page, checks, parseDate, now, i);
  }

  /** A page whose `dt` and `dd` lists disagree in length yields the items of its zipped prefix. */
  lemma MismatchProcessesZip(page: Page, checks: (nat, string) -> Existence,
                             parseDate: string -> Option<DateTime>, now: DateTime)
    ensures var m := PairCount(page);
            PageItems(page, checks, parseDate, now)
            == PageItems(page.(dts := page.dts[..m], dds := page.dds[..m]), checks, parseDate, now)
  {
    var m := PairCount(page);
    var cut := page.(dts := page.dts[..m], dds := page.dds[..m]);
    var date := ItemDate(page.header, parseDate, now);
    assert EntryItems(page, checks, date) == EntryItems(cut, checks, date);
  }

  // ---------------------------------------------------------------------
  // Pagination
  // ---------------------------------------------------------------------

  /** `f'https://arxiv.org/list/{category}/recent?skip=0&show=250'` */
  function FirstUrl(category: string): string {
    ListPrefix + category + ListSuffix
  }

  lemma FirstUrlParts()
    ensures '=' !in ListPrefix && '=' !in "/recent?" && 'k' !in "&show=250"
    ensures ListSuffix == "/recent?" + (SkipText(0) + "&show=250")
  {
    assert NatToString(0) == "0";
    assert SkipText(0) == "skip=0";
  }

  /** A first-page URL has one offset, and it is 0. */
  lemma FirstUrlSkip(category: string)
    requires '=' !in category
    ensures FindAllSkips(FirstUrl(category)) == [0]
    ensures SearchSkip(FirstUrl(category)) == Some(0)
  {
    FirstUrlParts();
    var a := ListPrefix + category;
    var b := SkipText(0) + "&show=250";
    assert FirstUrl(category) == a + ("/recent?" + b);
    SkipsAfterPlainPrefix(a, "/recent?" + b);
    SkipsAfterPlainPrefix("/recent?", b);
    ReplacementMatch(0, "&show=250");
    NoSkipWithoutK("&show=250");
    SearchIsFirst(FirstUrl(category));
  }

  /** `current_skip`: the URL's offset, 0 without one. */
  function CurrentSkip(url: string): nat {
    SearchSkip(url).GetOr(0)
  }

  /**
   * The URL of the next page, when `total > 0` and `current_skip + 250 < total`. Its offset
   * is exactly 250 more, in every `skip=` of the URL; a URL without one is returned as is.
   */
  function NextPageUrl(url: string, total: int): (r: Option<string>)
    ensures r.Some? <==> total > 0 && CurrentSkip(url) + ItemsPerPage < total
    ensures r.Some? && SearchSkip(url).Some? ==>
              && SearchSkip(r.value) == Some(CurrentSkip(url) + ItemsPerPage)
              && FindAllSkips(r.value) == Repeat(CurrentSkip(url) + ItemsPerPage, |FindAllSkips(url)|)
    ensures r.Some? && SearchSkip(url).None? ==> r.value == url
  {
    if total > 0 && CurrentSkip(url) + ItemsPerPage < total then
      var next := CurrentSkip(url) + ItemsPerPage;
      var u := SubSkip(url, SkipText(next));
      FindAllSubSkip(url, next);
      if SearchSkip(url).Some? then
        SearchSubSkip(url, next);
        Some(u)
      else
        SearchIsFirst(url);
        SubSkipNoMatch(url, SkipText(next));
        Some(u)
    else None
  }

  /** The request `parse` yields after the items, if any; a page without `dl#articles` yields none. */
  function NextRequest(page: Page): Option<Request> {
    if !page.hasArticles then None
    else
      match NextPageUrl(page.url, HeaderTotal(page.header))
      case None => None
      case Some(u) => Some(Request(u, page.category))
  }

  /** A page without `dl#articles` yields no item and no request. */
  lemma NoContainerNoOutput(page: Page, checks: (nat, string) -> Existence,
                            parseDate: string -> Option<DateTime>, now: DateTime)
    requires !page.hasArticles
    ensures PageItems(page, checks, parseDate, now) == [] && NextRequest(page) == None
  {
  }

  /** Without a header line the total is 0, so no next page, and the items are dated `now`. */
  lemma MissingHeader(page: Page, parseDate: string -> Option<DateTime>, now: DateTime)
    requires page.header == ""
    ensures HeaderTotal(page.header) == 0 && NextRequest(page) == None
    ensures ItemDate(page.header, parseDate, now) == now
  {
    assert !Contains("", "showing first") by {
      assert !StartsAt("", "showing first", 0);
    }
  }

  /** The offsets of the pages requested from offset `skip`, each page reporting `total`. */
  function PageSkips(skip: nat, total: int): (r: seq<nat>)
    decreases if total > skip then total - skip else 0
    ensures r != [] && r[0] == skip
  {
    [skip] + (if total > 0 && skip + ItemsPerPage < total then PageSkips(skip + ItemsPerPage, total) else [])
  }

  /**
   * The chain of URLs crawled from `url` while every page reports `total` entries. The URL
   * must carry a `skip=` offset, as every first request does: without one the next page URL
   * is `url` itself, and only Scrapy's duplicate filter would stop the chain.
   */
  function CrawlUrls(url: string, total: int): seq<string>
    requires SearchSkip(url).Some?
    decreases if total > CurrentSkip(url) then total - CurrentSkip(url) else 0
  {
    [url] + match NextPageUrl(url, total)
            case None => []
            case Some(u) => CrawlUrls(u, total)
  }

  function SkipsOf(urls: seq<string>): (r: seq<nat>)
    ensures |r| == |urls| && forall k :: 0 <= k < |urls| ==> r[k] == CurrentSkip(urls[k])
  {
    if urls == [] then [] else [CurrentSkip(urls[0])] + SkipsOf(urls[1..])
  }

  /** The crawled offsets are the arithmetic sequence of `PageSkips`. */
  lemma {:induction false} CrawlFollowsSkips(url: string, total: int)
    requires SearchSkip(url).Some?
    ensures SkipsOf(CrawlUrls(url, total)) == PageSkips(CurrentSkip(url), total)
    decreases if total > CurrentSkip(url) then total - CurrentSkip(url) else 0
  {
    var urls := CrawlUrls(url, total);
    match NextPageUrl(url, total)
    case None =>
    case Some(u) =>
      CrawlFollowsSkips(u, total);
      assert urls[1..] == CrawlUrls(u, total);
  }

  /** A category listing of 438 entries is crawled at offsets 0 and 250. */
  lemma Crawl438(category: string)
    requires '=' !in category
    ensures SearchSkip(FirstUrl(category)) == Some(0)
    ensures SkipsOf(CrawlUrls(FirstUrl(category), 438)) == [0, 250]
  {
    FirstUrlSkip(category);
    CrawlFollowsSkips(FirstUrl(category), 438);
    assert PageSkips(250, 438) == [250];
  }

  /** Offsets rise by 250 from `skip`; all but possibly the first stay below `total`. */
  lemma {:induction false} PageSkipsShape(skip: nat, total: int)
    ensures var r := PageSkips(skip, total);
            && (forall k :: 0 <= k < |r| ==> r[k] == skip + ItemsPerPage * k)
            && (forall k :: 1 <= k < |r| ==> r[k] < total)
            && (total <= 0 || r[|r| - 1] + ItemsPerPage >= total)
            && |r| == if total - skip <= ItemsPerPage then 1 else (total - skip + ItemsPerPage - 1) / ItemsPerPage
    decreases if total > skip then total - skip else 0
  {
    if total > 0 && skip + ItemsPerPage < total {
      var rest := PageSkips(skip + ItemsPerPage, total);
      PageSkipsShape(skip + ItemsPerPage, total);
      assert PageSkips(skip, total) == [skip] + rest;
    }
  }

  /** From offset 0, every entry position below the total lies on a requested page. */
  lemma PagesCoverEntries(total: int, e: int)
    requires 0 <= e < total
    ensures var r := PageSkips(0, total);
            exists k :: 0 <= k < |r| && r[k] <= e < r[k] + ItemsPerPage
  {
    PageSkipsShape(0, total);
    var r := PageSkips(0, total);
    var k := e / ItemsPerPage;
    assert r[k] == ItemsPerPage * k;
  }
}
