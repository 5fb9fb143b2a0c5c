/** The category loop and the page loop of crawler/crawl.py, with the
    browser session as an abstract site: navigating to a URL shows that
    URL's page, and a page offers its listing elements and says whether an
    enabled "next page" control is present. */
module Crawl {
  import opened Wrappers
  import opened Text
  import opened PyFormat
  import opened Extract

  const Domain: string := "https://www.zhipin.com/"
  /** The page loop runs while the page number is below this. */
  const PageCeiling: nat := 15
  /** Appended to the category URL to reach a later page. */
  const NextPageFormat: string := "?page=%d"
  /** The message of the per-element exception handler. */
  const HandlerFormat: string := HandlerHead + ("%s" + (HandlerMiddle + ("%d" + HandlerTail)))
  const HandlerHead: string := "[分类 "
  const HandlerMiddle: string := " 页面 "
  const HandlerTail: string := "] Exception: "

  /** A results page: its `.job-primary` elements, and whether
      `.next:not(.disabled)` is found (when it is not, the lookup raises). */
  datatype Page = Page(items: seq<Element>, hasNext: bool)

  function RequestUrl(cat: Category): string {
    Domain + cat.url
  }

  /** The URL of page `n` of a category. */
  function PageUrl(base: string, n: nat): string {
    base + PageQuery(n)
  }

  function PageQuery(n: nat): string {
    "?page=" + ShowNat(n)
  }

  /** `"?page=%d" % n` is the query part of `PageUrl`. */
  lemma NextPageQuery(n: nat)
    ensures Format(NextPageFormat, [Int(n)]) == Ok(PageQuery(n))
  {
    assert NextPageFormat == "?page=" + "%d";
    FormatLiteral("?page=", "%d", [Int(n)]);
    IntSlot(n, "");
    assert ShowInt(n) + "" == ShowNat(n);
  }

  /** Line 93: `request_url + "?page=%d" % n`. */
  method NextPageUrl(requestUrl: string, n: nat) returns (u: string)
    ensures u == PageUrl(requestUrl, n)
  {
    var query := Format(NextPageFormat, [Int(n)]);
    NextPageQuery(n);
    u := requestUrl + query.value;
  }

  /** The URL the browser shows while page `p` is read: the category URL
      itself for page 1, a `?page=` URL after that. */
  function PageAddress(base: string, p: nat): string {
    if p <= 1 then base else PageUrl(base, p)
  }

  /** The record one element contributes: its listing, or nothing. */
  function Yield(cat: Category, e: Element): seq<Listing> {
    match ExtractListing(cat, e)
    case Ok(l) => [l]
    case Err(_) => []
  }

  /** The records a page's elements yield, in element order. */
  function ExtractAll(cat: Category, items: seq<Element>): (r: seq<Listing>)
    ensures |r| <= |items|
  {
    if items == [] then []
    else ExtractAll(cat, items[..|items| - 1]) + Yield(cat, items[|items| - 1])
  }

  /** Every record comes from an element of the page that extracts to
      it; there are never more records than elements. */
  lemma {:induction false} ExtractAllSound(cat: Category, items: seq<Element>)
    ensures |ExtractAll(cat, items)| <= |items|
    ensures forall l :: l in ExtractAll(cat, items) ==>
      exists e :: e in items && ExtractListing(cat, e) == Ok(l)
  {
    if items != [] {
      var init := items[..|items| - 1];
      var last := items[|items| - 1];
      ExtractAllSound(cat, init);
      forall l | l in ExtractAll(cat, items)
        ensures exists e :: e in items && ExtractListing(cat, e) == Ok(l)
      {
        if l in ExtractAll(cat, init) {
          var e :| e in init && ExtractListing(cat, e) == Ok(l);
          assert e in items;
        } else {
          assert l in Yield(cat, last);
          assert last in items;
        }
      }
    }
  }

  /** No record lacks the job name or the job area of its element. */
  lemma RecordsHaveNames(cat: Category, items: seq<Element>)
    ensures forall l :: l in ExtractAll(cat, items) ==>
      exists e :: e in items && e.jobName == Some(l.jobName) && e.jobArea == Some(l.jobArea)
  {
    ExtractAllSound(cat, items);
    forall l | l in ExtractAll(cat, items)
      ensures exists e :: e in items && e.jobName == Some(l.jobName) && e.jobArea == Some(l.jobArea)
    {
      var e :| e in items && ExtractListing(cat, e) == Ok(l);
      ExtractedFields(cat, e);
    }
  }

  /** The addresses of the pages read, from page `p` on: one per page,
      stopping after a page without a next control or below the ceiling. */
  function PagesRead(site: string -> Page, base: string, p: nat): (r: seq<string>)
    ensures r != [] <==> p < PageCeiling
    ensures r != [] ==> r[0] == PageAddress(base, p)
    decreases PageCeiling - p
  {
    if p >= PageCeiling then []
    else
      var address := PageAddress(base, p);
      [address] + (if site(address).hasNext then PagesRead(site, base, p + 1) else [])
  }

  /** The records of the pages shown at the given addresses, page after
      page. */
  function RecordsOfPages(site: string -> Page, cat: Category, addresses: seq<string>): seq<Listing> {
    if addresses == [] then []
    else ExtractAll(cat, site(addresses[0]).items) + RecordsOfPages(site, cat, addresses[1..])
  }

  /** The records collected from page `p` on. */
  function RecordsFrom(site: string -> Page, cat: Category, base: string, p: nat): seq<Listing>
    decreases PageCeiling - p
  {
    if p >= PageCeiling then []
    else
      var page := site(PageAddress(base, p));
      ExtractAll(cat, page.items) + (if page.hasNext then RecordsFrom(site, cat, base, p + 1) else [])
  }

  /** The records collected are those of exactly the pages read, page
      after page. */
  lemma {:induction false} RecordsFromPages(site: string -> Page, cat: Category, base: string, p: nat)
    ensures RecordsFrom(site, cat, base, p) == RecordsOfPages(site, cat, PagesRead(site, base, p))
    decreases PageCeiling - p
  {
    if p < PageCeiling {
      var page := site(PageAddress(base, p));
      var pages := PagesRead(site, base, p);
      assert pages[1..] == if page.hasNext then PagesRead(site, base, p + 1) else [];
      if page.hasNext {
        RecordsFromPages(site, cat, base, p + 1);
      }
    }
  }

  /** The navigations to later pages made from page `p` on. */
  function VisitsFrom(site: string -> Page, base: string, p: nat): (r: seq<string>)
    ensures |r| <= if p >= PageCeiling then 0 else PageCeiling - p
    decreases PageCeiling - p
  {
    if p >= PageCeiling then []
    else if site(PageAddress(base, p)).hasNext then [PageUrl(base, p + 1)] + VisitsFrom(site, base, p + 1)
    else []
  }

  /** A category never reads more pages than the ceiling allows: at most
      14 starting from page 1. */
  lemma {:induction false} PagesBounded(site: string -> Page, base: string, p: nat)
    ensures |PagesRead(site, base, p)| <= if p >= PageCeiling then 0 else PageCeiling - p
    decreases PageCeiling - p
  {
    if p < PageCeiling {
      PagesBounded(site, base, p + 1);
    }
  }

  /** Even when every page offers a next control the loop stops at the
      ceiling, having read the consecutive pages p, p+1, ..., 14. */
  lemma {:induction false} AlwaysNext(site: string -> Page, base: string, p: nat)
    requires 1 <= p <= PageCeiling
    requires forall u :: site(u).hasNext
    ensures |PagesRead(site, base, p)| == PageCeiling - p
    ensures forall i :: 0 <= i < |PagesRead(site, base, p)| ==> PagesRead(site, base, p)[i] == PageAddress(base, p + i)
    decreases PageCeiling - p
  {
    if p < PageCeiling {
      AlwaysNext(site, base, p + 1);
      var rest := PagesRead(site, base, p + 1);
      var pages := PagesRead(site, base, p);
      NextPageRead(site, base, p);
      assert pages[0] == PageAddress(base, p);
      forall i | 0 < i < |pages| ensures pages[i] == PageAddress(base, p + i) {
        assert pages[i] == rest[i - 1];
      }
    }
  }

  /** A page with a next control is followed by the pages after it. */
  lemma NextPageRead(site: string -> Page, base: string, p: nat)
    requires p < PageCeiling && site(PageAddress(base, p)).hasNext
    ensures PagesRead(site, base, p) == [PageAddress(base, p)] + PagesRead(site, base, p + 1)
  {
  }

  /** Each navigation goes to the page after the one just read, using the
      already incremented page number. */
  lemma {:induction false} VisitsAreNextPages(site: string -> Page, base: string, p: nat)
    ensures forall i :: 0 <= i < |VisitsFrom(site, base, p)| ==> VisitsFrom(site, base, p)[i] == PageUrl(base, p + 1 + i)
    ensures |VisitsFrom(site, base, p)| <= |PagesRead(site, base, p)|
    decreases PageCeiling - p
  {
    if p < PageCeiling && site(PageAddress(base, p)).hasNext {
      VisitsAreNextPages(site, base, p + 1);
      var visits, rest := VisitsFrom(site, base, p), VisitsFrom(site, base, p + 1);
      assert visits == [PageUrl(base, p + 1)] + rest;
      assert |PagesRead(site, base, p)| == 1 + |PagesRead(site, base, p + 1)|;
      forall i | 0 < i < |visits| ensures visits[i] == PageUrl(base, p + 1 + i) {
        assert visits[i] == rest[i - 1];
      }
    }
  }

  /** The URL the browser shows when the page loop ends, having started on
      page `p`: that of the first page without a next control, or of page
      15 when the ceiling is reached. */
  function LastShown(site: string -> Page, base: string, p: nat): string
    decreases PageCeiling - p
  {
    if p >= PageCeiling || !site(PageAddress(base, p)).hasNext then PageAddress(base, p)
    else LastShown(site, base, p + 1)
  }

  /** The URL shown at the end is the last one navigated to. */
  lemma {:induction false} LastShownIsLastVisit(site: string -> Page, base: string, p: nat)
    requires p >= 1
    ensures var visits := [PageAddress(base, p)] + VisitsFrom(site, base, p);
      LastShown(site, base, p) == visits[|visits| - 1]
    decreases PageCeiling - p
  {
    if p < PageCeiling && site(PageAddress(base, p)).hasNext {
      LastShownIsLastVisit(site, base, p + 1);
      var rest := VisitsFrom(site, base, p + 1);
      assert [PageAddress(base, p)] + VisitsFrom(site, base, p) == [PageAddress(base, p)] + ([PageAddress(base, p + 1)] + rest);
    }
  }

  /** One turn of the page loop: page `p` is read, its records come first,
      and the later pages follow only when it has a next control. */
  lemma PageStep(site: string -> Page, cat: Category, base: string, p: nat)
    requires p < PageCeiling
    ensures var page := site(PageAddress(base, p));
      && PagesRead(site, base, p) == [PageAddress(base, p)] + (if page.hasNext then PagesRead(site, base, p + 1) else [])
      && RecordsFrom(site, cat, base, p) == ExtractAll(cat, page.items) + (if page.hasNext then RecordsFrom(site, cat, base, p + 1) else [])
      && VisitsFrom(site, base, p) == (if page.hasNext then [PageUrl(base, p + 1)] + VisitsFrom(site, base, p + 1) else [])
      && LastShown(site, base, p) == (if page.hasNext then LastShown(site, base, p + 1) else PageAddress(base, p))
  {
  }

  /** What the page loop has gathered: records, navigations, pages read. */
  datatype Track = Track(records: seq<Listing>, visits: seq<string>, pages: seq<string>)

  /** The loop's bookkeeping, started from `start` when page 1 is due and
      reaching `now` when page `p` is due: what is still to come from page
      `p` on completes what is to come from page 1. */
  ghost predicate OnTrack(site: string -> Page, cat: Category, base: string, p: nat, start: Track, now: Track) {
    && start.records + RecordsFrom(site, cat, base, 1) == now.records + RecordsFrom(site, cat, base, p)
    && start.visits + VisitsFrom(site, base, 1) == now.visits + VisitsFrom(site, base, p)
    && start.pages + PagesRead(site, base, 1) == now.pages + PagesRead(site, base, p)
    && LastShown(site, base, p) == LastShown(site, base, 1)
  }

  /** Reading page `p` and navigating to page `p + 1` keeps the loop on
      track. */
  lemma LaterPage(site: string -> Page, cat: Category, base: string, p: nat, start: Track, now: Track)
    requires 1 <= p < PageCeiling && site(PageAddress(base, p)).hasNext
    requires OnTrack(site, cat, base, p, start, now)
    ensures OnTrack(site, cat, base, p + 1, start,
      Track(now.records + ExtractAll(cat, site(PageAddress(base, p)).items),
            now.visits + [PageUrl(base, p + 1)], now.pages + [PageAddress(base, p)]))
  {
    PageStep(site, cat, base, p);
    ConcatAssoc(now.visits, [PageUrl(base, p + 1)], VisitsFrom(site, base, p + 1));
    ConcatAssoc(now.records, ExtractAll(cat, site(PageAddress(base, p)).items), RecordsFrom(site, cat, base, p + 1));
    ConcatAssoc(now.pages, [PageAddress(base, p)], PagesRead(site, base, p + 1));
  }

  /** Reading page `p`, which has no next control, completes the loop. */
  lemma LastPage(site: string -> Page, cat: Category, base: string, p: nat, start: Track, now: Track)
    requires 1 <= p < PageCeiling && !site(PageAddress(base, p)).hasNext
    requires OnTrack(site, cat, base, p, start, now)
    ensures start.records + RecordsFrom(site, cat, base, 1) == now.records + ExtractAll(cat, site(PageAddress(base, p)).items)
    ensures start.visits + VisitsFrom(site, base, 1) == now.visits
    ensures start.pages + PagesRead(site, base, 1) == now.pages + [PageAddress(base, p)]
    ensures LastShown(site, base, 1) == PageAddress(base, p)
  {
    PageStep(site, cat, base, p);
    var records := ExtractAll(cat, site(PageAddress(base, p)).items);
    assert records + [] == records && [PageAddress(base, p)] + [] == [PageAddress(base, p)];
  }

  lemma ConcatAssoc<T>(a: seq<T>, b: seq<T>, c: seq<T>)
    ensures (a + b) + c == a + (b + c)
  {
  }

  /** The records of a list of categories, in category order. */
  function AllRecords(site: string -> Page, categories: seq<Category>): seq<Listing> {
    if categories == [] then []
    else
      var last := categories[|categories| - 1];
      AllRecords(site, categories[..|categories| - 1]) + RecordsFrom(site, last, RequestUrl(last), 1)
  }

  /** Every record of a page carries the category it was crawled for. */
  lemma PageRecordsTagged(cat: Category, items: seq<Element>)
    ensures forall l :: l in ExtractAll(cat, items) ==> l.jobCategory == cat.kind && l.jobSubCategory == cat.name
  {
    ExtractAllSound(cat, items);
    forall l | l in ExtractAll(cat, items)
      ensures l.jobCategory == cat.kind && l.jobSubCategory == cat.name
    {
      var e :| e in items && ExtractListing(cat, e) == Ok(l);
    }
  }

  /** So does every record of a category's pages. */
  lemma {:induction false} RecordsFromTagged(site: string -> Page, cat: Category, base: string, p: nat)
    ensures forall l :: l in RecordsFrom(site, cat, base, p) ==> l.jobCategory == cat.kind && l.jobSubCategory == cat.name
    decreases PageCeiling - p
  {
    if p < PageCeiling {
      var page := site(PageAddress(base, p));
      PageRecordsTagged(cat, page.items);
      if page.hasNext {
        RecordsFromTagged(site, cat, base, p + 1);
      }
    }
  }

  /** Every record of the whole run carries one of the configured
      categories: its type and its name. */
  lemma {:induction false} AllRecordsTagged(site: string -> Page, categories: seq<Category>)
    ensures forall l :: l in AllRecords(site, categories) ==>
      exists c :: c in categories && l.jobCategory == c.kind && l.jobSubCategory == c.name
  {
    if categories != [] {
      var init, last := categories[..|categories| - 1], categories[|categories| - 1];
      AllRecordsTagged(site, init);
      RecordsFromTagged(site, last, RequestUrl(last), 1);
      assert forall c :: c in init ==> c in categories;
      assert last in categories;
    }
  }

  /** The browser navigations for a list of categories: per category its
      URL, then its next-page URLs. */
  function AllVisits(site: string -> Page, categories: seq<Category>): seq<string> {
    if categories == [] then []
    else
      var last := categories[|categories| - 1];
      AllVisits(site, categories[..|categories| - 1]) + ([RequestUrl(last)] + VisitsFrom(site, RequestUrl(last), 1))
  }

  /** The addresses of the pages read for a list of categories. */
  function AllPages(site: string -> Page, categories: seq<Category>): seq<string> {
    if categories == [] then []
    else
      var last := categories[|categories| - 1];
      AllPages(site, categories[..|categories| - 1]) + PagesRead(site, RequestUrl(last), 1)
  }

  /** Adding category `i` adds its records, its navigations and its pages
      read at the end. */
  lemma CategoryStep(site: string -> Page, categories: seq<Category>, i: nat)
    requires i < |categories|
    ensures var cat, url := categories[i], RequestUrl(categories[i]);
      && AllRecords(site, categories[..i + 1]) == AllRecords(site, categories[..i]) + RecordsFrom(site, cat, url, 1)
      && AllVisits(site, categories[..i + 1]) == AllVisits(site, categories[..i]) + ([url] + VisitsFrom(site, url, 1))
      && AllPages(site, categories[..i + 1]) == AllPages(site, categories[..i]) + PagesRead(site, url, 1)
  {
    assert categories[..i + 1][..i] == categories[..i];
    assert categories[..i + 1][i] == categories[i];
  }

  /** The crawler's state: the browser's current URL and navigation
      history, the global `results` list, the `authorized` flag, the login
      prompts shown, and `count_of_current`; `shown` is the ghost record
      of the addresses whose page the loop has read. */
  class Crawler {
    const site: string -> Page
    var url: string
    var history: seq<string>
    var results: seq<Listing>
    var authorized: bool
    var prompts: seq<string>
    var countOfCurrent: nat
    ghost var shown: seq<string>

    /** Lines 14-17: nothing authorized, nothing collected yet. */
    constructor (site: string -> Page)
      ensures this.site == site && url == "" && history == []
      ensures results == [] && !authorized && prompts == [] && countOfCurrent == 0 && shown == []
    {
      this.site := site;
      url := "";
      history := [];
      results := [];
      authorized := false;
      prompts := [];
      countOfCurrent := 0;
      shown := [];
    }

    /** `driver.get(u)`. */
    method Get(u: string)
      modifies this`url, this`history
      ensures url == u && history == old(history) + [u]
    {
      url := u;
      history := history + [u];
    }

    /** Lines 43-88 for one element: the lookups and parses of lines
        44-63 are `ExtractListing`; the keyword accumulator loop of lines
        66-68 runs once they have all succeeded, and the record is then
        appended and the counter advanced. On a failure nothing changes
        and the caller goes on with the next element: the intended
        skip-and-continue policy. As written, line 88 applies `%` to a
        two-slot format with one argument, so the handler itself raises
        TypeError and the run ends instead; see ItemOutcomeAsWritten. */
    method ProcessItem(cat: Category, item: Element) returns (ok: bool)
      modifies this`results, this`countOfCurrent
      ensures ok == ExtractListing(cat, item).Ok?
      ensures results == old(results) + (if ok then [ExtractListing(cat, item).value] else [])
      ensures countOfCurrent == old(countOfCurrent) + (if ok then 1 else 0)
    {
      var extracted := ExtractListing(cat, item);
      if extracted.Err? {
        return false;
      }
      var keywords := Keywords(item.tags);
      ExtractedFields(cat, item);
      countOfCurrent := countOfCurrent + 1;
      results := results + [extracted.value.(keywords := keywords)];
      ok := true;
    }

    /** Lines 41-88: every element of one page, in order. */
    method CrawlPage(cat: Category, items: seq<Element>)
      modifies this`results, this`countOfCurrent
      ensures results == old(results) + ExtractAll(cat, items)
      ensures countOfCurrent == old(countOfCurrent) + |ExtractAll(cat, items)|
    {
      for i := 0 to |items|
        invariant results == old(results) + ExtractAll(cat, items[..i])
        invariant countOfCurrent == old(countOfCurrent) + |ExtractAll(cat, items[..i])|
      {
        var ok := ProcessItem(cat, items[i]);
        assert items[..i + 1][..i] == items[..i];
      }
      assert items[..|items|] == items;
    }

    /** Lines 21-100 for one category: navigate, ask for the login the
        first time only, then read pages 1 to 14 at most, navigating to the
        next page while an enabled next control is found and stopping as
        soon as it is not. */
    method CrawlCategory(cat: Category)
      modifies this
      ensures results == old(results) + RecordsFrom(site, cat, RequestUrl(cat), 1)
      ensures countOfCurrent == |RecordsFrom(site, cat, RequestUrl(cat), 1)|
      ensures authorized
      ensures prompts == old(prompts) + (if old(authorized) then [] else [RequestUrl(cat)])
      ensures history == old(history) + [RequestUrl(cat)] + VisitsFrom(site, RequestUrl(cat), 1)
      ensures url == LastShown(site, RequestUrl(cat), 1)
      ensures shown == old(shown) + PagesRead(site, RequestUrl(cat), 1)
    {
      var requestUrl := Domain + cat.url;
      Get(requestUrl);
      if !authorized {
        prompts := prompts + [requestUrl];
        authorized := true;
      }
      ReadPages(cat, requestUrl);
    }

    /** Lines 29-100: the page loop of one category, starting on its
        first page. */
    method ReadPages(cat: Category, requestUrl: string)
      requires url == requestUrl
      modifies this`results, this`countOfCurrent, this`url, this`history, this`shown
      ensures results == old(results) + RecordsFrom(site, cat, requestUrl, 1)
      ensures countOfCurrent == |RecordsFrom(site, cat, requestUrl, 1)|
      ensures history == old(history) + VisitsFrom(site, requestUrl, 1)
      ensures url == LastShown(site, requestUrl, 1)
      ensures shown == old(shown) + PagesRead(site, requestUrl, 1)
    {
      countOfCurrent := 0;
      var page: nat := 1;
      ghost var results0, history0, shown0 := results, history, shown;
      while page < PageCeiling
        invariant 1 <= page <= PageCeiling
        invariant url == PageAddress(requestUrl, page)
        invariant OnTrack(site, cat, requestUrl, page, Track(results0, history0, shown0), Track(results, history, shown))
        invariant countOfCurrent + |RecordsFrom(site, cat, requestUrl, page)| == |RecordsFrom(site, cat, requestUrl, 1)|
        invariant results0 == old(results) && history0 == old(history) && shown0 == old(shown)
        decreases PageCeiling - page
      {
        ghost var before, hist, seen := results, history, shown;
        ghost var p := page;
        page := page + 1;
        var more := ReadPage(cat);
        if !more {
          LastPage(site, cat, requestUrl, p, Track(results0, history0, shown0), Track(before, hist, seen));
          break;
        }
        var next := NextPageUrl(requestUrl, page);
        Get(next);
        LaterPage(site, cat, requestUrl, p, Track(results0, history0, shown0), Track(before, hist, seen));
      }
    }

    /** Lines 41-91: read the elements of the page shown, then look for
        an enabled next control. */
    method ReadPage(cat: Category) returns (more: bool)
      modifies this`results, this`countOfCurrent, this`shown
      ensures more == site(url).hasNext
      ensures results == old(results) + ExtractAll(cat, site(url).items)
      ensures countOfCurrent == old(countOfCurrent) + |ExtractAll(cat, site(url).items)|
      ensures shown == old(shown) + [url]
    {
      var current := site(url);
      shown := shown + [url];
      CrawlPage(cat, current.items);
      more := current.hasNext;
    }

    /** Lines 20-100: every category in order; only the first one finds
        `authorized` unset. */
    method Run(categories: seq<Category>)
      modifies this
      ensures results == old(results) + AllRecords(site, categories)
      ensures authorized == (old(authorized) || |categories| > 0)
      ensures prompts == old(prompts) +
        (if !old(authorized) && |categories| > 0 then [RequestUrl(categories[0])] else [])
      ensures history == old(history) + AllVisits(site, categories)
      ensures shown == old(shown) + AllPages(site, categories)
      ensures categories == [] ==> url == old(url) && countOfCurrent == old(countOfCurrent)
      ensures categories != [] ==>
        var last := categories[|categories| - 1];
        && url == LastShown(site, RequestUrl(last), 1)
        && countOfCurrent == |RecordsFrom(site, last, RequestUrl(last), 1)|
    {
      for i := 0 to |categories|
        invariant results == old(results) + AllRecords(site, categories[..i])
        invariant authorized == (old(authorized) || i > 0)
        invariant prompts == old(prompts) +
          (if !old(authorized) && i > 0 then [RequestUrl(categories[0])] else [])
        invariant history == old(history) + AllVisits(site, categories[..i])
        invariant shown == old(shown) + AllPages(site, categories[..i])
        invariant i == 0 ==> url == old(url) && countOfCurrent == old(countOfCurrent)
        invariant i > 0 ==> url == LastShown(site, RequestUrl(categories[i - 1]), 1)
        invariant i > 0 ==> countOfCurrent == |RecordsFrom(site, categories[i - 1], RequestUrl(categories[i - 1]), 1)|
      {
        var cat := categories[i];
        ghost var hist := history;
        CrawlCategory(cat);
        CategoryStep(site, categories, i);
        ConcatAssoc(old(results), AllRecords(site, categories[..i]), RecordsFrom(site, cat, RequestUrl(cat), 1));
        ConcatAssoc(hist, [RequestUrl(cat)], VisitsFrom(site, RequestUrl(cat), 1));
        ConcatAssoc(old(history), AllVisits(site, categories[..i]), [RequestUrl(cat)] + VisitsFrom(site, RequestUrl(cat), 1));
        ConcatAssoc(old(shown), AllPages(site, categories[..i]), PagesRead(site, RequestUrl(cat), 1));
      }
      assert categories[..|categories|] == categories;
    }
  }

  /** The whole script over a site: the records collected, and the login
      prompt, shown once at most and for the first category. */
  method CrawlAll(site: string -> Page, categories: seq<Category>) returns (records: seq<Listing>, prompts: seq<string>)
    ensures records == AllRecords(site, categories)
    ensures prompts == if categories == [] then [] else [RequestUrl(categories[0])]
  {
    var crawler := new Crawler(site);
    crawler.Run(categories);
    records, prompts := crawler.results, crawler.prompts;
  }

  /** What becomes of one element at the handler, as the source is written. */
  datatype ItemOutcome = Appended(record: Listing) | Skipped(failure: Failure) | Raised(error: FormatError)

  /** Line 88 as written: `HandlerFormat % job_category`, one argument for
      two slots. */
  function HandlerAsWritten(cat: Category): (r: Result<string, FormatError>)
    ensures r == Err(NotEnoughArguments)
  {
    HandlerRaises(cat.kind);
    Format(HandlerFormat, [Str(cat.kind)])
  }

  /** Line 88 as intended: the category and the page number. */
  function HandlerIntended(cat: Category, page: nat): Result<string, FormatError> {
    Format(HandlerFormat, [Str(cat.kind), Int(page)])
  }

  /** As written no element is ever skipped: it is appended or the
      handler raises. */
  function ItemOutcomeAsWritten(cat: Category, item: Element): (r: ItemOutcome)
    ensures !r.Skipped?
    ensures r.Appended? <==> ExtractListing(cat, item).Ok?
  {
    match ExtractListing(cat, item)
    case Ok(l) => Appended(l)
    case Err(f) =>
      match HandlerAsWritten(cat)
      case Ok(_) => Skipped(f)
      case Err(x) => Raised(x)
  }

  /** The handler's format with one string argument always raises
      TypeError ("not enough arguments for format string"). */
  lemma HandlerRaises(kind: string)
    ensures Format(HandlerFormat, [Str(kind)]) == Err(NotEnoughArguments)
  {
    var tail := "%d" + HandlerTail;
    HandlerTextIsLiteral();
    assert tail[0] == '%' && tail[1] == 'd';
    assert Format(tail, []) == Err(NotEnoughArguments);
    FormatLiteral(HandlerMiddle, tail, []);
    StrSlot(kind, HandlerMiddle + tail, []);
    assert [Str(kind)] + [] == [Str(kind)];
    FormatLiteral(HandlerHead, "%s" + (HandlerMiddle + tail), [Str(kind)]);
  }

  /** The fixed parts of the handler message hold no `%`. */
  lemma HandlerTextIsLiteral()
    ensures '%' !in HandlerHead && '%' !in HandlerMiddle && '%' !in HandlerTail
  {
  }

  /** So, as written, the first element that fails to extract ends the
      whole run instead of being skipped. */
  lemma FailureEndsRunAsWritten(cat: Category, item: Element)
    requires ExtractListing(cat, item).Err?
    ensures ItemOutcomeAsWritten(cat, item) == Raised(NotEnoughArguments)
  {
  }

  /** An element with no job name is such an element. */
  lemma MissingNameEndsRunAsWritten(cat: Category, item: Element)
    requires item.jobName.None?
    ensures ItemOutcomeAsWritten(cat, item) == Raised(NotEnoughArguments)
  {
    MissingNameOrArea(cat, item);
    FailureEndsRunAsWritten(cat, item);
  }

  /** With both arguments the handler formats its message, so the element
      is only logged and skipped. */
  lemma HandlerIntendedFormats(cat: Category, page: nat)
    ensures HandlerIntended(cat, page) == Ok(HandlerHead + (cat.kind + (HandlerMiddle + (ShowNat(page) + HandlerTail))))
  {
    var tail := "%d" + HandlerTail;
    HandlerTextIsLiteral();
    IntSlot(page, HandlerTail);
    assert ShowInt(page) == ShowNat(page);
    FormatLiteral(HandlerMiddle, tail, [Int(page)]);
    StrSlot(cat.kind, HandlerMiddle + tail, [Int(page)]);
    assert [Str(cat.kind)] + [Int(page)] == [Str(cat.kind), Int(page)];
    FormatLiteral(HandlerHead, "%s" + (HandlerMiddle + tail), [Str(cat.kind), Int(page)]);
  }
}
