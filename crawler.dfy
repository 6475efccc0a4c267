/**
 * One criteria run of CrawlerApplication: resolve the tag's listing links,
 * read each listing's page count, build one task per result page, and let
 * every task insert the Books its page yields into the run's result map.
 *
 * The pages themselves are not fetched here. A `Site` gives, for each URL,
 * what the crawler would have selected from the fetched page.
 */
module Crawler {
  import opened Wrappers
  import opened JavaNumbers
  import opened Books
  import opened Aggregation

  const BaseUrl: string := "https://book.douban.com"

  /** A listing's first page: unreachable (the fetch failed and parsing it threw), or the text of its last paginator anchor, if there is one. */
  datatype ListingPage = Unreachable | Fetched(lastPaginatorText: Option<string>)

  /** What the crawler selects from the pages it fetches. */
  datatype Site = Site(
    tagAnchorHrefs: string -> seq<string>,  // hrefs of the anchors grouped under a tag on the tag index page
    listing: string -> ListingPage,         // a listing URL's first page
    entries: string -> seq<RawEntry>)       // the entries of a result page; none when the fetch failed

  /** The tag's links: the base URL followed by each anchor's href, in the anchors' order. */
  function TagLinks(hrefs: seq<string>): (links: seq<string>)
    ensures |links| == |hrefs|
    ensures forall i :: 0 <= i < |hrefs| ==>
              |BaseUrl| <= |links[i]| && links[i][..|BaseUrl|] == BaseUrl && links[i][|BaseUrl|..] == hrefs[i]
  {
    seq(|hrefs|, i requires 0 <= i < |hrefs| => BaseUrl + hrefs[i])
  }

  /** `getTagLinks`: appends one link per selected anchor. */
  method GetTagLinks(site: Site, tagName: string) returns (linkList: seq<string>)
    ensures linkList == TagLinks(site.tagAnchorHrefs(tagName))
  {
    var hrefs := site.tagAnchorHrefs(tagName);
    linkList := [];
    var i := 0;
    while i < |hrefs|
      invariant 0 <= i <= |hrefs|
      invariant |linkList| == i
      invariant forall j :: 0 <= j < i ==> linkList[j] == BaseUrl + hrefs[j]
    {
      linkList := linkList + [BaseUrl + hrefs[i]];
      i := i + 1;
    }
  }

  /** The listing's page count: the last paginator text as an int, or 1 when it is missing or does not parse. */
  function PageCount(lastPaginatorText: Option<string>): (n: int)
    ensures n == 1 || (lastPaginatorText.Some? && ParseInt(lastPaginatorText.value) == Some(n))
  {
    match lastPaginatorText
    case Some(text) =>
      (match ParseInt(text)
       case Some(count) => count
       case None => 1)
    case None => 1
  }

  /**
   * The URL of result page i: the offset is `i * 20` in int arithmetic, and
   * the source's format string has no `=` after `start`.
   */
  function PagedUrl(url: string, i: int): (pagedUrl: string)
    ensures |pagedUrl| > |url| + 13
    ensures pagedUrl[..|url| + 6] == url + "?start"
    ensures pagedUrl[|pagedUrl| - 7..] == "&type=T"
  {
    var offset := IntToString(Wrap32(i * 20));
    var u := url + "?start" + offset + "&type=T";
    assert u == (url + "?start") + (offset + "&type=T");
    assert u == (url + "?start" + offset) + "&type=T";
    u
  }

  /** One URL per page index from 0 below the page count; none when the count is not positive. */
  function PagedUrls(url: string, pageCount: int): (urls: seq<string>)
    ensures |urls| == if pageCount > 0 then pageCount else 0
  {
    if pageCount <= 0 then [] else seq(pageCount, i requires 0 <= i < pageCount => PagedUrl(url, i))
  }

  /** The loop in `parseBookDesc` that builds one task per result page. */
  method SchedulePages(url: string, pageCount: int) returns (pagedUrls: seq<string>)
    ensures pagedUrls == PagedUrls(url, pageCount)
  {
    pagedUrls := [];
    var i := 0;
    while i < pageCount
      invariant 0 <= i
      invariant pageCount > 0 ==> i <= pageCount
      invariant pageCount <= 0 ==> i == 0
      invariant |pagedUrls| == i
      invariant forall j :: 0 <= j < i ==> pagedUrls[j] == PagedUrl(url, j)
    {
      pagedUrls := pagedUrls + [PagedUrl(url, i)];
      i := i + 1;
    }
  }

  /** The result pages one listing link contributes. */
  function ListingTasks(url: string, page: ListingPage): seq<string>
  {
    match page
    case Unreachable => []
    case Fetched(lastText) => PagedUrls(url, PageCount(lastText))
  }

  /**
   * `parseBookDesc` up to its fan-out: reads the page count of the listing
   * and returns the result pages it schedules.
   */
  method ParseBookDesc(url: string, site: Site) returns (pagedUrls: seq<string>)
    ensures pagedUrls == ListingTasks(url, site.listing(url))
  {
    match site.listing(url)
    case Unreachable =>
      pagedUrls := [];
    case Fetched(lastText) =>
      var pageCount := PageCount(lastText);
      pagedUrls := SchedulePages(url, pageCount);
  }

  /** Every result page of a run, in the order the tasks are submitted. */
  function PageTasks(links: seq<string>, site: Site): seq<string>
    decreases |links|
  {
    if links == [] then []
    else PageTasks(links[..|links| - 1], site) + ListingTasks(links[|links| - 1], site.listing(links[|links| - 1]))
  }

  /** The Books a page's entries yield, in page order. */
  function Candidates(entries: seq<RawEntry>, criteria: SearchCriteria, parseScore: string -> Option<Score>): seq<Book>
    decreases |entries|
  {
    if entries == [] then []
    else
      Candidates(entries[..|entries| - 1], criteria, parseScore)
      + (match ToBook(entries[|entries| - 1], criteria, parseScore)
         case Some(b) => [b]
         case None => [])
  }

  /** The Books a sequence of executed page tasks yields, task after task. */
  function Harvest(urls: seq<string>, site: Site, criteria: SearchCriteria, parseScore: string -> Option<Score>): seq<Book>
    decreases |urls|
  {
    if urls == [] then []
    else Harvest(urls[..|urls| - 1], site, criteria, parseScore) + Candidates(site.entries(urls[|urls| - 1]), criteria, parseScore)
  }

  /** The titles of every passing entry on the given pages: what a run must end up holding, in any order. */
  function FoundTitles(urls: seq<string>, site: Site, criteria: SearchCriteria, parseScore: string -> Option<Score>): set<string>
  {
    set u, e | u in urls && e in site.entries(u) && ToBook(e, criteria, parseScore).Some? :: ToBook(e, criteria, parseScore).value.title
  }

  /**
   * The body of one result-page task: each entry is normalised, filtered,
   * and offered to the map; the Books whose title was new are the ones
   * reported as found.
   */
  method ProcessPage(crawlResult: CrawlResult, entries: seq<RawEntry>, criteria: SearchCriteria, parseScore: string -> Option<Score>)
    returns (found: seq<Book>)
    modifies crawlResult
    ensures crawlResult.books == InsertAll(old(crawlResult.books), Candidates(entries, criteria, parseScore))
    ensures found == Announced(old(crawlResult.books), Candidates(entries, criteria, parseScore))
  {
    ghost var before := crawlResult.books;
    found := [];
    var i := 0;
    while i < |entries|
      invariant 0 <= i <= |entries|
      invariant crawlResult.books == InsertAll(before, Candidates(entries[..i], criteria, parseScore))
      invariant found == Announced(before, Candidates(entries[..i], criteria, parseScore))
    {
      ghost var done := Candidates(entries[..i], criteria, parseScore);
      assert entries[..i + 1][..i] == entries[..i];
      var ele := entries[i];
      var title := NormaliseTitle(ele.titleText);
      var link := ele.link;
      var score := ScoreOf(ele.scoreText, parseScore);
      var peopleNum := PeopleCount(ele.peopleText);
      if AtLeast(score, criteria.score) && peopleNum >= criteria.people {
        var book := Book(title, score, peopleNum, link);
        assert ToBook(ele, criteria, parseScore) == Some(book);
        assert Candidates(entries[..i + 1], criteria, parseScore) == done + [book];
        InsertAllStep(before, done, book);
        var previous := crawlResult.PutIfAbsent(book.title, book);
        if previous == None {
          found := found + [book];
        }
      } else {
        assert ToBook(ele, criteria, parseScore) == None;
        assert Candidates(entries[..i + 1], criteria, parseScore) == done;
      }
      i := i + 1;
    }
    assert entries[..|entries|] == entries;
  }

  /**
   * One criteria run, up to the export: resolve the links, let every listing
   * schedule its result pages, then run the page tasks one after another in
   * an order the model leaves open (`executed` records the order chosen).
   */
  method Crawl(criteria: SearchCriteria, site: Site, parseScore: string -> Option<Score>)
    returns (crawlResult: CrawlResult, found: seq<Book>, ghost executed: seq<string>)
    ensures fresh(crawlResult)
    ensures multiset(executed) == multiset(PageTasks(TagLinks(site.tagAnchorHrefs(criteria.tagName)), site))
    ensures crawlResult.books == InsertAll(map[], Harvest(executed, site, criteria, parseScore))
    ensures found == Announced(map[], Harvest(executed, site, criteria, parseScore))
    ensures crawlResult.books.Keys == FoundTitles(PageTasks(TagLinks(site.tagAnchorHrefs(criteria.tagName)), site), site, criteria, parseScore)
  {
    var linkList := GetTagLinks(site, criteria.tagName);
    var submitted: seq<string> := [];
    var j := 0;
    while j < |linkList|
      invariant 0 <= j <= |linkList|
      invariant submitted == PageTasks(linkList[..j], site)
    {
      assert linkList[..j + 1][..j] == linkList[..j];
      var pages := ParseBookDesc(linkList[j], site);
      submitted := submitted + pages;
      j := j + 1;
    }
    assert linkList[..|linkList|] == linkList;

    crawlResult := new CrawlResult();
    found := [];
    executed := [];
    var pending := multiset(submitted);
    while pending != multiset{}
      invariant multiset(executed) + pending == multiset(submitted)
      invariant crawlResult.books == InsertAll(map[], Harvest(executed, site, criteria, parseScore))
      invariant found == Announced(map[], Harvest(executed, site, criteria, parseScore))
      decreases |pending|
    {
      var url :| url in pending;
      var pageFound := ProcessPage(crawlResult, site.entries(url), criteria, parseScore);
      InsertAllAppend(map[], Harvest(executed, site, criteria, parseScore), Candidates(site.entries(url), criteria, parseScore));
      found := found + pageFound;
      assert (executed + [url])[..|executed|] == executed;
      executed := executed + [url];
      pending := pending - multiset{url};
    }
    RunKeysAreFoundTitles(executed, site, criteria, parseScore);
    SameTasksSameTitles(executed, submitted, site, criteria, parseScore);
  }

  // ---------------------------------------------------------------------------
  // Page count and page URLs

  /** The page count is the parsed int when the text parses, and exactly 1 otherwise. */
  lemma PageCountCases(lastPaginatorText: Option<string>)
    ensures lastPaginatorText.None? ==> PageCount(lastPaginatorText) == 1
    ensures lastPaginatorText.Some? && ParseInt(lastPaginatorText.value).None? ==> PageCount(lastPaginatorText) == 1
    ensures lastPaginatorText.Some? && ParseInt(lastPaginatorText.value).Some? ==>
              PageCount(lastPaginatorText) == ParseInt(lastPaginatorText.value).value
  {
  }

  /** A paginator showing the number k yields k pages. */
  lemma PageCountOfNumber(k: int)
    requires IntMin <= k <= IntMax
    ensures PageCount(Some(IntToString(k))) == k
  {
    ParseIntRoundTrip(k);
  }

  /** A listing whose paginator is missing or unreadable still gets exactly one result page, at offset 0. */
  lemma FallbackSchedulesOnePage(url: string, lastPaginatorText: Option<string>)
    requires lastPaginatorText.None? || ParseInt(lastPaginatorText.value).None?
    ensures ListingTasks(url, Fetched(lastPaginatorText)) == [url + "?start0&type=T"]
  {
    assert PagedUrls(url, 1)[0] == PagedUrl(url, 0);
    assert Wrap32(0 * 20) == 0;
    assert IntToString(0) == "0";
    assert PagedUrl(url, 0) == url + "?start" + "0" + "&type=T";
    assert url + "?start" + "0" + "&type=T" == url + ("?start" + "0" + "&type=T");
    assert "?start" + "0" + "&type=T" == "?start0&type=T";
  }

  /** Below 107374183 pages the offset is exactly 20 per page, so offsets grow by 20 in loop order. */
  lemma PagedUrlOffset(url: string, i: int)
    requires 0 <= i <= 107374182
    ensures PagedUrl(url, i) == url + "?start" + IntToString(20 * i) + "&type=T"
  {
  }

  /** From page 107374183 on, `i * 20` overflows the int and the offset turns negative. */
  lemma OffsetOverflows()
    ensures Wrap32(107374183 * 20) == -2147483636
  {
  }

  /** Below the overflow, distinct pages get distinct URLs. */
  lemma PagedUrlsDistinct(url: string, i: int, j: int)
    requires 0 <= i <= 107374182 && 0 <= j <= 107374182
    requires PagedUrl(url, i) == PagedUrl(url, j)
    ensures i == j
  {
    var prefix := url + "?start";
    var a := IntToString(20 * i);
    var b := IntToString(20 * j);
    assert prefix + a + "&type=T" == prefix + b + "&type=T";
    assert |a| == |b|;
    assert a == (prefix + a + "&type=T")[|prefix|..|prefix| + |a|];
    assert b == (prefix + b + "&type=T")[|prefix|..|prefix| + |b|];
    IntToStringInjective(20 * i, 20 * j);
  }

  // ---------------------------------------------------------------------------
  // What a run stores

  /** A Book comes out of a page exactly when some entry on it yields that Book. */
  lemma {:induction false} CandidatesMembers(entries: seq<RawEntry>, criteria: SearchCriteria, parseScore: string -> Option<Score>, b: Book)
    ensures b in Candidates(entries, criteria, parseScore) <==> exists e :: e in entries && ToBook(e, criteria, parseScore) == Some(b)
    decreases |entries|
  {
    if entries != [] {
      var init := entries[..|entries| - 1];
      CandidatesMembers(init, criteria, parseScore, b);
      assert entries == init + [entries[|entries| - 1]];
    }
  }

  /** A Book comes out of a run exactly when some entry of some executed page yields it. */
  lemma {:induction false} HarvestMembers(urls: seq<string>, site: Site, criteria: SearchCriteria, parseScore: string -> Option<Score>, b: Book)
    ensures b in Harvest(urls, site, criteria, parseScore) <==>
              exists u, e :: u in urls && e in site.entries(u) && ToBook(e, criteria, parseScore) == Some(b)
    decreases |urls|
  {
    if urls != [] {
      var init := urls[..|urls| - 1];
      var last := urls[|urls| - 1];
      HarvestMembers(init, site, criteria, parseScore, b);
      CandidatesMembers(site.entries(last), criteria, parseScore, b);
      assert urls == init + [last];
    }
  }

  /** The keys a run leaves are the titles of the passing entries on the pages it executed. */
  lemma RunKeysAreFoundTitles(urls: seq<string>, site: Site, criteria: SearchCriteria, parseScore: string -> Option<Score>)
    ensures InsertAll(map[], Harvest(urls, site, criteria, parseScore)).Keys == FoundTitles(urls, site, criteria, parseScore)
  {
    var bs := Harvest(urls, site, criteria, parseScore);
    InsertAllKeys(map[], bs);
    forall k | k in Titles(bs) ensures k in FoundTitles(urls, site, criteria, parseScore) {
      var b :| b in bs && b.title == k;
      HarvestMembers(urls, site, criteria, parseScore, b);
    }
    forall k | k in FoundTitles(urls, site, criteria, parseScore) ensures k in Titles(bs) {
      var u, e :| u in urls && e in site.entries(u) && ToBook(e, criteria, parseScore).Some? && ToBook(e, criteria, parseScore).value.title == k;
      HarvestMembers(urls, site, criteria, parseScore, ToBook(e, criteria, parseScore).value);
    }
  }

  /** Running the same tasks in another order finds the same titles. */
  lemma SameTasksSameTitles(a: seq<string>, b: seq<string>, site: Site, criteria: SearchCriteria, parseScore: string -> Option<Score>)
    requires multiset(a) == multiset(b)
    ensures FoundTitles(a, site, criteria, parseScore) == FoundTitles(b, site, criteria, parseScore)
  {
    assert forall u :: u in a <==> u in b by {
      forall u ensures u in a <==> u in b {
        assert u in a <==> u in multiset(a);
        assert u in b <==> u in multiset(b);
      }
    }
  }

  /**
   * Whatever order the tasks run in, the run stores the same titles;
   * only which of several same-titled Books is kept may differ.
   */
  lemma KeysIndependentOfOrder(order1: seq<string>, order2: seq<string>, site: Site, criteria: SearchCriteria, parseScore: string -> Option<Score>)
    requires multiset(order1) == multiset(order2)
    ensures InsertAll(map[], Harvest(order1, site, criteria, parseScore)).Keys == InsertAll(map[], Harvest(order2, site, criteria, parseScore)).Keys
  {
    RunKeysAreFoundTitles(order1, site, criteria, parseScore);
    RunKeysAreFoundTitles(order2, site, criteria, parseScore);
    SameTasksSameTitles(order1, order2, site, criteria, parseScore);
  }

  /**
   * Every stored Book is keyed by its title, passes both thresholds of the
   * run's criteria, and is what some entry of an executed page yields.
   */
  lemma RunResultSound(urls: seq<string>, site: Site, criteria: SearchCriteria, parseScore: string -> Option<Score>, k: string)
    requires k in InsertAll(map[], Harvest(urls, site, criteria, parseScore))
    ensures var b := InsertAll(map[], Harvest(urls, site, criteria, parseScore))[k];
      b.title == k && AtLeast(b.score, criteria.score) && b.people >= criteria.people
      && exists u, e :: u in urls && e in site.entries(u) && ToBook(e, criteria, parseScore) == Some(b)
  {
    var bs := Harvest(urls, site, criteria, parseScore);
    InsertAllValues(map[], bs);
    InsertAllKeyedByTitle(map[], bs);
    var b := InsertAll(map[], bs)[k];
    HarvestMembers(urls, site, criteria, parseScore, b);
  }

  /**
   * Under the first Book of a title to be processed, the run keeps that Book:
   * later Books with the same title never overwrite it.
   */
  lemma RunKeepsFirstWriter(urls: seq<string>, site: Site, criteria: SearchCriteria, parseScore: string -> Option<Score>, i: nat)
    requires i < |Harvest(urls, site, criteria, parseScore)|
    requires forall j :: 0 <= j < i ==> Harvest(urls, site, criteria, parseScore)[j].title != Harvest(urls, site, criteria, parseScore)[i].title
    ensures var bs := Harvest(urls, site, criteria, parseScore);
      bs[i].title in InsertAll(map[], bs) && InsertAll(map[], bs)[bs[i].title] == bs[i]
  {
    InsertAllFirstWriterWins(map[], Harvest(urls, site, criteria, parseScore), i);
  }

  /**
   * A run with criteria at least as strict as another's, on the same tag,
   * finds a subset of the other's titles.
   */
  lemma StricterRunFindsSubset(urls: seq<string>, site: Site, loose: SearchCriteria, strict: SearchCriteria, parseScore: string -> Option<Score>)
    requires AtLeast(strict.score, loose.score) && strict.people >= loose.people
    ensures FoundTitles(urls, site, strict, parseScore) <= FoundTitles(urls, site, loose, parseScore)
  {
    forall k | k in FoundTitles(urls, site, strict, parseScore) ensures k in FoundTitles(urls, site, loose, parseScore) {
      var u, e :| u in urls && e in site.entries(u) && ToBook(e, strict, parseScore).Some? && ToBook(e, strict, parseScore).value.title == k;
      StricterCriteriaAdmitLess(e, loose, strict, parseScore);
    }
  }
}
