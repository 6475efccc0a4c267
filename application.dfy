/**
 * The body `main` runs for each criteria: a fresh result map, the crawl,
 * then the export of whatever the map holds.
 */
module Application {
  import opened Wrappers
  import opened JavaNumbers
  import opened JavaStrings
  import opened Books
  import opened Aggregation
  import opened Crawler
  import opened Export

  /**
   * One criteria run: crawl every result page of the tag (in an order left
   * open) and export the result map (in an order the map decides).
   */
  method RunCriteria(criteria: SearchCriteria, site: Site, parseScore: string -> Option<Score>, showScore: Score -> string)
    returns (fileName: string, csv: string, found: seq<Book>, ghost books: map<string, Book>, ghost executed: seq<string>, ghost order: seq<string>)
    ensures multiset(executed) == multiset(PageTasks(TagLinks(site.tagAnchorHrefs(criteria.tagName)), site))
    ensures books == InsertAll(map[], Harvest(executed, site, criteria, parseScore))
    ensures found == Announced(map[], Harvest(executed, site, criteria, parseScore))
    ensures fileName == FileName(criteria, showScore)
    ensures IsEnumeration(order, books.Keys)
    ensures csv == CsvText(order, books, showScore)
  {
    var crawlResult;
    crawlResult, found, executed := Crawl(criteria, site, parseScore);
    books := crawlResult.books;
    fileName, csv, order := ExportCsv(criteria, crawlResult.books, showScore);
  }

  /**
   * However the tasks and the export are ordered, the file has the header
   * plus one line per distinct title among the passing entries of the run's
   * pages, provided rendered scores and links hold no line break.
   */
  lemma RunCsvLineCount(criteria: SearchCriteria, site: Site, parseScore: string -> Option<Score>, showScore: Score -> string,
                        executed: seq<string>, order: seq<string>)
    requires multiset(executed) == multiset(PageTasks(TagLinks(site.tagAnchorHrefs(criteria.tagName)), site))
    requires IsEnumeration(order, InsertAll(map[], Harvest(executed, site, criteria, parseScore)).Keys)
    requires forall b :: b in Harvest(executed, site, criteria, parseScore) ==> '\n' !in showScore(b.score) && '\n' !in b.link
    ensures Count(CsvText(order, InsertAll(map[], Harvest(executed, site, criteria, parseScore)), showScore), '\n')
            == 1 + |FoundTitles(PageTasks(TagLinks(site.tagAnchorHrefs(criteria.tagName)), site), site, criteria, parseScore)|
  {
    var bs := Harvest(executed, site, criteria, parseScore);
    var books := InsertAll(map[], bs);
    InsertAllValues(map[], bs);
    InsertAllKeyedByTitle(map[], bs);
    forall k | k in books ensures '\n' !in k && '\n' !in showScore(books[k].score) && '\n' !in books[k].link {
      var b := books[k];
      assert b in bs;
      HarvestMembers(executed, site, criteria, parseScore, b);
      var u, e :| u in executed && e in site.entries(u) && ToBook(e, criteria, parseScore) == Some(b);
      assert b.title == NormaliseTitle(e.titleText);
    }
    CsvLineCount(order, books, showScore);
    RunKeysAreFoundTitles(executed, site, criteria, parseScore);
    SameTasksSameTitles(executed, PageTasks(TagLinks(site.tagAnchorHrefs(criteria.tagName)), site), site, criteria, parseScore);
  }

  /**
   * Of two entries on a page, one passing and one failing the criteria, only
   * the passing one is stored, under its normalised title.
   */
  lemma PassingEntryAloneIsKept(a: RawEntry, b: RawEntry, criteria: SearchCriteria, parseScore: string -> Option<Score>)
    requires Passes(ScoreOf(a.scoreText, parseScore), PeopleCount(a.peopleText), criteria)
    requires !Passes(ScoreOf(b.scoreText, parseScore), PeopleCount(b.peopleText), criteria)
    ensures InsertAll(map[], Candidates([a, b], criteria, parseScore))
        == map[NormaliseTitle(a.titleText) := Book(NormaliseTitle(a.titleText), ScoreOf(a.scoreText, parseScore), PeopleCount(a.peopleText), a.link)]
  {
    assert [a, b][..1] == [a];
    assert [a][..0] == [];
    var bookA := Book(NormaliseTitle(a.titleText), ScoreOf(a.scoreText, parseScore), PeopleCount(a.peopleText), a.link);
    assert ToBook(a, criteria, parseScore) == Some(bookA);
    assert ToBook(b, criteria, parseScore) == None;
    assert Candidates([a], criteria, parseScore) == Candidates([], criteria, parseScore) + [bookA];
    assert Candidates([a, b], criteria, parseScore) == Candidates([a], criteria, parseScore) + [];
    assert Candidates([a, b], criteria, parseScore) == [bookA];
    assert [bookA][..0] == [];
  }

  /**
   * With thresholds 8.5 and 2000, an entry scoring 9.0 with 3000 ratings is
   * kept and one scoring 7.0 with 5000 ratings is not, so a page holding
   * both leaves only the first in the map.
   */
  lemma OnlyPassingEntryIsKept(a: RawEntry, b: RawEntry, parseScore: string -> Option<Score>)
    requires parseScore(a.scoreText) == Some(Num(9.0)) && a.peopleText == "(3000人评价)"
    requires parseScore(b.scoreText) == Some(Num(7.0)) && b.peopleText == "(5000人评价)"
    ensures var criteria := SearchCriteria("生活", Num(8.5), 2000);
      InsertAll(map[], Candidates([a, b], criteria, parseScore))
        == map[NormaliseTitle(a.titleText) := Book(NormaliseTitle(a.titleText), Num(9.0), 3000, a.link)]
  {
    assert NatToString(3000) == "3000";
    assert NatToString(5000) == "5000";
    PeopleCountOfRatingText(3000);
    PeopleCountOfRatingText(5000);
    assert "(" + NatToString(3000) + "人评价)" == "(3000人评价)";
    assert "(" + NatToString(5000) + "人评价)" == "(5000人评价)";
    PassingEntryAloneIsKept(a, b, SearchCriteria("生活", Num(8.5), 2000), parseScore);
  }
}
