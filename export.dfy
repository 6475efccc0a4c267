/**
 * The end of a criteria run in `main`: the file name derived from the
 * criteria and the CSV text built from the result map, one line per entry.
 * Writing the file is not part of the model.
 */
module Export {
  import opened JavaNumbers
  import opened JavaStrings
  import opened Books

  /** The first line: title, score, number of ratings, link. */
  const Header: string := "标题,评分,人数,链接\n"

  /** `String.format("%s,%s,%s,%s\n", key, score, people, link)`; the float rendering is a parameter. */
  function Row(key: string, book: Book, showScore: Score -> string): (row: string)
    ensures |row| > |key| + 1 && row[..|key| + 1] == key + ","
    ensures row[|row| - 1] == '\n'
  {
    var rest := showScore(book.score) + "," + IntToString(book.people) + "," + book.link + "\n";
    assert key + "," + showScore(book.score) + "," + IntToString(book.people) + "," + book.link + "\n" == (key + ",") + rest;
    (key + ",") + rest
  }

  /** The rows of the entries in the given key order. */
  function Rows(order: seq<string>, books: map<string, Book>, showScore: Score -> string): string
    requires forall k :: k in order ==> k in books
    decreases |order|
  {
    if order == [] then []
    else Rows(order[..|order| - 1], books, showScore) + Row(order[|order| - 1], books[order[|order| - 1]], showScore)
  }

  function CsvText(order: seq<string>, books: map<string, Book>, showScore: Score -> string): string
    requires forall k :: k in order ==> k in books
  {
    Header + Rows(order, books, showScore)
  }

  /** An order in which a map's entry set may be iterated: every key exactly once. */
  ghost predicate IsEnumeration(order: seq<string>, keys: set<string>)
  {
    (forall i, j :: 0 <= i < j < |order| ==> order[i] != order[j])
    && (forall k :: k in order <==> k in keys)
  }

  /** `String.format("%s-%s-%s.csv", tagName, score, people)`. */
  function FileName(criteria: SearchCriteria, showScore: Score -> string): (name: string)
    ensures |name| >= 4 && name[|name| - 4..] == ".csv"
    ensures |name| > |criteria.tagName| && name[..|criteria.tagName| + 1] == criteria.tagName + "-"
  {
    criteria.tagName + "-" + showScore(criteria.score) + "-" + IntToString(criteria.people) + ".csv"
  }

  /**
   * The export block: derives the file name, then appends one row per map
   * entry to the header, visiting the entries in an order the map decides
   * (`order` records it).
   */
  method ExportCsv(criteria: SearchCriteria, crawlResult: map<string, Book>, showScore: Score -> string)
    returns (fileName: string, csv: string, ghost order: seq<string>)
    ensures fileName == FileName(criteria, showScore)
    ensures IsEnumeration(order, crawlResult.Keys)
    ensures csv == CsvText(order, crawlResult, showScore)
  {
    fileName := criteria.tagName + "-" + showScore(criteria.score) + "-" + IntToString(criteria.people) + ".csv";
    csv := Header;
    order := [];
    var remaining := crawlResult.Keys;
    while remaining != {}
      invariant remaining <= crawlResult.Keys
      invariant forall k :: k in order ==> k in crawlResult && k !in remaining
      invariant forall k :: k in crawlResult ==> k in order || k in remaining
      invariant forall i, j :: 0 <= i < j < |order| ==> order[i] != order[j]
      invariant csv == CsvText(order, crawlResult, showScore)
      decreases remaining
    {
      var key :| key in remaining;
      csv := csv + Row(key, crawlResult[key], showScore);
      RowsStep(order, key, crawlResult, showScore);
      order := order + [key];
      remaining := remaining - {key};
    }
  }

  lemma RowsStep(order: seq<string>, key: string, books: map<string, Book>, showScore: Score -> string)
    requires forall k :: k in order ==> k in books
    requires key in books
    ensures forall k :: k in order + [key] ==> k in books
    ensures CsvText(order + [key], books, showScore) == CsvText(order, books, showScore) + Row(key, books[key], showScore)
  {
    assert (order + [key])[..|order|] == order;
  }

  /** A row holds one line break, at its end, when its fields hold none. */
  lemma RowLineCount(key: string, book: Book, showScore: Score -> string)
    requires '\n' !in key && '\n' !in showScore(book.score) && '\n' !in book.link
    ensures Count(Row(key, book, showScore), '\n') == 1
  {
    var people := IntToString(book.people);
    IntToStringChars(book.people);
    assert '\n' !in people;
    var rest := showScore(book.score) + "," + people + "," + book.link + "\n";
    assert Row(key, book, showScore) == (key + ",") + rest;
    CountConcat(key + ",", rest, '\n');
    CountConcat(showScore(book.score) + "," + people + "," + book.link, "\n", '\n');
    CountConcat(showScore(book.score) + "," + people + ",", book.link, '\n');
    CountConcat(showScore(book.score) + "," + people, ",", '\n');
    CountConcat(showScore(book.score) + ",", people, '\n');
    CountConcat(showScore(book.score), ",", '\n');
    CountConcat(key, ",", '\n');
    CountAbsent(key, '\n');
    CountAbsent(showScore(book.score), '\n');
    CountAbsent(people, '\n');
    CountAbsent(book.link, '\n');
  }

  lemma {:induction false} RowsLineCount(order: seq<string>, books: map<string, Book>, showScore: Score -> string)
    requires forall k :: k in order ==> k in books
    requires forall k :: k in books ==> '\n' !in k && '\n' !in showScore(books[k].score) && '\n' !in books[k].link
    ensures Count(Rows(order, books, showScore), '\n') == |order|
    decreases |order|
  {
    if order != [] {
      var init := order[..|order| - 1];
      var last := order[|order| - 1];
      assert forall k :: k in init ==> k in order;
      RowsLineCount(init, books, showScore);
      RowLineCount(last, books[last], showScore);
      CountConcat(Rows(init, books, showScore), Row(last, books[last], showScore), '\n');
    }
  }

  /** A sequence without repetitions has as many distinct elements as positions. */
  lemma {:induction false} DistinctCardinality(order: seq<string>)
    requires forall i, j :: 0 <= i < j < |order| ==> order[i] != order[j]
    ensures |set k | k in order| == |order|
    decreases |order|
  {
    if order != [] {
      var init := order[..|order| - 1];
      var last := order[|order| - 1];
      DistinctCardinality(init);
      assert last !in init;
      assert (set k | k in order) == (set k | k in init) + {last};
    }
  }

  /**
   * The CSV has the header line plus exactly one line per map entry,
   * provided titles, rendered scores and links hold no line break.
   */
  lemma CsvLineCount(order: seq<string>, books: map<string, Book>, showScore: Score -> string)
    requires IsEnumeration(order, books.Keys)
    requires forall k :: k in books ==> '\n' !in k && '\n' !in showScore(books[k].score) && '\n' !in books[k].link
    ensures Count(CsvText(order, books, showScore), '\n') == 1 + |books|
  {
    RowsLineCount(order, books, showScore);
    CountConcat(Header, Rows(order, books, showScore), '\n');
    HeaderLineCount();
    EnumerationSize(order, books.Keys);
  }

  lemma HeaderLineCount()
    ensures Count(Header, '\n') == 1
  {
    var line := "标题,评分,人数,链接";
    assert Header == line + "\n";
    assert '\n' !in line;
    CountAbsent(line, '\n');
    CountConcat(line, "\n", '\n');
  }

  /** An enumeration of a key set is as long as the set is large. */
  lemma EnumerationSize(order: seq<string>, keys: set<string>)
    requires IsEnumeration(order, keys)
    ensures |order| == |keys|
  {
    DistinctCardinality(order);
    assert (set k | k in order) == keys;
  }

  /** Two runs on the same tag and score with different rating thresholds write different files. */
  lemma FileNamesDistinguishPeople(a: SearchCriteria, b: SearchCriteria, showScore: Score -> string)
    requires a.tagName == b.tagName && showScore(a.score) == showScore(b.score)
    requires FileName(a, showScore) == FileName(b, showScore)
    ensures a.people == b.people
  {
    var prefix := a.tagName + "-" + showScore(a.score) + "-";
    var pa := IntToString(a.people);
    var pb := IntToString(b.people);
    assert FileName(a, showScore) == prefix + pa + ".csv";
    assert FileName(b, showScore) == prefix + pb + ".csv";
    assert |pa| == |pb|;
    assert pa == (prefix + pa + ".csv")[|prefix|..|prefix| + |pa|];
    assert pb == (prefix + pb + ".csv")[|prefix|..|prefix| + |pb|];
    IntToStringInjective(a.people, b.people);
  }
}
