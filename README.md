# douban-crawler, modelled in Dafny

douban-crawler collects well-rated books from book.douban.com. It runs once
for each search criteria: a category tag (生活, 科技, …), a minimum score and
a minimum number of ratings. For one criteria it:

1. resolves the tag's listing links from the tag index page (`getTagLinks`);
2. reads each listing's page count from its last paginator anchor, falling
   back to one page, and schedules one task per result page at offset
   `i * 20` (`parseBookDesc`);
3. in each task, normalises every entry's title, parses its score and rating
   count (a value that does not parse counts as 0) and keeps the entries
   reaching both thresholds. It stores them with `putIfAbsent` in a map keyed
   by title and reports the ones whose title was new;
4. writes the map to a CSV file named `tag-score-people.csv`, with the header
   `标题,评分,人数,链接` and one row per map entry.

The HTTP client the crawler uses has a keep-alive strategy. It reuses a
connection for the `timeout=` seconds the `Keep-Alive` header announces,
converted to milliseconds, and for one minute when the header gives none.

The model has these modules:

- `JavaNumbers`: `Integer.parseInt`/`Long.parseLong`, decimal printing of
  ints, and 32-/64-bit wrap-around.
- `JavaStrings`: `String.replace(target, "")`, character counting and ASCII
  `equalsIgnoreCase`.
- `KeepAlive`: the keep-alive strategy, as a loop proved against a reference
  function.
- `Books`: the per-entry logic. It models Java float comparison with NaN and
  the infinities; the score parser and renderer are parameters.
- `Aggregation`: the result map as a class with `putIfAbsent`, and what a
  sequence of insertions leaves in it.
- `Crawler`: link resolution, page scheduling, the per-page task and the
  whole run. The tasks run one after another in an order the model leaves
  open, and a ghost sequence records the order.
- `Export`: the file name and the CSV text. The CSV visits the map's entries
  in an order the model leaves open.
- `Application`: one criteria run of `main`, from crawl to CSV.

Pages are a `Site` value. It gives the tag anchors' hrefs, a listing's last
paginator text (or that the listing is unreachable) and the entries of a
result page, as texts already extracted from the HTML.

Details of the code the model keeps as written:

- The CSV header is the Chinese `标题,评分,人数,链接`.
- The page URL format has no `=` after `start` (`?start20&type=T`).

One detail of the code the model does not keep: a run waits only for the
last submitted task, not for all of them, while the model runs every task
before the export (see "Left out").

## Model

| member | source | states |
|---|---|---|
| JavaNumbers.Wrap32 | src/main/java/com/zrz/douban/crawler/CrawlerApplication.java:159 | the int product `i * 20` is the value congruent to it modulo 2^32 in the int range; it is unchanged when it fits |
| JavaNumbers.Wrap64 | src/main/java/com/zrz/douban/crawler/HttpClientUtil.java:53 | the long product `seconds * 1000` is the value congruent to it modulo 2^64 in the long range; it is unchanged when it fits |
| JavaNumbers.ParseInt | src/main/java/com/zrz/douban/crawler/CrawlerApplication.java:179 | a parsed int is within the int range and is the decimal value of the (optionally signed) digit text |
| JavaNumbers.ParseLong | src/main/java/com/zrz/douban/crawler/HttpClientUtil.java:53 | a parsed long is within the long range and is the decimal value of the (optionally signed) digit text |
| JavaNumbers.ParseDecimal | src/main/java/com/zrz/douban/crawler/CrawlerApplication.java:149 | text parses exactly when it is one or more ASCII digits, optionally after one `+` or `-`; a negative result comes only from a leading `-` |
| JavaNumbers.IntToString | src/main/java/com/zrz/douban/crawler/CrawlerApplication.java:159 | `Integer.toString`, what `%s` prints for the page offset, the rating count and the threshold: never empty, a leading `-` exactly for negative numbers, digits everywhere else |
| JavaNumbers.NatToStringRoundTrip | src/main/java/com/zrz/douban/crawler/CrawlerApplication.java:108 | reading back the decimal digits printed for a natural number gives that number |
| JavaNumbers.IntToStringRoundTrip | src/main/java/com/zrz/douban/crawler/CrawlerApplication.java:104-108 | decimal parsing, before any range check, reads back every number as `Integer.toString`/`Long.toString` prints it |
| JavaNumbers.ParseIntRoundTrip | src/main/java/com/zrz/douban/crawler/CrawlerApplication.java:179 | `Integer.parseInt` accepts every int as Java prints it and returns that int |
| JavaNumbers.ParseLongRoundTrip | src/main/java/com/zrz/douban/crawler/HttpClientUtil.java:53 | `Long.parseLong` accepts every long as Java prints it and returns that long |
| JavaNumbers.IntToStringInjective | src/main/java/com/zrz/douban/crawler/CrawlerApplication.java:104 | different ints print differently |
| JavaNumbers.ParseRejectsNonDigit | src/main/java/com/zrz/douban/crawler/CrawlerApplication.java:179-181 | a text with a non-digit after the optional sign does not parse |
| JavaStrings.RemoveAll | src/main/java/com/zrz/douban/crawler/CrawlerApplication.java:162-164 | `replace(target, "")` never lengthens the text, and a one-character target leaves no occurrence of that character |
| JavaStrings.EqualsIgnoreCase | src/main/java/com/zrz/douban/crawler/HttpClientUtil.java:52 | equal texts match, and matching texts have the same length |
| JavaStrings.RemoveOneCharIsWithout | src/main/java/com/zrz/douban/crawler/CrawlerApplication.java:162-164 | replacing a one-character target with "" deletes exactly the occurrences of that character |
| JavaStrings.RemoveAllTrailing | src/main/java/com/zrz/douban/crawler/CrawlerApplication.java:178 | a trailing target is removed and the text before it is kept, when the target's first character does not occur in that text |
| KeepAlive.FirstTimeout | src/main/java/com/zrz/douban/crawler/HttpClientUtil.java:48-54 | a value is found only if some element has it, has a value and is named `timeout` in any case; none is found only if no element qualifies |
| KeepAlive.KeepAliveMillis | src/main/java/com/zrz/douban/crawler/HttpClientUtil.java:46-57 | a duration is always a long; with no qualifying element it is 60000; a failure carries the first qualifying value, which is not a long |
| KeepAlive.GetKeepAliveDuration | src/main/java/com/zrz/douban/crawler/HttpClientUtil.java:46-59 | the loop returns the strategy's outcome: the first qualifying element's seconds times 1000, the one-minute default, or the parse error |
| KeepAlive.FirstTimeoutIsFirstMatch | src/main/java/com/zrz/douban/crawler/HttpClientUtil.java:48-54 | a timeout value is found if and only if some element has a value and is named `timeout` in any case; it is the value of the first such element |
| KeepAlive.FirstQualifyingWins | src/main/java/com/zrz/douban/crawler/HttpClientUtil.java:48-54 | elements after the first qualifying one never affect the outcome |
| KeepAlive.NullValueSkipped | src/main/java/com/zrz/douban/crawler/HttpClientUtil.java:52 | a `timeout` element without a value is passed over |
| KeepAlive.NameMatchIgnoresCase | src/main/java/com/zrz/douban/crawler/HttpClientUtil.java:52 | `Timeout` and `TIMEOUT` qualify like `timeout`; `timeouts` does not |
| KeepAlive.DefaultWithoutTimeout | src/main/java/com/zrz/douban/crawler/HttpClientUtil.java:57 | with no qualifying element the duration is 60000 ms |
| KeepAlive.TimeoutInSeconds | src/main/java/com/zrz/douban/crawler/HttpClientUtil.java:53 | `timeout=N` gives exactly N * 1000 ms when that fits a long |
| KeepAlive.AnyLongTimeout | src/main/java/com/zrz/douban/crawler/HttpClientUtil.java:53 | any timeout that is a long gives its seconds times 1000 wrapped to 64 bits, whether or not that overflows |
| KeepAlive.OversizedTimeoutWraps | src/main/java/com/zrz/douban/crawler/HttpClientUtil.java:53 | a timeout whose millisecond value lies strictly between 2^63 - 1 and 2^64 gives that value minus 2^64, a negative duration |
| KeepAlive.MalformedTimeoutEscapes | src/main/java/com/zrz/douban/crawler/HttpClientUtil.java:53 | a first timeout value that is not a long makes the strategy fail with the rejected text |
| Books.AtLeast | src/main/java/com/zrz/douban/crawler/CrawlerApplication.java:184 | Java float `>=`: false when either side is NaN, the real order on finite scores, +infinity at least anything and anything at least -infinity |
| Books.NormaliseTitle | src/main/java/com/zrz/douban/crawler/CrawlerApplication.java:162-164 | a stored title holds no line break and no space |
| Books.TitleNormalisation | src/main/java/com/zrz/douban/crawler/CrawlerApplication.java:162-164 | normalising deletes exactly the line breaks and spaces, keeps every other character, and is idempotent |
| Books.CleanPeopleText | src/main/java/com/zrz/douban/crawler/CrawlerApplication.java:174-178 | the cleaned rating text is no longer than the original and holds no space, "(" or line break |
| Books.PeopleCount | src/main/java/com/zrz/douban/crawler/CrawlerApplication.java:172-182 | the rating count is always an int |
| Books.CleanRatingText | src/main/java/com/zrz/douban/crawler/CrawlerApplication.java:175-178 | cleaning "(" + inner + "人评价)" leaves inner, when inner holds none of the deleted characters |
| Books.PeopleCountOfRatingText | src/main/java/com/zrz/douban/crawler/CrawlerApplication.java:172-182 | the text "(N人评价)" yields N for every N from 0 to 2^31 - 1 |
| Books.NonNumericRatingCountsAsZero | src/main/java/com/zrz/douban/crawler/CrawlerApplication.java:172-182 | a rating text whose inner part starts with neither a digit nor a sign counts as 0 |
| Books.FewRatingsCountAsZero | src/main/java/com/zrz/douban/crawler/CrawlerApplication.java:172-182 | "(少于10人评价)" does not parse and counts as 0 |
| Books.ScoreOf | src/main/java/com/zrz/douban/crawler/CrawlerApplication.java:166-170 | the parsed score, or 0f when the text does not parse |
| Books.Passes | src/main/java/com/zrz/douban/crawler/CrawlerApplication.java:184 | a passing entry has a non-NaN score against a non-NaN threshold and at least the threshold of ratings; a +infinity score passes any non-NaN score threshold once the count is met |
| Books.ToBook | src/main/java/com/zrz/douban/crawler/CrawlerApplication.java:161-185 | an entry yields a Book exactly when its score and rating count reach both thresholds (inclusive); the Book carries the normalised title and the link |
| Books.AtLeastTotal | src/main/java/com/zrz/douban/crawler/CrawlerApplication.java:184 | under Java's float `>=`, NaN compares to nothing and any two other scores compare in at least one direction |
| Books.AtLeastTransitive | src/main/java/com/zrz/douban/crawler/CrawlerApplication.java:184 | Java's float `>=` is transitive |
| Books.DefaultedFieldFailsPositiveThreshold | src/main/java/com/zrz/douban/crawler/CrawlerApplication.java:166-185 | an entry whose score or rating count fell back to zero yields nothing under a positive threshold on that field |
| Books.StricterCriteriaAdmitLess | src/main/java/com/zrz/douban/crawler/CrawlerApplication.java:184-185 | an entry admitted by stricter criteria is admitted by looser ones as the same Book |
| Aggregation.CrawlResult.constructor | src/main/java/com/zrz/douban/crawler/CrawlerApplication.java:93 | each run starts from an empty map |
| Aggregation.CrawlResult.PutIfAbsent | src/main/java/com/zrz/douban/crawler/CrawlerApplication.java:186 | returns the previous value and leaves the map alone when the key is present; otherwise returns null (None) and adds the entry |
| Aggregation.Insert | src/main/java/com/zrz/douban/crawler/CrawlerApplication.java:186 | after `putIfAbsent` the title is present, holding the earlier book when there was one and the new book otherwise |
| Aggregation.InsertAllStep | src/main/java/com/zrz/douban/crawler/CrawlerApplication.java:186-188 | one more `putIfAbsent` extends the map, and the book is reported exactly when its title was absent |
| Aggregation.InsertAllAppend | src/main/java/com/zrz/douban/crawler/CrawlerApplication.java:186-188 | inserting two batches one after the other is inserting their concatenation, for the map and for the reports |
| Aggregation.InsertAllKeys | src/main/java/com/zrz/douban/crawler/CrawlerApplication.java:186 | the keys afterwards are the keys before plus the titles inserted |
| Aggregation.InsertAllKeepsExisting | src/main/java/com/zrz/douban/crawler/CrawlerApplication.java:186 | an entry already present is never overwritten |
| Aggregation.InsertAllFirstWriterWins | src/main/java/com/zrz/douban/crawler/CrawlerApplication.java:186 | a new title ends up holding the first book inserted under it |
| Aggregation.InsertAllGrowth | src/main/java/com/zrz/douban/crawler/CrawlerApplication.java:186 | the map never shrinks and grows by at most one entry per insertion |
| Aggregation.InsertAllValues | src/main/java/com/zrz/douban/crawler/CrawlerApplication.java:186 | every stored book was there before or is one of those inserted |
| Aggregation.InsertAllKeyedByTitle | src/main/java/com/zrz/douban/crawler/CrawlerApplication.java:186 | every key holds a book with that title |
| Aggregation.AnnouncedAreStored | src/main/java/com/zrz/douban/crawler/CrawlerApplication.java:186-188 | the reported titles are exactly the keys added, and each reported book is the one stored |
| Aggregation.AnnouncedExactlyOnce | src/main/java/com/zrz/douban/crawler/CrawlerApplication.java:186-188 | no title is reported twice |
| Aggregation.InsertAllKeepsFilter | src/main/java/com/zrz/douban/crawler/CrawlerApplication.java:184-186 | when every inserted book passes the filter, every stored book does |
| Crawler.TagLinks | src/main/java/com/zrz/douban/crawler/CrawlerApplication.java:126-131 | one link per anchor, in anchor order, each the base URL followed by that anchor's href |
| Crawler.GetTagLinks | src/main/java/com/zrz/douban/crawler/CrawlerApplication.java:125-135 | the loop builds exactly those links |
| Crawler.PageCount | src/main/java/com/zrz/douban/crawler/CrawlerApplication.java:145-153 | the page count is 1 or the parsed paginator text |
| Crawler.PageCountCases | src/main/java/com/zrz/douban/crawler/CrawlerApplication.java:148-153 | the page count is the parsed int when the text parses, and exactly 1 when it is missing or does not parse |
| Crawler.PageCountOfNumber | src/main/java/com/zrz/douban/crawler/CrawlerApplication.java:149 | a paginator showing the int k gives k pages |
| Crawler.PagedUrl | src/main/java/com/zrz/douban/crawler/CrawlerApplication.java:159 | a page URL is the listing URL followed by `?start`, the offset, and `&type=T` |
| Crawler.PagedUrls | src/main/java/com/zrz/douban/crawler/CrawlerApplication.java:156-159 | one page URL per index below a positive page count, none otherwise |
| Crawler.SchedulePages | src/main/java/com/zrz/douban/crawler/CrawlerApplication.java:156-159 | the loop builds exactly those page URLs |
| Crawler.ParseBookDesc | src/main/java/com/zrz/douban/crawler/CrawlerApplication.java:144-159 | a listing schedules the pages its page count calls for |
| Crawler.FallbackSchedulesOnePage | src/main/java/com/zrz/douban/crawler/CrawlerApplication.java:150-159 | a listing with a missing or unreadable paginator gets exactly the page at offset 0 |
| Crawler.PagedUrlOffset | src/main/java/com/zrz/douban/crawler/CrawlerApplication.java:159 | below 107374183 pages the offset is exactly 20 per page |
| Crawler.OffsetOverflows | src/main/java/com/zrz/douban/crawler/CrawlerApplication.java:159 | at page 107374183 the int offset overflows to -2147483636 |
| Crawler.PagedUrlsDistinct | src/main/java/com/zrz/douban/crawler/CrawlerApplication.java:159 | below the overflow, distinct pages get distinct URLs |
| Crawler.ProcessPage | src/main/java/com/zrz/douban/crawler/CrawlerApplication.java:161-190 | a page task inserts its passing entries in page order with `putIfAbsent` and reports those whose title was new |
| Crawler.Crawl | src/main/java/com/zrz/douban/crawler/CrawlerApplication.java:92-103 | the run executes every scheduled page exactly once, in some order; the map and the reports are those of inserting the passing entries in that order; the keys are the passing entries' titles |
| Crawler.CandidatesMembers | src/main/java/com/zrz/douban/crawler/CrawlerApplication.java:161-185 | a Book comes out of a page exactly when some entry on it yields that Book |
| Crawler.HarvestMembers | src/main/java/com/zrz/douban/crawler/CrawlerApplication.java:155-191 | a Book comes out of a run exactly when some entry of some executed page yields it |
| Crawler.RunKeysAreFoundTitles | src/main/java/com/zrz/douban/crawler/CrawlerApplication.java:184-188 | the keys a run leaves are the titles of the passing entries on its pages |
| Crawler.SameTasksSameTitles | src/main/java/com/zrz/douban/crawler/CrawlerApplication.java:155-191 | the same tasks in another order find the same titles |
| Crawler.KeysIndependentOfOrder | src/main/java/com/zrz/douban/crawler/CrawlerApplication.java:97-101 | whatever order the tasks run in, the map ends with the same keys |
| Crawler.RunResultSound | src/main/java/com/zrz/douban/crawler/CrawlerApplication.java:184-186 | every stored Book is keyed by its title, passes both thresholds and is what some entry of an executed page yields |
| Crawler.RunKeepsFirstWriter | src/main/java/com/zrz/douban/crawler/CrawlerApplication.java:186 | under each title the run keeps the first Book of that title to be processed |
| Crawler.StricterRunFindsSubset | src/main/java/com/zrz/douban/crawler/CrawlerApplication.java:184 | stricter criteria on the same pages find a subset of the titles |
| Export.FileName | src/main/java/com/zrz/douban/crawler/CrawlerApplication.java:104 | the file name starts with the tag and a dash and ends in `.csv` |
| Export.ExportCsv | src/main/java/com/zrz/douban/crawler/CrawlerApplication.java:104-109 | the text is the header followed by one row per map entry, each entry visited exactly once |
| Export.Row | src/main/java/com/zrz/douban/crawler/CrawlerApplication.java:108 | a row starts with the title and a comma and ends with a line break |
| Export.RowLineCount | src/main/java/com/zrz/douban/crawler/CrawlerApplication.java:108 | a row is one line when its fields hold no line break |
| Export.CsvLineCount | src/main/java/com/zrz/douban/crawler/CrawlerApplication.java:106-109 | when no title, rendered score or link holds a line break, the CSV has exactly one line more than the map has entries |
| Export.FileNamesDistinguishPeople | src/main/java/com/zrz/douban/crawler/CrawlerApplication.java:104 | two criteria on the same tag and score with different rating thresholds write different files |
| Application.RunCriteria | src/main/java/com/zrz/douban/crawler/CrawlerApplication.java:92-109 | one criteria run: the crawl's map exported under the criteria's file name |
| Application.RunCsvLineCount | src/main/java/com/zrz/douban/crawler/CrawlerApplication.java:97-109 | when no rendered score or link of a passing entry holds a line break, then whatever the task and export orders, the file has the header plus one line per distinct passing title |
| Application.PassingEntryAloneIsKept | src/main/java/com/zrz/douban/crawler/CrawlerApplication.java:184-188 | of a passing and a failing entry on a page, only the passing one is stored, under its normalised title |
| Application.OnlyPassingEntryIsKept | src/main/java/com/zrz/douban/crawler/CrawlerApplication.java:184-188 | with thresholds 8.5 and 2000, an entry scoring 9.0 with 3000 ratings is kept and one scoring 7.0 with 5000 ratings is not |

## Left out

- Concurrency: the three-thread pool, its queue of 1000 with AbortPolicy,
  and `CompletableFuture.runAsync`. Page tasks run one after another in an
  arbitrary order. The model does not capture entries of different pages
  interleaving; since the keys do not depend on the order, the only effect
  would be which same-titled Book wins.
- Crawler.Crawl: the source joins only the last future it submitted, so the
  export may start before earlier tasks finish. With no links, `main` calls
  `allOf(null)` and throws NullPointerException, so no CSV is written for
  that criteria or any later one. A listing with a non-positive page count
  makes the same call inside its task; when that task is the last one
  submitted, `join` rethrows the exception and `main` stops the same way.
  A failed fetch ends the same way: `get` returns null and `getDoc` throws
  from `Jsoup.parse(null)`, at line 146 for a listing (before its `try`) and
  at line 160 for a result page, so that task fails. A failed page task
  makes its listing's `join` at line 196 rethrow when it is that listing's
  last page task. When the failure reaches the last-submitted listing task
  (its own fetch at line 146, or its last page task through the `join` at
  line 196), the `join` at line 103 rethrows and `main` stops with no CSV
  for this criteria or any later one; a failure in any other listing only
  ends that listing's task. The waiting itself
  is not modelled either: with three or more listing links, all three pool
  workers may block in `parseBookDesc`'s `join` on page tasks queued behind
  the remaining listing tasks, so `main` may never reach the export. The
  model runs every task before exporting, treats a failed listing as one
  with no pages and a failed result page as one with no entries, and writes
  a header-only CSV when nothing was found.
- HTTP transport: `getDoc`, GET/POST, the connection pool and its limits,
  timeouts, the idle-connection eviction thread, the singleton and the
  ThreadLocal. A fetch appears only through the `Site` value. An unreachable
  listing schedules no pages, and an unreachable result page has no entries.
- A failed fetch of the tag index page throws out of `main`; the model's
  `Site` always answers.
- HTML parsing and CSS selection (jsoup), including its whitespace
  normalisation of `text()`. The model takes the selected texts as given.
- Keep-Alive header parsing into elements (`BasicHeaderElementIterator`):
  the elements are the input of KeepAlive.GetKeepAliveDuration.
- Float parsing and printing (`Float.parseFloat`, `%s` of a float) are
  parameters, and rounding to float precision is not modelled.
- JavaNumbers.ParseDecimal: accepts ASCII digits only, while Java's parser
  also accepts other Unicode decimal digits.
- JavaStrings.EqualsIgnoreCase: folds ASCII letters only, while Java also
  folds other scripts.
- Console output: the "found" line is the returned `found` sequence, but
  neither its text nor the progress and timing messages are modelled.
- Writing the CSV file and its IOException path; the CSV text is the result.
  Commas inside titles or links are not escaped by the source, and the model
  does not escape them either.
- The hard-coded criteria list and the loop of `main` over it: a single run
  is Application.RunCriteria, and each run starts from a fresh map.
- Request headers and the POST helpers of HttpClientUtil.
