/**
 * The per-run result map (`crawlResult`, a ConcurrentHashMap from title to
 * Book) and what a sequence of `putIfAbsent` calls leaves in it.
 */
module Aggregation {
  import opened Wrappers
  import opened Books

  /** One `putIfAbsent(book.title, book)`: an entry already present is never replaced. */
  function Insert(m: map<string, Book>, b: Book): (r: map<string, Book>)
    ensures b.title in r && r[b.title] == if b.title in m then m[b.title] else b
  {
    if b.title in m then m else m[b.title := b]
  }

  /** The map after inserting the books in order, first to last. */
  function InsertAll(m: map<string, Book>, bs: seq<Book>): map<string, Book>
    decreases |bs|
  {
    if bs == [] then m else Insert(InsertAll(m, bs[..|bs| - 1]), bs[|bs| - 1])
  }

  /** The books whose insertion found their title absent, in order: those the crawler reports as found. */
  function Announced(m: map<string, Book>, bs: seq<Book>): seq<Book>
    decreases |bs|
  {
    if bs == [] then []
    else
      var last := bs[|bs| - 1];
      Announced(m, bs[..|bs| - 1]) + (if last.title in InsertAll(m, bs[..|bs| - 1]) then [] else [last])
  }

  function Titles(bs: seq<Book>): set<string>
  {
    set b | b in bs :: b.title
  }

  /** Every key holds a book of that title. */
  ghost predicate KeyedByTitle(m: map<string, Book>)
  {
    forall k :: k in m ==> m[k].title == k
  }

  /** One more book: one more `putIfAbsent`, reported when its title was absent. */
  lemma InsertAllStep(m: map<string, Book>, bs: seq<Book>, b: Book)
    ensures InsertAll(m, bs + [b]) == Insert(InsertAll(m, bs), b)
    ensures Announced(m, bs + [b]) == Announced(m, bs) + (if b.title in InsertAll(m, bs) then [] else [b])
  {
    assert (bs + [b])[..|bs|] == bs;
  }

  /** Inserting in two batches is inserting the concatenation. */
  lemma {:induction false} InsertAllAppend(m: map<string, Book>, xs: seq<Book>, ys: seq<Book>)
    ensures InsertAll(m, xs + ys) == InsertAll(InsertAll(m, xs), ys)
    ensures Announced(m, xs + ys) == Announced(m, xs) + Announced(InsertAll(m, xs), ys)
    decreases |ys|
  {
    if ys == [] {
      assert xs + ys == xs;
    } else {
      var zs := xs + ys;
      var init := ys[..|ys| - 1];
      var last := ys[|ys| - 1];
      assert zs[..|zs| - 1] == xs + init;
      assert zs[|zs| - 1] == last;
      InsertAllAppend(m, xs, init);
      var before := InsertAll(m, xs + init);
      assert before == InsertAll(InsertAll(m, xs), init);
      assert InsertAll(m, zs) == Insert(before, last);
      assert InsertAll(InsertAll(m, xs), ys) == Insert(InsertAll(InsertAll(m, xs), init), last);
      assert Announced(m, zs) == Announced(m, xs + init) + (if last.title in before then [] else [last]);
      assert Announced(InsertAll(m, xs), ys)
          == Announced(InsertAll(m, xs), init) + (if last.title in before then [] else [last]);
    }
  }

  /** The keys afterwards are the keys before plus the titles inserted, whatever their order. */
  lemma {:induction false} InsertAllKeys(m: map<string, Book>, bs: seq<Book>)
    ensures InsertAll(m, bs).Keys == m.Keys + Titles(bs)
    decreases |bs|
  {
    if bs != [] {
      var init := bs[..|bs| - 1];
      InsertAllKeys(m, init);
      assert bs == init + [bs[|bs| - 1]];
      assert Titles(bs) == Titles(init) + {bs[|bs| - 1].title};
    }
  }

  /** An entry that is present is never overwritten. */
  lemma {:induction false} InsertAllKeepsExisting(m: map<string, Book>, bs: seq<Book>, k: string)
    requires k in m
    ensures k in InsertAll(m, bs) && InsertAll(m, bs)[k] == m[k]
    decreases |bs|
  {
    if bs != [] {
      InsertAllKeepsExisting(m, bs[..|bs| - 1], k);
    }
  }

  /** A title absent at first ends up holding the first book inserted under it. */
  lemma {:induction false} InsertAllFirstWriterWins(m: map<string, Book>, bs: seq<Book>, i: nat)
    requires i < |bs| && bs[i].title !in m
    requires forall j :: 0 <= j < i ==> bs[j].title != bs[i].title
    ensures bs[i].title in InsertAll(m, bs) && InsertAll(m, bs)[bs[i].title] == bs[i]
    decreases |bs|
  {
    var init := bs[..|bs| - 1];
    if i < |bs| - 1 {
      InsertAllFirstWriterWins(m, init, i);
    } else {
      InsertAllKeys(m, init);
      assert bs[i].title !in Titles(init);
    }
  }

  /** Each insertion adds at most one entry. */
  lemma {:induction false} InsertAllGrowth(m: map<string, Book>, bs: seq<Book>)
    ensures |m| <= |InsertAll(m, bs)| <= |m| + |bs|
    decreases |bs|
  {
    if bs != [] {
      var init := bs[..|bs| - 1];
      InsertAllGrowth(m, init);
      var before := InsertAll(m, init);
      var b := bs[|bs| - 1];
      if b.title !in before {
        assert before[b.title := b].Keys == before.Keys + {b.title};
      }
    }
  }

  /** Every stored book was either there before or is one of those inserted. */
  lemma {:induction false} InsertAllValues(m: map<string, Book>, bs: seq<Book>)
    ensures forall k :: k in InsertAll(m, bs) ==> (k in m && InsertAll(m, bs)[k] == m[k]) || InsertAll(m, bs)[k] in bs
    decreases |bs|
  {
    if bs != [] {
      var init := bs[..|bs| - 1];
      InsertAllValues(m, init);
      forall k | k in InsertAll(m, bs)
        ensures (k in m && InsertAll(m, bs)[k] == m[k]) || InsertAll(m, bs)[k] in bs
      {
        if k in InsertAll(m, init) && InsertAll(m, init)[k] in init {
          assert InsertAll(m, init)[k] in bs;
        }
      }
    }
  }

  /** Keys and titles stay in step. */
  lemma {:induction false} InsertAllKeyedByTitle(m: map<string, Book>, bs: seq<Book>)
    requires KeyedByTitle(m)
    ensures KeyedByTitle(InsertAll(m, bs))
    decreases |bs|
  {
    if bs != [] {
      InsertAllKeyedByTitle(m, bs[..|bs| - 1]);
    }
  }

  /** The reported titles are exactly the keys added, and each reported book is the one stored. */
  lemma {:induction false} AnnouncedAreStored(m: map<string, Book>, bs: seq<Book>)
    ensures Titles(Announced(m, bs)) == InsertAll(m, bs).Keys - m.Keys
    ensures forall b :: b in Announced(m, bs) ==> b.title in InsertAll(m, bs) && InsertAll(m, bs)[b.title] == b
    decreases |bs|
  {
    if bs != [] {
      var init := bs[..|bs| - 1];
      var last := bs[|bs| - 1];
      var before := InsertAll(m, init);
      AnnouncedAreStored(m, init);
      InsertAllKeys(m, init);
      var a := Announced(m, init);
      if last.title !in before {
        assert Announced(m, bs) == a + [last];
        assert Titles(a + [last]) == Titles(a) + {last.title};
        forall b | b in a + [last]
          ensures b.title in InsertAll(m, bs) && InsertAll(m, bs)[b.title] == b
        {
          if b in a {
            assert b.title in before;
          }
        }
      } else {
        assert Announced(m, bs) == a;
      }
    }
  }

  /** Each new title is reported exactly once: no two reported books share a title. */
  lemma {:induction false} AnnouncedExactlyOnce(m: map<string, Book>, bs: seq<Book>)
    ensures forall i, j :: 0 <= i < j < |Announced(m, bs)| ==> Announced(m, bs)[i].title != Announced(m, bs)[j].title
    decreases |bs|
  {
    if bs != [] {
      var init := bs[..|bs| - 1];
      var last := bs[|bs| - 1];
      AnnouncedExactlyOnce(m, init);
      AnnouncedAreStored(m, init);
      var a := Announced(m, init);
      if last.title !in InsertAll(m, init) {
        assert Announced(m, bs) == a + [last];
        forall i | 0 <= i < |a| ensures a[i].title != last.title {
          assert a[i] in a;
        }
      } else {
        assert Announced(m, bs) == a;
      }
    }
  }

  /** When everything inserted passes the filter, so does everything stored. */
  lemma InsertAllKeepsFilter(m: map<string, Book>, bs: seq<Book>, criteria: SearchCriteria)
    requires forall k :: k in m ==> Passes(m[k].score, m[k].people, criteria)
    requires forall b :: b in bs ==> Passes(b.score, b.people, criteria)
    ensures forall k :: k in InsertAll(m, bs) ==> Passes(InsertAll(m, bs)[k].score, InsertAll(m, bs)[k].people, criteria)
  {
    InsertAllValues(m, bs);
  }

  /** `crawlResult`: the map the tasks of one run insert into. */
  class CrawlResult {
    var books: map<string, Book>

    constructor ()
      ensures books == map[]
    {
      books := map[];
    }

    /** `putIfAbsent`: the previous value, or None when the key was absent and the book is now stored. */
    method PutIfAbsent(key: string, book: Book) returns (previous: Option<Book>)
      modifies this
      ensures previous == if key in old(books) then Some(old(books)[key]) else None
      ensures books == if key in old(books) then old(books) else old(books)[key := book]
      ensures key == book.title ==> books == Insert(old(books), book)
    {
      if key in books {
        previous := Some(books[key]);
      } else {
        previous := None;
        books := books[key := book];
      }
    }
  }
}
