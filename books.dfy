/**
 * What one listing entry becomes: a Book, built only when its score and
 * rating count reach the run's thresholds. The texts of an entry's title,
 * score and rating-count elements arrive already extracted from the page.
 */
module Books {
  import opened Wrappers
  import opened JavaNumbers
  import opened JavaStrings

  /**
   * A Java float as the filter compares it: a real value, an infinity or NaN.
   * Rounding to float precision is not modelled.
   */
  datatype Score = Num(value: real) | PosInfinity | NegInfinity | NaN

  /** `0f`, the score of an entry whose score text does not parse. */
  const Zero: Score := Num(0.0)

  /** Java's `a >= b` on floats: false whenever either side is NaN. */
  predicate AtLeast(a: Score, b: Score)
    ensures AtLeast(a, b) ==> a != NaN && b != NaN
    ensures a.Num? && b.Num? ==> (AtLeast(a, b) <==> a.value >= b.value)
    ensures a == PosInfinity && b != NaN ==> AtLeast(a, b)
    ensures b == NegInfinity && a != NaN ==> AtLeast(a, b)
  {
    match (a, b)
    case (NaN, _) => false
    case (_, NaN) => false
    case (PosInfinity, _) => true
    case (_, NegInfinity) => true
    case (NegInfinity, _) => false
    case (_, PosInfinity) => false
    case (Num(x), Num(y)) => x >= y
  }

  /** A threshold that a zero score fails. */
  predicate Positive(s: Score)
  {
    s == PosInfinity || (s.Num? && s.value > 0.0)
  }

  /** One run's filter: the category tag, the minimum score and the minimum number of ratings. */
  datatype SearchCriteria = SearchCriteria(tagName: string, score: Score, people: int)

  datatype Book = Book(title: string, score: Score, people: int, link: string)

  /** The texts the crawler reads from one entry of a listing page. */
  datatype RawEntry = RawEntry(titleText: string, link: string, scoreText: string, peopleText: string)

  /** The title with every line break and every space deleted. */
  function NormaliseTitle(text: string): (title: string)
    ensures '\n' !in title && ' ' !in title
  {
    RemoveOneCharIsWithout(text, '\n');
    RemoveOneCharIsWithout(RemoveAll(text, "\n"), ' ');
    WithoutMembers(text, '\n');
    WithoutMembers(Without(text, '\n'), ' ');
    RemoveAll(RemoveAll(text, "\n"), " ")
  }

  /** What the page prints after the number of ratings. */
  const RatingSuffix: string := "人评价)"

  /** The rating-count text stripped of spaces, "(", line breaks and "人评价)", in that order. */
  function CleanPeopleText(text: string): (cleaned: string)
    ensures |cleaned| <= |text|
    ensures ' ' !in cleaned && '(' !in cleaned && '\n' !in cleaned
  {
    var stripped := RemoveAll(RemoveAll(RemoveAll(text, " "), "("), "\n");
    RemoveAllKeepsAbsent(RemoveAll(text, " "), "(", ' ');
    RemoveAllKeepsAbsent(RemoveAll(RemoveAll(text, " "), "("), "\n", ' ');
    RemoveAllKeepsAbsent(RemoveAll(RemoveAll(text, " "), "("), "\n", '(');
    RemoveAllKeepsAbsent(stripped, RatingSuffix, ' ');
    RemoveAllKeepsAbsent(stripped, RatingSuffix, '(');
    RemoveAllKeepsAbsent(stripped, RatingSuffix, '\n');
    RemoveAll(stripped, RatingSuffix)
  }

  /** The number of ratings, or 0 when the cleaned text is not an int. */
  function PeopleCount(text: string): (n: int)
    ensures IntMin <= n <= IntMax
  {
    match ParseInt(CleanPeopleText(text))
    case Some(count) => count
    case None => 0
  }

  /** The score, or zero when the float parser rejects the text. */
  function ScoreOf(text: string, parseScore: string -> Option<Score>): (score: Score)
    ensures parseScore(text).None? ==> score == Zero
    ensures parseScore(text).Some? ==> score == parseScore(text).value
  {
    match parseScore(text)
    case Some(s) => s
    case None => Zero
  }

  /** The filter: both thresholds are inclusive. */
  predicate Passes(score: Score, people: int, criteria: SearchCriteria)
    ensures Passes(score, people, criteria) ==> score != NaN && criteria.score != NaN
    ensures Passes(score, people, criteria) ==> people >= criteria.people
    ensures score == PosInfinity && criteria.score != NaN && people >= criteria.people ==> Passes(score, people, criteria)
  {
    AtLeast(score, criteria.score) && people >= criteria.people
  }

  /** The Book an entry yields under the given criteria, if it passes the filter. */
  function ToBook(e: RawEntry, criteria: SearchCriteria, parseScore: string -> Option<Score>): (r: Option<Book>)
    ensures r.Some? ==> AtLeast(r.value.score, criteria.score) && r.value.people >= criteria.people
    ensures r.Some? ==> r.value.title == NormaliseTitle(e.titleText) && r.value.link == e.link
    ensures r.None? <==> !Passes(ScoreOf(e.scoreText, parseScore), PeopleCount(e.peopleText), criteria)
  {
    var title := NormaliseTitle(e.titleText);
    var score := ScoreOf(e.scoreText, parseScore);
    var people := PeopleCount(e.peopleText);
    if Passes(score, people, criteria) then Some(Book(title, score, people, e.link)) else None
  }

  /** NaN compares to nothing; every other score compares with every other in one direction at least. */
  lemma AtLeastTotal(a: Score, b: Score)
    ensures a == NaN || b == NaN <==> !AtLeast(a, b) && !AtLeast(b, a)
  {
  }

  lemma AtLeastTransitive(a: Score, b: Score, c: Score)
    requires AtLeast(a, b) && AtLeast(b, c)
    ensures AtLeast(a, c)
  {
  }

  /**
   * Normalisation keeps exactly the title's characters other than line
   * breaks and spaces, and normalising again changes nothing.
   */
  lemma TitleNormalisation(text: string)
    ensures NormaliseTitle(text) == Without(Without(text, '\n'), ' ')
    ensures forall d :: d != '\n' && d != ' ' ==> (d in NormaliseTitle(text) <==> d in text)
    ensures NormaliseTitle(NormaliseTitle(text)) == NormaliseTitle(text)
  {
    var title := NormaliseTitle(text);
    RemoveOneCharIsWithout(text, '\n');
    RemoveOneCharIsWithout(Without(text, '\n'), ' ');
    WithoutMembers(text, '\n');
    WithoutMembers(Without(text, '\n'), ' ');
    RemoveOneCharIsWithout(title, '\n');
    WithoutAbsent(title, '\n');
    RemoveOneCharIsWithout(title, ' ');
    WithoutAbsent(title, ' ');
  }

  /** Decimal digits contain none of the characters the cleaning deletes. */
  lemma DigitsLackMarkup(digits: string)
    requires AllDigits(digits)
    ensures ' ' !in digits && '(' !in digits && '\n' !in digits && RatingSuffix[0] !in digits
  {
    forall k | 0 <= k < |digits| ensures digits[k] != ' ' && digits[k] != '(' && digits[k] != '\n' && digits[k] != RatingSuffix[0] {
      assert IsDigit(digits[k]);
    }
  }

  /** Cleaning "(" + inner + "人评价)" leaves inner alone when it holds none of the deleted characters. */
  lemma CleanRatingText(digits: string)
    requires ' ' !in digits && '(' !in digits && '\n' !in digits && RatingSuffix[0] !in digits
    ensures CleanPeopleText("(" + digits + RatingSuffix) == digits
  {
    var rest := digits + RatingSuffix;
    assert ' ' !in RatingSuffix && '(' !in RatingSuffix && '\n' !in RatingSuffix;
    assert ' ' !in rest && '(' !in rest && '\n' !in rest by {
      assert forall c :: c in rest ==> c in digits || c in RatingSuffix;
    }
    var text := "(" + digits + RatingSuffix;
    assert text == "(" + rest;
    assert ' ' !in text by {
      assert forall c :: c in text ==> c == '(' || c in rest;
    }
    RemoveAbsentChar(text, ' ');
    RemoveOneCharConcat("(", rest, '(');
    RemoveAbsentChar(rest, '(');
    assert RemoveAll("(", "(") == [];
    assert RemoveAll(RemoveAll(text, " "), "(") == rest;
    RemoveAbsentChar(rest, '\n');
    RemoveAllTrailing(digits, RatingSuffix);
  }

  /** The text "(N人评价)" for any int-sized N yields N. */
  lemma PeopleCountOfRatingText(n: nat)
    requires n <= IntMax
    ensures PeopleCount("(" + NatToString(n) + "人评价)") == n
  {
    DigitsLackMarkup(NatToString(n));
    CleanRatingText(NatToString(n));
    ParseIntRoundTrip(n);
  }

  /** A rating text whose inner part starts with neither a digit nor a sign counts as 0. */
  lemma NonNumericRatingCountsAsZero(inner: string)
    requires |inner| > 0 && !IsDigit(inner[0]) && inner[0] != '-' && inner[0] != '+'
    requires ' ' !in inner && '(' !in inner && '\n' !in inner && RatingSuffix[0] !in inner
    ensures PeopleCount("(" + inner + RatingSuffix) == 0
  {
    CleanRatingText(inner);
    ParseRejectsNonDigit(inner, 0);
  }

  /** The text Douban shows for fewer than ten ratings, "(少于10人评价)". */
  const FewRatingsText: string := "(少于10人评价)"

  lemma FewRatingsTextShape()
    ensures FewRatingsText == "(" + "少于10" + RatingSuffix
  {
  }

  /** Douban's "(少于10人评价)" (fewer than ten ratings) does not parse, so it counts as 0. */
  lemma FewRatingsCountAsZero()
    ensures PeopleCount(FewRatingsText) == 0
  {
    var inner := "少于10";
    assert ' ' !in inner && '(' !in inner && '\n' !in inner && RatingSuffix[0] !in inner;
    NonNumericRatingCountsAsZero(inner);
    FewRatingsTextShape();
  }

  /**
   * A score or rating count that fell back to zero fails any positive
   * threshold, so the entry yields no Book.
   */
  lemma DefaultedFieldFailsPositiveThreshold(e: RawEntry, criteria: SearchCriteria, parseScore: string -> Option<Score>)
    requires (parseScore(e.scoreText).None? && Positive(criteria.score))
          || (ParseInt(CleanPeopleText(e.peopleText)).None? && criteria.people > 0)
    ensures ToBook(e, criteria, parseScore) == None
  {
  }

  /**
   * Criteria at least as strict as others admit only entries those others
   * admit, as the very same Book.
   */
  lemma StricterCriteriaAdmitLess(e: RawEntry, loose: SearchCriteria, strict: SearchCriteria, parseScore: string -> Option<Score>)
    requires AtLeast(strict.score, loose.score) && strict.people >= loose.people
    requires ToBook(e, strict, parseScore).Some?
    ensures ToBook(e, loose, parseScore) == ToBook(e, strict, parseScore)
  {
    AtLeastTransitive(ScoreOf(e.scoreText, parseScore), strict.score, loose.score);
  }
}
