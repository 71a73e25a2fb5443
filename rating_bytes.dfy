/// rss.php applies the rating pattern `/\s*-\s*[★☆]+.*$/` without the `u`
/// modifier, so PCRE reads both the pattern and the title as bytes: `[★☆]`
/// is the class of the four bytes E2, 98, 85 and 86 of their UTF-8 forms.
/// After `-` and ASCII whitespace the next byte starts a character, and of
/// those four only E2 can start one: exactly the characters U+2000 to U+2FFF.
/// This module reads the pattern that way, for the title and for the whole
/// of `parseLetterboxdTitle`, and relates it to the intended class of the
/// two stars (`LetterboxdTitle.StripRating`), which the rest of the model uses.
module RatingBytes {
  import opened Text
  import opened LetterboxdTitle
  import PhpFeeds

  /** The characters whose UTF-8 form starts with the byte E2. */
  predicate LeadE2(c: char)
  {
    '\U{2000}' <= c <= '\U{2FFF}'
  }

  /** The byte-class pattern matches from `i`: as `RatingAt`, with any
      character whose first byte is E2 in place of a star. */
  predicate ByteRatingAt(s: string, i: nat)
    requires i <= |s|
  {
    var k := SkipSpaces(Php, s, i);
    k < |s| && s[k] == '-' &&
    var m := SkipSpaces(Php, s, k + 1);
    m < |s| && LeadE2(s[m]) && TailOk(Php, s, m + 1)
  }

  /** The leftmost position at or after `i` where the byte-class pattern
      matches, or `|s|`. */
  function FirstByteRating(s: string, i: nat): (r: nat)
    requires i <= |s|
    ensures i <= r <= |s|
    ensures r < |s| ==> ByteRatingAt(s, r)
    ensures forall q :: i <= q < r ==> !ByteRatingAt(s, q)
    decreases |s| - i
  {
    if i == |s| then i
    else if ByteRatingAt(s, i) then i
    else FirstByteRating(s, i + 1)
  }

  /** The `preg_replace` of `parseLetterboxdTitle` as written. */
  function StripRatingAsWritten(s: string): string
  {
    var n := FirstByteRating(s, 0);
    s[..n] + KeptEnd(Php, s, n)
  }

  /** Every star rating is a byte-class rating, so the pattern as written
      cuts no later than the intended one. */
  lemma {:induction false} AsWrittenCutsNoLater(s: string, i: nat)
    requires i <= |s|
    ensures FirstByteRating(s, i) <= FirstRating(Php, s, i)
    decreases |s| - i
  {
    if i < |s| && !RatingAt(Php, s, i) && !ByteRatingAt(s, i) {
      AsWrittenCutsNoLater(s, i + 1);
    }
  }

  /** On a title whose only characters from U+2000 to U+2FFF are stars, the
      pattern as written and the intended one match at the same places. */
  lemma {:induction false} FirstRatingsAgree(s: string, i: nat)
    requires i <= |s|
    requires forall q :: 0 <= q < |s| && LeadE2(s[q]) ==> IsStar(s[q])
    ensures FirstByteRating(s, i) == FirstRating(Php, s, i)
    decreases |s| - i
  {
    if i < |s| {
      assert ByteRatingAt(s, i) == RatingAt(Php, s, i);
      FirstRatingsAgree(s, i + 1);
    }
  }

  /** The title as written keeps no more than the intended title, and the
      same one when its only characters from U+2000 to U+2FFF are stars. */
  lemma AsWrittenAgrees(s: string)
    ensures |StripRatingAsWritten(s)| <= |StripRating(Php, s)|
    ensures (forall q :: 0 <= q < |s| && LeadE2(s[q]) ==> IsStar(s[q]))
      ==> StripRatingAsWritten(s) == StripRating(Php, s)
  {
    AsWrittenCutsNoLater(s, 0);
    if forall q :: 0 <= q < |s| && LeadE2(s[q]) ==> IsStar(s[q]) {
      FirstRatingsAgree(s, 0);
    }
  }

  const QuotedTitle := "Film - \U{2018}Q\U{2019}"

  /** The pattern as written takes the opening quote of `Film - ‘Q’` for a
      star and cuts the subtitle off. */
  lemma QuotedTitleAsWritten(s: string)
    requires StartsQuoted(s)
    ensures StripRatingAsWritten(s) == "Film"
  {
    QuotedNoEarlierMatch(s);
    QuotedMatchAtFour(s);
    assert FirstByteRating(s, 0) == 4;
    assert s[..4] == "Film";
  }

  /** A title that starts as `Film - ‘Q’` and has no line break. */
  predicate StartsQuoted(s: string)
  {
    |QuotedTitle| <= |s| && s[..|QuotedTitle|] == QuotedTitle && '\n' !in s
  }

  lemma QuotedNoEarlierMatch(s: string)
    requires StartsQuoted(s)
    ensures forall i :: 0 <= i < 4 ==> !ByteRatingAt(s, i)
  {
    forall i | 0 <= i < 4 ensures !ByteRatingAt(s, i) {
      SkipSpacesStopsAt(Php, s, i, i);
    }
  }

  lemma QuotedMatchAtFour(s: string)
    requires StartsQuoted(s)
    ensures ByteRatingAt(s, 4) && KeptEnd(Php, s, 4) == []
  {
    assert s[|s| - 1] != '\n';
    SkipSpacesStopsAt(Php, s, 4, 5);
    SkipSpacesStopsAt(Php, s, 6, 7);
  }

  /** The intended pattern keeps `Film - ‘Q’` whole: it holds no star. */
  lemma QuotedTitleIntended(s: string)
    requires s == QuotedTitle
    ensures StripRating(Php, s) == s
  {
    assert forall q :: 0 <= q < |s| ==> !IsStar(s[q]);
    StripRatingCutsAtFirstMatch(Php, s);
  }

  /** A title with a subtitle in curly quotes and no rating: the pattern as
      written cuts it to `Film`, the intended one keeps it whole. */
  lemma QuotedTitleCut(s: string)
    requires s == QuotedTitle
    ensures StripRatingAsWritten(s) == "Film" && StripRating(Php, s) == s
  {
    QuotedStarts(s);
    QuotedTitleAsWritten(s);
    QuotedTitleIntended(s);
  }

  // ---------------------------------------------------------------------
  // `parseLetterboxdTitle` as written

  /** `parseLetterboxdTitle` with the rating pattern as PCRE runs it. */
  function ParseAsWritten(title: string): PhpFeeds.MovieInfo
  {
    PhpFeeds.ParseStripped(StripRatingAsWritten(title))
  }

  /** On a title whose only characters from U+2000 to U+2FFF are stars,
      `parseLetterboxdTitle` as written and as intended give the same film. */
  lemma ParseAgrees(title: string)
    requires forall q :: 0 <= q < |title| && LeadE2(title[q]) ==> IsStar(title[q])
    ensures ParseAsWritten(title) == PhpFeeds.ParseLetterboxdTitle(title)
  {
    AsWrittenAgrees(title);
  }

  /** `Film - ‘Q’`: as written it is the film `Film`, as intended the film
      `Film - ‘Q’`, neither with a year. */
  lemma QuotedTitleParsed(s: string)
    requires s == QuotedTitle
    ensures ParseAsWritten(s) == PhpFeeds.MovieInfo("Film", "")
    ensures PhpFeeds.ParseLetterboxdTitle(s) == PhpFeeds.MovieInfo(s, "")
  {
    QuotedAsWrittenParsed(s);
    QuotedIntendedParsed(s);
  }

  lemma QuotedAsWrittenParsed(s: string)
    requires s == QuotedTitle
    ensures ParseAsWritten(s) == PhpFeeds.MovieInfo("Film", "")
  {
    QuotedStarts(s);
    QuotedTitleAsWritten(s);
    FilmParsed();
  }

  lemma FilmParsed()
    ensures PhpFeeds.ParseStripped("Film") == PhpFeeds.MovieInfo("Film", "")
  {
    PlainParse("Film");
  }

  lemma QuotedStarts(s: string)
    requires s == QuotedTitle
    ensures StartsQuoted(s)
  {
    assert s[..|QuotedTitle|] == s;
  }

  lemma QuotedIntendedParsed(s: string)
    requires s == QuotedTitle
    ensures PhpFeeds.ParseLetterboxdTitle(s) == PhpFeeds.MovieInfo(s, "")
  {
    QuotedTitleIntended(s);
    QuotedParsedPlain();
  }

  lemma QuotedParsedPlain()
    ensures PhpFeeds.ParseStripped(QuotedTitle) == PhpFeeds.MovieInfo(QuotedTitle, "")
  {
    PlainParse(QuotedTitle);
  }

  /** A text without a comma and with nothing to trim is a film of no year
      whose title is that text. */
  lemma PlainParse(c: string)
    requires ',' !in c
    requires c == [] || (!IsTrimmed(Php, c[0]) && !IsTrimmed(Php, c[|c| - 1]))
    ensures PhpFeeds.ParseStripped(c) == PhpFeeds.MovieInfo(c, "")
  {
    assert forall q :: 0 <= q < |c| ==> !YearAt(c, q);
    TrimKeepsTrimmed(Php, c);
  }

  const QuotedYearTitle := QuotedTitle + ", 2024"

  /** `Film - ‘Q’, 2024`: as written the cut takes the year with it, so the
      film has none; as intended the film is of 2024. */
  lemma QuotedYearParsed(s: string)
    requires s == QuotedYearTitle
    ensures ParseAsWritten(s) == PhpFeeds.MovieInfo("Film", "")
    ensures PhpFeeds.ParseLetterboxdTitle(s).year == "2024"
  {
    assert s[..|QuotedTitle|] == QuotedTitle;
    QuotedTitleAsWritten(s);
    FilmParsed();
    QuotedYearKept(s);
    QuotedYearFound(s);
  }

  lemma QuotedYearKept(s: string)
    requires s == QuotedYearTitle
    ensures StripRating(Php, s) == s
  {
    assert forall q :: 0 <= q < |s| ==> !IsStar(s[q]);
    StripRatingCutsAtFirstMatch(Php, s);
  }

  lemma QuotedYearFound(s: string)
    requires s == QuotedYearTitle
    ensures FirstYear(s) == "2024"
  {
    assert YearAt(s, 10);
    assert forall q :: 0 <= q < 10 ==> !YearAt(s, q);
  }
}
