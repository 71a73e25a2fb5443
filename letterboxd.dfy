/// The two regular expressions both generators apply to a Letterboxd entry
/// title such as `Film, 2024 - ★★★★`: the rating suffix
/// `/\s*-\s*[★☆]+.*$/` is replaced by nothing, then the first year
/// `/, \d{4}/` is replaced by nothing.
module LetterboxdTitle {
  import opened Text

  predicate IsStar(c: char)
  {
    c == '\U{2605}' || c == '\U{2606}'
  }

  /** The first index at or after `i` that is not of class `\s`, or `|s|`. */
  function SkipSpaces(d: Dialect, s: string, i: nat): (k: nat)
    requires i <= |s|
    ensures i <= k <= |s|
    ensures forall q :: i <= q < k ==> IsSpace(d, s[q])
    ensures k < |s| ==> !IsSpace(d, s[k])
    decreases |s| - i
  {
    if i < |s| && IsSpace(d, s[i]) then SkipSpaces(d, s, i + 1) else i
  }

  /** No character from `from` to the end is one the wildcard `.` refuses. */
  predicate NoLineEndFrom(d: Dialect, s: string, from: nat)
  {
    forall q :: from <= q < |s| ==> !IsLineEnd(d, s[q])
  }

  /** What `.*$` accepts from `from` on. In JavaScript `.` refuses every
      line terminator and `$` matches only at the end; in PHP `.` refuses
      only `\n` and `$` also matches just before a final `\n`. */
  predicate TailOk(d: Dialect, s: string, from: nat)
  {
    match d
    case JavaScript => NoLineEndFrom(d, s, from)
    case Php => NoNewlineBeforeLast(s, from)
  }

  /** No `\n` from `from` on, except possibly as the last character. */
  predicate NoNewlineBeforeLast(s: string, from: nat)
  {
    forall q :: from <= q < |s| - 1 ==> s[q] != '\n'
  }

  /** The rating pattern matches from `i`, read the way the matcher
      settles it: the spaces run to the first non-space, which must be `-`;
      the spaces after it run to a star; `.*$` then needs a tail free of line ends. */
  predicate RatingAt(d: Dialect, s: string, i: nat)
    requires i <= |s|
  {
    var k := SkipSpaces(d, s, i);
    k < |s| && s[k] == '-' &&
    var m := SkipSpaces(d, s, k + 1);
    m < |s| && IsStar(s[m]) && TailOk(d, s, m + 1)
  }

  /** `s[i..]` starts with spaces up to `k`, a `-` at `k`, spaces up to
      `m` and a star at `m`. */
  predicate Split(d: Dialect, s: string, i: nat, k: nat, m: nat)
  {
    i <= k < m < |s|
    && (forall q :: i <= q < k ==> IsSpace(d, s[q])) && s[k] == '-'
    && (forall q :: k < q < m ==> IsSpace(d, s[q])) && IsStar(s[m])
  }

  /** The pattern `\s*-\s*[★☆]+.*$` read literally: some split of `s[i..]`
      into spaces, `-`, spaces, a star, and a tail without line ends. */
  ghost predicate RatingPattern(d: Dialect, s: string, i: nat)
  {
    exists k: nat, m: nat :: Split(d, s, i, k, m) && TailOk(d, s, m + 1)
  }

  lemma {:induction false} SkipSpacesStopsAt(d: Dialect, s: string, i: nat, k: nat)
    requires i <= k < |s|
    requires forall q :: i <= q < k ==> IsSpace(d, s[q])
    requires !IsSpace(d, s[k])
    ensures SkipSpaces(d, s, i) == k
    decreases k - i
  {
    if i < k {
      SkipSpacesStopsAt(d, s, i + 1, k);
    }
  }

  lemma RatingAtGivesPattern(d: Dialect, s: string, i: nat)
    requires i <= |s| && RatingAt(d, s, i)
    ensures RatingPattern(d, s, i)
  {
    var k := SkipSpaces(d, s, i);
    var m := SkipSpaces(d, s, k + 1);
    assert Split(d, s, i, k, m) && TailOk(d, s, m + 1);
  }

  /** A split of `s[i..]` as the pattern reads it is the one the greedy
      reading finds. */
  lemma SplitGivesRatingAt(d: Dialect, s: string, i: nat, k: nat, m: nat)
    requires Split(d, s, i, k, m) && TailOk(d, s, m + 1)
    ensures RatingAt(d, s, i)
  {
    assert !IsSpace(d, s[k]);
    assert !IsSpace(d, s[m]);
    SkipSpacesStopsAt(d, s, i, k);
    SkipSpacesStopsAt(d, s, k + 1, m);
  }

  lemma PatternGivesRatingAt(d: Dialect, s: string, i: nat)
    requires i <= |s| && RatingPattern(d, s, i)
    ensures RatingAt(d, s, i)
  {
    var k: nat, m: nat :| Split(d, s, i, k, m) && TailOk(d, s, m + 1);
    SplitGivesRatingAt(d, s, i, k, m);
  }

  /** The greedy reading decides exactly the literal pattern. */
  lemma RatingAtIsPattern(d: Dialect, s: string, i: nat)
    requires i <= |s|
    ensures RatingAt(d, s, i) <==> RatingPattern(d, s, i)
  {
    if RatingAt(d, s, i) {
      RatingAtGivesPattern(d, s, i);
    }
    if RatingPattern(d, s, i) {
      PatternGivesRatingAt(d, s, i);
    }
  }

  /** The leftmost position at or after `i` where the rating pattern matches, or `|s|`. */
  function FirstRating(d: Dialect, s: string, i: nat): (r: nat)
    requires i <= |s|
    ensures i <= r <= |s|
    ensures r < |s| ==> RatingAt(d, s, r)
    ensures forall q :: i <= q < r ==> !RatingAt(d, s, q)
    decreases |s| - i
  {
    if i == |s| then i
    else if RatingAt(d, s, i) then i
    else FirstRating(d, s, i + 1)
  }

  /** The final `\n` that PHP's `$` leaves after a match ending before it. */
  function KeptEnd(d: Dialect, s: string, n: nat): string
  {
    if d == Php && n < |s| && s[|s| - 1] == '\n' then "\n" else ""
  }

  /** The removal of the rating suffix `/\s*-\s*[★☆]+.*$/`: the leftmost
      match runs to the end of `s` (or, in PHP, to a final `\n`), so the result
      is `s` cut where that match starts. */
  function StripRating(d: Dialect, s: string): (r: string)
  {
    var n := FirstRating(d, s, 0);
    s[..n] + KeptEnd(d, s, n)
  }

  /** The result keeps the title up to the leftmost match and nothing after
      it but, in PHP, a final `\n`; it is the whole title exactly when the
      pattern matches nowhere. */
  lemma StripRatingCutsAtFirstMatch(d: Dialect, s: string)
    ensures var n := FirstRating(d, s, 0); var r := StripRating(d, s);
      n <= |r| <= |s| && r[..n] == s[..n]
      && (r == s <==> forall i :: 0 <= i <= |s| ==> !RatingPattern(d, s, i))
      && (n < |s| ==> RatingPattern(d, s, n))
      && (n < |s| ==> r == s[..n] || (d == Php && s[|s| - 1] == '\n' && r == s[..n] + "\n"))
      && (forall i :: 0 <= i < n ==> !RatingPattern(d, s, i))
  {
    var n := FirstRating(d, s, 0);
    forall i | 0 <= i <= |s| ensures RatingAt(d, s, i) <==> RatingPattern(d, s, i) {
      RatingAtIsPattern(d, s, i);
    }
    if n == |s| {
      assert !RatingAt(d, s, |s|);
      assert s[..n] == s;
    } else {
      var k := SkipSpaces(d, s, n);
      var m := SkipSpaces(d, s, k + 1);
      assert n <= k < m < |s|;
      assert |StripRating(d, s)| < |s|;
    }
  }

  /** Anything after a position of a single-line title may be the tail of the pattern. */
  lemma SingleLineTailOk(d: Dialect, s: string, from: nat)
    requires NoLineEndFrom(d, s, 0)
    ensures TailOk(d, s, from)
  {
    if d == Php {
      forall q | from <= q < |s| - 1 ensures s[q] != '\n' {
        assert !IsLineEnd(d, s[q]);
      }
    }
  }

  /** A split of a prefix is a split of the whole. */
  lemma SplitInPrefix(d: Dialect, s: string, n: nat, i: nat, k: nat, m: nat)
    requires n <= |s| && Split(d, s[..n], i, k, m)
    ensures Split(d, s, i, k, m)
  {
    forall q | i <= q <= m ensures s[q] == s[..n][q] {
    }
  }

  /** A match inside a prefix of a single-line title is a match in the title. */
  lemma PatternInPrefix(d: Dialect, s: string, n: nat, i: nat)
    requires i <= n <= |s| && NoLineEndFrom(d, s, 0)
    requires RatingPattern(d, s[..n], i)
    ensures RatingPattern(d, s, i)
  {
    var k: nat, m: nat :| Split(d, s[..n], i, k, m) && TailOk(d, s[..n], m + 1);
    SplitInPrefix(d, s, n, i, k, m);
    SingleLineTailOk(d, s, m + 1);
  }

  /** On a single-line title nothing of the rating is left to strip again. */
  lemma StripRatingIdempotent(d: Dialect, s: string)
    requires NoLineEndFrom(d, s, 0)
    ensures StripRating(d, StripRating(d, s)) == StripRating(d, s)
  {
    var n := FirstRating(d, s, 0);
    var r := s[..n];
    assert KeptEnd(d, s, n) == [] by {
      if d == Php && n < |s| {
        assert !IsLineEnd(d, s[|s| - 1]);
      }
    }
    assert StripRating(d, s) == r;
    var n' := FirstRating(d, r, 0);
    if n' < |r| {
      RatingAtGivesPattern(d, r, n');
      PatternInPrefix(d, s, n, n');
      PatternGivesRatingAt(d, s, n');
      assert false;
    }
    assert r[..n'] == r;
    assert KeptEnd(d, r, n') == [];
  }

  // ---------------------------------------------------------------------
  // The year

  /** `, ` followed by four ASCII digits starts at `i` (`/, \d{4}/`). */
  predicate YearAt(s: string, i: nat)
  {
    i + 6 <= |s| && s[i] == ',' && s[i + 1] == ' '
    && IsDigit(s[i + 2]) && IsDigit(s[i + 3]) && IsDigit(s[i + 4]) && IsDigit(s[i + 5])
  }

  /** The leftmost position at or after `i` where a year starts, or `|s|`. */
  function FirstYearFrom(s: string, i: nat): (r: nat)
    requires i <= |s|
    ensures i <= r <= |s|
    ensures r < |s| ==> YearAt(s, r)
    ensures forall q :: i <= q < r ==> !YearAt(s, q)
    decreases |s| - i
  {
    if i == |s| then i
    else if YearAt(s, i) then i
    else FirstYearFrom(s, i + 1)
  }

  /** `s.replace(/, \d{4}/, '')`: the first `, dddd` is removed. */
  function RemoveFirstYear(s: string): (r: string)
    ensures var i := FirstYearFrom(s, 0);
      if i == |s| then r == s && forall q :: 0 <= q < |s| ==> !YearAt(s, q)
      else YearAt(s, i) && r == s[..i] + s[i + 6..] && forall q :: 0 <= q < i ==> !YearAt(s, q)
  {
    var i := FirstYearFrom(s, 0);
    if i < |s| then s[..i] + s[i + 6..] else s
  }

  /** The four digits of the first year (`$matches[1]`), or the empty string. */
  function FirstYear(s: string): (y: string)
    ensures y == [] <==> forall q :: 0 <= q < |s| ==> !YearAt(s, q)
    ensures y != [] ==> |y| == 4 && forall k :: 0 <= k < 4 ==> IsDigit(y[k])
  {
    var i := FirstYearFrom(s, 0);
    if i < |s| then s[i + 2..i + 6] else ""
  }

  /** Cutting a title at `i`, `i + 2` and `i + 6` loses nothing. */
  lemma CutAtYear(s: string, i: nat)
    requires i + 6 <= |s|
    ensures s[..i] + s[i..i + 2] + s[i + 2..i + 6] + s[i + 6..] == s
  {
    assert s[..i] + s[i..i + 2] == s[..i + 2];
    assert s[..i + 2] + s[i + 2..i + 6] == s[..i + 6];
  }

  /** Putting `, ` and the extracted year back where the year was removed
      gives the title back: removal and extraction split the title exactly. */
  lemma YearRoundTrip(s: string)
    requires FirstYear(s) != []
    ensures var i := FirstYearFrom(s, 0); var r := RemoveFirstYear(s);
      i <= |r| && r[..i] + ", " + FirstYear(s) + r[i..] == s
  {
    var i := FirstYearFrom(s, 0);
    var r := RemoveFirstYear(s);
    assert YearAt(s, i);
    assert r == s[..i] + s[i + 6..];
    assert r[..i] == s[..i];
    assert r[i..] == s[i + 6..];
    assert s[i..i + 2] == ", ";
    assert FirstYear(s) == s[i + 2..i + 6];
    CutAtYear(s, i);
  }

  /** PHP's `preg_replace('/, \d{4}/', '', s)`: every match, each searched
      for after the end of the previous one, is removed. */
  function RemoveAllYears(s: string): (r: string)
    decreases |s|
  {
    var i := FirstYearFrom(s, 0);
    if i == |s| then s else s[..i] + RemoveAllYears(s[i + 6..])
  }

  /** A year of the rest after a year is a year of the title, `i + 6` further on. */
  lemma YearAfter(s: string, i: nat, q: nat)
    requires i + 6 <= |s|
    ensures YearAt(s[i + 6..], q) <==> YearAt(s, i + 6 + q)
  {
    var t := s[i + 6..];
    if q + 6 <= |t| {
      var p := i + 6 + q;
      assert t[q] == s[p] && t[q + 1] == s[p + 1] && t[q + 2] == s[p + 2];
      assert t[q + 3] == s[p + 3] && t[q + 4] == s[p + 4] && t[q + 5] == s[p + 5];
    }
  }

  /** How many years `RemoveAllYears` removes. */
  function RemovedYears(s: string): nat
    decreases |s|
  {
    var i := FirstYearFrom(s, 0);
    if i == |s| then 0 else 1 + RemovedYears(s[i + 6..])
  }

  /** Each removal takes six characters away. */
  lemma {:induction false} RemoveAllYearsLength(s: string)
    ensures |RemoveAllYears(s)| + 6 * RemovedYears(s) == |s|
    decreases |s|
  {
    var i := FirstYearFrom(s, 0);
    if i < |s| {
      RemoveAllYearsLength(s[i + 6..]);
    }
  }

  /** Removing every year shortens the title by six characters per year
      removed and leaves it as it is exactly when it holds no year; it is the same as
      removing the first year only exactly when no year follows that one. */
  lemma RemoveAllYearsSpec(s: string)
    ensures var r := RemoveAllYears(s);
      |r| == |s| - 6 * RemovedYears(s)
      && (r == s <==> forall q :: 0 <= q < |s| ==> !YearAt(s, q))
      && (r == RemoveFirstYear(s) <==> forall q :: FirstYearFrom(s, 0) + 6 <= q < |s| ==> !YearAt(s, q))
  {
    var i := FirstYearFrom(s, 0);
    RemoveAllYearsLength(s);
    if i < |s| {
      var rest := s[i + 6..];
      RemoveAllYearsLength(rest);
      assert |RemoveAllYears(s)| < |s|;
      if forall q :: i + 6 <= q < |s| ==> !YearAt(s, q) {
        forall q | 0 <= q < |rest| ensures !YearAt(rest, q) {
          YearAfter(s, i, q);
        }
        assert FirstYearFrom(rest, 0) == |rest|;
      } else {
        var q :| i + 6 <= q < |s| && YearAt(s, q);
        YearAfter(s, i, q - i - 6);
        var j := FirstYearFrom(rest, 0);
        assert j <= q - i - 6 < |rest|;
        assert RemovedYears(rest) >= 1;
        assert |RemoveAllYears(rest)| <= |rest| - 6;
        assert |RemoveAllYears(s)| < |RemoveFirstYear(s)|;
      }
    }
  }

  // ---------------------------------------------------------------------
  // The example of the adapters' comments

  const ExampleTitle := "Film, 2024 - \U{2605}\U{2605}\U{2605}\U{2605}"

  lemma ExampleRatingAtTen(d: Dialect, s: string)
    requires s == ExampleTitle
    ensures RatingAt(d, s, 10)
  {
    SkipSpacesStopsAt(d, s, 10, 11);
    SkipSpacesStopsAt(d, s, 12, 13);
  }

  lemma ExampleNoEarlierRating(d: Dialect, s: string)
    requires s == ExampleTitle
    ensures forall i :: 0 <= i < 10 ==> !RatingAt(d, s, i)
  {
    forall i | 0 <= i < 10 ensures !RatingAt(d, s, i) {
      if i == 5 {
        SkipSpacesStopsAt(d, s, 5, 6);
      } else {
        SkipSpacesStopsAt(d, s, i, i);
      }
    }
  }

  /** In either dialect the rating of the example starts right after the year. */
  lemma ExampleRatingStartsAfterYear(d: Dialect, s: string)
    requires s == ExampleTitle
    ensures FirstRating(d, s, 0) == 10 && KeptEnd(d, s, 10) == []
  {
    ExampleRatingAtTen(d, s);
    ExampleNoEarlierRating(d, s);
  }

  /** In either dialect the example loses exactly its rating. */
  lemma ExampleStripped(d: Dialect, s: string)
    requires s == ExampleTitle
    ensures StripRating(d, s) == "Film, 2024"
  {
    ExampleRatingStartsAfterYear(d, s);
    assert StripRating(d, s) == s[..10] + [];
    assert s[..10] == "Film, 2024";
  }

  /** `Film, 2024` holds one year, at 4. */
  lemma ExampleYear(c: string)
    requires c == "Film, 2024"
    ensures FirstYearFrom(c, 0) == 4 && RemoveFirstYear(c) == "Film" && FirstYear(c) == "2024"
    ensures RemoveAllYears(c) == "Film"
  {
    assert YearAt(c, 4);
    assert forall i :: 0 <= i < 4 ==> !YearAt(c, i);
    assert c[..4] + c[10..] == "Film";
    assert c[6..10] == "2024";
    assert FirstYearFrom(c[10..], 0) == 0;
  }
}
