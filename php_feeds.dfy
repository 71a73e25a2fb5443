/// The two feed adapters of rss.php, `fetchMastodonActivity` and
/// `fetchLetterboxdActivity`, with `parseLetterboxdTitle`. Both turn every
/// `<item>` of the parsed feed into an activity (a missing element reads as
/// the empty string) and keep the first five; they differ only in how the
/// item becomes the activity's text.
module PhpFeeds {
  import opened Feed
  import opened Text
  import opened LetterboxdTitle
  import opened Ordering

  /** How many activities each adapter keeps. */
  const MaxItems: nat := 5

  const Placeholder := "Posted on Mastodon"
  const WatchedPrefix := "Watched - "

  /** PHP's `empty` on a string: true for `""` and for `"0"`. */
  predicate IsEmpty(s: string)
  {
    s == "" || s == "0"
  }

  /** A post's description with its tags stripped, its whitespace runs
      collapsed and trimmed. */
  function Cleaned(description: string): string
  {
    Trim(Php, Collapse(Php, PhpStripTags(description)))
  }

  /** The text of a Mastodon activity: the cleaned description, or the
      placeholder when that is empty for PHP. */
  function CleanText(description: string): string
  {
    var c := Cleaned(description);
    if IsEmpty(c) then Placeholder else c
  }

  /** The text a Mastodon item becomes: `(string)$item->description`, cleaned. */
  function MastodonText(item: FeedItem): string
  {
    CleanText(item.description.GetOr(""))
  }

  /** What `parseLetterboxdTitle` returns. */
  datatype MovieInfo = MovieInfo(title: string, year: string)

  /** `parseLetterboxdTitle`: the rating suffix is removed; when a year
      follows a comma, the first such year is extracted and every `, dddd`
      removed; the title is trimmed. */
  function ParseLetterboxdTitle(title: string): MovieInfo
  {
    ParseStripped(StripRating(Php, title))
  }

  /** The rest of `parseLetterboxdTitle`, once the rating is gone. */
  function ParseStripped(clean: string): MovieInfo
  {
    var year := FirstYear(clean);
    if year != [] then MovieInfo(Trim(Php, RemoveAllYears(clean)), year)
    else MovieInfo(Trim(Php, clean), "")
  }

  /** The text a Letterboxd item becomes: `Watched - ` and the parsed title. */
  function LetterboxdText(item: FeedItem): string
  {
    WatchedPrefix + ParseLetterboxdTitle(item.title.GetOr("")).title
  }

  /** The array appended for an item whose text `text` makes: a missing link
      is the empty string, and a missing or unreadable date is the epoch. */
  function ToActivity(p: Platform, text: FeedItem -> string, md5: string -> string, item: FeedItem): Activity
  {
    var t := text(item);
    var link := item.link.GetOr("");
    Activity(t, t, link, item.pubDate.GetOr(0), md5(link), p)
  }

  /** What the `foreach` appends for `items`: one activity per item, in order. */
  function Normalise(p: Platform, text: FeedItem -> string, md5: string -> string, items: seq<FeedItem>): seq<Activity>
    decreases |items|
  {
    if items == [] then []
    else Normalise(p, text, md5, items[..|items| - 1]) + [ToActivity(p, text, md5, items[|items| - 1])]
  }

  /** One more pass of the `foreach` appends the activity of the next item. */
  lemma NormaliseStep(p: Platform, text: FeedItem -> string, md5: string -> string, items: seq<FeedItem>, i: nat)
    requires i < |items|
    ensures Normalise(p, text, md5, items[..i + 1]) == Normalise(p, text, md5, items[..i]) + [ToActivity(p, text, md5, items[i])]
  {
    assert items[..i + 1][..i] == items[..i];
  }

  /** `fetchMastodonActivity`: `None` stands for `file_get_contents`
      returning `false` or a body `simplexml_load_string` refuses,
      `Some(items)` for the channel's items. */
  method FetchMastodonActivity(response: Option<seq<FeedItem>>, md5: string -> string)
    returns (activities: seq<Activity>)
    ensures activities == Take(Normalise(Mastodon, MastodonText, md5, response.GetOr([])), MaxItems)
  {
    if response.None? {
      return [];
    }
    var items := response.value;
    activities := [];
    for i := 0 to |items|
      invariant activities == Normalise(Mastodon, MastodonText, md5, items[..i])
    {
      var item := items[i];
      var cleanContent := PhpStripTags(item.description.GetOr(""));
      cleanContent := Collapse(Php, cleanContent);
      cleanContent := Trim(Php, cleanContent);
      if IsEmpty(cleanContent) {
        cleanContent := Placeholder;
      }
      var link := item.link.GetOr("");
      NormaliseStep(Mastodon, MastodonText, md5, items, i);
      activities := activities + [Activity(cleanContent, cleanContent, link, item.pubDate.GetOr(0), md5(link), Mastodon)];
    }
    assert items[..|items|] == items;
    activities := Take(activities, MaxItems);
  }

  /** `fetchLetterboxdActivity`, with the same reading of `response`. */
  method FetchLetterboxdActivity(response: Option<seq<FeedItem>>, md5: string -> string)
    returns (activities: seq<Activity>)
    ensures activities == Take(Normalise(Letterboxd, LetterboxdText, md5, response.GetOr([])), MaxItems)
  {
    if response.None? {
      return [];
    }
    var items := response.value;
    activities := [];
    for i := 0 to |items|
      invariant activities == Normalise(Letterboxd, LetterboxdText, md5, items[..i])
    {
      var item := items[i];
      var movieInfo := ParseLetterboxdTitle(item.title.GetOr(""));
      var text := WatchedPrefix + movieInfo.title;
      assert text == LetterboxdText(item);
      var link := item.link.GetOr("");
      var activity := Activity(text, text, link, item.pubDate.GetOr(0), md5(link), Letterboxd);
      assert activity == ToActivity(Letterboxd, LetterboxdText, md5, item);
      NormaliseStep(Letterboxd, LetterboxdText, md5, items, i);
      activities := activities + [activity];
    }
    assert items[..|items|] == items;
    activities := Take(activities, MaxItems);
  }

  // ---------------------------------------------------------------------
  // The loop over the items

  /** One activity per item, the `k`-th built from the `k`-th item: its text,
      its link (empty when missing), the digest of that link as guid, its
      date (the epoch when missing) and the platform. */
  lemma {:induction false} NormaliseItemwise(p: Platform, text: FeedItem -> string, md5: string -> string, items: seq<FeedItem>)
    ensures var r := Normalise(p, text, md5, items);
      |r| == |items|
      && forall k :: 0 <= k < |r| ==>
        r[k].title == r[k].description == text(items[k])
        && r[k].link == items[k].link.GetOr("") && r[k].guid == md5(r[k].link)
        && r[k].published == items[k].pubDate.GetOr(0) && r[k].platform == p
    decreases |items|
  {
    if items != [] {
      var init := items[..|items| - 1];
      NormaliseItemwise(p, text, md5, init);
      var r := Normalise(p, text, md5, items);
      forall k | 0 <= k < |r|
        ensures r[k].title == r[k].description == text(items[k])
        ensures r[k].link == items[k].link.GetOr("") && r[k].guid == md5(r[k].link)
        ensures r[k].published == items[k].pubDate.GetOr(0) && r[k].platform == p
      {
        if k < |init| {
          assert r[k] == Normalise(p, text, md5, init)[k];
          assert items[k] == init[k];
        } else {
          assert r[k] == ToActivity(p, text, md5, items[k]);
        }
      }
    }
  }

  /** Keeping the first five activities is keeping the activities of the
      first five items: the slice after the loop and a loop over five items
      agree. */
  lemma SliceAfterLoop(p: Platform, text: FeedItem -> string, md5: string -> string, items: seq<FeedItem>)
    ensures Take(Normalise(p, text, md5, items), MaxItems) == Normalise(p, text, md5, Take(items, MaxItems))
    ensures |Take(Normalise(p, text, md5, items), MaxItems)| == if |items| < MaxItems then |items| else MaxItems
  {
    var small := Take(items, MaxItems);
    NormaliseItemwise(p, text, md5, items);
    NormaliseItemwise(p, text, md5, small);
    var a, b := Take(Normalise(p, text, md5, items), MaxItems), Normalise(p, text, md5, small);
    assert |a| == |b|;
    forall k | 0 <= k < |a| ensures a[k] == b[k] {
      assert small[k] == items[k];
    }
  }

  // ---------------------------------------------------------------------
  // Mastodon text

  lemma PlaceholderIsClean()
    ensures NoTagOpen(Placeholder) && NoRuns(Php, Placeholder) && OnlyPlainSpaces(Php, Placeholder)
    ensures !IsTrimmed(Php, Placeholder[0]) && !IsTrimmed(Php, Placeholder[|Placeholder| - 1])
    ensures !IsEmpty(Placeholder)
  {
    var p := Placeholder;
    assert forall k :: 0 <= k < |p| ==> p[k] != '<' && (IsSpace(Php, p[k]) ==> p[k] == ' ');
    assert forall k :: 0 <= k < |p| - 1 ==> p[k] != ' ' || p[k + 1] != ' ';
  }

  /** The cleaned description opens no tag, has nothing to trim at either
      end, and every whitespace in it is a single plain space. */
  lemma CleanedShape(description: string)
    ensures var t := Cleaned(description);
      NoTagOpen(t) && NoRuns(Php, t) && OnlyPlainSpaces(Php, t)
      && (t != [] ==> !IsTrimmed(Php, t[0]) && !IsTrimmed(Php, t[|t| - 1]))
  {
    var u := PhpStripTags(description);
    PhpStripTagsLeavesNoTagOpen(description);
    CollapseKeepsNoTagOpen(u);
    CollapseLeavesSingleSpaces(Php, u);
    TrimKeepsCollapsed(Php, Collapse(Php, u));
    TrimKeepsNoTagOpen(Php, Collapse(Php, u));
  }

  /** The text of a Mastodon activity is never empty for PHP, opens no tag,
      has nothing to trim at either end, and every whitespace in it is a
      single plain space; it is the cleaned description unless that is `""`
      or `"0"`. */
  lemma CleanTextShape(description: string)
    ensures var r := CleanText(description);
      r != [] && !IsEmpty(r) && NoTagOpen(r) && NoRuns(Php, r) && OnlyPlainSpaces(Php, r)
      && !IsTrimmed(Php, r[0]) && !IsTrimmed(Php, r[|r| - 1])
      && (!IsEmpty(Cleaned(description)) ==> r == Cleaned(description))
      && (IsEmpty(Cleaned(description)) ==> r == Placeholder)
  {
    CleanedShape(description);
    PlaceholderIsClean();
  }

  /** A description that is already clean text comes out as it is. */
  lemma CleanTextKeepsCleanText(description: string)
    requires !IsEmpty(description) && NoTagOpen(description) && description[|description| - 1] != '<'
    requires NoRuns(Php, description) && OnlyPlainSpaces(Php, description)
    requires !IsTrimmed(Php, description[0]) && !IsTrimmed(Php, description[|description| - 1])
    ensures CleanText(description) == description
  {
    PhpStripTagsKeepsText(description);
    CollapseKeepsCollapsed(Php, description);
    TrimKeepsTrimmed(Php, description);
  }

  // ---------------------------------------------------------------------
  // Letterboxd text

  /** The title is the text without its rating and without any of its
      years, trimmed. */
  lemma ParsedTitle(title: string)
    ensures var info := ParseLetterboxdTitle(title);
      info.title == Trim(Php, RemoveAllYears(StripRating(Php, title)))
      && (info.title == [] || (!IsTrimmed(Php, info.title[0]) && !IsTrimmed(Php, info.title[|info.title| - 1])))
  {
    var clean := StripRating(Php, title);
    if FirstYear(clean) == [] {
      assert FirstYearFrom(clean, 0) == |clean|;
      assert RemoveAllYears(clean) == clean;
    }
  }

  /** The year is the first `, dddd` of the text without its rating, or
      empty when there is none; putting `, ` and the year back where it was
      gives that text back once the first year is removed. */
  lemma ParsedYear(title: string)
    ensures var clean := StripRating(Php, title); var info := ParseLetterboxdTitle(title);
      (info.year == [] <==> forall q :: 0 <= q < |clean| ==> !YearAt(clean, q))
      && (info.year != [] ==> |info.year| == 4 && forall k :: 0 <= k < 4 ==> IsDigit(info.year[k]))
      && (info.year != [] ==>
            var i := FirstYearFrom(clean, 0); var r := RemoveFirstYear(clean);
            i <= |r| && r[..i] + ", " + info.year + r[i..] == clean)
  {
    var clean := StripRating(Php, title);
    assert ParseLetterboxdTitle(title).year == FirstYear(clean);
    if FirstYear(clean) != [] {
      YearRoundTrip(clean);
    }
  }

  /** The documented example: `Film, 2024 - ★★★★` is the film `Film` of 2024. */
  lemma ParseExample(s: string)
    requires s == ExampleTitle
    ensures ParseLetterboxdTitle(s) == MovieInfo("Film", "2024")
  {
    ExampleStripped(Php, s);
    ParseFilm(s);
  }

  lemma ParseFilm(s: string)
    requires StripRating(Php, s) == "Film, 2024"
    ensures ParseLetterboxdTitle(s) == MovieInfo("Film", "2024")
  {
    ExampleYear("Film, 2024");
    TrimKeepsTrimmed(Php, "Film");
  }
}
