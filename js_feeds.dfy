/// The two feed adapters of rss-generator.js, `fetchMastodonActivity` and
/// `fetchLetterboxdActivity`. Both look at the first five `<item>`s of the
/// fetched feed, skip an item whose title, link or date did not match, and
/// turn the rest into activities; they differ only in how the captured title
/// becomes the activity's text.
module JsFeeds {
  import opened Feed
  import opened Text
  import opened Escape
  import opened LetterboxdTitle
  import opened Ordering

  /** How many `<item>`s each adapter looks at. */
  const MaxItems: nat := 5

  const Placeholder := "Posted on Mastodon"
  const WatchedPrefix := "Watched - "

  /** The captured title of a post with its entities decoded, its tags
      dropped, its whitespace collapsed and trimmed. */
  function Cleaned(raw: string): string
  {
    Trim(JavaScript, Collapse(JavaScript, StripTags(JsUnescape(raw))))
  }

  /** The text of a Mastodon activity: the cleaned title, or the placeholder
      when nothing is left of it. */
  function CleanText(raw: string): string
  {
    var c := Cleaned(raw);
    if c == [] then Placeholder else c
  }

  /** The text of a Letterboxd activity: the decoded title without its
      rating and its first year, trimmed, after `Watched - `. */
  function WatchedTitle(raw: string): string
  {
    WatchedPrefix + Trim(JavaScript, RemoveFirstYear(StripRating(JavaScript, JsUnescape(raw))))
  }

  /** All three regular expressions matched inside the item. */
  predicate Complete(item: FeedItem)
  {
    item.title.Some? && item.link.Some? && item.pubDate.Some?
  }

  /** The activity pushed for a complete item, whose text `text` makes from
      the captured title. */
  function ToActivity(p: Platform, text: string -> string, md5: string -> string, item: FeedItem): Activity
    requires Complete(item)
  {
    var t := text(item.title.value);
    var link := item.link.value;
    Activity(t, t, link, item.pubDate.value, md5(link), p)
  }

  /** What the loop pushes for `items`: one activity per complete item, in order. */
  function Normalise(p: Platform, text: string -> string, md5: string -> string, items: seq<FeedItem>): seq<Activity>
    decreases |items|
  {
    if items == [] then []
    else
      var last := items[|items| - 1];
      Normalise(p, text, md5, items[..|items| - 1]) + (if Complete(last) then [ToActivity(p, text, md5, last)] else [])
  }

  /** `fetchMastodonActivity`: `None` stands for a failed request or a
      response that was not OK, `Some(items)` for the items the `<item>`
      expression found. */
  method FetchMastodonActivity(response: Option<seq<FeedItem>>, md5: string -> string)
    returns (activities: seq<Activity>)
    ensures activities == Normalise(Mastodon, CleanText, md5, Take(response.GetOr([]), MaxItems))
  {
    if response.None? {
      return [];
    }
    var items := response.value;
    activities := [];
    var n := if |items| < MaxItems then |items| else MaxItems;
    var i := 0;
    while i < n
      invariant 0 <= i <= n
      invariant activities == Normalise(Mastodon, CleanText, md5, items[..i])
    {
      var item := items[i];
      assert items[..i + 1][..i] == items[..i];
      if item.title.Some? && item.link.Some? && item.pubDate.Some? {
        var text := CleanText(item.title.value);
        var link := item.link.value;
        activities := activities + [Activity(text, text, link, item.pubDate.value, md5(link), Mastodon)];
      }
      i := i + 1;
    }
    assert items[..n] == Take(items, MaxItems);
  }

  /** `fetchLetterboxdActivity`, with the same reading of `response`. */
  method FetchLetterboxdActivity(response: Option<seq<FeedItem>>, md5: string -> string)
    returns (activities: seq<Activity>)
    ensures activities == Normalise(Letterboxd, WatchedTitle, md5, Take(response.GetOr([]), MaxItems))
  {
    if response.None? {
      return [];
    }
    var items := response.value;
    activities := [];
    var n := if |items| < MaxItems then |items| else MaxItems;
    var i := 0;
    while i < n
      invariant 0 <= i <= n
      invariant activities == Normalise(Letterboxd, WatchedTitle, md5, items[..i])
    {
      var item := items[i];
      assert items[..i + 1][..i] == items[..i];
      if item.title.Some? && item.link.Some? && item.pubDate.Some? {
        var text := WatchedTitle(item.title.value);
        var link := item.link.value;
        activities := activities + [Activity(text, text, link, item.pubDate.value, md5(link), Letterboxd)];
      }
      i := i + 1;
    }
    assert items[..n] == Take(items, MaxItems);
  }

  // ---------------------------------------------------------------------
  // The loop over the items

  function CountComplete(items: seq<FeedItem>): nat
  {
    if items == [] then 0
    else CountComplete(items[..|items| - 1]) + (if Complete(items[|items| - 1]) then 1 else 0)
  }

  lemma {:induction false} NormaliseLength(p: Platform, text: string -> string, md5: string -> string, items: seq<FeedItem>)
    ensures |Normalise(p, text, md5, items)| == CountComplete(items) <= |items|
    decreases |items|
  {
    if items != [] {
      NormaliseLength(p, text, md5, items[..|items| - 1]);
    }
  }

  /** Each activity is built from a complete item. */
  lemma {:induction false} NormaliseSound(p: Platform, text: string -> string, md5: string -> string, items: seq<FeedItem>)
    ensures forall k :: 0 <= k < |Normalise(p, text, md5, items)| ==>
      exists j :: 0 <= j < |items| && Complete(items[j])
        && Normalise(p, text, md5, items)[k] == ToActivity(p, text, md5, items[j])
    decreases |items|
  {
    if items != [] {
      var init := items[..|items| - 1];
      NormaliseSound(p, text, md5, init);
      var before := Normalise(p, text, md5, init);
      var r := Normalise(p, text, md5, items);
      assert r == before + (if Complete(items[|items| - 1]) then [ToActivity(p, text, md5, items[|items| - 1])] else []);
      forall k | 0 <= k < |r|
        ensures exists j :: 0 <= j < |items| && Complete(items[j]) && r[k] == ToActivity(p, text, md5, items[j])
      {
        if k < |before| {
          assert r[k] == before[k];
          var j :| 0 <= j < |init| && Complete(init[j]) && before[k] == ToActivity(p, text, md5, init[j]);
          assert items[j] == init[j];
        } else {
          assert Complete(items[|items| - 1]) && r[k] == ToActivity(p, text, md5, items[|items| - 1]);
        }
      }
    } else {
      assert Normalise(p, text, md5, items) == [];
    }
  }

  /** Each complete item gives an activity. */
  lemma {:induction false} NormaliseComplete(p: Platform, text: string -> string, md5: string -> string, items: seq<FeedItem>)
    ensures forall j :: 0 <= j < |items| && Complete(items[j]) ==>
      ToActivity(p, text, md5, items[j]) in Normalise(p, text, md5, items)
    decreases |items|
  {
    if items != [] {
      var init := items[..|items| - 1];
      NormaliseComplete(p, text, md5, init);
      var before := Normalise(p, text, md5, init);
      var r := Normalise(p, text, md5, items);
      assert r[..|before|] == before;
      forall j | 0 <= j < |items| - 1 && Complete(items[j]) ensures ToActivity(p, text, md5, items[j]) in r {
        assert items[j] == init[j];
        var k :| 0 <= k < |before| && before[k] == ToActivity(p, text, md5, init[j]);
        assert r[k] == before[k];
      }
    }
  }

  /** Each activity's title and description are the text made from the
      item's title, its link and date are the item's, its guid is the digest
      of its link, and its platform is the adapter's. */
  lemma NormaliseFields(p: Platform, text: string -> string, md5: string -> string, items: seq<FeedItem>)
    ensures forall a :: a in Normalise(p, text, md5, items) ==>
      a.title == a.description && a.guid == md5(a.link) && a.platform == p
      && exists j :: 0 <= j < |items| && Complete(items[j])
           && a.title == text(items[j].title.value)
           && a.link == items[j].link.value && a.published == items[j].pubDate.value
  {
    NormaliseSound(p, text, md5, items);
    var r := Normalise(p, text, md5, items);
    forall a | a in r
      ensures a.title == a.description && a.guid == md5(a.link) && a.platform == p
      ensures exists j :: 0 <= j < |items| && Complete(items[j])
                && a.title == text(items[j].title.value)
                && a.link == items[j].link.value && a.published == items[j].pubDate.value
    {
      var k :| 0 <= k < |r| && r[k] == a;
      var j :| 0 <= j < |items| && Complete(items[j]) && r[k] == ToActivity(p, text, md5, items[j]);
    }
  }

  /** Activities with the same link have the same guid. */
  lemma SameLinkSameGuid(p: Platform, text: string -> string, md5: string -> string, items: seq<FeedItem>, a: Activity, b: Activity)
    requires a in Normalise(p, text, md5, items) && b in Normalise(p, text, md5, items)
    requires a.link == b.link
    ensures a.guid == b.guid
  {
    NormaliseFields(p, text, md5, items);
  }

  /** Each adapter returns at most five activities, one per complete item
      among the first five. */
  lemma AtMostFive(p: Platform, text: string -> string, md5: string -> string, items: seq<FeedItem>)
    ensures var r := Normalise(p, text, md5, Take(items, MaxItems));
      |r| == CountComplete(Take(items, MaxItems)) <= MaxItems
  {
    NormaliseLength(p, text, md5, Take(items, MaxItems));
  }

  // ---------------------------------------------------------------------
  // Mastodon text

  lemma PlaceholderIsClean()
    ensures NoTag(Placeholder) && NoRuns(JavaScript, Placeholder) && OnlyPlainSpaces(JavaScript, Placeholder)
    ensures !IsSpace(JavaScript, Placeholder[0]) && !IsSpace(JavaScript, Placeholder[|Placeholder| - 1])
  {
    var p := Placeholder;
    assert forall k :: 0 <= k < |p| ==> p[k] != '<' && (IsSpace(JavaScript, p[k]) ==> p[k] == ' ');
    assert forall k :: 0 <= k < |p| - 1 ==> p[k] != ' ' || p[k + 1] != ' ';
  }

  /** The cleaned title holds no tag, has no whitespace at either end, and
      every whitespace in it is a single plain space. */
  lemma CleanedShape(raw: string)
    ensures var t := Cleaned(raw);
      NoTag(t) && NoRuns(JavaScript, t) && OnlyPlainSpaces(JavaScript, t)
      && (t != [] ==> !IsSpace(JavaScript, t[0]) && !IsSpace(JavaScript, t[|t| - 1]))
  {
    var u := StripTags(JsUnescape(raw));
    StripTagsLeavesNoTag(JsUnescape(raw));
    CollapseKeepsNoTag(JavaScript, u);
    CollapseLeavesSingleSpaces(JavaScript, u);
    TrimKeepsCollapsed(JavaScript, Collapse(JavaScript, u));
    TrimKeepsNoTag(JavaScript, Collapse(JavaScript, u));
  }

  /** The text of a Mastodon activity is never empty, holds no tag, has no
      whitespace at either end, and every whitespace in it is a single plain
      space; it is the cleaned title unless that is empty. */
  lemma CleanTextShape(raw: string)
    ensures var r := CleanText(raw);
      r != [] && NoTag(r) && NoRuns(JavaScript, r) && OnlyPlainSpaces(JavaScript, r)
      && !IsSpace(JavaScript, r[0]) && !IsSpace(JavaScript, r[|r| - 1])
      && (Cleaned(raw) != [] ==> r == Cleaned(raw))
      && (Cleaned(raw) == [] ==> r == Placeholder)
  {
    CleanedShape(raw);
    PlaceholderIsClean();
  }

  /** A title that is already clean text comes out as it is: cleaning is
      the identity on its own results that hold no `&`. */
  lemma CleanTextKeepsCleanText(raw: string)
    requires raw != [] && '&' !in raw && NoTag(raw)
    requires NoRuns(JavaScript, raw) && OnlyPlainSpaces(JavaScript, raw)
    requires !IsSpace(JavaScript, raw[0]) && !IsSpace(JavaScript, raw[|raw| - 1])
    ensures CleanText(raw) == raw
  {
    JsUnescapePlain(raw);
    StripTagsKeepsPlainText(raw);
    CollapseKeepsCollapsed(JavaScript, raw);
    TrimKeepsTrimmed(JavaScript, raw);
  }

  // ---------------------------------------------------------------------
  // Letterboxd text

  /** The text of a Letterboxd activity is `Watched - ` and a title with no
      whitespace at either end. */
  lemma WatchedTitleShape(raw: string)
    ensures var r := WatchedTitle(raw);
      |r| >= |WatchedPrefix| && r[..|WatchedPrefix|] == WatchedPrefix
      && (|r| > |WatchedPrefix| ==> !IsSpace(JavaScript, r[|WatchedPrefix|]) && !IsSpace(JavaScript, r[|r| - 1]))
  {
    var t := Trim(JavaScript, RemoveFirstYear(StripRating(JavaScript, JsUnescape(raw))));
    assert WatchedTitle(raw) == WatchedPrefix + t;
    if t != [] {
      assert WatchedTitle(raw)[|WatchedPrefix|] == t[0];
    }
  }

  /** A title with no entity, no rating, no year and nothing to trim is
      kept as it is after `Watched - `. */
  lemma WatchedTitleKeepsPlainTitle(raw: string)
    requires '&' !in raw
    requires forall i :: 0 <= i <= |raw| ==> !RatingPattern(JavaScript, raw, i)
    requires forall i :: 0 <= i < |raw| ==> !YearAt(raw, i)
    requires raw == [] || (!IsSpace(JavaScript, raw[0]) && !IsSpace(JavaScript, raw[|raw| - 1]))
    ensures WatchedTitle(raw) == WatchedPrefix + raw
  {
    JsUnescapePlain(raw);
    StripRatingCutsAtFirstMatch(JavaScript, raw);
    TrimKeepsTrimmed(JavaScript, raw);
  }

  /** A title whose rating-free part is `Film, 2024` becomes `Watched - Film`. */
  lemma WatchedFilm(raw: string)
    requires StripRating(JavaScript, JsUnescape(raw)) == "Film, 2024"
    ensures WatchedTitle(raw) == "Watched - Film"
  {
    ExampleYear("Film, 2024");
    TrimKeepsTrimmed(JavaScript, "Film");
  }

  /** The documented example: `Film, 2024 - ★★★★` becomes `Watched - Film`. */
  lemma WatchedTitleExample(s: string)
    requires s == ExampleTitle
    ensures WatchedTitle(s) == "Watched - Film"
  {
    assert '&' !in s;
    JsUnescapePlain(s);
    ExampleStripped(JavaScript, s);
    WatchedFilm(s);
  }
}
