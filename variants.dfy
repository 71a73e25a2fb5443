/// rss-generator.js and rss.php build the same feed from the same sources.
/// This module states where the two agree and, for each place they part
/// ways, the inputs on which they do.
module Variants {
  import opened Feed
  import opened Text
  import opened LetterboxdTitle
  import opened Ordering
  import JsGitHub
  import PhpGitHub
  import JsFeeds
  import PhpFeeds

  // ---------------------------------------------------------------------
  // GitHub events

  /** An event on which `||` and `??` cannot differ and `.charAt` cannot
      throw: the action is present when the kind needs one, and no reference
      or title is the empty string. */
  predicate Agreeable(e: GitHubEvent)
  {
    ((e.kind == "PullRequestEvent" || e.kind == "IssuesEvent") ==> e.action.Some?)
    && e.ref != Some("") && e.pullRequestTitle != Some("") && e.issueTitle != Some("")
  }

  /** Both skip exactly the unknown kinds; only the JavaScript one throws,
      and only on a pull request or issue without an action; on an
      agreeable event both write the same description. */
  lemma DescribeAgrees(e: GitHubEvent)
    ensures JsGitHub.Describe(e) == JsGitHub.Skip <==> PhpGitHub.Describe(e).None?
    ensures JsGitHub.Describe(e) == JsGitHub.Throw
      <==> (e.kind == "PullRequestEvent" || e.kind == "IssuesEvent") && e.action.None?
    ensures Agreeable(e) ==>
      JsGitHub.Describe(e) == match PhpGitHub.Describe(e) case None => JsGitHub.Skip case Some(d) => JsGitHub.Emit(d)
  {
  }

  /** An empty reference: the JavaScript generator names the repository,
      the PHP one names nothing. */
  lemma EmptyReferenceDiffers(e: GitHubEvent)
    requires e.kind == "CreateEvent" && e.ref == Some("")
    ensures JsGitHub.Describe(e) == JsGitHub.Emit("Created " + CreateType(e.refType) + " " + e.repoName)
    ensures PhpGitHub.Describe(e) == Some("Created " + CreateType(e.refType) + " ")
  {
    var start := "Created " + CreateType(e.refType) + " ";
    assert start + "" == start;
  }

  /** On agreeable events the two loops produce the same activities. */
  lemma {:induction false} ActivitiesAgree(events: seq<GitHubEvent>)
    requires forall k :: 0 <= k < |events| ==> Agreeable(events[k])
    ensures JsGitHub.Activities(events) == Some(PhpGitHub.Activities(events))
    decreases |events|
  {
    if events != [] {
      var init, last := events[..|events| - 1], events[|events| - 1];
      assert forall k :: 0 <= k < |init| ==> init[k] == events[k];
      ActivitiesAgree(init);
      DescribeAgrees(last);
      var before := PhpGitHub.Activities(init);
      match PhpGitHub.Describe(last) {
        case None =>
          assert before + [] == before;
        case Some(d) =>
          assert JsGitHub.ToActivity(last, d) == PhpGitHub.ToActivity(last, d);
      }
    }
  }

  /** A pull request or issue without an action costs the JavaScript
      generator every GitHub activity. */
  lemma MissingActionLosesAll(events: seq<GitHubEvent>, k: nat)
    requires k < |events| && events[k].action.None?
    requires events[k].kind == "PullRequestEvent" || events[k].kind == "IssuesEvent"
    ensures JsGitHub.Activities(events) == None
  {
    assert JsGitHub.Describe(events[k]) == JsGitHub.Throw;
    JsGitHub.ThrowAt(events, k);
  }

  /** The PHP generator describes the same event like any other: its
      activity is among those of the list. */
  lemma MissingActionKept(events: seq<GitHubEvent>, k: nat)
    requires k < |events| && events[k].action.None?
    requires events[k].kind == "PullRequestEvent" || events[k].kind == "IssuesEvent"
    ensures var e := events[k];
      PhpGitHub.Describe(e).Some? && PhpGitHub.ToActivity(e, PhpGitHub.Describe(e).value) in PhpGitHub.Activities(events)
  {
    assert PhpGitHub.Describe(events[k]).Some?;
    PhpGitHub.DescribedEventsKept(events, k);
  }

  // ---------------------------------------------------------------------
  // Feed items

  /** With every item complete, the JavaScript loop makes one activity per
      item, in order. */
  lemma {:induction false} JsNormaliseAllComplete(p: Platform, text: string -> string, md5: string -> string, items: seq<FeedItem>)
    requires forall k :: 0 <= k < |items| ==> JsFeeds.Complete(items[k])
    ensures var r := JsFeeds.Normalise(p, text, md5, items);
      |r| == |items| && forall k :: 0 <= k < |r| ==> r[k] == JsFeeds.ToActivity(p, text, md5, items[k])
    decreases |items|
  {
    if items != [] {
      var init := items[..|items| - 1];
      JsNormaliseAllComplete(p, text, md5, init);
      var r := JsFeeds.Normalise(p, text, md5, items);
      forall k | 0 <= k < |r| ensures r[k] == JsFeeds.ToActivity(p, text, md5, items[k]) {
        if k < |init| {
          assert items[k] == init[k];
        }
      }
    }
  }

  /** When every item has its title, link and date, the two adapters keep the same number of
      activities with the same links, guids, dates and platform; their texts
      are each generator's text of the same item, so the activities are the
      same when those texts are. */
  lemma CompleteItemsAgree(p: Platform, jsText: string -> string, phpText: FeedItem -> string,
                           md5: string -> string, items: seq<FeedItem>)
    requires forall k :: 0 <= k < |items| ==> items[k].title.Some? && items[k].link.Some? && items[k].pubDate.Some?
    ensures var j := JsFeeds.Normalise(p, jsText, md5, Take(items, JsFeeds.MaxItems));
      var h := Take(PhpFeeds.Normalise(p, phpText, md5, items), PhpFeeds.MaxItems);
      |j| == |h| == |Take(items, JsFeeds.MaxItems)|
      && (forall k :: 0 <= k < |j| ==>
            j[k].link == h[k].link && j[k].guid == h[k].guid
            && j[k].published == h[k].published && j[k].platform == h[k].platform
            && j[k].title == jsText(items[k].title.value) && h[k].title == phpText(items[k]))
      && ((forall k :: 0 <= k < |items| ==> jsText(items[k].title.value) == phpText(items[k])) ==> j == h)
  {
    var small := Take(items, JsFeeds.MaxItems);
    JsNormaliseAllComplete(p, jsText, md5, small);
    PhpFeeds.SliceAfterLoop(p, phpText, md5, items);
    PhpFeeds.NormaliseItemwise(p, phpText, md5, small);
    forall k | 0 <= k < |small| ensures small[k] == items[k] {
    }
  }

  /** An item missing its title, link or date is skipped by the JavaScript
      adapter, while the PHP one makes an activity of it. */
  lemma IncompleteItemDiffers(p: Platform, jsText: string -> string, phpText: FeedItem -> string,
                              md5: string -> string, item: FeedItem)
    requires !JsFeeds.Complete(item)
    ensures JsFeeds.Normalise(p, jsText, md5, [item]) == []
    ensures PhpFeeds.Normalise(p, phpText, md5, [item]) == [PhpFeeds.ToActivity(p, phpText, md5, item)]
  {
    assert [item][..0] == [];
  }

  // ---------------------------------------------------------------------
  // Mastodon text

  /** Text both generators leave as it is: no tag, no entity, no NUL, and
      every whitespace a single plain space inside it. */
  ghost predicate PlainText(s: string)
  {
    s != [] && s[0] != ' ' && s[|s| - 1] != ' '
    && (forall k :: 0 <= k < |s| ==>
          s[k] != '<' && s[k] != '&' && s[k] != '\0' && (IsSpace(JavaScript, s[k]) ==> s[k] == ' '))
    && (forall k :: 0 <= k < |s| - 1 ==> s[k] != ' ' || s[k + 1] != ' ')
  }

  /** Both generators keep plain text as it is, except the text `0`, which
      PHP's `empty` takes for no text and replaces by the placeholder. */
  lemma CleanTextsAgree(s: string)
    requires PlainText(s)
    ensures JsFeeds.CleanText(s) == s
    ensures PhpFeeds.CleanText(s) == if s == "0" then PhpFeeds.Placeholder else s
  {
    assert forall c :: IsSpace(Php, c) ==> IsSpace(JavaScript, c);
    assert forall k :: 0 <= k < |s| && IsTrimmed(Php, s[k]) ==> s[k] == ' ';
    JsFeeds.CleanTextKeepsCleanText(s);
    PhpStripTagsKeepsText(s);
    CollapseKeepsCollapsed(Php, s);
    TrimKeepsTrimmed(Php, s);
  }

  // ---------------------------------------------------------------------
  // Letterboxd years

  /** The JavaScript generator removes the first year only and PHP every
      year; they agree exactly when no year follows the first. */
  lemma YearRemovalsAgree(c: string)
    ensures Trim(Php, RemoveAllYears(c)) == Trim(Php, RemoveFirstYear(c))
      <== forall q :: FirstYearFrom(c, 0) + 6 <= q < |c| ==> !YearAt(c, q)
    ensures RemoveAllYears(c) == RemoveFirstYear(c)
      <==> forall q :: FirstYearFrom(c, 0) + 6 <= q < |c| ==> !YearAt(c, q)
  {
    RemoveAllYearsSpec(c);
  }
}
