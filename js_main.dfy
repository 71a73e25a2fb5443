/// `main` of rss-generator.js: the three adapters' results, as
/// `Promise.allSettled` reports them, are concatenated in a fixed order,
/// sorted most recent first, cut to twenty and rendered.
module JsMain {
  import opened Feed
  import opened Ordering
  import opened Blocks
  import JsGitHub
  import JsFeeds
  import JsRender

  const MaxActivities: nat := 20

  /** What a settled fetch contributes: its value, or nothing when it was rejected. */
  function Contribution(r: Settled<seq<Activity>>): (acts: seq<Activity>)
  {
    match r
    case Fulfilled(v) => v
    case Rejected => []
  }

  /** The concatenation in the order GitHub, Mastodon, Letterboxd. */
  function Merge(github: Settled<seq<Activity>>, mastodon: Settled<seq<Activity>>, letterboxd: Settled<seq<Activity>>): seq<Activity>
  {
    Contribution(github) + Contribution(mastodon) + Contribution(letterboxd)
  }

  /** The `concat` steps, the sort and the `slice(0, 20)` of `main`. */
  method SelectActivities(github: Settled<seq<Activity>>, mastodon: Settled<seq<Activity>>, letterboxd: Settled<seq<Activity>>)
    returns (all: seq<Activity>)
    ensures all == Take(SortByDateDesc(Merge(github, mastodon, letterboxd)), MaxActivities)
  {
    all := [];
    if github.Fulfilled? {
      all := all + github.value;
    }
    assert all == Contribution(github);
    if mastodon.Fulfilled? {
      all := all + mastodon.value;
    }
    assert all == Contribution(github) + Contribution(mastodon);
    if letterboxd.Fulfilled? {
      all := all + letterboxd.value;
    }
    assert all == Merge(github, mastodon, letterboxd);
    all := SortByDateDesc(all);
    all := Take(all, MaxActivities);
  }

  /** The feed keeps at most twenty activities of the merged list, most
      recent first; none left out is more recent than one kept, and among
      activities with the same date the ones kept are the first of them in
      the order GitHub, Mastodon, Letterboxd. */
  lemma SelectionIsMostRecent(github: Settled<seq<Activity>>, mastodon: Settled<seq<Activity>>, letterboxd: Settled<seq<Activity>>)
    ensures var merged := Merge(github, mastodon, letterboxd);
      var r := Take(SortByDateDesc(merged), MaxActivities);
      |r| == (if |merged| < MaxActivities then |merged| else MaxActivities)
      && SortedByDateDesc(r)
      && multiset(r) <= multiset(merged)
      && (forall a: Activity, b: Activity :: a in r && b in multiset(merged) - multiset(r) ==> a.published >= b.published)
      && (forall t :: PublishedAt(r, t) <= PublishedAt(merged, t))
  {
    var merged := Merge(github, mastodon, letterboxd);
    SortAndTake(merged, MaxActivities);
    forall t ensures PublishedAt(Take(SortByDateDesc(merged), MaxActivities), t) <= PublishedAt(merged, t) {
      SortAndTakeStable(merged, MaxActivities, t);
    }
  }

  /** A rejected fetch contributes nothing: the merge is the same as if that
      source had been fulfilled with no activity. */
  lemma RejectedContributesNothing(github: Settled<seq<Activity>>, mastodon: Settled<seq<Activity>>, letterboxd: Settled<seq<Activity>>)
    ensures Merge(Rejected, mastodon, letterboxd) == Merge(Fulfilled([]), mastodon, letterboxd)
    ensures Merge(github, Rejected, letterboxd) == Merge(github, Fulfilled([]), letterboxd)
    ensures Merge(github, mastodon, Rejected) == Merge(github, mastodon, Fulfilled([]))
  {
  }

  /** The activities of the GitHub adapter for a response. */
  function GitHubActivities(response: Option<seq<GitHubEvent>>): seq<Activity>
  {
    if response.None? then [] else JsGitHub.Activities(response.value).GetOr([])
  }

  /** `main` without the file write and the logging: fetch the three
      sources, select, render. Every adapter catches its own failures, so
      each promise settles fulfilled. */
  method GenerateFeed(
    github: Option<seq<GitHubEvent>>, mastodon: Option<seq<FeedItem>>, letterboxd: Option<seq<FeedItem>>,
    now: string, httpDate: int -> string, md5: string -> string)
    returns (rss: string)
    ensures var merged := GitHubActivities(github)
        + JsFeeds.Normalise(Mastodon, JsFeeds.CleanText, md5, Take(mastodon.GetOr([]), JsFeeds.MaxItems))
        + JsFeeds.Normalise(Letterboxd, JsFeeds.WatchedTitle, md5, Take(letterboxd.GetOr([]), JsFeeds.MaxItems));
      rss == JsRender.Header(now) + Join(Take(SortByDateDesc(merged), MaxActivities), JsRender.ItemBlock(httpDate)) + JsRender.Footer
  {
    var g := JsGitHub.FetchGitHubActivity(github);
    assert g == GitHubActivities(github);
    var m := JsFeeds.FetchMastodonActivity(mastodon, md5);
    var l := JsFeeds.FetchLetterboxdActivity(letterboxd, md5);
    var all := SelectActivities(Fulfilled(g), Fulfilled(m), Fulfilled(l));
    assert Merge(Fulfilled(g), Fulfilled(m), Fulfilled(l)) == g + m + l;
    rss := JsRender.GenerateRssXml(all, now, httpDate);
  }
}
