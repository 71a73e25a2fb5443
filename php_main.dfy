/// The top level of rss.php: the three adapters' arrays are merged in a
/// fixed order, sorted most recent first with `usort`, cut to twenty with
/// `array_slice` and echoed through the template. Every adapter returns an
/// array, empty on failure, so nothing here can fail.
module PhpMain {
  import opened Feed
  import opened Ordering
  import opened Blocks
  import PhpGitHub
  import PhpFeeds
  import PhpRender

  const MaxActivities: nat := 20

  /** The `array_merge` steps, the `usort` (stable, as in PHP 8) on the
      dates and the `array_slice($allActivities, 0, 20)`. */
  method SelectActivities(github: seq<Activity>, mastodon: seq<Activity>, letterboxd: seq<Activity>)
    returns (all: seq<Activity>)
    ensures all == Take(SortByDateDesc(github + mastodon + letterboxd), MaxActivities)
  {
    all := [];
    all := all + github;
    assert all == github;
    all := all + mastodon;
    all := all + letterboxd;
    all := SortByDateDesc(all);
    all := Take(all, MaxActivities);
  }

  /** The feed keeps at most twenty of the merged activities, most recent
      first; none left out is more recent than one kept, and among
      activities with the same date the ones kept are the first of them in
      the order GitHub, Mastodon, Letterboxd. */
  lemma SelectionIsMostRecent(github: seq<Activity>, mastodon: seq<Activity>, letterboxd: seq<Activity>)
    ensures var merged := github + mastodon + letterboxd;
      var r := Take(SortByDateDesc(merged), MaxActivities);
      |r| == (if |merged| < MaxActivities then |merged| else MaxActivities)
      && SortedByDateDesc(r)
      && multiset(r) <= multiset(merged)
      && (forall a: Activity, b: Activity :: a in r && b in multiset(merged) - multiset(r) ==> a.published >= b.published)
      && (forall t :: PublishedAt(r, t) <= PublishedAt(merged, t))
  {
    var merged := github + mastodon + letterboxd;
    SortAndTake(merged, MaxActivities);
    forall t ensures PublishedAt(Take(SortByDateDesc(merged), MaxActivities), t) <= PublishedAt(merged, t) {
      SortAndTakeStable(merged, MaxActivities, t);
    }
  }

  /** The whole script without its headers: fetch the three sources,
      select, and echo the template. `lastBuildDate` and `pubDate` are the
      two readings of the clock, `rfc2822` is `date('r', ·)` and `md5` the
      digest of a link. */
  method GenerateFeed(
    github: Option<seq<GitHubEvent>>, mastodon: Option<seq<FeedItem>>, letterboxd: Option<seq<FeedItem>>,
    lastBuildDate: string, pubDate: string, rfc2822: int -> string, md5: string -> string)
    returns (out: string)
    ensures var merged := PhpGitHub.Activities(github.GetOr([]))
        + Take(PhpFeeds.Normalise(Mastodon, PhpFeeds.MastodonText, md5, mastodon.GetOr([])), PhpFeeds.MaxItems)
        + Take(PhpFeeds.Normalise(Letterboxd, PhpFeeds.LetterboxdText, md5, letterboxd.GetOr([])), PhpFeeds.MaxItems);
      out == PhpRender.Header(PhpRender.Settings, lastBuildDate, pubDate)
        + Join(Take(SortByDateDesc(merged), MaxActivities), PhpRender.ItemBlock(rfc2822))
        + PhpRender.Footer
  {
    var g := PhpGitHub.FetchGitHubActivity(github);
    var m := PhpFeeds.FetchMastodonActivity(mastodon, md5);
    var l := PhpFeeds.FetchLetterboxdActivity(letterboxd, md5);
    var all := SelectActivities(g, m, l);
    out := PhpRender.RenderRss(PhpRender.Settings, all, lastBuildDate, pubDate, rfc2822);
  }
}
