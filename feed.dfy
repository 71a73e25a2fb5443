/// The records both generators work on: the raw inputs taken from the three
/// sources and the normalised activity every source adapter produces.
module Feed {

  datatype Option<+T> = None | Some(value: T)
  {
    function GetOr(default: T): T
    {
      match this
      case Some(v) => v
      case None => default
    }
  }

  /// The outcome of one fetch under `Promise.allSettled`.
  datatype Settled<+T> = Fulfilled(value: T) | Rejected

  datatype Platform = GitHub | Mastodon | Letterboxd

  /** The name rendered in an item's `<category>`. */
  function PlatformName(p: Platform): string
  {
    match p
    case GitHub => "GitHub"
    case Mastodon => "Mastodon"
    case Letterboxd => "Letterboxd"
  }

  /// One normalised activity. `published` is the instant of `pubDate` in
  /// whole seconds; both generators format it only when rendering.
  datatype Activity = Activity(
    title: string,
    description: string,
    link: string,
    published: int,
    guid: string,
    platform: Platform)

  /// One element of the GitHub public-events JSON array, reduced to the
  /// fields the generators read. `commits` is the length of
  /// `payload.commits` when that array is present; every optional string is
  /// `None` when the key is missing or JSON `null`.
  datatype GitHubEvent = GitHubEvent(
    id: string,
    kind: string,
    repoName: string,
    createdAt: int,
    commits: Option<nat>,
    refType: Option<string>,
    ref: Option<string>,
    action: Option<string>,
    pullRequestTitle: Option<string>,
    issueTitle: Option<string>)

  /// One `<item>` of a syndication feed. For rss-generator.js a field is
  /// the text the item's regular expression captured (`None` when it did not
  /// match), still entity-escaped; for rss.php it is the decoded element
  /// text (`None` when the element is missing).
  datatype FeedItem = FeedItem(
    title: Option<string>,
    link: Option<string>,
    description: Option<string>,
    pubDate: Option<int>)

  const GitHubBase := "https://github.com/"

  /** The link both generators give every GitHub activity. */
  function RepoLink(repoName: string): string
  {
    GitHubBase + repoName
  }

  // ---------------------------------------------------------------------
  // What both GitHub templates share

  /** The event kinds both generators describe. */
  const KnownKinds: set<string> :=
    {"PushEvent", "CreateEvent", "WatchEvent", "ForkEvent", "PullRequestEvent", "IssuesEvent"}

  /** The word naming what a `CreateEvent` created: the reference type when
      it is `repository` or `branch`, otherwise `resource`. */
  function CreateType(refType: Option<string>): string
  {
    if refType == Some("repository") then "repository"
    else if refType == Some("branch") then "branch"
    else "resource"
  }

  /** The plural ending of `commit`. */
  function Plural(n: nat): string
  {
    if n != 1 then "s" else ""
  }

  /** The noun of a pull request or issue event's description. */
  function ActionNoun(kind: string): string
  {
    if kind == "PullRequestEvent" then "pull request" else "issue"
  }

  /** The title a pull request or issue event carries. */
  function ActionTitle(e: GitHubEvent): Option<string>
  {
    if e.kind == "PullRequestEvent" then e.pullRequestTitle else e.issueTitle
  }

  /** The number of events of a known kind. */
  function CountKnown(events: seq<GitHubEvent>): nat
  {
    if events == [] then 0
    else CountKnown(events[..|events| - 1]) + (if events[|events| - 1].kind in KnownKinds then 1 else 0)
  }
}
