/// The GitHub adapter of rss.php (`fetchGitHubActivity`): the same six
/// templates as the JavaScript generator, written with PHP's operators.
/// `??` falls back only on a missing value, so an empty reference or title
/// is kept, and `ucfirst` of a missing action is the empty string, so no
/// event makes the whole list fail.
module PhpGitHub {
  import opened Feed
  import opened Text

  /** The body of the `switch` for one event: the description, or `None`
      for `continue 2`. */
  function Describe(e: GitHubEvent): Option<string>
  {
    var repo := e.repoName;
    if e.kind == "PushEvent" then
      var n := e.commits.GetOr(0);
      Some("Pushed " + NatToString(n) + " commit" + Plural(n) + " to " + repo)
    else if e.kind == "CreateEvent" then
      Some("Created " + CreateType(e.refType) + " " + e.ref.GetOr(repo))
    else if e.kind == "WatchEvent" then
      Some("Starred " + repo)
    else if e.kind == "ForkEvent" then
      Some("Forked " + repo)
    else if e.kind == "PullRequestEvent" then
      Some(UpperFirst(e.action.GetOr("")) + " pull request: " + e.pullRequestTitle.GetOr("pull request"))
    else if e.kind == "IssuesEvent" then
      Some(UpperFirst(e.action.GetOr("")) + " issue: " + e.issueTitle.GetOr("issue"))
    else None
  }

  /** The array appended for an event with this description. */
  function ToActivity(e: GitHubEvent, description: string): Activity
  {
    Activity(description, description, RepoLink(e.repoName), e.createdAt, e.id, GitHub)
  }

  /** What the `foreach` has appended once it has gone through `events`. */
  function Activities(events: seq<GitHubEvent>): seq<Activity>
    decreases |events|
  {
    if events == [] then []
    else
      var last := events[|events| - 1];
      Activities(events[..|events| - 1])
        + (match Describe(last) case None => [] case Some(d) => [ToActivity(last, d)])
  }

  /** `fetchGitHubActivity`: `None` stands for `file_get_contents` returning
      `false` or a body that does not decode to a non-empty array. */
  method FetchGitHubActivity(response: Option<seq<GitHubEvent>>) returns (activities: seq<Activity>)
    ensures activities == Activities(response.GetOr([]))
  {
    if response.None? {
      return [];
    }
    var events := response.value;
    activities := [];
    for i := 0 to |events|
      invariant activities == Activities(events[..i])
    {
      var e := events[i];
      assert events[..i + 1][..i] == events[..i];
      match Describe(e) {
        case None =>
        case Some(d) =>
          activities := activities + [ToActivity(e, d)];
      }
    }
    assert events[..|events|] == events;
  }

  // ---------------------------------------------------------------------
  // The templates

  /** A push names the number of commits (0 when the list is missing),
      with `s` exactly when that number is not 1. */
  lemma PushTemplate(e: GitHubEvent)
    requires e.kind == "PushEvent"
    ensures var n := e.commits.GetOr(0);
      exists count: string, suffix: string ::
        Describe(e) == Some("Pushed " + count + " commit" + suffix + " to " + e.repoName)
        && (forall k :: 0 <= k < |count| ==> IsDigit(count[k])) && DecimalValue(count) == n
        && (suffix == "s" <==> n != 1) && (suffix == "" <==> n == 1)
  {
    var n := e.commits.GetOr(0);
    NatToStringRoundTrip(n);
    var count, suffix := NatToString(n), Plural(n);
    assert Describe(e) == Some("Pushed " + count + " commit" + suffix + " to " + e.repoName);
  }

  /** A creation names `repository` or `branch` when that is the reference
      type and `resource` otherwise, then the reference whenever it is
      present, empty or not, and the repository only when it is missing. */
  lemma CreateTemplate(e: GitHubEvent)
    requires e.kind == "CreateEvent"
    ensures exists kind: string, target: string ::
      Describe(e) == Some("Created " + kind + " " + target)
      && (kind == "repository" <==> e.refType == Some("repository"))
      && (kind == "branch" <==> e.refType == Some("branch"))
      && (kind == "repository" || kind == "branch" || kind == "resource")
      && (e.ref.Some? ==> target == e.ref.value)
      && (e.ref.None? ==> target == e.repoName)
  {
    var kind, target := CreateType(e.refType), e.ref.GetOr(e.repoName);
    assert Describe(e) == Some("Created " + kind + " " + target);
  }

  /** A pull request or issue event is always described: the action with
      only its first character upper-cased (nothing when the action is
      missing), the noun, and the title whenever it is present, or the noun
      again when it is missing. */
  lemma ActionTemplate(e: GitHubEvent)
    requires e.kind == "PullRequestEvent" || e.kind == "IssuesEvent"
    ensures var a := e.action.GetOr(""); var noun := ActionNoun(e.kind); var t := ActionTitle(e);
      exists verb: string, title: string ::
        Describe(e) == Some(verb + " " + noun + ": " + title)
        && |verb| == |a|
        && (a != [] ==> verb[1..] == a[1..] && !('a' <= verb[0] <= 'z') && AsciiLower(verb[0]) == AsciiLower(a[0]))
        && (t.Some? ==> title == t.value)
        && (t.None? ==> title == noun)
  {
    var verb, title := UpperFirst(e.action.GetOr("")), ActionTitle(e).GetOr(ActionNoun(e.kind));
    var noun := ActionNoun(e.kind);
    assert verb + " " + noun + ": " + title == verb + (" " + noun + ": ") + title;
    if e.kind == "PullRequestEvent" {
      assert " " + noun + ": " == " pull request: ";
    } else {
      assert " " + noun + ": " == " issue: ";
    }
  }

  /** Exactly the six known kinds are described; every other kind is skipped. */
  lemma SkipsExactlyUnknownKinds(e: GitHubEvent)
    ensures Describe(e).None? <==> e.kind !in KnownKinds
  {
  }

  // ---------------------------------------------------------------------
  // The loop over the events

  /** Going through `a + b` is going through `a`, then through `b`. */
  lemma {:induction false} ActivitiesAppend(a: seq<GitHubEvent>, b: seq<GitHubEvent>)
    ensures Activities(a + b) == Activities(a) + Activities(b)
    decreases |b|
  {
    if b == [] {
      assert a + b == a;
    } else {
      var b' := b[..|b| - 1];
      var last := b[|b| - 1];
      assert (a + b)[..|a + b| - 1] == a + b';
      assert (a + b)[|a + b| - 1] == last;
      ActivitiesAppend(a, b');
      var z := match Describe(last) case None => [] case Some(d) => [ToActivity(last, d)];
      assert (Activities(a) + Activities(b')) + z == Activities(a) + (Activities(b') + z);
    }
  }

  /** Every event the `switch` describes contributes its activity. */
  lemma {:induction false} DescribedEventsKept(events: seq<GitHubEvent>, k: nat)
    requires k < |events| && Describe(events[k]).Some?
    ensures ToActivity(events[k], Describe(events[k]).value) in Activities(events)
    decreases |events|
  {
    var init := events[..|events| - 1];
    if k < |init| {
      assert init[k] == events[k];
      DescribedEventsKept(init, k);
    }
  }

  /** An event of an unknown kind contributes nothing, wherever it stands. */
  lemma UnknownKindContributesNothing(a: seq<GitHubEvent>, e: GitHubEvent, b: seq<GitHubEvent>)
    requires e.kind !in KnownKinds
    ensures Activities(a + [e] + b) == Activities(a + b)
  {
    ActivitiesAppend(a + [e], b);
    ActivitiesAppend(a, [e]);
    ActivitiesAppend(a, b);
    assert [e][..0] == [];
    assert Activities(a) + [] == Activities(a);
  }

  /** One activity per event of a known kind; each has its description as
      title, a link to the repository of the event it was built from, that
      event's id as guid and its date, and the platform GitHub. */
  lemma {:induction false} ActivitiesFromEvents(events: seq<GitHubEvent>)
    ensures var acts := Activities(events);
      |acts| == CountKnown(events) <= |events|
      && forall k :: 0 <= k < |acts| ==>
        acts[k].title == acts[k].description && acts[k].platform == GitHub
        && (exists j :: 0 <= j < |events| && events[j].kind in KnownKinds
              && Describe(events[j]) == Some(acts[k].description)
              && acts[k].link == RepoLink(events[j].repoName)
              && acts[k].guid == events[j].id && acts[k].published == events[j].createdAt)
    decreases |events|
  {
    if events != [] {
      var init := events[..|events| - 1];
      var last := events[|events| - 1];
      ActivitiesFromEvents(init);
      var before := Activities(init);
      var acts := Activities(events);
      forall k | 0 <= k < |acts|
        ensures acts[k].title == acts[k].description && acts[k].platform == GitHub
        ensures (exists j :: 0 <= j < |events| && events[j].kind in KnownKinds
                   && Describe(events[j]) == Some(acts[k].description)
                   && acts[k].link == RepoLink(events[j].repoName)
                   && acts[k].guid == events[j].id && acts[k].published == events[j].createdAt)
      {
        if k < |before| {
          assert acts[k] == before[k];
          var j :| 0 <= j < |init| && init[j].kind in KnownKinds
            && Describe(init[j]) == Some(before[k].description)
            && before[k].link == RepoLink(init[j].repoName)
            && before[k].guid == init[j].id && before[k].published == init[j].createdAt;
          assert events[j] == init[j];
        } else {
          assert acts[k] == ToActivity(last, Describe(last).value);
          assert events[|events| - 1] == last;
        }
      }
    }
  }
}
