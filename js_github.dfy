/// The GitHub adapter of rss-generator.js (`fetchGitHubActivity`): every
/// event of a known kind becomes one activity whose title and description
/// are a fixed template over the event; events of other kinds are skipped.
module JsGitHub {
  import opened Feed
  import opened Text

  /** What the `switch` does with one event: skip it (`continue`), emit an
      activity with this description, or throw, because `payload.action` is
      missing and `.charAt` is called on `undefined`. */
  datatype Step = Skip | Emit(description: string) | Throw

  /** `x || fallback` on an optional string: the fallback when `x` is
      missing or empty. */
  function OrElse(x: Option<string>, fallback: string): (r: string)
    ensures x.Some? && x.value != [] ==> r == x.value
    ensures x.None? || x.value == [] ==> r == fallback
  {
    if x.Some? && x.value != [] then x.value else fallback
  }

  /** The body of the `switch` for one event. */
  function Describe(e: GitHubEvent): Step
  {
    var repo := e.repoName;
    if e.kind == "PushEvent" then
      var n := e.commits.GetOr(0);
      Emit("Pushed " + NatToString(n) + " commit" + Plural(n) + " to " + repo)
    else if e.kind == "CreateEvent" then
      Emit("Created " + CreateType(e.refType) + " " + OrElse(e.ref, repo))
    else if e.kind == "WatchEvent" then
      Emit("Starred " + repo)
    else if e.kind == "ForkEvent" then
      Emit("Forked " + repo)
    else if e.kind == "PullRequestEvent" then
      if e.action.None? then Throw
      else Emit(UpperFirst(e.action.value) + " pull request: " + OrElse(e.pullRequestTitle, "pull request"))
    else if e.kind == "IssuesEvent" then
      if e.action.None? then Throw
      else Emit(UpperFirst(e.action.value) + " issue: " + OrElse(e.issueTitle, "issue"))
    else Skip
  }

  /** The activity pushed for an event with this description. */
  function ToActivity(e: GitHubEvent, description: string): Activity
  {
    Activity(description, description, RepoLink(e.repoName), e.createdAt, e.id, GitHub)
  }

  /** What the loop has pushed once it has gone through `events`, or `None`
      once an event has thrown (the `catch` then returns `[]`). */
  function Activities(events: seq<GitHubEvent>): Option<seq<Activity>>
    decreases |events|
  {
    if events == [] then Some([])
    else
      var last := events[|events| - 1];
      match Activities(events[..|events| - 1])
      case None => None
      case Some(acts) =>
        match Describe(last)
        case Throw => None
        case Skip => Some(acts)
        case Emit(d) => Some(acts + [ToActivity(last, d)])
  }

  /** Once an event has thrown, the whole list has. */
  lemma {:induction false} ThrowIsFinal(events: seq<GitHubEvent>, i: nat)
    requires i <= |events| && Activities(events[..i]) == None
    ensures Activities(events) == None
    decreases |events| - i
  {
    if i < |events| {
      assert events[..i + 1][..i] == events[..i];
      ThrowIsFinal(events, i + 1);
    } else {
      assert events[..i] == events;
    }
  }

  /** An event that throws, wherever it stands, loses every activity. */
  lemma {:induction false} ThrowAt(events: seq<GitHubEvent>, k: nat)
    requires k < |events| && Describe(events[k]) == Throw
    ensures Activities(events) == None
    decreases |events|
  {
    var init := events[..|events| - 1];
    if k < |init| {
      assert init[k] == events[k];
      ThrowAt(init, k);
    }
  }

  /** `fetchGitHubActivity`: `None` stands for a request that failed or a
      response that was not OK. The result is what the loop pushed, or
      nothing when an event threw. */
  method FetchGitHubActivity(response: Option<seq<GitHubEvent>>) returns (activities: seq<Activity>)
    ensures response.None? ==> activities == []
    ensures response.Some? ==> activities == Activities(response.value).GetOr([])
  {
    if response.None? {
      return [];
    }
    var events := response.value;
    activities := [];
    var i := 0;
    while i < |events|
      invariant 0 <= i <= |events|
      invariant Activities(events[..i]) == Some(activities)
    {
      var e := events[i];
      assert events[..i + 1][..i] == events[..i];
      match Describe(e) {
        case Skip =>
        case Throw =>
          ThrowIsFinal(events, i + 1);
          return [];
        case Emit(d) =>
          activities := activities + [ToActivity(e, d)];
      }
      i := i + 1;
    }
    assert events[..i] == events;
  }

  // ---------------------------------------------------------------------
  // The templates

  /** A push names the number of commits (0 when the list is missing),
      with `s` exactly when that number is not 1. */
  lemma PushTemplate(e: GitHubEvent)
    requires e.kind == "PushEvent"
    ensures var n := e.commits.GetOr(0);
      exists count: string, suffix: string ::
        Describe(e) == Emit("Pushed " + count + " commit" + suffix + " to " + e.repoName)
        && (forall k :: 0 <= k < |count| ==> IsDigit(count[k])) && DecimalValue(count) == n
        && (suffix == "s" <==> n != 1) && (suffix == "" <==> n == 1)
  {
    var n := e.commits.GetOr(0);
    NatToStringRoundTrip(n);
    var count, suffix := NatToString(n), Plural(n);
    assert Describe(e) == Emit("Pushed " + count + " commit" + suffix + " to " + e.repoName);
  }

  /** A creation names `repository` or `branch` when that is the reference
      type and `resource` otherwise, then the reference, or the repository
      when the reference is missing or empty. */
  lemma CreateTemplate(e: GitHubEvent)
    requires e.kind == "CreateEvent"
    ensures exists kind: string, target: string ::
      Describe(e) == Emit("Created " + kind + " " + target)
      && (kind == "repository" <==> e.refType == Some("repository"))
      && (kind == "branch" <==> e.refType == Some("branch"))
      && (kind == "repository" || kind == "branch" || kind == "resource")
      && (e.ref.Some? && e.ref.value != [] ==> target == e.ref.value)
      && (e.ref.None? || e.ref.value == [] ==> target == e.repoName)
  {
    var kind, target := CreateType(e.refType), OrElse(e.ref, e.repoName);
    assert Describe(e) == Emit("Created " + kind + " " + target);
  }

  /** A pull request or issue event throws exactly when it has no action;
      otherwise its description is the action with only its first character
      upper-cased, the noun, and the title, or the noun again when the title
      is missing or empty. */
  lemma ActionTemplate(e: GitHubEvent)
    requires e.kind == "PullRequestEvent" || e.kind == "IssuesEvent"
    ensures Describe(e) == Throw <==> e.action.None?
    ensures e.action.Some? ==>
      var a := e.action.value; var noun := ActionNoun(e.kind); var t := ActionTitle(e);
      exists verb: string, title: string ::
        Describe(e) == Emit(verb + " " + noun + ": " + title)
        && |verb| == |a|
        && (a != [] ==> verb[1..] == a[1..] && !('a' <= verb[0] <= 'z') && AsciiLower(verb[0]) == AsciiLower(a[0]))
        && (t.Some? && t.value != [] ==> title == t.value)
        && (t.None? || t.value == [] ==> title == noun)
  {
    if e.action.Some? {
      var verb, title := UpperFirst(e.action.value), OrElse(ActionTitle(e), ActionNoun(e.kind));
      ActionDescribed(e);
      assert Describe(e) == Emit(verb + " " + ActionNoun(e.kind) + ": " + title);
    }
  }

  lemma ActionDescribed(e: GitHubEvent)
    requires e.kind == "PullRequestEvent" || e.kind == "IssuesEvent"
    requires e.action.Some?
    ensures Describe(e) == Emit(UpperFirst(e.action.value) + " " + ActionNoun(e.kind) + ": "
      + OrElse(ActionTitle(e), ActionNoun(e.kind)))
  {
    var noun := ActionNoun(e.kind);
    Glue(UpperFirst(e.action.value), noun, OrElse(ActionTitle(e), noun));
    if e.kind == "PullRequestEvent" {
      assert " " + noun + ": " == " pull request: ";
    } else {
      assert " " + noun + ": " == " issue: ";
    }
  }

  lemma Glue(u: string, noun: string, t: string)
    ensures u + " " + noun + ": " + t == u + (" " + noun + ": ") + t
  {
  }

  /** Exactly the six known kinds are described; every other kind is skipped. */
  lemma SkipsExactlyUnknownKinds(e: GitHubEvent)
    ensures Describe(e) == Skip <==> e.kind !in KnownKinds
  {
  }

  // ---------------------------------------------------------------------
  // The loop over the events

  /** Going through `a + b` is going through `a`, then through `b`. */
  lemma {:induction false} ActivitiesAppend(a: seq<GitHubEvent>, b: seq<GitHubEvent>)
    ensures Activities(a + b) ==
      if Activities(a).None? || Activities(b).None? then None
      else Some(Activities(a).value + Activities(b).value)
    decreases |b|
  {
    if b == [] {
      assert a + b == a;
      if Activities(a).Some? {
        assert Activities(a).value + [] == Activities(a).value;
      }
    } else {
      var b' := b[..|b| - 1];
      assert (a + b)[..|a + b| - 1] == a + b';
      assert (a + b)[|a + b| - 1] == b[|b| - 1];
      ActivitiesAppend(a, b');
      if Activities(a).Some? && Activities(b').Some? && Describe(b[|b| - 1]).Emit? {
        var x, y := Activities(a).value, Activities(b').value;
        var z := ToActivity(b[|b| - 1], Describe(b[|b| - 1]).description);
        assert (x + y) + [z] == x + (y + [z]);
      }
    }
  }

  /** An event of an unknown kind contributes nothing, wherever it stands. */
  lemma UnknownKindContributesNothing(a: seq<GitHubEvent>, e: GitHubEvent, b: seq<GitHubEvent>)
    requires e.kind !in KnownKinds
    ensures Activities(a + [e] + b) == Activities(a + b)
  {
    ActivitiesAppend(a + [e], b);
    ActivitiesAppend(a, [e]);
    ActivitiesAppend(a, b);
    assert [e][..0] == [];
  }

  /** The list fails exactly when one of its events throws. */
  lemma ActivitiesFailIff(events: seq<GitHubEvent>)
    ensures Activities(events).None? <==> exists i :: 0 <= i < |events| && Describe(events[i]) == Throw
  {
    if exists i :: 0 <= i < |events| && Describe(events[i]) == Throw {
      var i :| 0 <= i < |events| && Describe(events[i]) == Throw;
      ThrowAt(events, i);
    } else {
      NoThrowSucceeds(events);
    }
  }

  /** A list none of whose events throws yields its activities. */
  lemma {:induction false} NoThrowSucceeds(events: seq<GitHubEvent>)
    requires forall i :: 0 <= i < |events| ==> Describe(events[i]) != Throw
    ensures Activities(events).Some?
    decreases |events|
  {
    if events != [] {
      var init := events[..|events| - 1];
      assert forall i :: 0 <= i < |init| ==> init[i] == events[i];
      NoThrowSucceeds(init);
      assert Describe(events[|events| - 1]) != Throw;
    }
  }

  /** When no event throws there is one activity per event of a known
      kind; each has its description as title, a link to the repository of
      the event it was built from, that event's id as guid and its date, and
      the platform GitHub. */
  lemma {:induction false} ActivitiesFromEvents(events: seq<GitHubEvent>)
    requires Activities(events).Some?
    ensures var acts := Activities(events).value;
      |acts| == CountKnown(events) <= |events|
      && forall k :: 0 <= k < |acts| ==>
        acts[k].title == acts[k].description && acts[k].platform == GitHub
        && (exists j :: 0 <= j < |events| && events[j].kind in KnownKinds
              && Describe(events[j]) == Emit(acts[k].description)
              && acts[k].link == RepoLink(events[j].repoName)
              && acts[k].guid == events[j].id && acts[k].published == events[j].createdAt)
    decreases |events|
  {
    if events != [] {
      var init := events[..|events| - 1];
      var last := events[|events| - 1];
      ActivitiesFromEvents(init);
      var before := Activities(init).value;
      var acts := Activities(events).value;
      forall k | 0 <= k < |acts|
        ensures acts[k].title == acts[k].description && acts[k].platform == GitHub
        ensures (exists j :: 0 <= j < |events| && events[j].kind in KnownKinds
                   && Describe(events[j]) == Emit(acts[k].description)
                   && acts[k].link == RepoLink(events[j].repoName)
                   && acts[k].guid == events[j].id && acts[k].published == events[j].createdAt)
      {
        if k < |before| {
          assert acts[k] == before[k];
          var j :| 0 <= j < |init| && init[j].kind in KnownKinds
            && Describe(init[j]) == Emit(before[k].description)
            && before[k].link == RepoLink(init[j].repoName)
            && before[k].guid == init[j].id && before[k].published == init[j].createdAt;
          assert events[j] == init[j];
        } else {
          assert acts[k] == ToActivity(last, Describe(last).description);
          assert events[|events| - 1] == last;
        }
      }
    }
  }
}
