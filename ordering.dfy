/// The ordering both generators apply to the merged activities: a stable
/// sort by date, most recent first (`Array.prototype.sort` and PHP's
/// `usort`, both stable), then a cut to the first few.
module Ordering {
  import opened Feed

  ghost predicate SortedByDateDesc(s: seq<Activity>)
  {
    forall i, j :: 0 <= i < j < |s| ==> s[i].published >= s[j].published
  }

  /** The activities of `s` published at instant `t`, in their order in `s`. */
  function PublishedAt(s: seq<Activity>, t: int): seq<Activity>
  {
    if s == [] then []
    else (if s[0].published == t then [s[0]] else []) + PublishedAt(s[1..], t)
  }

  /** `a` placed in front of the first element that is not more recent than it. */
  function Insert(a: Activity, s: seq<Activity>): seq<Activity>
  {
    if s == [] || s[0].published <= a.published then [a] + s
    else [s[0]] + Insert(a, s[1..])
  }

  /** Stable insertion sort, most recent first. */
  function SortByDateDesc(s: seq<Activity>): seq<Activity>
  {
    if s == [] then [] else Insert(s[0], SortByDateDesc(s[1..]))
  }

  /** The first `n` elements, or all of them when there are fewer (`slice(0, n)`). */
  function Take<T>(s: seq<T>, n: nat): (r: seq<T>)
    ensures |r| == if |s| < n then |s| else n
    ensures r == s[..|r|]
  {
    if |s| <= n then s else s[..n]
  }

  lemma {:induction false} InsertPermutes(a: Activity, s: seq<Activity>)
    ensures multiset(Insert(a, s)) == multiset(s) + multiset{a}
    decreases |s|
  {
    if s != [] && s[0].published > a.published {
      InsertPermutes(a, s[1..]);
      assert s == [s[0]] + s[1..];
    }
  }

  lemma {:induction false} InsertSorted(a: Activity, s: seq<Activity>)
    requires SortedByDateDesc(s)
    ensures SortedByDateDesc(Insert(a, s))
    decreases |s|
  {
    if s != [] && s[0].published > a.published {
      var t := s[1..];
      InsertSorted(a, t);
      InsertPermutes(a, t);
      var r := Insert(a, t);
      forall k | 0 <= k < |r| ensures r[k].published <= s[0].published {
        assert r[k] in multiset(r);
        assert r[k] in multiset(t) || r[k] == a;
      }
    }
  }

  /** The sort returns a permutation of its input. */
  lemma {:induction false} SortPermutes(s: seq<Activity>)
    ensures multiset(SortByDateDesc(s)) == multiset(s)
    decreases |s|
  {
    if s != [] {
      SortPermutes(s[1..]);
      InsertPermutes(s[0], SortByDateDesc(s[1..]));
      assert s == [s[0]] + s[1..];
    }
  }

  /** The sort returns its input most recent first. */
  lemma {:induction false} SortSorts(s: seq<Activity>)
    ensures SortedByDateDesc(SortByDateDesc(s))
    decreases |s|
  {
    if s != [] {
      SortSorts(s[1..]);
      InsertSorted(s[0], SortByDateDesc(s[1..]));
    }
  }

  lemma {:induction false} PublishedAtAppend(a: seq<Activity>, b: seq<Activity>, t: int)
    ensures PublishedAt(a + b, t) == PublishedAt(a, t) + PublishedAt(b, t)
    decreases |a|
  {
    if a != [] {
      assert (a + b)[1..] == a[1..] + b;
      PublishedAtAppend(a[1..], b, t);
    } else {
      assert a + b == b;
    }
  }

  lemma {:induction false} InsertStable(a: Activity, s: seq<Activity>, t: int)
    ensures PublishedAt(Insert(a, s), t) == (if a.published == t then [a] else []) + PublishedAt(s, t)
    decreases |s|
  {
    if s != [] && s[0].published > a.published {
      InsertStable(a, s[1..], t);
      PublishedAtAppend([s[0]], Insert(a, s[1..]), t);
    } else {
      PublishedAtAppend([a], s, t);
    }
  }

  /** The sort is stable: activities with the same date keep their input order. */
  lemma {:induction false} SortIsStable(s: seq<Activity>, t: int)
    ensures PublishedAt(SortByDateDesc(s), t) == PublishedAt(s, t)
    decreases |s|
  {
    if s != [] {
      SortIsStable(s[1..], t);
      InsertStable(s[0], SortByDateDesc(s[1..]), t);
    }
  }

  /** In a list sorted most recent first, nothing after position `k` is
      more recent than anything before it. */
  lemma SortedSplit(s: seq<Activity>, k: nat)
    requires SortedByDateDesc(s) && k <= |s|
    ensures forall a: Activity, b: Activity :: a in s[..k] && b in multiset(s[k..]) ==> a.published >= b.published
  {
    forall a: Activity, b: Activity | a in s[..k] && b in multiset(s[k..]) ensures a.published >= b.published {
      var i :| 0 <= i < k && s[..k][i] == a;
      assert b in s[k..];
      var j :| 0 <= j < |s| - k && s[k..][j] == b;
      assert s[i] == a && s[k + j] == b;
    }
  }

  /** What a prefix leaves of a list's multiset is the multiset of the rest. */
  lemma PrefixRemainder(s: seq<Activity>, k: nat)
    requires k <= |s|
    ensures multiset(s[..k]) <= multiset(s)
    ensures multiset(s) - multiset(s[..k]) == multiset(s[k..])
  {
    assert s == s[..k] + s[k..];
  }

  /** Sorting then cutting to `n` keeps `min(|s|, n)` activities of `s`,
      most recent first, and no activity left out is more recent than one
      kept. */
  lemma SortAndTake(s: seq<Activity>, n: nat)
    ensures var r := Take(SortByDateDesc(s), n);
      |r| == (if |s| < n then |s| else n)
      && SortedByDateDesc(r)
      && multiset(r) <= multiset(s)
      && forall a: Activity, b: Activity :: a in r && b in multiset(s) - multiset(r) ==> a.published >= b.published
  {
    SortPermutes(s);
    SortSorts(s);
    assert |SortByDateDesc(s)| == |multiset(SortByDateDesc(s))| == |s|;
    PrefixKeepsTop(s, SortByDateDesc(s), Take(SortByDateDesc(s), n));
  }

  /** A prefix of a sorted permutation of `s` is sorted, is drawn from `s`,
      and holds the most recent of its activities. */
  lemma PrefixKeepsTop(s: seq<Activity>, sorted: seq<Activity>, r: seq<Activity>)
    requires SortedByDateDesc(sorted) && multiset(sorted) == multiset(s)
    requires |r| <= |sorted| && r == sorted[..|r|]
    ensures SortedByDateDesc(r) && multiset(r) <= multiset(s)
    ensures forall a: Activity, b: Activity :: a in r && b in multiset(s) - multiset(r) ==> a.published >= b.published
  {
    PrefixRemainder(sorted, |r|);
    SortedSplit(sorted, |r|);
  }

  /** Among activities with the same date, the ones kept are the first of
      them in the input order. */
  lemma SortAndTakeStable(s: seq<Activity>, n: nat, t: int)
    ensures PublishedAt(Take(SortByDateDesc(s), n), t) <= PublishedAt(s, t)
  {
    var sorted := SortByDateDesc(s);
    var r := Take(sorted, n);
    assert sorted == r + sorted[|r|..];
    PublishedAtAppend(r, sorted[|r|..], t);
    SortIsStable(s, t);
  }
}
