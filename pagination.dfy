/**
 * The Pagination Driver. The HTTP call for one page is an oracle `fetch`
 * from a page index to the page's records or the failure's message; the
 * pause between requests is recorded as a `Sleep` event in a trace.
 */
module Pagination {
  import opened Wrappers
  import opened GitHub

  /** The `per_page` query parameter. */
  const PerPage: int := 100

  /** What the driver does, in order: HTTP requests and pauses of 1000 ms. */
  datatype Event = ProfileRequest | PageRequest(page: int) | Sleep

  /** Errors thrown by the data acquisition pipeline. */
  datatype Error =
    | ProfileFetchFailed(cause: string)  // checkUser's wrapped error
    | PageFetchFailed(cause: string)     // getRepos's wrapped error
    | NoPublicRepos                      // getGithubRepoData's guard

  type PageFetcher = nat -> Result<seq<RawRepository>, string>

  /** `Math.ceil(publicRepos / 100)` for an integer count. */
  function PageCount(publicRepos: int): int {
    (publicRepos + PerPage - 1) / PerPage
  }

  /** The first page among 1..k whose fetch fails, if any. */
  function FirstFailure(fetch: PageFetcher, k: int): (r: Option<nat>)
    ensures r == None <==> forall p: nat :: 1 <= p <= k ==> fetch(p).Success?
    ensures r.Some? ==>
      && 1 <= r.value <= k && fetch(r.value).Failure?
      && forall p: nat :: 1 <= p < r.value ==> fetch(p).Success?
    decreases k
  {
    if k <= 0 then None
    else match FirstFailure(fetch, k - 1)
      case Some(f) => Some(f)
      case None => if fetch(k).Failure? then Some(k) else None
  }

  /** The records of pages 1..k appended in page order (a failed page contributes nothing). */
  function Joined(fetch: PageFetcher, k: int): seq<RawRepository>
    decreases k
  {
    if k <= 0 then []
    else Joined(fetch, k - 1) + (if fetch(k).Success? then fetch(k).value else [])
  }

  /** The events of requesting pages 1..k of `pages` successfully: a pause after each page but the last. */
  function Schedule(k: int, pages: int): seq<Event>
    decreases k
  {
    if k <= 0 then []
    else Schedule(k - 1, pages) + [PageRequest(k)] + (if k < pages then [Sleep] else [])
  }

  /**
   * `getAllRepos`: requests pages 1..ceil(publicRepos / 100) in order, appends
   * each page, pauses between pages, and stops at the first failure.
   */
  method GetAllRepos(fetch: PageFetcher, publicRepos: int)
    returns (result: Result<seq<RawRepository>, Error>, trace: seq<Event>)
    ensures var pages := PageCount(publicRepos);
      match FirstFailure(fetch, pages)
      case None =>
        result == Success(Joined(fetch, pages)) && trace == Schedule(pages, pages)
      case Some(f) =>
        && result == Failure(PageFetchFailed(fetch(f).error))
        && trace == Schedule(f - 1, pages) + [PageRequest(f)]
  {
    var pages := PageCount(publicRepos);
    var allRepos: seq<RawRepository> := [];
    trace := [];
    var page := 1;
    while page <= pages
      invariant 1 <= page <= (if pages < 1 then 1 else pages + 1)
      invariant FirstFailure(fetch, page - 1) == None
      invariant allRepos == Joined(fetch, page - 1)
      invariant trace == Schedule(page - 1, pages)
    {
      trace := trace + [PageRequest(page)];
      var repos := fetch(page);
      if repos.Failure? {
        FirstFailureStaysAt(fetch, page, pages);
        return Failure(PageFetchFailed(repos.error)), trace;
      }
      allRepos := allRepos + repos.value;
      if page < pages {
        trace := trace + [Sleep];
      }
      page := page + 1;
    }
    result := Success(allRepos);
  }

  /** Once page f fails, it stays the first failure of every longer range. */
  lemma {:induction false} FirstFailureStaysAt(fetch: PageFetcher, f: nat, k: int)
    requires 1 <= f <= k && FirstFailure(fetch, f) == Some(f)
    ensures FirstFailure(fetch, k) == Some(f)
    decreases k
  {
    if k > f {
      FirstFailureStaysAt(fetch, f, k - 1);
    }
  }

  /** The page count is the ceiling of count / 100; no pages at all for a count of zero or less. */
  lemma PageCountIsCeiling(publicRepos: int)
    ensures publicRepos > 0 ==> PerPage * (PageCount(publicRepos) - 1) < publicRepos <= PerPage * PageCount(publicRepos)
    ensures publicRepos <= 0 ==> PageCount(publicRepos) <= 0
    ensures PageCount(publicRepos) >= 0 <==> publicRepos > -PerPage
  {
    var q, r := (publicRepos + 99) / 100, (publicRepos + 99) % 100;
    assert publicRepos + 99 == 100 * q + r && 0 <= r < 100;
  }

  /**
   * The schedule in closed form: the requests for pages 1..k at the even
   * positions and a pause at every odd one; only a run that reaches the last
   * page ends without a pause.
   */
  lemma {:induction false} ScheduleShape(k: int, pages: int)
    requires 0 <= k <= pages
    ensures var s := Schedule(k, pages);
      && |s| == (if k == pages && k > 0 then 2 * k - 1 else 2 * k)
      && forall i :: 0 <= i < |s| ==> s[i] == if i % 2 == 0 then PageRequest(i / 2 + 1) else Sleep
    decreases k
  {
    if k > 0 {
      ScheduleShape(k - 1, pages);
    }
  }

  /** The pages a trace requests, in order. */
  function Requested(trace: seq<Event>): seq<int> {
    if trace == [] then []
    else Requested(trace[..|trace| - 1]) + (if trace[|trace| - 1].PageRequest? then [trace[|trace| - 1].page] else [])
  }

  /** The number of pauses in a trace. */
  function Sleeps(trace: seq<Event>): nat {
    if trace == [] then 0
    else Sleeps(trace[..|trace| - 1]) + (if trace[|trace| - 1] == Sleep then 1 else 0)
  }

  lemma {:induction false} RequestedSleepsAppend(a: seq<Event>, b: seq<Event>)
    ensures Requested(a + b) == Requested(a) + Requested(b)
    ensures Sleeps(a + b) == Sleeps(a) + Sleeps(b)
    decreases |b|
  {
    if b == [] {
      assert a + b == a;
    } else {
      var n := |b| - 1;
      assert a + b == (a + b[..n]) + [b[n]];
      assert (a + b)[..|a + b| - 1] == a + b[..n];
      RequestedSleepsAppend(a, b[..n]);
    }
  }

  /** One page's events: its request, then a pause unless it is the last page. */
  lemma StepEvents(k: int, pages: int)
    ensures var step := [PageRequest(k)] + (if k < pages then [Sleep] else []);
      Requested(step) == [k] && Sleeps(step) == if k < pages then 1 else 0
  {
    var step := [PageRequest(k)] + (if k < pages then [Sleep] else []);
    assert [PageRequest(k)][..0] == [];
    assert Requested([PageRequest(k)]) == [k];
    assert Sleeps([PageRequest(k)]) == 0;
    if k < pages {
      assert step[..1] == [PageRequest(k)];
    }
  }

  /** A run of k pages requests exactly the pages 1, 2, ..., k, in increasing order. */
  lemma {:induction false} ScheduleRequests(k: int, pages: int)
    ensures var r := Requested(Schedule(k, pages));
      |r| == (if k < 0 then 0 else k) && forall i :: 0 <= i < |r| ==> r[i] == i + 1
    decreases k
  {
    if k > 0 {
      ScheduleRequests(k - 1, pages);
      ScheduleStep(k, pages);
      var r0, r := Requested(Schedule(k - 1, pages)), Requested(Schedule(k, pages));
      assert r == r0 + [k];
      forall i | 0 <= i < |r| ensures r[i] == i + 1 {
        if i < |r0| { assert r[i] == r0[i]; }
      }
    }
  }

  lemma ScheduleStep(k: int, pages: int)
    requires k > 0
    ensures Requested(Schedule(k, pages)) == Requested(Schedule(k - 1, pages)) + [k]
    ensures Sleeps(Schedule(k, pages)) == Sleeps(Schedule(k - 1, pages)) + if k < pages then 1 else 0
  {
    var prev := Schedule(k - 1, pages);
    var step := [PageRequest(k)] + (if k < pages then [Sleep] else []);
    RequestedSleepsAppend(prev, step);
    assert Schedule(k, pages) == prev + step;
    StepEvents(k, pages);
  }

  /**
   * A run of k of the pages pauses after every page but the last page, so a
   * full run pauses max(pages - 1, 0) times and never after the last page.
   */
  lemma {:induction false} ScheduleSleeps(k: int, pages: int)
    requires k <= pages
    ensures Sleeps(Schedule(k, pages)) == if k <= 0 then 0 else if k < pages then k else k - 1
    ensures k > 0 ==> Schedule(k, pages)[|Schedule(k, pages)| - 1] == if k < pages then Sleep else PageRequest(k)
    decreases k
  {
    if k > 0 {
      ScheduleSleeps(k - 1, pages);
      ScheduleStep(k, pages);
    }
  }

  /** Pages 1..p of the result are a prefix of pages 1..k: pages are appended in order. */
  lemma {:induction false} JoinedPrefix(fetch: PageFetcher, p: int, k: int)
    requires p <= k
    ensures |Joined(fetch, p)| <= |Joined(fetch, k)|
    ensures Joined(fetch, k)[..|Joined(fetch, p)|] == Joined(fetch, p)
    decreases k - p
  {
    if p < k {
      JoinedPrefix(fetch, p, k - 1);
      if k > 0 {
        assert Joined(fetch, k)[..|Joined(fetch, k - 1)|] == Joined(fetch, k - 1);
      }
    }
  }

  /** The scenario of 150 public repositories: two requests with one pause between them. */
  lemma HundredFiftyRepositoriesTakeTwoPages()
    ensures PageCount(150) == 2
    ensures Schedule(PageCount(150), PageCount(150)) == [PageRequest(1), Sleep, PageRequest(2)]
  {
    assert Schedule(1, 2) == [PageRequest(1), Sleep];
  }
}
