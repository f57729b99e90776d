/**
 * `getGithubRepoData`: profile, empty-profile guard, pagination,
 * normalisation and grouping, composed into the aggregate result.
 */
module Pipeline {
  import opened Wrappers
  import opened GitHub
  import opened Grouping
  import opened Pagination

  /** The provider's payloads kept next to the simplified data. */
  datatype RawData = RawData(user: RawUser, repositories: seq<RawRepository>)

  /** The aggregate result that is exported and rendered. */
  datatype GithubRepoData = GithubRepoData(
    profile: Profile,
    repos: seq<Repository>,
    languageGroups: LanguageGroups,
    rawData: Option<RawData>)

  /** The aggregate built from a fetched user and the fetched repositories. */
  function Assemble(rawUser: RawUser, rawRepos: seq<RawRepository>): (d: GithubRepoData)
    ensures d.profile == SimplifyUserData(rawUser)
    ensures d.repos == SimplifyRepoData(rawRepos)
    ensures d.languageGroups == Grouped(d.repos)
    ensures d.rawData == Some(RawData(rawUser, rawRepos))
  {
    var repos := SimplifyRepoData(rawRepos);
    GithubRepoData(SimplifyUserData(rawUser), repos, Grouped(repos), Some(RawData(rawUser, rawRepos)))
  }

  /**
   * `getGithubRepoData`. `user` is what the profile request returned; the
   * page requests go to `fetch`. A profile with no public repositories is
   * refused before any page is requested.
   */
  method GetGithubRepoData(user: Result<RawUser, string>, fetch: PageFetcher)
    returns (result: Result<GithubRepoData, Error>, trace: seq<Event>)
    ensures |trace| >= 1 && trace[0] == ProfileRequest
    ensures user.Failure? ==> result == Failure(ProfileFetchFailed(user.error)) && trace == [ProfileRequest]
    ensures user.Success? && user.value.public_repos == 0 ==>
      result == Failure(NoPublicRepos) && trace == [ProfileRequest]
    ensures user.Success? && user.value.public_repos != 0 ==>
      var pages := PageCount(user.value.public_repos);
      match FirstFailure(fetch, pages)
      case None =>
        && result == Success(Assemble(user.value, Joined(fetch, pages)))
        && trace == [ProfileRequest] + Schedule(pages, pages)
      case Some(f) =>
        && result == Failure(PageFetchFailed(fetch(f).error))
        && trace == [ProfileRequest] + Schedule(f - 1, pages) + [PageRequest(f)]
  {
    trace := [ProfileRequest];
    if user.Failure? {
      return Failure(ProfileFetchFailed(user.error)), trace;
    }
    var rawUser := user.value;
    var profile := SimplifyUserData(rawUser);
    if profile.public_repos == 0 {
      return Failure(NoPublicRepos), trace;
    }
    var fetched, pageTrace := GetAllRepos(fetch, profile.public_repos);
    trace := trace + pageTrace;
    if fetched.Failure? {
      return Failure(fetched.error), trace;
    }
    var rawRepos := fetched.value;
    var repos := SimplifyRepoData(rawRepos);
    var languageGroups := GroupByLanguages(repos);
    result := Success(GithubRepoData(profile, repos, languageGroups, Some(RawData(rawUser, rawRepos))));
  }

  /**
   * The scenario of a user with 150 public repositories whose two pages hold
   * 100 and 50 records, the first record a fork and the first record of the
   * second page without a language: 150 repositories come back, all of them
   * in buckets, "Forks" holds exactly the fork and "Other" holds the record
   * without a language.
   */
  lemma HundredFiftyRepositories(rawUser: RawUser, fetch: PageFetcher)
    requires rawUser.public_repos == 150
    requires fetch(1).Success? && |fetch(1).value| == 100
    requires fetch(2).Success? && |fetch(2).value| == 50
    requires fetch(1).value[0].fork
    requires forall i :: 1 <= i < 100 ==> !fetch(1).value[i].fork && fetch(1).value[i].language != Some(ForksKey)
    requires forall i :: 0 <= i < 50 ==> !fetch(2).value[i].fork && fetch(2).value[i].language != Some(ForksKey)
    requires fetch(2).value[0].language == None
    ensures FirstFailure(fetch, PageCount(150)) == None
    ensures var d := Assemble(rawUser, Joined(fetch, PageCount(150)));
      && |d.repos| == 150 && TotalSize(d.languageGroups) == 150
      && ForksKey in d.languageGroups && d.languageGroups[ForksKey] == [SimplifyRepo(fetch(1).value[0])]
      && OtherKey in d.languageGroups && SimplifyRepo(fetch(2).value[0]) in d.languageGroups[OtherKey]
  {
    assert PageCount(150) == 2;
    var raw := Joined(fetch, 2);
    assert raw == fetch(1).value + fetch(2).value;
    var repos := SimplifyRepoData(raw);
    GroupedIsPartition(repos);
    OnlyFirstIsFork(raw, repos);
    NonForkRouting(repos, 100);
  }

  /** When only the first of any non-empty list of records routes to "Forks", that bucket is exactly the first repository. */
  lemma OnlyFirstIsFork(raw: seq<RawRepository>, repos: seq<Repository>)
    requires |raw| > 0 && repos == SimplifyRepoData(raw) && raw[0].fork
    requires forall i :: 1 <= i < |raw| ==> !raw[i].fork && raw[i].language != Some(ForksKey)
    ensures ForksKey in Grouped(repos) && Grouped(repos)[ForksKey] == [repos[0]]
  {
    BucketIsOrderedSelection(repos, ForksKey);
    ForksRouting(repos, 0);
    var p := Positions(repos, ForksKey);
    assert forall i :: 0 <= i < |repos| ==> (i in p <==> i == 0);
    assert 0 in p;
    var last := |p| - 1;
    assert p[last] in p;
    AscendingAtLeastIndex(p, last);
  }

  /** In a strictly ascending sequence of naturals, element j is at least j. */
  lemma {:induction false} AscendingAtLeastIndex(p: seq<nat>, j: nat)
    requires j < |p| && forall a, b :: 0 <= a < b < |p| ==> p[a] < p[b]
    ensures p[j] >= j
  {
    if j > 0 {
      AscendingAtLeastIndex(p, j - 1);
      assert p[j - 1] < p[j];
    }
  }
}
