/**
 * The provider's records (only the fields the program reads), the program's
 * simplified domain model, and the Normalizer that maps one to the other.
 */
module GitHub {
  import opened Wrappers

  /** A repository record as returned by the provider. */
  datatype RawRepository = RawRepository(
    name: string,
    language: Option<string>,
    description: Option<string>,
    full_name: string,
    fork: bool)

  /** A user record as returned by the provider; `public_repos` is a JSON number. */
  datatype RawUser = RawUser(login: string, name: Option<string>, public_repos: int)

  /** The simplified repository of the exported data. */
  datatype Repository = Repository(
    name: string,
    language: Option<string>,
    description: Option<string>,
    link: string,
    isFork: bool)

  /** The simplified user profile of the exported data. */
  datatype Profile = Profile(login: string, name: Option<string>, public_repos: int)

  const RepoUrlPrefix: string := "https://github.com/"

  /** The simplified form of one raw repository. */
  function SimplifyRepo(item: RawRepository): Repository {
    Repository(item.name, item.language, item.description, RepoUrlPrefix + item.full_name, item.fork)
  }

  /** `rawRepos.map(...)`: one simplified repository per raw one, in the same order. */
  function SimplifyRepoData(rawRepos: seq<RawRepository>): (repos: seq<Repository>)
    ensures |repos| == |rawRepos|
    ensures forall i :: 0 <= i < |rawRepos| ==>
      && repos[i].name == rawRepos[i].name
      && repos[i].language == rawRepos[i].language
      && repos[i].description == rawRepos[i].description
      && repos[i].link == RepoUrlPrefix + rawRepos[i].full_name
      && repos[i].isFork == rawRepos[i].fork
  {
    seq(|rawRepos|, i requires 0 <= i < |rawRepos| => SimplifyRepo(rawRepos[i]))
  }

  /** Normalising a concatenation of pages is the concatenation of the normalised pages. */
  lemma SimplifyRepoDataAppend(a: seq<RawRepository>, b: seq<RawRepository>)
    ensures SimplifyRepoData(a + b) == SimplifyRepoData(a) + SimplifyRepoData(b)
  {
    var l, r := SimplifyRepoData(a + b), SimplifyRepoData(a) + SimplifyRepoData(b);
    assert |l| == |r|;
    forall i | 0 <= i < |l| ensures l[i] == r[i] {
      if i < |a| {
        assert (a + b)[i] == a[i];
      } else {
        assert (a + b)[i] == b[i - |a|];
      }
    }
  }

  /** The simplified profile: a projection of three fields, with no validation. */
  function SimplifyUserData(rawUser: RawUser): (p: Profile)
    ensures p.login == rawUser.login && p.name == rawUser.name
    ensures p.public_repos == rawUser.public_repos
  {
    Profile(rawUser.login, rawUser.name, rawUser.public_repos)
  }
}
