/**
 * The Grouping Engine: repositories are partitioned into buckets keyed by
 * language, with special "Other" and "Forks" buckets.
 */
module Grouping {
  import opened Wrappers
  import opened GitHub

  /** Bucket name to the repositories pushed to it, in push order. */
  type LanguageGroups = map<string, seq<Repository>>

  const ForksKey: string := "Forks"
  const OtherKey: string := "Other"

  /**
   * The bucket the loop pushes a repository to. The key is the raw language
   * string, so a non-fork whose language is literally "Forks" or "Other"
   * shares that special bucket.
   */
  function BucketKey(r: Repository): (k: string)
    ensures k != ""
    ensures k == ForksKey <==> r.isFork || r.language == Some(ForksKey)
    ensures k == OtherKey <==> !r.isFork && (!Truthy(r.language) || r.language == Some(OtherKey))
  {
    if r.isFork then ForksKey
    else if Truthy(r.language) then r.language.value
    else OtherKey
  }

  /** The repositories of `repos` whose bucket is `key`, in input order. */
  function Bucket(repos: seq<Repository>, key: string): seq<Repository> {
    if repos == [] then []
    else
      var last := repos[|repos| - 1];
      Bucket(repos[..|repos| - 1], key) + (if BucketKey(last) == key then [last] else [])
  }

  /** The indices of `repos` whose bucket is `key`, ascending. */
  function Positions(repos: seq<Repository>, key: string): seq<nat> {
    if repos == [] then []
    else
      var n := |repos| - 1;
      Positions(repos[..n], key) + (if BucketKey(repos[n]) == key then [n] else [])
  }

  function BucketKeys(repos: seq<Repository>): set<string> {
    set r | r in repos :: BucketKey(r)
  }

  /** The groups `groupByLanguages` returns for `repos`. */
  function Grouped(repos: seq<Repository>): LanguageGroups {
    map k | k in BucketKeys(repos) :: Bucket(repos, k)
  }

  /** `groups` after pushing `r` onto bucket `k`, creating the bucket if it is missing. */
  function Push(groups: LanguageGroups, k: string, r: Repository): LanguageGroups {
    groups[k := (if k in groups then groups[k] else []) + [r]]
  }

  /** The loop's state after a prefix: the groups of the prefix, with "Forks" present even when empty. */
  function WithForks(repos: seq<Repository>): LanguageGroups {
    Grouped(repos)[ForksKey := Bucket(repos, ForksKey)]
  }

  /** `groupByLanguages`: "Forks" is created first, other buckets on first push, and an empty "Forks" is deleted at the end. */
  method GroupByLanguages(repos: seq<Repository>) returns (languages: LanguageGroups)
    ensures languages == Grouped(repos)
  {
    languages := map[ForksKey := []];
    assert repos[..0] == [];
    WithForksStart();
    for i := 0 to |repos|
      invariant languages == WithForks(repos[..i])
    {
      WithForksFinish(repos[..i]);
      languages := AddRepository(languages, repos[i]);
      WithForksStep(repos, i);
    }
    assert repos[..|repos|] == repos;
    WithForksFinish(repos);
    if |languages[ForksKey]| == 0 {
      languages := languages - {ForksKey};
    }
  }

  /**
   * The body of the loop of `groupByLanguages`: a fork goes onto "Forks",
   * any other repository onto its language's bucket, created if missing.
   */
  method AddRepository(languages: LanguageGroups, repo: Repository) returns (updated: LanguageGroups)
    requires ForksKey in languages
    ensures updated == Push(languages, BucketKey(repo), repo)
  {
    if repo.isFork {
      return languages[ForksKey := languages[ForksKey] + [repo]];
    }
    var lang := if Truthy(repo.language) then repo.language.value else OtherKey;
    updated := languages;
    if lang !in updated {
      updated := updated[lang := []];
    }
    updated := updated[lang := updated[lang] + [repo]];
    LazyPush(languages, lang, repo);
  }

  /** Creating a missing bucket and then appending to it is a push. */
  lemma LazyPush(g: LanguageGroups, k: string, r: Repository)
    ensures var h := if k in g then g else g[k := []];
      h[k := h[k] + [r]] == Push(g, k, r)
  {
  }

  /** Before the loop only "Forks" is present, and empty. */
  lemma WithForksStart()
    ensures WithForks([]) == map[ForksKey := []]
  {
    assert Grouped([]) == map[];
  }

  /** Deleting an empty "Forks" from the loop's final state gives the groups. */
  lemma WithForksFinish(repos: seq<Repository>)
    ensures ForksKey in WithForks(repos)
    ensures |WithForks(repos)[ForksKey]| == 0 ==> WithForks(repos) - {ForksKey} == Grouped(repos)
    ensures |WithForks(repos)[ForksKey]| != 0 ==> WithForks(repos) == Grouped(repos)
  {
    BucketEmpty(repos, ForksKey);
  }

  lemma WithForksSnoc(repos: seq<Repository>, r: Repository)
    ensures WithForks(repos + [r]) == Push(WithForks(repos), BucketKey(r), r)
  {
    GroupedSnoc(repos, r);
    BucketSnoc(repos, r, ForksKey);
    var g, k, bf := Grouped(repos), BucketKey(r), Bucket(repos, ForksKey);
    PushThenSet(g, k, r, ForksKey, bf);
  }

  lemma WithForksStep(repos: seq<Repository>, i: nat)
    requires i < |repos|
    ensures WithForks(repos[..i + 1]) == Push(WithForks(repos[..i]), BucketKey(repos[i]), repos[i])
  {
    assert repos[..i + 1] == repos[..i] + [repos[i]];
    WithForksSnoc(repos[..i], repos[i]);
  }

  /** Setting bucket `f` after a push to `k` is the push after setting `f`, with the push's effect on `f`. */
  lemma PushThenSet(g: LanguageGroups, k: string, r: Repository, f: string, bf: seq<Repository>)
    ensures Push(g, k, r)[f := bf + (if k == f then [r] else [])] == Push(g[f := bf], k, r)
  {
    var lhs, rhs := Push(g, k, r)[f := bf + (if k == f then [r] else [])], Push(g[f := bf], k, r);
    if k == f {
      assert lhs == g[f := bf + [r]] == rhs;
    } else {
      assert lhs.Keys == rhs.Keys;
      forall x | x in lhs ensures lhs[x] == rhs[x] {
      }
    }
  }

  lemma {:induction false} BucketSnoc(repos: seq<Repository>, r: Repository, key: string)
    ensures Bucket(repos + [r], key) == Bucket(repos, key) + (if BucketKey(r) == key then [r] else [])
  {
    assert (repos + [r])[..|repos|] == repos;
  }

  /** Pushing one more repository extends exactly its own bucket. */
  lemma GroupedSnoc(repos: seq<Repository>, r: Repository)
    ensures Grouped(repos + [r]) == Push(Grouped(repos), BucketKey(r), r)
  {
    var g, k := Grouped(repos), BucketKey(r);
    var g' := Grouped(repos + [r]);
    assert BucketKeys(repos + [r]) == BucketKeys(repos) + {k} by {
      assert forall x :: x in repos + [r] <==> x in repos || x == r;
    }
    forall key | key in g'
      ensures g'[key] == Push(g, k, r)[key]
    {
      BucketSnoc(repos, r, key);
      if key !in g { BucketEmpty(repos, key); }
    }
  }

  /** A bucket is empty exactly when no repository is routed to its key. */
  lemma {:induction false} BucketEmpty(repos: seq<Repository>, key: string)
    ensures Bucket(repos, key) == [] <==> key !in BucketKeys(repos)
  {
    if repos != [] {
      var n := |repos| - 1;
      assert repos == repos[..n] + [repos[n]];
      BucketEmpty(repos[..n], key);
      assert BucketKeys(repos) == BucketKeys(repos[..n]) + {BucketKey(repos[n])} by {
        assert forall x :: x in repos <==> x in repos[..n] || x == repos[n];
      }
    }
  }

  /** The positions routed to `key` are ascending indices of `repos`, and every index routed there is among them. */
  lemma {:induction false} PositionsAscending(repos: seq<Repository>, key: string)
    ensures var p := Positions(repos, key);
      && (forall j :: 0 <= j < |p| ==> p[j] < |repos|)
      && (forall j, j' :: 0 <= j < j' < |p| ==> p[j] < p[j'])
      && (forall i :: 0 <= i < |repos| ==> (i in p <==> BucketKey(repos[i]) == key))
  {
    if repos != [] {
      var n := |repos| - 1;
      var init := repos[..n];
      PositionsAscending(init, key);
      var p0 := Positions(init, key);
      assert forall i :: 0 <= i < n ==> init[i] == repos[i];
      if BucketKey(repos[n]) == key {
        assert Positions(repos, key) == p0 + [n];
      } else {
        assert Positions(repos, key) == p0;
      }
    }
  }

  /** The j-th entry of bucket `key` is the input at the j-th position routed to `key`. */
  lemma {:induction false} BucketAtPositions(repos: seq<Repository>, key: string)
    ensures var b, p := Bucket(repos, key), Positions(repos, key);
      |b| == |p| && forall j :: 0 <= j < |p| ==> p[j] < |repos| && b[j] == repos[p[j]]
  {
    if repos != [] {
      var n := |repos| - 1;
      var init := repos[..n];
      BucketAtPositions(init, key);
      var b0, p0 := Bucket(init, key), Positions(init, key);
      if BucketKey(repos[n]) == key {
        var b, p := Bucket(repos, key), Positions(repos, key);
        assert b == b0 + [repos[n]] && p == p0 + [n];
        forall j | 0 <= j < |p| ensures p[j] < |repos| && b[j] == repos[p[j]] {
          if j < |p0| {
            assert b[j] == b0[j] == init[p0[j]];
          }
        }
      } else {
        assert Bucket(repos, key) == b0 && Positions(repos, key) == p0;
        forall j | 0 <= j < |p0| ensures p0[j] < |repos| && b0[j] == repos[p0[j]] {
          assert b0[j] == init[p0[j]];
        }
      }
    }
  }

  /** Bucket `key` is `repos` restricted to the indices routed to `key`, in ascending order. */
  lemma BucketIsOrderedSelection(repos: seq<Repository>, key: string)
    ensures var b, p := Bucket(repos, key), Positions(repos, key);
      && |b| == |p|
      && (forall j :: 0 <= j < |p| ==> p[j] < |repos| && b[j] == repos[p[j]])
      && (forall j, j' :: 0 <= j < j' < |p| ==> p[j] < p[j'])
      && (forall i :: 0 <= i < |repos| ==> (i in p <==> BucketKey(repos[i]) == key))
  {
    PositionsAscending(repos, key);
    BucketAtPositions(repos, key);
  }

  /** Every element of a bucket is an input repository routed to that bucket, and conversely. */
  lemma {:induction false} BucketMembers(repos: seq<Repository>, key: string, r: Repository)
    ensures r in Bucket(repos, key) <==> r in repos && BucketKey(r) == key
  {
    if repos != [] {
      var n := |repos| - 1;
      assert repos == repos[..n] + [repos[n]];
      BucketMembers(repos[..n], key, r);
    }
  }

  /** The keys of the groups are exactly the buckets some repository was pushed to; none is empty. */
  lemma GroupedKeys(repos: seq<Repository>)
    ensures forall k :: k in Grouped(repos) <==> exists i :: 0 <= i < |repos| && BucketKey(repos[i]) == k
    ensures forall k :: k in Grouped(repos) ==> Grouped(repos)[k] != []
  {
    forall k | k in Grouped(repos) ensures Grouped(repos)[k] != [] {
      BucketEmpty(repos, k);
    }
  }

  /** Every fork lands in "Forks" whatever its language, and in no other bucket. */
  lemma ForksRouting(repos: seq<Repository>, i: nat)
    requires i < |repos| && repos[i].isFork
    ensures ForksKey in Grouped(repos) && repos[i] in Grouped(repos)[ForksKey]
    ensures forall k :: k in Grouped(repos) && repos[i] in Grouped(repos)[k] ==> k == ForksKey
  {
    BucketMembers(repos, ForksKey, repos[i]);
    forall k | k in Grouped(repos) && repos[i] in Grouped(repos)[k] ensures k == ForksKey {
      BucketMembers(repos, k, repos[i]);
    }
  }

  /** "Forks" is present exactly when some repository was pushed to it, so never with an empty sequence. */
  lemma ForksPresence(repos: seq<Repository>)
    ensures ForksKey in Grouped(repos) <==>
      exists i :: 0 <= i < |repos| && (repos[i].isFork || repos[i].language == Some(ForksKey))
    ensures ForksKey in Grouped(repos) ==> |Grouped(repos)[ForksKey]| > 0
  {
    GroupedKeys(repos);
  }

  /** A non-fork goes to its language when that is truthy, and to "Other" when it is null or empty. */
  lemma NonForkRouting(repos: seq<Repository>, i: nat)
    requires i < |repos| && !repos[i].isFork
    ensures Truthy(repos[i].language) ==>
      repos[i].language.value in Grouped(repos) && repos[i] in Grouped(repos)[repos[i].language.value]
    ensures !Truthy(repos[i].language) ==>
      OtherKey in Grouped(repos) && repos[i] in Grouped(repos)[OtherKey]
  {
    BucketMembers(repos, BucketKey(repos[i]), repos[i]);
  }

  /** All entries of all buckets, counted with multiplicity. */
  ghost function Pooled(g: LanguageGroups): multiset<Repository>
    decreases |g|
  {
    if g == map[] then multiset{}
    else
      var k :| k in g;
      assert |g - {k}| < |g| by { assert (g - {k}).Keys == g.Keys - {k}; }
      multiset(g[k]) + Pooled(g - {k})
  }

  /** The sum of the bucket sizes. */
  ghost function TotalSize(g: LanguageGroups): nat
    decreases |g|
  {
    if g == map[] then 0
    else
      var k :| k in g;
      assert |g - {k}| < |g| by { assert (g - {k}).Keys == g.Keys - {k}; }
      |g[k]| + TotalSize(g - {k})
  }

  /** Removing two keys in either order gives the same map, one key smaller each time. */
  lemma RemoveTwice(g: LanguageGroups, a: string, b: string)
    requires a in g && b in g && a != b
    ensures b in g - {a} && a in g - {b}
    ensures |g - {a}| < |g| && |g - {b}| < |g|
    ensures (g - {a}) - {b} == (g - {b}) - {a}
  {
    assert (g - {a}).Keys == g.Keys - {a};
    assert (g - {b}).Keys == g.Keys - {b};
  }

  lemma {:induction false} PooledRemove(g: LanguageGroups, k: string)
    requires k in g
    ensures Pooled(g) == multiset(g[k]) + Pooled(g - {k})
    decreases |g|
  {
    var k1 :| k1 in g && Pooled(g) == multiset(g[k1]) + Pooled(g - {k1});
    if k1 != k {
      var g1, g0 := g - {k1}, g - {k};
      RemoveTwice(g, k1, k);
      PooledRemove(g1, k);
      PooledRemove(g0, k1);
    }
  }

  lemma {:induction false} TotalSizeRemove(g: LanguageGroups, k: string)
    requires k in g
    ensures TotalSize(g) == |g[k]| + TotalSize(g - {k})
    decreases |g|
  {
    var k1 :| k1 in g && TotalSize(g) == |g[k1]| + TotalSize(g - {k1});
    if k1 != k {
      var g1, g0 := g - {k1}, g - {k};
      RemoveTwice(g, k1, k);
      TotalSizeRemove(g1, k);
      TotalSizeRemove(g0, k1);
    }
  }

  /** Appending `r` to bucket `k` (creating it if need be) adds `r` once to the pool. */
  lemma PushPooled(g: LanguageGroups, k: string, r: Repository)
    ensures Pooled(Push(g, k, r)) == Pooled(g) + multiset{r}
  {
    var g', rest := Push(g, k, r), g - {k};
    var before := if k in g then g[k] else [];
    assert g'[k] == before + [r];
    assert multiset(g'[k]) == multiset(before) + multiset{r};
    assert g' - {k} == rest;
    PooledRemove(g', k);
    if k in g {
      PooledRemove(g, k);
    } else {
      assert rest == g;
    }
  }

  /** Appending to a bucket adds one to the total size. */
  lemma PushTotalSize(g: LanguageGroups, k: string, r: Repository)
    ensures TotalSize(Push(g, k, r)) == TotalSize(g) + 1
  {
    var g', rest := Push(g, k, r), g - {k};
    var before := if k in g then g[k] else [];
    assert g'[k] == before + [r];
    assert g' - {k} == rest;
    TotalSizeRemove(g', k);
    if k in g {
      TotalSizeRemove(g, k);
    } else {
      assert rest == g;
    }
  }

  /**
   * Grouping is a partition: the buckets together hold every input
   * repository exactly as often as the input does, and their sizes sum to
   * the input length.
   */
  lemma {:induction false} GroupedIsPartition(repos: seq<Repository>)
    ensures Pooled(Grouped(repos)) == multiset(repos)
    ensures TotalSize(Grouped(repos)) == |repos|
  {
    if repos == [] {
      assert Grouped(repos) == map[];
    } else {
      var n := |repos| - 1;
      var init, r := repos[..n], repos[n];
      assert repos == init + [r];
      GroupedIsPartition(init);
      GroupedSnoc(init, r);
      PushPooled(Grouped(init), BucketKey(r), r);
      PushTotalSize(Grouped(init), BucketKey(r), r);
    }
  }
}
