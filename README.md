# gh-repo-export, modelled in Dafny

gh-repo-export exports a GitHub user's public repositories to a JSON file and
an HTML page. This project models the data pipeline of `src/index.ts`:

- **Normalisation** (`GitHub`): the raw API records become simplified
  repositories and a profile.
- **Grouping** (`Grouping`): `groupByLanguages` sorts repositories into
  language buckets, with `"Forks"` and `"Other"` as special keys. It is a
  method over a map, proved against the reference function `Grouped`.
- **Pagination** (`Pagination`, `Pipeline`): `getAllRepos` requests pages of
  100 records and pauses between them. `getGithubRepoData` refuses a profile
  without public repositories. The HTTP calls are oracles, and every request
  and pause is recorded in an event trace.
- **Rendering** (`Render`, with `Sorting`): `generateHtml` writes the section
  order, the headings, the per-repository items and the description spans. It
  sorts each group by name in place. The comparator `localeCompare` is an
  abstract total preorder. `Array.prototype.sort` is modelled by a stable
  insertion sort, which `Sorting.SortByIsTheStableSort` shows to be the only
  possible result of any stable sort.
- **Export paths** (`Export`): deriving the JSON path from the HTML path.

Every file is one module: `wrappers.dfy`, `github.dfy`, `sorting.dfy`,
`grouping.dfy`, `pagination.dfy`, `pipeline.dfy`, `render.dfy` and `export.dfy`.

## Model

| member | source | states |
|---|---|---|
| GitHub.SimplifyRepo | src/index.ts:104-110 | Defines one normalised repository: the raw name, language and description, the link `https://github.com/` followed by the full name, and the fork flag as `isFork`. |
| GitHub.SimplifyRepoData | src/index.ts:103-111 | The result has the input's length and order. Element i has input i's name, language and description, `link == "https://github.com/" + full_name` and `isFork == fork`. |
| GitHub.SimplifyRepoDataAppend | src/index.ts:103-111 | Normalising a concatenation of pages is the concatenation of the normalised pages. |
| GitHub.SimplifyUserData | src/index.ts:118-124 | The profile carries the user's login, name and public repository count. |
| Grouping.BucketKey | src/index.ts:139-151 | The key a repository is pushed to. It is never empty. It is "Forks" exactly when the repository is a fork or its language is the string "Forks". It is "Other" exactly when a non-fork has no non-empty language or has the language "Other". |
| Grouping.Bucket | src/index.ts:137-151 | Defines the contents of one bucket: the input repositories routed to its key, in the order they are pushed. |
| Grouping.Push | src/index.ts:147-151 | Defines one push: create the bucket as empty when its key is missing, then append the repository to it. The other buckets stay as they are. |
| Grouping.Grouped | src/index.ts:131-160 | The reference result of `groupByLanguages`: one bucket per routed key, each holding that key's repositories in input order. The lemmas below state its properties. |
| Grouping.GroupByLanguages | src/index.ts:131-160 | The imperative loop creates "Forks" up front, pushes each fork there, creates other buckets on their first push and deletes an empty "Forks" at the end. It returns exactly `Grouped(repos)`. |
| Grouping.AddRepository | src/index.ts:137-152 | One pass of the loop body pushes the repository onto its routing bucket, creating that bucket if it is missing, and leaves the other buckets unchanged. |
| Grouping.GroupedIsPartition | src/index.ts:131-160 | Taken together, the buckets hold exactly the input repositories as a multiset, and their sizes add up to the input length. |
| Grouping.GroupedKeys | src/index.ts:147-151 | A key is present exactly when some repository is routed to it, and no returned bucket is empty. |
| Grouping.BucketMembers | src/index.ts:137-152 | A repository is in bucket k exactly when it is an input whose routing key is k. |
| Grouping.BucketEmpty | src/index.ts:147-157 | A bucket is empty exactly when its key is not among the routed keys. |
| Grouping.BucketIsOrderedSelection | src/index.ts:137-151 | Each bucket is the subsequence of the input at strictly increasing positions, so relative input order is kept. |
| Grouping.PositionsAscending | src/index.ts:137-151 | The positions routed to a key are in range and strictly increasing. They are exactly the inputs whose routing key is that key. |
| Grouping.BucketAtPositions | src/index.ts:137-151 | Element j of a bucket is the input at the j-th position routed to its key. |
| Grouping.PushPooled | src/index.ts:137-151 | A push adds exactly the pushed repository to the pooled multiset of all buckets. |
| Grouping.PushTotalSize | src/index.ts:137-151 | A push increases the total size of all buckets by one. |
| Grouping.ForksRouting | src/index.ts:139-142 | A fork is in "Forks", whatever its language, and in no other bucket. |
| Grouping.ForksPresence | src/index.ts:135-157 | "Forks" is present exactly when some input is a fork or a non-fork whose language is the string "Forks", and then its bucket is non-empty. |
| Grouping.NonForkRouting | src/index.ts:145-151 | A non-fork goes to its language when that is a non-empty string, otherwise to "Other". A language spelled "Forks" or "Other" shares that bucket. |
| Grouping.GroupedSnoc | src/index.ts:137-152 | One more repository pushes it onto its own bucket, creating the bucket if needed. |
| Grouping.WithForksFinish | src/index.ts:155-157 | After the loop "Forks" is present. Deleting it when empty, and keeping it otherwise, gives `Grouped`. |
| Pagination.PageCount | src/index.ts:83 | Defines the number of pages as the integer ceiling of the count divided by 100. `Pagination.PageCountIsCeiling` states its bounds. |
| Pagination.Joined | src/index.ts:86-88 | Defines the records of pages 1..k, each page's records appended after those of the pages before it. |
| Pagination.Schedule | src/index.ts:86-92 | Defines the trace of a successful run over pages 1..k: each page is requested in turn, and a pause follows each page below the page count. |
| Pagination.FirstFailure | src/index.ts:86-88 | None exactly when pages 1..k all succeed. Otherwise it is the least failing page in 1..k. |
| Pagination.PageCountIsCeiling | src/index.ts:83 | For a positive count n, `100 * (pages - 1) < n <= 100 * pages`. A non-positive count gives no pages. |
| Pagination.GetAllRepos | src/index.ts:82-96 | If every page succeeds, the result is pages 1..pages concatenated in order, and the trace is `Schedule(pages, pages)`. Otherwise it fails with the first failing page's error, and the trace stops right after requesting that page. |
| Pagination.ScheduleShape | src/index.ts:86-92 | Request and pause events alternate in the trace, with page numbers 1..k in increasing order. |
| Pagination.ScheduleRequests | src/index.ts:86-92 | The pages requested in a run of k pages are exactly 1,…,k, in increasing order. |
| Pagination.ScheduleSleeps | src/index.ts:86-92 | A pause follows every page but the last one. A full run of `pages` pages pauses `pages - 1` times and ends with the last request, never a pause. |
| Pagination.ScheduleStep | src/index.ts:86-92 | Page k adds request k to the trace's requests, and one pause when k is not the last page. |
| Pagination.RequestedSleepsAppend | src/index.ts:86-92 | Requests and pause counts distribute over trace concatenation. |
| Pagination.JoinedPrefix | src/index.ts:88 | The records of the first p pages are a prefix of the records of the first k pages (p <= k). |
| Pagination.FirstFailureStaysAt | src/index.ts:86-88 | A page that is the first failure of 1..f remains the first failure of every longer range. |
| Pagination.HundredFiftyRepositoriesTakeTwoPages | src/index.ts:83-92 | 150 repositories give two pages, with the trace request 1, pause, request 2. |
| Pipeline.Assemble | src/index.ts:175-187 | The assembled data holds the simplified profile, the simplified repositories, their grouping and the raw records. |
| Pipeline.GetGithubRepoData | src/index.ts:167-188 | The profile request comes first, and its failure propagates. A count of 0 fails with NoPublicRepos and requests no page. Otherwise the result is that of `getAllRepos` followed by normalisation and grouping. |
| Pipeline.HundredFiftyRepositories | src/index.ts:167-188 | Two successful pages hold 100 and 50 records. The first record is a fork, the first record of page 2 has no language, and no other record is a fork or has the language "Forks". Then 150 repositories come back, the buckets hold 150 of them, "Forks" holds exactly the fork, and "Other" holds the record without a language. |
| Pipeline.OnlyFirstIsFork | src/index.ts:139-157 | For any non-empty list of records: when the first is a fork and no other record is a fork or has the language "Forks", the "Forks" bucket is exactly the first repository. |
| Render.Prologue | src/index.ts:199-254 | Defines the page head: the document type, the meta tags, the title with the display name, the style sheet, and the `h1` heading with the display name. |
| Render.Page | src/index.ts:199-311 | Defines a whole page: the prologue, then the sections, then the footer with the data-source link. |
| Render.DisplayName | src/index.ts:197 | The name when it is a non-empty string, the login otherwise. |
| Render.UpperChar | src/index.ts:284 | Defines `toUpperCase` on the first character: an ASCII lower-case letter becomes its upper-case letter, and any other character stays as it is. |
| Render.Heading | src/index.ts:280-284 | Defines a section title: the fixed titles "# Other" and "# Forks" for the special keys, and otherwise the key with its first character upper-cased. |
| Render.HeadingCapitalisesFirst | src/index.ts:280-284 | "Other" and "Forks" get their "#" titles. Any other key keeps its length, and only its first character changes, to its upper-case form. |
| Render.HeadingExample | src/index.ts:284 | Only the first letter is capitalised, not every word: "objective-c" heads its section as "Objective-c", and "Go" heads as "Go". |
| Render.DescriptionSpan | src/index.ts:297 | Defines the description markup: a `description` span holding ": " and the description when it is a non-empty string, and nothing otherwise. |
| Render.ItemHtml | src/index.ts:295-299 | Defines one list item: a link to the repository with its name as title and text, then its description span. |
| Render.ItemsHtml | src/index.ts:294-300 | Defines the markup of the inner loop: one item per repository, in the group's order. |
| Render.SectionHtml | src/index.ts:286-304 | Defines one section: the opening `language-group` div with the heading as title and an opening `ul`, then the items, then the closing `ul` and div tags. |
| Render.SectionsHtml | src/index.ts:277-305 | Defines the markup of the outer loop: one section per key of the given order, in that order. |
| Render.DescriptionSpanShown | src/index.ts:297 | The span is non-empty exactly when the description is a non-empty string, and then it contains the description. |
| Render.ItemsHtmlAppend | src/index.ts:294-300 | The items of two runs of repositories are the items of each, in order. |
| Render.OrdinaryKeys | src/index.ts:262 | Keeps exactly the keys other than "Other" and "Forks", and keeps them free of repeats. |
| Render.ObjectKeys | src/index.ts:257 | Lists every key of the groups exactly once, in an unspecified order. |
| Render.SortedLanguages | src/index.ts:257-275 | The loop order is `SectionOrder(keys)`, whatever order `Object.keys` returns. |
| Render.SectionOrder | src/index.ts:257-275 | Defines the section order: the ordinary keys in ascending string order, then "Other" if present, then "Forks" if present. |
| Render.SectionOrderIsListing | src/index.ts:257-277 | The section order lists every group key exactly once. |
| Render.SectionOrderShape | src/index.ts:262-275 | Every ordinary key comes before "Other" and "Forks", with the ordinary keys in ascending order. "Forks" is always last. |
| Render.SectionOrderExample | src/index.ts:257-275 | Keys Go, Other, Forks and C render in the order C, Go, Other, Forks. |
| Render.AppendSection | src/index.ts:280-304 | One pass of the outer loop appends the section's opening with its heading, then one item per repository in order, then the closing tags. |
| Render.GenerateHtml | src/index.ts:195-314 | The page is the prologue with the display name, then one section per key in `SectionOrder`, each listing that key's group after sorting, then the footer. The caller's groups end up sorted in place by name. |
| Render.AppendSections | src/index.ts:277-305 | The outer loop sorts the group of every key in the order given and appends its section. The result is the given prefix followed by the sections in that order. |
| Render.SectionStep | src/index.ts:277-305 | The sections of one more key are the earlier sections followed by that key's section. |
| Render.ByName | src/index.ts:292 | Defines the comparator `(a, b) => a.name.localeCompare(b.name)`: one repository comes before another by their names under the name order. |
| Render.SortGroup | src/index.ts:292 | Defines the group after `repos.sort` by `localeCompare` of names, as the stable sort by name. |
| Render.SortedGroups | src/index.ts:292 | Defines the groups after rendering: the same keys, with every group sorted by name. |
| Render.SortGroupIsStableSortByName | src/index.ts:292 | A sequence is the sorted group exactly when it is ordered by name, is a permutation of the group, and keeps the input order among equal names. |
| Render.SortedGroupsSpec | src/index.ts:292 | After rendering the groups have the same keys, and each group is a stable sort of what it was. |
| Render.StableSortExample | src/index.ts:292 | Repositories b, a, a (the two a's distinct) sort to a, a, b, with the two a's in their input order. |
| Render.ByNameIsPreorder | src/index.ts:292 | Comparing repositories by name is a total preorder when the name comparison is one. |
| Sorting.SortBy | src/index.ts:265-292 | The result is a permutation of the input and sorted by the comparator. |
| Sorting.SortByStable | src/index.ts:292 | Elements that compare equal keep their relative order. |
| Sorting.SortedStableUnique | src/index.ts:292 | Two stable sorts of one sequence are equal, so the insertion sort stands for the runtime's sort. |
| Sorting.SortByIsTheStableSort | src/index.ts:292 | Any sorted permutation that keeps ties in order is `SortBy`'s result. |
| Sorting.SortByKeepsTies | src/index.ts:292 | For every element x, the elements tied with x appear in the same order before and after sorting. |
| Sorting.SortByCharacterised | src/index.ts:265-292 | `r == SortBy(s, le)` exactly when r is a stable sort of s. |
| Sorting.SortByDistinct | src/index.ts:265 | Sorting a list without repeats yields a list without repeats. |
| Sorting.StringLeIsTotalOrder | src/index.ts:265 | The default string order is total, transitive and antisymmetric. |
| Sorting.SortedStrings | src/index.ts:265 | Lists each member of a set of strings once, in ascending order. |
| Sorting.SortedStringsUnique | src/index.ts:265 | Two ascending, repeat-free lists with the same members are equal. |
| Sorting.SortStringsOfSet | src/index.ts:262-265 | Sorting any repeat-free listing of a key set gives `SortedStrings` of that set. |
| Export.EndsWith | src/index.ts:357 | Defines the end-anchored match of `/\.html$/`: the suffix is no longer than the string and is its final part. |
| Export.JsonOutputPath | src/index.ts:357 | The path keeps its length. A final ".html" becomes ".json", and any other path is unchanged. |
| Export.JsonOutputPathIdempotent | src/index.ts:357 | A replaced path no longer ends in ".html", so deriving the path twice gives the same result as once. |
| Export.DefaultPaths | src/index.ts:339-357 | The default `<user>-repos.html` maps to `<user>-repos.json`. |

## Left out

- `checkUser` and `getRepos` (HTTP via axios) are oracles: the profile is a `Result` parameter and the pages a function from page number to `Result`. A thrown error is modelled as its message propagating; the Chinese prefixes of the messages are not modelled.
- The 1000 ms `setTimeout` and all `async`/`await` are left out; a pause is a `Sleep` event in the trace.
- `writeFileSync`, `readFileSync`, `JSON.stringify`, `JSON.parse` and the export functions' JSON-file fallback (src/index.ts:321-367, except the path substitution at line 357) are file system and serialisation, outside the model.
- The `logger` is console output and is left out.
- The CSS text of the page (src/index.ts:206-249) is the parameter `styleSheet`; the remaining template text is literal.
- Render.SortGroupIsStableSortByName: `localeCompare` is locale-aware collation, not visible here; it is an abstract total preorder `nameLe` on names.
- Sorting.StringLe: the default `sort()` compares UTF-16 code units; the model compares Dafny characters (Unicode scalar values), which differs only for characters outside the Basic Multilingual Plane.
- Render.UpperChar, Render.Heading: `toUpperCase` is modelled for ASCII letters only; other characters are left unchanged. JavaScript maps some characters to several (`"ß"` becomes `"SS"`), so there a heading can be longer than its key, which the model does not capture.
- Render.ObjectKeys: the insertion order of `Object.keys` is not fixed by the model; the section order is proved not to depend on it. JavaScript key edge cases (`"__proto__"`, integer-like keys ordered first) are not modelled.
- Grouping.GroupByLanguages: a language named like an inherited object property (`"constructor"`, `"toString"`, `"__proto__"`) makes `!languages[lang]` false at src/index.ts:147, so the `push` at line 151 throws a TypeError and the export fails. The model treats every language as an ordinary key and does not model that crash.
- Grouping.Grouped: the object `groupByLanguages` returns has a key order: "Forks" first, since it is created before the loop (src/index.ts:135), then the other buckets in the order of their first push (src/index.ts:148). A Dafny `map` has no order, so the model loses it. Only the JSON file, which is left out, would show that order, and rendering sorts the keys again.
- Pagination.PageCount: `public_repos` is an integer; a missing (null or undefined) count, which the falsy guard at src/index.ts:171 also refuses, and fractional or NaN counts, which the guard and `Math.ceil` would also handle, are not modelled. A negative count passes the guard and fetches no page.
- Names, descriptions and links are inserted into the HTML without escaping, as the source does.
- `src/cli.ts` (argument parsing and process exit) and `src/types/github.ts` (type declarations) are not part of this model. The raw description field is declared as a string there, but the API sends null for a missing description, so it is an optional string here.
- The in-place sort of a group (`repos.sort`) is modelled by returning the updated groups from `Render.GenerateHtml`; aliasing of the caller's arrays is not modelled.
