/**
 * The Renderer's page: display name, section order, headings, the sort of
 * each group by name and the per-repository items. The style sheet text is
 * a parameter; the rest of the page template is literal.
 */
module Render {
  import opened Wrappers
  import opened GitHub
  import opened Sorting
  import opened Grouping
  import opened Pipeline

  /** `profile.name || profile.login`. */
  function DisplayName(profile: Profile): (n: string)
    ensures Truthy(profile.name) ==> n == profile.name.value
    ensures !Truthy(profile.name) ==> n == profile.login
  {
    if Truthy(profile.name) then profile.name.value else profile.login
  }

  /** `toUpperCase` on one character, for the ASCII letters. */
  function UpperChar(c: char): char {
    if 'a' <= c <= 'z' then (c as int - 'a' as int + 'A' as int) as char else c
  }

  /** The section title: the special groups are marked with "#", others get their first character upper-cased. */
  function Heading(language: string): string {
    if language == OtherKey then "# Other"
    else if language == ForksKey then "# Forks"
    else if language == [] then []
    else [UpperChar(language[0])] + language[1..]
  }

  /** The description span, present only for a non-empty description. */
  function DescriptionSpan(repo: Repository): string {
    if Truthy(repo.description) then "<span class=\"description\">: " + repo.description.value + "</span>" else ""
  }

  function ItemHtml(repo: Repository): string {
    "      <li>\n        <a href=\"" + repo.link + "\" title=\"" + repo.name + "\">" + repo.name + "</a>\n        "
      + DescriptionSpan(repo) + "\n      </li>\n"
  }

  function ItemsHtml(repos: seq<Repository>): string {
    if repos == [] then "" else ItemsHtml(repos[..|repos| - 1]) + ItemHtml(repos[|repos| - 1])
  }

  function SectionOpen(title: string): string {
    "  <div class=\"language-group\">\n    <div class=\"language-title\">" + title + "</div>\n    <ul>\n"
  }

  const SectionClose: string := "    </ul>\n  </div>\n"

  function SectionHtml(language: string, repos: seq<Repository>): string {
    SectionOpen(Heading(language)) + ItemsHtml(repos) + SectionClose
  }

  /** The sections for `order`, in that order. */
  function SectionsHtml(order: seq<string>, groups: LanguageGroups): string
    requires forall k :: k in order ==> k in groups
  {
    if order == [] then ""
    else
      var last := order[|order| - 1];
      SectionsHtml(order[..|order| - 1], groups) + SectionHtml(last, groups[last])
  }

  function Prologue(displayName: string, styleSheet: string): string {
    "<!DOCTYPE html>\n<html lang=\"en\">\n<head>\n  <meta charset=\"UTF-8\">\n"
      + "  <meta name=\"viewport\" content=\"width=device-width, initial-scale=1.0\">\n"
      + "  <title>" + displayName + " GitHub Repositories</title>\n  <style>\n" + styleSheet
      + "  </style>\n</head>\n<body>\n  <h1>" + displayName + " GitHub Repositories</h1>\n"
  }

  const Footer: string :=
    "  <div class=\"data-source\">\n    <p>数据来源: <a href=\"https://github.com/kirklin/gh-repo-export\" target=\"_blank\">"
      + "github.com/kirklin/gh-repo-export</a></p>\n  </div>\n</body>\n</html>"

  /** The section order: the ordinary keys ascending, then "Other", then "Forks", each if present. */
  ghost function SectionOrder(keys: set<string>): seq<string> {
    SortedStrings(keys - {OtherKey, ForksKey})
      + (if OtherKey in keys then [OtherKey] else [])
      + (if ForksKey in keys then [ForksKey] else [])
  }

  /** The `localeCompare` order on names, lifted to repositories. */
  function ByName(nameLe: (string, string) -> bool): (Repository, Repository) -> bool {
    (a: Repository, b: Repository) => nameLe(a.name, b.name)
  }

  lemma ByNameIsPreorder(nameLe: (string, string) -> bool)
    requires TotalPreorder(nameLe)
    ensures TotalPreorder(ByName(nameLe))
  {
    var le := ByName(nameLe);
    forall a, b, c | le(a, b) && le(b, c) ensures le(a, c) {
      assert nameLe(a.name, b.name) && nameLe(b.name, c.name);
    }
    forall a, b ensures le(a, b) || le(b, a) {
      assert nameLe(a.name, b.name) || nameLe(b.name, a.name);
    }
  }

  /** `repos.sort((a, b) => a.name.localeCompare(b.name))`. */
  function SortGroup(repos: seq<Repository>, nameLe: (string, string) -> bool): seq<Repository>
    requires TotalPreorder(nameLe)
  {
    ByNameIsPreorder(nameLe);
    SortBy(repos, ByName(nameLe))
  }

  /** The groups after rendering: every group sorted by name in place. */
  function SortedGroups(groups: LanguageGroups, nameLe: (string, string) -> bool): LanguageGroups
    requires TotalPreorder(nameLe)
  {
    map k | k in groups :: SortGroup(groups[k], nameLe)
  }

  /** The page for a display name, a style sheet and the sections' markup. */
  function Page(displayName: string, styleSheet: string, sections: string): string {
    Prologue(displayName, styleSheet) + sections + Footer
  }

  /** `Object.keys`: each key once, in an order the model does not fix. */
  method ObjectKeys(groups: LanguageGroups) returns (keys: seq<string>)
    ensures Distinct(keys) && forall k :: k in keys <==> k in groups
  {
    keys := [];
    var remaining := groups.Keys;
    while remaining != {}
      invariant remaining <= groups.Keys
      invariant Distinct(keys) && forall k :: k in keys <==> k in groups && k !in remaining
      decreases |remaining|
    {
      var k :| k in remaining;
      keys := keys + [k];
      remaining := remaining - {k};
    }
  }

  /** `languages.filter(lang => lang !== "Other" && lang !== "Forks")`. */
  function OrdinaryKeys(keys: seq<string>): (r: seq<string>)
    ensures forall k :: k in r <==> k in keys && k != OtherKey && k != ForksKey
    ensures Distinct(keys) ==> Distinct(r)
  {
    if keys == [] then []
    else
      var rest := OrdinaryKeys(keys[1..]);
      assert forall k :: k in keys <==> k == keys[0] || k in keys[1..];
      if keys[0] == OtherKey || keys[0] == ForksKey then rest
      else
        assert Distinct(keys) ==> keys[0] !in keys[1..];
        [keys[0]] + rest
  }

  /**
   * The section order of `generateHtml`: list the keys, drop "Other" and
   * "Forks", sort the rest, then append "Other" and "Forks" when present.
   */
  method SortedLanguages(languageGroups: LanguageGroups) returns (sortedLanguages: seq<string>)
    ensures sortedLanguages == SectionOrder(languageGroups.Keys)
  {
    var languages := ObjectKeys(languageGroups);
    var hasOther := OtherKey in languages;
    var hasForks := ForksKey in languages;
    var filteredLanguages := OrdinaryKeys(languages);
    ghost var ordinary := languageGroups.Keys - {OtherKey, ForksKey};
    assert forall k :: k in filteredLanguages <==> k in ordinary;
    SortStringsOfSet(filteredLanguages, ordinary);
    sortedLanguages := SortBy(filteredLanguages, StringLe);
    ghost var otherPart := if hasOther then [OtherKey] else [];
    ghost var forksPart := if hasForks then [ForksKey] else [];
    assert sortedLanguages == SortedStrings(ordinary);
    if hasOther {
      sortedLanguages := sortedLanguages + [OtherKey];
    }
    assert sortedLanguages == SortedStrings(ordinary) + otherPart;
    if hasForks {
      sortedLanguages := sortedLanguages + [ForksKey];
    }
    assert sortedLanguages == SortedStrings(ordinary) + otherPart + forksPart;
    assert SectionOrder(languageGroups.Keys) == SortedStrings(ordinary) + otherPart + forksPart;
  }

  /**
   * `generateHtml`. Besides the page it returns the groups as the caller
   * sees them afterwards, since each group is sorted in place.
   */
  method GenerateHtml(data: GithubRepoData, styleSheet: string, nameLe: (string, string) -> bool)
    returns (html: string, languageGroups: LanguageGroups)
    requires TotalPreorder(nameLe)
    ensures languageGroups == SortedGroups(data.languageGroups, nameLe)
    ensures html == Page(DisplayName(data.profile), styleSheet,
                         SectionsHtml(SectionOrder(data.languageGroups.Keys), languageGroups))
  {
    var profile := data.profile;
    var displayName := DisplayName(profile);
    html := Prologue(displayName, styleSheet);
    var sortedLanguages := SortedLanguages(data.languageGroups);
    SectionOrderIsListing(data.languageGroups.Keys);
    html, languageGroups := AppendSections(html, data.languageGroups, sortedLanguages, nameLe);
    html := html + Footer;
  }

  /**
   * The outer loop of `generateHtml`: for each key of `order`, sort its
   * group in place and append its section.
   */
  method AppendSections(prefix: string, groups: LanguageGroups, order: seq<string>, nameLe: (string, string) -> bool)
    returns (html: string, languageGroups: LanguageGroups)
    requires TotalPreorder(nameLe)
    requires Distinct(order) && forall k :: k in order <==> k in groups
    ensures languageGroups == SortedGroups(groups, nameLe)
    ensures html == prefix + SectionsHtml(order, languageGroups)
  {
    html := prefix;
    languageGroups := groups;
    ghost var sorted := SortedGroups(groups, nameLe);
    assert SortedUpTo(languageGroups, groups, sorted, order[..0]);
    for j := 0 to |order|
      invariant SortedUpTo(languageGroups, groups, sorted, order[..j])
      invariant html == prefix + SectionsHtml(order[..j], sorted)
    {
      var language := order[j];
      SortNextGroup(languageGroups, groups, sorted, order, j);
      SortedGroupsAt(groups, nameLe, language);
      var repos := SortGroup(languageGroups[language], nameLe);
      languageGroups := languageGroups[language := repos];
      html := AppendSection(html, language, repos);
      SectionStep(prefix, order, j, sorted);
    }
    assert order[..|order|] == order;
    SortedUpToAll(languageGroups, groups, sorted, order);
  }

  /** One pass of the outer loop of `generateHtml`: the title, then one list item per repository, in order. */
  method AppendSection(prefix: string, language: string, repos: seq<Repository>) returns (html: string)
    ensures html == prefix + SectionHtml(language, repos)
  {
    var capitalizedLang := Heading(language);
    html := prefix + SectionOpen(capitalizedLang);
    ghost var titled := html;
    for m := 0 to |repos|
      invariant html == titled + ItemsHtml(repos[..m])
    {
      assert repos[..m + 1][..m] == repos[..m];
      AppendAssoc(titled, ItemsHtml(repos[..m]), ItemHtml(repos[m]));
      html := html + ItemHtml(repos[m]);
    }
    assert repos[..|repos|] == repos;
    html := html + SectionClose;
    AppendAssoc(prefix, SectionOpen(capitalizedLang), ItemsHtml(repos));
    AppendAssoc(prefix, SectionOpen(capitalizedLang) + ItemsHtml(repos), SectionClose);
  }

  /** The groups in the middle of rendering: those of `done` are sorted, the others as they came. */
  ghost predicate SortedUpTo(current: LanguageGroups, original: LanguageGroups, sorted: LanguageGroups, done: seq<string>) {
    && current.Keys == original.Keys == sorted.Keys
    && forall k :: k in current ==> current[k] == if k in done then sorted[k] else original[k]
  }

  lemma SortNextGroup(current: LanguageGroups, original: LanguageGroups, sorted: LanguageGroups, order: seq<string>, j: nat)
    requires j < |order| && Distinct(order) && order[j] in original
    requires SortedUpTo(current, original, sorted, order[..j])
    ensures current[order[j]] == original[order[j]]
    ensures SortedUpTo(current[order[j] := sorted[order[j]]], original, sorted, order[..j + 1])
  {
    assert order[j] !in order[..j];
    assert forall k :: k in order[..j + 1] <==> k in order[..j] || k == order[j];
  }

  lemma SortedUpToAll(current: LanguageGroups, original: LanguageGroups, sorted: LanguageGroups, order: seq<string>)
    requires forall k :: k in original ==> k in order
    requires SortedUpTo(current, original, sorted, order)
    ensures current == sorted
  {
  }

  /** Appending the section of `order[j]` extends the page by one section. */
  lemma SectionStep(start: string, order: seq<string>, j: nat, groups: LanguageGroups)
    requires j < |order| && forall k :: k in order ==> k in groups
    ensures start + SectionsHtml(order[..j + 1], groups)
         == (start + SectionsHtml(order[..j], groups)) + SectionHtml(order[j], groups[order[j]])
  {
    assert order[..j + 1][..j] == order[..j];
    AppendAssoc(start, SectionsHtml(order[..j], groups), SectionHtml(order[j], groups[order[j]]));
  }

  lemma SortedGroupsAt(groups: LanguageGroups, nameLe: (string, string) -> bool, k: string)
    requires TotalPreorder(nameLe) && k in groups
    ensures SortedGroups(groups, nameLe)[k] == SortGroup(groups[k], nameLe)
  {
  }

  /** SectionOrder lists every key of the groups exactly once. */
  lemma SectionOrderIsListing(keys: set<string>)
    ensures Distinct(SectionOrder(keys))
    ensures forall k :: k in SectionOrder(keys) <==> k in keys
  {
    var ordinary := SortedStrings(keys - {OtherKey, ForksKey});
    var order := SectionOrder(keys);
    forall i, j | 0 <= i < j < |order| ensures order[i] != order[j] {
      if j >= |ordinary| && i < |ordinary| {
        assert order[i] in ordinary;
      }
    }
  }

  /**
   * The order of the sections: an ordinary key comes after every key before
   * it, each ascending, and "Forks", when present, comes last, so "Other"
   * sits between the two.
   */
  lemma SectionOrderShape(keys: set<string>)
    ensures var o := SectionOrder(keys);
      forall i, j :: 0 <= i < j < |o| && o[j] != OtherKey && o[j] != ForksKey ==>
        o[i] != OtherKey && o[i] != ForksKey && StringLe(o[i], o[j])
    ensures var o := SectionOrder(keys);
      forall i :: 0 <= i < |o| && o[i] == ForksKey ==> i == |o| - 1
  {
    var ordinary := SortedStrings(keys - {OtherKey, ForksKey});
    var o := SectionOrder(keys);
    var n := |ordinary|;
    assert forall i :: 0 <= i < n ==> o[i] == ordinary[i];
    assert forall i :: n <= i < |o| ==> o[i] == OtherKey || o[i] == ForksKey;
    assert forall i :: n <= i < |o| - 1 ==> o[i] == OtherKey;
  }

  /** The sections of a profile with C, Go, forks and repositories without a language. */
  lemma SectionOrderExample()
    ensures SectionOrder({"Go", OtherKey, ForksKey, "C"}) == ["C", "Go", OtherKey, ForksKey]
  {
    var keys := {"Go", OtherKey, ForksKey, "C"};
    assert keys - {OtherKey, ForksKey} == {"C", "Go"};
    assert StringLe("C", "Go");
    SortedStringsUnique(["C", "Go"], SortedStrings({"C", "Go"}));
  }

  /**
   * The special groups get a fixed "#" title. Any other key keeps its length
   * and every character after the first; only the first is upper-cased.
   */
  lemma HeadingCapitalisesFirst(language: string)
    ensures language == OtherKey ==> Heading(language) == "# Other"
    ensures language == ForksKey ==> Heading(language) == "# Forks"
    ensures language != OtherKey && language != ForksKey ==>
      && |Heading(language)| == |language|
      && (language != [] ==> Heading(language)[0] == UpperChar(language[0]) && Heading(language)[1..] == language[1..])
  {
  }

  /** Only the first letter is capitalised, not every word: "objective-c" heads as "Objective-c". */
  lemma HeadingExample()
    ensures Heading("objective-c") == "Objective-c"
    ensures Heading("Go") == "Go"
  {
    assert "objective-c"[1..] == "bjective-c";
    assert "Go"[1..] == "o";
  }

  /** The description span is present exactly when the description is a non-empty string, and then holds it. */
  lemma DescriptionSpanShown(repo: Repository)
    ensures DescriptionSpan(repo) != "" <==> Truthy(repo.description)
    ensures Truthy(repo.description) ==>
      exists before, after :: DescriptionSpan(repo) == before + repo.description.value + after
  {
    if Truthy(repo.description) {
      var d := repo.description.value;
      var open := "<span class=\"description\">: ";
      assert DescriptionSpan(repo) == open + d + "</span>";
    }
  }

  /** The items of two runs of repositories are the items of each, one after the other. */
  lemma {:induction false} ItemsHtmlAppend(a: seq<Repository>, b: seq<Repository>)
    ensures ItemsHtml(a + b) == ItemsHtml(a) + ItemsHtml(b)
    decreases |b|
  {
    if b != [] {
      var b' := b[..|b| - 1];
      assert (a + b)[..|a + b| - 1] == a + b';
      ItemsHtmlAppend(a, b');
      AppendAssoc(ItemsHtml(a), ItemsHtml(b'), ItemHtml(b[|b| - 1]));
    } else {
      assert a + b == a;
    }
  }

  /**
   * Sorting one group is the stable sort by name: a result is SortGroup's
   * exactly when it is ordered by name, a permutation of the group, and
   * keeps the source order among repositories whose names compare equal.
   */
  lemma SortGroupIsStableSortByName(repos: seq<Repository>, r: seq<Repository>, nameLe: (string, string) -> bool)
    requires TotalPreorder(nameLe)
    ensures r == SortGroup(repos, nameLe) <==> StableSortOf(r, repos, ByName(nameLe))
  {
    ByNameIsPreorder(nameLe);
    var le := ByName(nameLe);
    assert SortGroup(repos, nameLe) == SortBy(repos, le);
    SortByCharacterised(repos, r, le);
  }

  /** After rendering, the caller's groups have the same keys, each group stably sorted by name. */
  lemma SortedGroupsSpec(groups: LanguageGroups, nameLe: (string, string) -> bool, k: string)
    requires TotalPreorder(nameLe)
    ensures SortedGroups(groups, nameLe).Keys == groups.Keys
    ensures k in groups ==> StableSortOf(SortedGroups(groups, nameLe)[k], groups[k], ByName(nameLe))
  {
    if k in groups {
      SortGroupIsStableSortByName(groups[k], SortGroup(groups[k], nameLe), nameLe);
    }
  }

  lemma TiesOfThree(le: (Repository, Repository) -> bool, p: Repository, q: Repository, t: Repository, x: Repository)
    ensures TiesWith([p, q, t], le, x)
         == (if Tied(le, p, x) then [p] else []) + (if Tied(le, q, x) then [q] else []) + (if Tied(le, t, x) then [t] else [])
  {
    assert [p, q, t][1..] == [q, t] && [q, t][1..] == [t] && [t][1..] == [];
    assert TiesWith([t], le, x) == (if Tied(le, t, x) then [t] else []);
    assert TiesWith([q, t], le, x) == (if Tied(le, q, x) then [q] else []) + TiesWith([t], le, x);
  }

  /**
   * Two repositories called "a" and one called "b", listed b first: the
   * sort puts both "a" before "b" and keeps them in their listed order.
   */
  lemma StableSortExample(nameLe: (string, string) -> bool, b: Repository, a1: Repository, a2: Repository)
    requires TotalPreorder(nameLe) && nameLe("a", "b") && !nameLe("b", "a")
    requires b.name == "b" && a1.name == "a" && a2.name == "a"
    ensures SortGroup([b, a1, a2], nameLe) == [a1, a2, b]
  {
    var le := ByName(nameLe);
    var s, r := [b, a1, a2], [a1, a2, b];
    assert nameLe("a", "a");
    assert SortedBy(r, le);
    assert multiset(r) == multiset(s);
    ExampleTies(nameLe, b, a1, a2);
    assert StableSortOf(r, s, le);
    SortGroupIsStableSortByName(s, r, nameLe);
  }

  lemma ExampleTies(nameLe: (string, string) -> bool, b: Repository, a1: Repository, a2: Repository)
    requires TotalPreorder(nameLe) && !nameLe("b", "a")
    requires b.name == "b" && a1.name == "a" && a2.name == "a"
    ensures forall x :: TiesWith([a1, a2, b], ByName(nameLe), x) == TiesWith([b, a1, a2], ByName(nameLe), x)
  {
    var le := ByName(nameLe);
    forall x ensures TiesWith([a1, a2, b], le, x) == TiesWith([b, a1, a2], le, x) {
      assert nameLe("b", x.name) && nameLe(x.name, "a") ==> nameLe("b", "a");
      assert !(Tied(le, a1, x) && Tied(le, b, x));
      assert Tied(le, a2, x) == Tied(le, a1, x);
      TiesOfThree(le, a1, a2, b, x);
      TiesOfThree(le, b, a1, a2, x);
    }
  }
}
