/** The path arithmetic of `exportGithubRepos`; the file writes themselves are not modelled. */
module Export {

  const HtmlSuffix: string := ".html"
  const JsonSuffix: string := ".json"

  predicate EndsWith(s: string, suffix: string) {
    |suffix| <= |s| && s[|s| - |suffix|..] == suffix
  }

  /** `outputPath.replace(/\.html$/, ".json")`: only a final ".html" is replaced. */
  function JsonOutputPath(outputPath: string): (p: string)
    ensures |p| == |outputPath|
    ensures EndsWith(outputPath, HtmlSuffix) ==>
      p[..|p| - |JsonSuffix|] == outputPath[..|outputPath| - |HtmlSuffix|] && EndsWith(p, JsonSuffix)
    ensures !EndsWith(outputPath, HtmlSuffix) ==> p == outputPath
  {
    if EndsWith(outputPath, HtmlSuffix) then outputPath[..|outputPath| - |HtmlSuffix|] + JsonSuffix
    else outputPath
  }

  /** A replaced path no longer ends in ".html", so deriving the path twice changes nothing. */
  lemma JsonOutputPathIdempotent(outputPath: string)
    ensures EndsWith(outputPath, HtmlSuffix) ==> !EndsWith(JsonOutputPath(outputPath), HtmlSuffix)
    ensures JsonOutputPath(JsonOutputPath(outputPath)) == JsonOutputPath(outputPath)
  {
    var p := JsonOutputPath(outputPath);
    if EndsWith(outputPath, HtmlSuffix) {
      assert p[|p| - 5..] == JsonSuffix;
      assert p[|p| - 5..][1] == 'j' != 'h';
    }
  }

  /** The default output names of the command line map to each other. */
  lemma DefaultPaths(username: string)
    ensures JsonOutputPath(username + "-repos.html") == username + "-repos.json"
  {
    var p := username + "-repos.html";
    assert p[|p| - 5..] == HtmlSuffix;
    assert p[..|p| - 5] == username + "-repos";
  }
}
