/**
 The collection step of the bundle handler (Program.cs lines 70-74): of the
 enumerated paths, drop every path that contains a build-output token as a
 substring, then keep the paths of the requested language.
 */
module Collection {
  import opened Text
  import opened Seqs

  /** Tokens whose occurrence anywhere in a path excludes it; matched case-sensitively. */
  const ExcludedDirs: seq<string> := ["bin", "obj", "debug", "release"]

  /** The path contains one of the tokens as a substring, not necessarily as a directory name. */
  predicate IsExcluded(path: string) {
    exists d | d in ExcludedDirs :: Contains(path, d)
  }

  /**
   The language filter: "all" (in any case) keeps everything; any other
   language keeps the paths ending in "." followed by the language, ignoring case.
   */
  predicate MatchesLanguage(path: string, language: string) {
    ToLower(language) == "all" || EndsWithIgnoreCase(path, "." + language)
  }

  predicate Kept(path: string, language: string) {
    !IsExcluded(path) && MatchesLanguage(path, language)
  }

  /**
   The paths collected: those that pass both `Where` filters, in enumeration
   order and each as often as it was enumerated.
   */
  function Collect(paths: seq<string>, language: string): (r: seq<string>)
    ensures forall i :: 0 <= i < |r| ==> !IsExcluded(r[i]) && MatchesLanguage(r[i], language)
    ensures forall p :: p in r <==> p in paths && Kept(p, language)
    ensures forall p :: multiset(r)[p] == if Kept(p, language) then multiset(paths)[p] else 0
    ensures IsSubsequence(r, paths)
  {
    Filter(paths, p => Kept(p, language))
  }

  /** Collection is the exclusion filter followed by the language filter, as the handler chains them. */
  lemma {:induction false} CollectIsTwoFilters(paths: seq<string>, language: string)
    ensures Collect(paths, language)
            == Filter(Filter(paths, p => !IsExcluded(p)), p => MatchesLanguage(p, language))
  {
    FilterFilter(paths, p => !IsExcluded(p), p => MatchesLanguage(p, language), p => Kept(p, language));
  }

  /** With the language "all", collection only removes the excluded paths. */
  lemma {:induction false} CollectAll(paths: seq<string>, language: string)
    requires ToLower(language) == "all"
    ensures Collect(paths, language) == Filter(paths, p => !IsExcluded(p))
  {
    CollectIsTwoFilters(paths, language);
    FilterAllKept(Filter(paths, p => !IsExcluded(p)), p => MatchesLanguage(p, language));
  }

  /**
   The language is used literally as the extension, so "c#" never collects
   a file whose name ends in ".cs".
   */
  lemma CSharpNeverMatchesCs(path: string)
    requires EndsWithIgnoreCase(path, ".cs")
    ensures !MatchesLanguage(path, "c#")
  {
    var tail := path[|path| - 3..];
    assert ToLower(tail)[2] != '#';
    assert ToLower(".c#")[2] == '#';
  }

  /** The exclusion is a substring test: a name merely containing "bin" is excluded. */
  lemma SubstringExclusion()
    ensures IsExcluded("src/binoculars.js")
    ensures !IsExcluded("src/Bin/app.js")
  {
    assert OccursAt("src/binoculars.js", "bin", 4);
    assert "bin" in ExcludedDirs;
    var p := "src/Bin/app.js";
    MissingCharNotContained(p, "bin", 0);
    MissingCharNotContained(p, "obj", 0);
    MissingCharNotContained(p, "debug", 0);
    MissingCharNotContained(p, "release", 2);
  }

  /** A string lacking one character of `sub` does not contain `sub`. */
  lemma MissingCharNotContained(s: string, sub: string, k: int)
    requires 0 <= k < |sub| && sub[k] !in s
    ensures !Contains(s, sub)
  {
  }

  /** A token inside a prefix of a path is inside the path. */
  lemma ContainsThroughPrefix(path: string, root: string, sub: string)
    requires StartsWith(path, root) && Contains(root, sub)
    ensures Contains(path, sub)
  {
    var i :| 0 <= i <= |root| - |sub| && OccursAt(root, sub, i);
    assert path[i..i + |sub|] == root[i..i + |sub|];
    assert OccursAt(path, sub, i);
  }

  /**
   The exclusion tests the whole path, working directory included: when the
   directory's own path contains a token, every file under it is dropped.
   */
  lemma {:induction false} ExcludedRootCollectsNothing(paths: seq<string>, root: string, token: string, language: string)
    requires token in ExcludedDirs && Contains(root, token)
    requires forall i :: 0 <= i < |paths| ==> StartsWith(paths[i], root)
    ensures Collect(paths, language) == []
  {
    var r := Collect(paths, language);
    if r != [] {
      var i :| 0 <= i < |paths| && paths[i] == r[0];
      ContainsThroughPrefix(paths[i], root, token);
      assert false;
    }
  }
}
