/**
 The path queries the bundler makes: `Path.GetFileName`, `Path.GetExtension`
 and `Path.GetRelativePath`. Both '/' and '\' separate directories, as on Windows.
 */
module Paths {
  import opened Text

  predicate IsSeparator(c: char) {
    c == '/' || c == '\\'
  }

  predicate IsSuffix(r: string, s: string) {
    |r| <= |s| && s[|s| - |r|..] == r
  }

  /**
   `Path.GetFileName`: the longest suffix of `path` holding no separator, so
   either the whole path or the part after its last separator.
   */
  function FileName(path: string): (r: string)
    ensures IsSuffix(r, path)
    ensures forall i :: 0 <= i < |r| ==> !IsSeparator(r[i])
    ensures |r| < |path| ==> IsSeparator(path[|path| - |r| - 1])
    decreases |path|
  {
    if |path| == 0 || IsSeparator(path[|path| - 1]) then ""
    else
      var init := path[..|path| - 1];
      var last := path[|path| - 1];
      var n := FileName(init);
      assert path == init + [last];
      assert init[|init| - |n|..] == n;
      assert path[|init| - |n|..] == n + [last];
      n + [last]
  }

  /** The suffix of `name` that starts at its last '.', or "" when it has none. */
  function DotSuffix(name: string): (r: string)
    ensures IsSuffix(r, name)
    ensures r == "" <==> '.' !in name
    ensures r != "" ==> r[0] == '.' && '.' !in r[1..]
    decreases |name|
  {
    if |name| == 0 then ""
    else if name[|name| - 1] == '.' then "."
    else
      var init := name[..|name| - 1];
      assert name == init + [name[|name| - 1]];
      var d := DotSuffix(init);
      if d == "" then "" else d + [name[|name| - 1]]
  }

  /**
   `Path.GetExtension`: the file name from its last '.' on, the dot included;
   "" when the file name has no dot or ends with one.
   */
  function Extension(path: string): (r: string)
    ensures r != "" ==> |r| >= 2 && r[0] == '.' && '.' !in r[1..] && IsSuffix(r, FileName(path))
    ensures r == "" <==> var n := FileName(path); '.' !in n || n[|n| - 1] == '.'
  {
    var d := DotSuffix(FileName(path));
    if |d| <= 1 then "" else d
  }

  /** The root already ends in a separator, as a filesystem root ("/" or `C:\`) does. */
  predicate EndsWithSeparator(root: string) {
    |root| > 0 && IsSeparator(root[|root| - 1])
  }

  /**
   `Path.GetRelativePath(root, path)` for a path found under `root`: the part
   after `root`, and after the separator that follows it unless `root` already
   ends in one. Any other path is returned unchanged.
   */
  function RelativePath(root: string, path: string): (r: string)
    ensures IsSuffix(r, path)
    ensures EndsWithSeparator(root) && |path| > |root| && StartsWith(path, root)
            ==> r == path[|root|..]
    ensures !EndsWithSeparator(root) && |path| > |root| && StartsWith(path, root) && IsSeparator(path[|root|])
            ==> r == path[|root| + 1..]
    ensures r != path ==> |path| > |root| && StartsWith(path, root)
                          && (EndsWithSeparator(root) || IsSeparator(path[|root|]))
  {
    if |path| > |root| && StartsWith(path, root) then
      if EndsWithSeparator(root) then path[|root|..]
      else if IsSeparator(path[|root|]) then path[|root| + 1..]
      else path
    else path
  }

  /**
   `Path.Combine(root, rel)`, which is how `Directory.GetFiles` builds the
   paths it returns: the platform's separator `sep` ('\' on Windows, '/'
   elsewhere) goes between the two unless `root` already ends in a separator.
   */
  function Combine(root: string, sep: char, rel: string): string
    requires IsSeparator(sep)
  {
    if EndsWithSeparator(root) then root + rel else root + [sep] + rel
  }

  /** The relative path of a file under `root` is the part `Combine` appended. */
  lemma RelativePathOfCombine(root: string, sep: char, rel: string)
    requires IsSeparator(sep) && rel != ""
    ensures RelativePath(root, Combine(root, sep, rel)) == rel
  {
    var path := Combine(root, sep, rel);
    assert path[..|root|] == root;
    if EndsWithSeparator(root) {
      assert path[|root|..] == rel;
    } else {
      assert path[|root|] == sep;
      assert path[|root| + 1..] == rel;
    }
  }

  /**
   A filesystem root keeps no leading separator on the relative path; other
   roots drop one. A path outside the root, which `Directory.GetFiles` never
   lists, is returned unchanged by this model's convention.
   */
  lemma RelativePathExamples()
    ensures RelativePath("/", "/x.js") == "x.js"
    ensures RelativePath("C:\\", "C:\\src\\x.js") == "src\\x.js"
    ensures RelativePath("/home/app", "/home/app/x.js") == "x.js"
    ensures RelativePath("/home/app", "/home/apple/x.js") == "/home/apple/x.js"
  {
    RelativePathOfCombine("/", '/', "x.js");
    RelativePathOfCombine("C:\\", '\\', "src\\x.js");
    RelativePathOfCombine("/home/app", '/', "x.js");
    var other := "/home/apple/x.js";
    assert other[..9] == "/home/app";
    assert !IsSeparator(other[9]);
  }
}
