/**
 The optional removal of blank lines from one file's content (Program.cs
 lines 102-106): with `--remove-empty-lines`, every line that is empty or
 white space only is dropped; otherwise the lines are left as read.
 */
module LineFilter {
  import opened Text
  import opened Seqs

  /** `content.Where(line => !string.IsNullOrWhiteSpace(line))`. */
  function RemoveBlankLines(lines: seq<string>): (r: seq<string>)
    ensures forall i :: 0 <= i < |r| ==> !IsBlank(r[i])
    ensures IsSubsequence(r, lines)
    ensures forall l :: multiset(r)[l] == if IsBlank(l) then 0 else multiset(lines)[l]
  {
    Filter(lines, l => !IsBlank(l))
  }

  /** The content written for one file, given the `--remove-empty-lines` flag. */
  function FilterContent(removeEmptyLines: bool, lines: seq<string>): (r: seq<string>)
    ensures !removeEmptyLines ==> r == lines
    ensures removeEmptyLines ==> forall i :: 0 <= i < |r| ==> !IsBlank(r[i])
    ensures removeEmptyLines ==> IsSubsequence(r, lines)
    ensures removeEmptyLines ==> forall l :: !IsBlank(l) ==> multiset(r)[l] == multiset(lines)[l]
  {
    if removeEmptyLines then RemoveBlankLines(lines) else lines
  }

  /** Removing blank lines twice removes nothing more than removing them once. */
  lemma RemoveBlankLinesIdempotent(lines: seq<string>)
    ensures RemoveBlankLines(RemoveBlankLines(lines)) == RemoveBlankLines(lines)
  {
    FilterIdempotent(lines, l => !IsBlank(l));
  }

  /** A file without blank lines comes through the filter unchanged. */
  lemma RemoveBlankLinesKeepsCleanContent(lines: seq<string>)
    requires forall i :: 0 <= i < |lines| ==> !IsBlank(lines[i])
    ensures RemoveBlankLines(lines) == lines
  {
    FilterAllKept(lines, l => !IsBlank(l));
  }

  /**
   The filtered content is the only subsequence of the lines that has no blank
   line and keeps every non-blank line of the file as often as it occurs.
   */
  lemma {:induction false} RemoveBlankLinesIsTheBlankFreeSubsequence(lines: seq<string>, r: seq<string>)
    requires IsSubsequence(r, lines)
    requires forall i :: 0 <= i < |r| ==> !IsBlank(r[i])
    requires forall l :: !IsBlank(l) ==> multiset(r)[l] == multiset(lines)[l]
    ensures r == RemoveBlankLines(lines)
  {
    var filtered := RemoveBlankLines(lines);
    forall l
      ensures multiset(r)[l] == multiset(filtered)[l]
    {
      if IsBlank(l) {
        assert l !in r;
      }
    }
    assert multiset(r) == multiset(filtered);
    assert |r| == |multiset(r)| == |multiset(filtered)| == |filtered|;
    RemoveBlankLinesUnique(lines, r);
  }

  /** Among the blank-free subsequences of the lines, the filtered content is the only longest one. */
  lemma {:induction false} RemoveBlankLinesUnique(lines: seq<string>, r: seq<string>)
    requires IsSubsequence(r, lines)
    requires forall i :: 0 <= i < |r| ==> !IsBlank(r[i])
    requires |r| == |RemoveBlankLines(lines)|
    ensures r == RemoveBlankLines(lines)
  {
    FilterIsTheLongest(r, lines, l => !IsBlank(l));
  }
}
