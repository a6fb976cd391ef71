/**
 String primitives the bundler relies on, modelled on the .NET members it calls:
 `ToLower`, `Contains`, `EndsWith` with `OrdinalIgnoreCase`, `Trim`,
 `string.IsNullOrWhiteSpace`, `string.Join` with a newline separator, and the
 line splitting a reader of the bundle performs. Strings are `seq<char>`.
 */
module Text {
  import opened Wrappers
  import opened Seqs

  /** The line separator; `Environment.NewLine` fixed to a single line feed. */
  const NewLine: char := '\n'

  // ---------------------------------------------------------------------------
  // Case folding (ASCII letters only)
  // ---------------------------------------------------------------------------

  predicate IsUpper(c: char) {
    'A' <= c <= 'Z'
  }

  function LowerChar(c: char): (r: char)
    ensures !IsUpper(r)
  {
    if IsUpper(c) then (c as int + 32) as char else c
  }

  /** `string.ToLower()`, restricted to the ASCII letters. */
  function ToLower(s: string): (r: string)
    ensures |r| == |s|
    ensures forall i :: 0 <= i < |s| ==> r[i] == LowerChar(s[i])
  {
    seq(|s|, i requires 0 <= i < |s| => LowerChar(s[i]))
  }

  /** Lower-casing a lower-cased string changes nothing. */
  lemma ToLowerIdempotent(s: string)
    ensures ToLower(ToLower(s)) == ToLower(s)
  {
  }

  /** A string whose characters are all already lower case is its own `ToLower`. */
  lemma ToLowerOfLower(s: string)
    requires forall i :: 0 <= i < |s| ==> !IsUpper(s[i])
    ensures ToLower(s) == s
  {
  }

  /** Ordinal comparison ignoring case: equal after folding both sides. */
  predicate EqualsIgnoreCase(a: string, b: string) {
    ToLower(a) == ToLower(b)
  }

  /** `s.EndsWith(suffix, StringComparison.OrdinalIgnoreCase)`. */
  predicate EndsWithIgnoreCase(s: string, suffix: string) {
    |suffix| <= |s| && EqualsIgnoreCase(s[|s| - |suffix|..], suffix)
  }

  // ---------------------------------------------------------------------------
  // Ordinal prefix and substring tests
  // ---------------------------------------------------------------------------

  predicate StartsWith(s: string, prefix: string) {
    |prefix| <= |s| && s[..|prefix|] == prefix
  }

  predicate OccursAt(s: string, sub: string, i: int) {
    0 <= i && i + |sub| <= |s| && s[i..i + |sub|] == sub
  }

  /** `s.Contains(sub)`: ordinal and case-sensitive. */
  predicate Contains(s: string, sub: string) {
    exists i | 0 <= i <= |s| - |sub| :: OccursAt(s, sub, i)
  }

  // ---------------------------------------------------------------------------
  // White space
  // ---------------------------------------------------------------------------

  /** `char.IsWhiteSpace`: the Unicode separators plus the control white space. */
  predicate IsWhiteSpace(c: char) {
    || ('\U{9}' <= c <= '\U{D}')
    || c == ' ' || c == '\U{85}' || c == '\U{A0}' || c == '\U{1680}'
    || ('\U{2000}' <= c <= '\U{200A}')
    || c == '\U{2028}' || c == '\U{2029}' || c == '\U{202F}' || c == '\U{205F}' || c == '\U{3000}'
  }

  /** `string.IsNullOrWhiteSpace` of a non-null string: empty or white space only. */
  predicate IsBlank(s: string) {
    forall i :: 0 <= i < |s| ==> IsWhiteSpace(s[i])
  }

  /** `string.IsNullOrWhiteSpace`, with None standing for null. */
  predicate IsNullOrWhiteSpace(s: Option<string>) {
    s.None? || IsBlank(s.value)
  }

  /** `string.TrimStart()`: drops the leading white space. */
  function TrimStart(s: string): string
    decreases |s|
  {
    if |s| > 0 && IsWhiteSpace(s[0]) then TrimStart(s[1..]) else s
  }

  /** `string.TrimEnd()`: drops the trailing white space. */
  function TrimEnd(s: string): string
    decreases |s|
  {
    if |s| > 0 && IsWhiteSpace(s[|s| - 1]) then TrimEnd(s[..|s| - 1]) else s
  }

  /** `string.Trim()`: drops the leading and the trailing white space. */
  function Trim(s: string): string {
    TrimEnd(TrimStart(s))
  }

  /** `TrimStart` leaves a suffix that follows only white space and does not start with any. */
  lemma {:induction false} TrimStartIsSuffix(s: string)
    ensures var r := TrimStart(s);
            && |r| <= |s| && r == s[|s| - |r|..] && IsBlank(s[..|s| - |r|])
            && (|r| > 0 ==> !IsWhiteSpace(r[0]))
    decreases |s|
  {
    if |s| > 0 && IsWhiteSpace(s[0]) {
      var r := TrimStart(s[1..]);
      TrimStartIsSuffix(s[1..]);
      var k := |s| - |r|;
      assert s[1..][k - 1..] == s[k..];
      assert forall i :: 1 <= i < k ==> s[..k][i] == s[1..][..k - 1][i - 1];
    }
  }

  /** `TrimEnd` leaves a prefix that only white space follows and that does not end with any. */
  lemma {:induction false} TrimEndIsPrefix(s: string)
    ensures var r := TrimEnd(s);
            && |r| <= |s| && r == s[..|r|] && IsBlank(s[|r|..])
            && (|r| > 0 ==> !IsWhiteSpace(r[|r| - 1]))
    decreases |s|
  {
    if |s| > 0 && IsWhiteSpace(s[|s| - 1]) {
      var init := s[..|s| - 1];
      var r := TrimEnd(init);
      TrimEndIsPrefix(init);
      assert init[..|r|] == s[..|r|];
      assert forall i :: |r| <= i < |s| - 1 ==> s[i] == init[i];
    }
  }

  /**
   The trimmed string is the slice of `s` after its leading white space; it
   neither starts nor ends with white space and has only white space around it.
   */
  lemma TrimIsMiddleSlice(s: string)
    ensures var r := Trim(s);
            var a := |s| - |TrimStart(s)|;
            && 0 <= a && a + |r| <= |s| && r == s[a..a + |r|]
            && IsBlank(s[..a]) && IsBlank(s[a + |r|..])
            && (|r| > 0 ==> !IsWhiteSpace(r[0]) && !IsWhiteSpace(r[|r| - 1]))
  {
    var t := TrimStart(s);
    TrimStartIsSuffix(s);
    TrimEndIsPrefix(t);
    MiddleSlice(s, t, TrimEnd(t));
  }

  /** A prefix `r` of a suffix `t` of `s`, with the trimming facts carried over to `s`. */
  lemma MiddleSlice(s: string, t: string, r: string)
    requires |t| <= |s| && t == s[|s| - |t|..] && IsBlank(s[..|s| - |t|]) && (|t| > 0 ==> !IsWhiteSpace(t[0]))
    requires |r| <= |t| && r == t[..|r|] && IsBlank(t[|r|..]) && (|r| > 0 ==> !IsWhiteSpace(r[|r| - 1]))
    ensures var a := |s| - |t|;
            && 0 <= a && a + |r| <= |s| && r == s[a..a + |r|]
            && IsBlank(s[..a]) && IsBlank(s[a + |r|..])
            && (|r| > 0 ==> !IsWhiteSpace(r[0]) && !IsWhiteSpace(r[|r| - 1]))
  {
    var a := |s| - |t|;
    assert t[|r|..] == s[a + |r|..];
    if |r| > 0 {
      assert r[0] == t[0];
    }
  }

  /** Trimming leaves nothing exactly of a blank string. */
  lemma TrimEmptyIffBlank(s: string)
    ensures Trim(s) == "" <==> IsBlank(s)
  {
    TrimIsMiddleSlice(s);
    MiddleSliceEmptyIffBlank(s, Trim(s), |s| - |TrimStart(s)|);
  }

  lemma MiddleSliceEmptyIffBlank(s: string, r: string, a: nat)
    requires a <= |s| - |r| && r == s[a..a + |r|] && IsBlank(s[..a]) && IsBlank(s[a + |r|..])
    requires |r| > 0 ==> !IsWhiteSpace(r[0])
    ensures r == "" <==> IsBlank(s)
  {
    if r == "" {
      assert s == s[..a] + s[a..];
    } else {
      assert r[0] == s[a];
    }
  }

  /** A string that neither starts nor ends with white space is its own trim. */
  lemma TrimOfTrimmed(s: string)
    requires |s| > 0 ==> !IsWhiteSpace(s[0]) && !IsWhiteSpace(s[|s| - 1])
    ensures Trim(s) == s
  {
    assert TrimStart(s) == s;
  }

  /** One space on each side of a trimmed string is trimmed away. */
  lemma TrimOfPadded(s: string)
    requires |s| > 0 && !IsWhiteSpace(s[0]) && !IsWhiteSpace(s[|s| - 1])
    ensures Trim([' '] + s + [' ']) == s
  {
    var x := [' '] + s + [' '];
    assert x[1..] == s + [' '];
    assert TrimStart(s + [' ']) == s + [' '];
    assert (s + [' '])[..|s|] == s;
    assert TrimEnd(s + [' ']) == TrimEnd(s) == s;
  }

  // ---------------------------------------------------------------------------
  // Joining and splitting lines
  // ---------------------------------------------------------------------------

  /** Index of the first occurrence of `c` in `s`. */
  function FirstIndex(s: string, c: char): (i: nat)
    requires c in s
    ensures i < |s| && s[i] == c && c !in s[..i]
  {
    if s[0] == c then 0 else 1 + FirstIndex(s[1..], c)
  }

  /** `string.Join(NewLine, lines)`: separators between lines, none after the last. */
  function JoinLines(lines: seq<string>): (r: string)
  {
    if |lines| == 0 then ""
    else if |lines| == 1 then lines[0]
    else lines[0] + [NewLine] + JoinLines(lines[1..])
  }

  /** Cuts `s` at every line feed; the inverse of `JoinLines`. */
  function SplitLines(s: string): (r: seq<string>)
    ensures |r| > 0
    ensures forall k :: 0 <= k < |r| ==> NewLine !in r[k]
    decreases |s|
  {
    if NewLine !in s then [s]
    else
      var i := FirstIndex(s, NewLine);
      [s[..i]] + SplitLines(s[i + 1..])
  }

  predicate NoLineBreaks(lines: seq<string>) {
    forall k :: 0 <= k < |lines| ==> NewLine !in lines[k]
  }

  /** Splitting at the first line feed when the part before it holds none. */
  lemma SplitLinesAtFirst(a: string, b: string)
    requires NewLine !in a
    ensures SplitLines(a + [NewLine] + b) == [a] + SplitLines(b)
  {
    var s := a + [NewLine] + b;
    assert s[|a|] == NewLine;
    assert s[..|a|] == a;
    var i := FirstIndex(s, NewLine);
    assert i == |a|;
    assert s[i + 1..] == b;
  }

  /** Reading a joined block back line by line gives the lines that were joined. */
  lemma {:induction false} SplitJoin(lines: seq<string>)
    requires |lines| > 0
    requires NoLineBreaks(lines)
    ensures SplitLines(JoinLines(lines)) == lines
    decreases |lines|
  {
    if |lines| > 1 {
      SplitLinesAtFirst(lines[0], JoinLines(lines[1..]));
      SplitJoin(lines[1..]);
    }
  }

  /**
   No lines and one empty line join to the same empty text, which reads back
   as one empty line: the round trip cannot tell them apart.
   */
  lemma NoLinesJoinLikeOneEmptyLine()
    ensures JoinLines([]) == JoinLines([""]) == ""
    ensures SplitLines(JoinLines([])) == [""]
  {
  }

  /** Joining the lines of a text restores the text exactly. */
  lemma {:induction false} JoinSplit(s: string)
    ensures JoinLines(SplitLines(s)) == s
    decreases |s|
  {
    if NewLine in s {
      var i := FirstIndex(s, NewLine);
      JoinSplit(s[i + 1..]);
      assert s == s[..i] + [NewLine] + s[i + 1..];
    }
  }

  /** A line feed between two texts splits exactly there. */
  lemma {:induction false} SplitLinesAppend(a: string, b: string)
    ensures SplitLines(a + [NewLine] + b) == SplitLines(a) + SplitLines(b)
    decreases |a|
  {
    if NewLine !in a {
      SplitLinesAtFirst(a, b);
    } else {
      var i := FirstIndex(a, NewLine);
      var a0, a1 := a[..i], a[i + 1..];
      assert a == a0 + [NewLine] + a1;
      var rest := a1 + [NewLine] + b;
      assert a + [NewLine] + b == a0 + [NewLine] + rest;
      calc {
        SplitLines(a + [NewLine] + b);
        { SplitLinesAtFirst(a0, rest); }
        [a0] + SplitLines(rest);
        { SplitLinesAppend(a1, b); }
        [a0] + (SplitLines(a1) + SplitLines(b));
        { SplitLinesAtFirst(a0, a1); }
        SplitLines(a) + SplitLines(b);
      }
    }
  }

  /** Text without line feeds appended to `a` lengthens the last line of `a`. */
  lemma {:induction false} SplitLinesExtendLast(a: string, e: string)
    requires NewLine !in e
    ensures var r := SplitLines(a);
            SplitLines(a + e) == r[..|r| - 1] + [r[|r| - 1] + e]
    decreases |a|
  {
    if NewLine !in a {
      assert NewLine !in a + e;
    } else {
      var i := FirstIndex(a, NewLine);
      var a0, a1 := a[..i], a[i + 1..];
      assert a == a0 + [NewLine] + a1;
      assert a + e == a0 + [NewLine] + (a1 + e);
      SplitLinesAtFirst(a0, a1 + e);
      SplitLinesAtFirst(a0, a1);
      SplitLinesExtendLast(a1, e);
      var r1 := SplitLines(a1);
      ConsButLast(a0, r1);
      ConcatAssoc([a0], r1[..|r1| - 1], [r1[|r1| - 1] + e]);
    }
  }
}
