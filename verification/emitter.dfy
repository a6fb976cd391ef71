/**
 The writing half of the bundle handler (Program.cs lines 88-111). The
 `StreamWriter` is replaced by the sequence of calls made on it: `WriteLine`
 writes its text and a line feed, `Write` writes its text alone. A bundle is
 an optional author line followed by one block per file, and each block is an
 optional source line, a start marker, the joined content (written with
 `Write`, so without a final line feed) and an end marker.

 Besides the encoder, the module defines a decoder that reads the calls back
 into author and blocks, and relates the written text to the lines a reader
 of the bundle sees.
 */
module Emitter {
  import opened Wrappers
  import opened Text
  import opened Seqs

  const AuthorPrefix: string := "// Author: "
  const SourcePrefix: string := "// Source: "
  const StartPrefix: string := "// Start of file: "
  const EndPrefix: string := "// End of file: "

  /** One call on the writer. */
  datatype Event = WriteLine(text: string) | Write(text: string)

  /** What is written for one file: its relative path when notes are on, its name and its joined content. */
  datatype Block = Block(source: Option<string>, name: string, body: string)

  /** Everything a bundle holds, before it is written. */
  datatype Layout = Layout(author: Option<string>, blocks: seq<Block>)

  /** An author was given and is not blank. */
  predicate HasAuthor(author: Option<string>) {
    !IsNullOrWhiteSpace(author)
  }

  // ---------------------------------------------------------------------------
  // Encoding
  // ---------------------------------------------------------------------------

  function AuthorEvents(author: Option<string>): seq<Event> {
    if HasAuthor(author) then [WriteLine(AuthorPrefix + author.value)] else []
  }

  function SourceEvents(source: Option<string>): seq<Event> {
    if source.Some? then [WriteLine(SourcePrefix + source.value)] else []
  }

  function BlockEvents(b: Block): seq<Event> {
    SourceEvents(b.source) + [WriteLine(StartPrefix + b.name), Write(b.body), WriteLine(EndPrefix + b.name)]
  }

  function BlocksEvents(blocks: seq<Block>): seq<Event>
    decreases |blocks|
  {
    if |blocks| == 0 then [] else BlockEvents(blocks[0]) + BlocksEvents(blocks[1..])
  }

  /** The calls the handler makes on the writer for a bundle. */
  function Encode(layout: Layout): seq<Event> {
    AuthorEvents(layout.author) + BlocksEvents(layout.blocks)
  }

  /** The text the calls leave in the output file. */
  function Render(events: seq<Event>): string
    decreases |events|
  {
    if |events| == 0 then ""
    else
      var head := match events[0]
        case WriteLine(t) => t + [NewLine]
        case Write(t) => t;
      head + Render(events[1..])
  }

  // ---------------------------------------------------------------------------
  // Decoding
  // ---------------------------------------------------------------------------

  predicate IsLineWith(e: Event, prefix: string) {
    e.WriteLine? && StartsWith(e.text, prefix)
  }

  /** Reads blocks back from the calls; None when the calls do not have the block shape. */
  function DecodeBlocks(events: seq<Event>): (r: Option<seq<Block>>)
    decreases |events|
  {
    if |events| == 0 then Some([])
    else
      var hasSource := IsLineWith(events[0], SourcePrefix);
      var source := if hasSource then Some(events[0].text[|SourcePrefix|..]) else None;
      var rest := if hasSource then events[1..] else events;
      if |rest| < 3 || !IsLineWith(rest[0], StartPrefix) || !rest[1].Write? then None
      else
        var name := rest[0].text[|StartPrefix|..];
        if rest[2] != WriteLine(EndPrefix + name) then None
        else
          var tail :- DecodeBlocks(rest[3..]);
          Some([Block(source, name, rest[1].text)] + tail)
  }

  /** Reads a bundle back from the calls made on the writer. */
  function Decode(events: seq<Event>): (r: Option<Layout>) {
    if |events| > 0 && IsLineWith(events[0], AuthorPrefix) then
      var blocks :- DecodeBlocks(events[1..]);
      Some(Layout(Some(events[0].text[|AuthorPrefix|..]), blocks))
    else
      var blocks :- DecodeBlocks(events);
      Some(Layout(None, blocks))
  }

  /** A layout the handler can produce: an author is present only when it is not blank. */
  predicate WellFormed(layout: Layout) {
    layout.author.Some? ==> !IsBlank(layout.author.value)
  }

  lemma PrefixesDiffer()
    ensures !StartsWith(StartPrefix, SourcePrefix)
    ensures !StartsWith(SourcePrefix, AuthorPrefix) && !StartsWith(StartPrefix, AuthorPrefix)
  {
    assert StartPrefix[4] != SourcePrefix[4];
    assert SourcePrefix[3] != AuthorPrefix[3];
  }

  lemma PrefixesHaveNoLineBreak()
    ensures NewLine !in AuthorPrefix && NewLine !in SourcePrefix
    ensures NewLine !in StartPrefix && NewLine !in EndPrefix
  {
  }

  lemma StartsWithConcat(prefix: string, s: string)
    ensures StartsWith(prefix + s, prefix) && (prefix + s)[|prefix|..] == s
  {
    assert (prefix + s)[..|prefix|] == prefix;
  }

  lemma NotStartsWithConcat(p: string, q: string, s: string)
    requires |q| <= |p| && !StartsWith(p, q)
    ensures !StartsWith(p + s, q)
  {
    assert (p + s)[..|q|] == p[..|q|];
  }

  /** The first call of a non-empty list of blocks is a source or start line, never an author line. */
  lemma BlocksStartWithoutAuthor(blocks: seq<Block>)
    requires |blocks| > 0
    ensures |BlocksEvents(blocks)| > 0 && !IsLineWith(BlocksEvents(blocks)[0], AuthorPrefix)
  {
    PrefixesDiffer();
    var b := blocks[0];
    if b.source.Some? {
      NotStartsWithConcat(SourcePrefix, AuthorPrefix, b.source.value);
    } else {
      NotStartsWithConcat(StartPrefix, AuthorPrefix, b.name);
    }
  }

  /** Decoding the calls for a list of blocks gives the blocks back. */
  lemma {:induction false} DecodeBlocksEncode(blocks: seq<Block>)
    ensures DecodeBlocks(BlocksEvents(blocks)) == Some(blocks)
    decreases |blocks|
  {
    if |blocks| > 0 {
      DecodeBlocksEncode(blocks[1..]);
      DecodeOneBlock(blocks[0], BlocksEvents(blocks[1..]), blocks[1..]);
      assert blocks == [blocks[0]] + blocks[1..];
    }
  }

  /** The calls for one block in front of calls that decode to `tail` decode to the block and `tail`. */
  lemma DecodeOneBlock(b: Block, more: seq<Event>, tail: seq<Block>)
    requires DecodeBlocks(more) == Some(tail)
    ensures DecodeBlocks(BlockEvents(b) + more) == Some([b] + tail)
  {
    var core := [WriteLine(StartPrefix + b.name), Write(b.body), WriteLine(EndPrefix + b.name)];
    PrefixesDiffer();
    StartsWithConcat(StartPrefix, b.name);
    NotStartsWithConcat(StartPrefix, SourcePrefix, b.name);
    if b.source.Some? {
      assert BlockEvents(b) + more == [WriteLine(SourcePrefix + b.source.value)] + (core + more);
      DecodeSourcedBlock(b.source.value, b.name, b.body, more, tail);
    } else {
      assert BlockEvents(b) + more == core + more;
      DecodeUnsourcedBlock(b.name, b.body, more, tail);
    }
  }

  /** The start, content and end calls of a block without a source line. */
  lemma DecodeUnsourcedBlock(name: string, body: string, more: seq<Event>, tail: seq<Block>)
    requires DecodeBlocks(more) == Some(tail)
    requires StartsWith(StartPrefix + name, StartPrefix) && (StartPrefix + name)[|StartPrefix|..] == name
    requires !StartsWith(StartPrefix + name, SourcePrefix)
    ensures DecodeBlocks([WriteLine(StartPrefix + name), Write(body), WriteLine(EndPrefix + name)] + more)
            == Some([Block(None, name, body)] + tail)
  {
    var es := [WriteLine(StartPrefix + name), Write(body), WriteLine(EndPrefix + name)] + more;
    assert es[3..] == more;
  }

  /** A source line followed by the start, content and end calls of a block. */
  lemma DecodeSourcedBlock(source: string, name: string, body: string, more: seq<Event>, tail: seq<Block>)
    requires DecodeBlocks(more) == Some(tail)
    requires StartsWith(StartPrefix + name, StartPrefix) && (StartPrefix + name)[|StartPrefix|..] == name
    ensures DecodeBlocks([WriteLine(SourcePrefix + source)]
                         + ([WriteLine(StartPrefix + name), Write(body), WriteLine(EndPrefix + name)] + more))
            == Some([Block(Some(source), name, body)] + tail)
  {
    var rest := [WriteLine(StartPrefix + name), Write(body), WriteLine(EndPrefix + name)] + more;
    var es := [WriteLine(SourcePrefix + source)] + rest;
    StartsWithConcat(SourcePrefix, source);
    assert es[1..] == rest;
    assert rest[3..] == more;
  }

  /** Decoding what the handler writes gives back the author and every block, in order. */
  lemma DecodeEncode(layout: Layout)
    requires WellFormed(layout)
    ensures Decode(Encode(layout)) == Some(layout)
  {
    var es := Encode(layout);
    DecodeBlocksEncode(layout.blocks);
    if layout.author.Some? {
      StartsWithConcat(AuthorPrefix, layout.author.value);
      assert es[1..] == BlocksEvents(layout.blocks);
    } else {
      assert es == BlocksEvents(layout.blocks);
      if |layout.blocks| > 0 {
        BlocksStartWithoutAuthor(layout.blocks);
      }
    }
  }

  // ---------------------------------------------------------------------------
  // The written text
  // ---------------------------------------------------------------------------

  lemma {:induction false} RenderAppend(a: seq<Event>, b: seq<Event>)
    ensures Render(a + b) == Render(a) + Render(b)
    decreases |a|
  {
    if |a| > 0 {
      assert (a + b)[0] == a[0];
      assert (a + b)[1..] == a[1..] + b;
      RenderAppend(a[1..], b);
    } else {
      assert a + b == b;
    }
  }

  /**
   The output file begins with an author line exactly when an author that is
   not blank was given, and that line then carries the author's name.
   */
  lemma AuthorLineFirst(layout: Layout)
    ensures StartsWith(Render(Encode(layout)), AuthorPrefix) <==> HasAuthor(layout.author)
    ensures HasAuthor(layout.author) ==>
              StartsWith(Render(Encode(layout)), AuthorPrefix + layout.author.value + [NewLine])
  {
    var rest := Render(BlocksEvents(layout.blocks));
    RenderAppend(AuthorEvents(layout.author), BlocksEvents(layout.blocks));
    if HasAuthor(layout.author) {
      RenderOneLine(AuthorPrefix + layout.author.value);
      LineStartsWith(AuthorPrefix, layout.author.value, rest);
    } else if |layout.blocks| > 0 {
      BlocksRenderNotAuthor(layout.blocks);
    }
  }

  lemma RenderOneLine(text: string)
    ensures Render([WriteLine(text)]) == text + [NewLine]
  {
    assert [WriteLine(text)][1..] == [];
  }

  /** Text written as a line that starts with `p`, followed by more text, starts with `p` and with that line. */
  lemma LineStartsWith(p: string, v: string, rest: string)
    ensures StartsWith(p + v + [NewLine] + rest, p)
    ensures StartsWith(p + v + [NewLine] + rest, p + v + [NewLine])
  {
    var line := p + v + [NewLine];
    StartsWithConcat(line, rest);
    assert line + rest == p + (v + [NewLine] + rest);
    StartsWithConcat(p, v + [NewLine] + rest);
  }

  /** Text written as a line that starts with `p` does not start with `q` when `p` does not. */
  lemma LineNotStartsWith(p: string, v: string, rest: string, q: string)
    requires |q| <= |p| && !StartsWith(p, q)
    ensures !StartsWith(p + v + [NewLine] + rest, q)
  {
    assert p + v + [NewLine] + rest == p + (v + [NewLine] + rest);
    NotStartsWithConcat(p, q, v + [NewLine] + rest);
  }

  /** The rendering of a non-empty list of blocks starts with a source or start line. */
  lemma {:induction false} BlocksRenderNotAuthor(blocks: seq<Block>)
    requires |blocks| > 0
    ensures !StartsWith(Render(BlocksEvents(blocks)), AuthorPrefix)
  {
    PrefixesDiffer();
    var b := blocks[0];
    var events := BlocksEvents(blocks);
    var start := [WriteLine(StartPrefix + b.name)];
    var later := BlocksEvents(blocks[1..]);
    var rest := [Write(b.body), WriteLine(EndPrefix + b.name)] + later;
    var core := [WriteLine(StartPrefix + b.name), Write(b.body), WriteLine(EndPrefix + b.name)];
    assert events == (SourceEvents(b.source) + core) + later;
    ConcatAssoc(SourceEvents(b.source), core, later);
    assert core == start + [Write(b.body), WriteLine(EndPrefix + b.name)];
    ConcatAssoc(start, [Write(b.body), WriteLine(EndPrefix + b.name)], later);
    if b.source.Some? {
      assert events == [WriteLine(SourcePrefix + b.source.value)] + (start + rest);
      RenderLineFirst(SourcePrefix + b.source.value, start + rest);
      LineNotStartsWith(SourcePrefix, b.source.value, Render(start + rest), AuthorPrefix);
    } else {
      assert events == start + rest;
      RenderLineFirst(StartPrefix + b.name, rest);
      LineNotStartsWith(StartPrefix, b.name, Render(rest), AuthorPrefix);
    }
  }

  /** The lines of the optional source line. */
  function SourceLines(source: Option<string>): seq<string> {
    if source.Some? then [SourcePrefix + source.value] else []
  }

  /**
   How a block reads when the bundle is cut into lines: the source and start
   lines, every line of the content but the last, then the last content line
   with the end marker glued to it, and the empty piece after the block's
   final line feed.
   */
  function LinesOfBlock(source: Option<string>, name: string, content: seq<string>): seq<string>
    requires |content| > 0
  {
    SourceLines(source)
    + ([StartPrefix + name] + content[..|content| - 1] + [content[|content| - 1] + EndPrefix + name, ""])
  }

  /**
   The text written for one block, cut into lines: the end marker is not on a
   line of its own but follows the last line of the content.
   */
  lemma BlockLines(b: Block)
    requires b.source.Some? ==> NewLine !in b.source.value
    requires NewLine !in b.name
    ensures SplitLines(Render(BlockEvents(b))) == LinesOfBlock(b.source, b.name, SplitLines(b.body))
  {
    var core := [WriteLine(StartPrefix + b.name), Write(b.body), WriteLine(EndPrefix + b.name)];
    var content := SplitLines(b.body);
    UnsourcedBlockLines(b.name, b.body);
    if b.source.Some? {
      var src := SourcePrefix + b.source.value;
      PrefixesHaveNoLineBreak();
      NoLineBreakInConcat(SourcePrefix, b.source.value);
      assert BlockEvents(b) == [WriteLine(src)] + core;
      RenderLineFirst(src, core);
      SplitLinesAtFirst(src, Render(core));
      assert LinesOfBlock(b.source, b.name, content) == [src] + LinesOfBlock(None, b.name, content);
    } else {
      assert BlockEvents(b) == core;
    }
  }

  lemma NoLineBreakInConcat(a: string, b: string)
    requires NewLine !in a && NewLine !in b
    ensures NewLine !in a + b
  {
  }

  /** The lines of a block without a source line. */
  lemma UnsourcedBlockLines(name: string, body: string)
    requires NewLine !in name
    ensures SplitLines(Render([WriteLine(StartPrefix + name), Write(body), WriteLine(EndPrefix + name)]))
            == LinesOfBlock(None, name, SplitLines(body))
  {
    var content := SplitLines(body);
    var n := |content|;
    var start := StartPrefix + name;
    var end := EndPrefix + name;
    PrefixesHaveNoLineBreak();
    NoLineBreakInConcat(StartPrefix, name);
    NoLineBreakInConcat(EndPrefix, name);
    CoreLines(start, body, end);
    assert content[n - 1] + end == content[n - 1] + EndPrefix + name;
  }

  lemma RenderLineFirst(line: string, rest: seq<Event>)
    ensures Render([WriteLine(line)] + rest) == line + [NewLine] + Render(rest)
  {
    assert ([WriteLine(line)] + rest)[1..] == rest;
  }

  /** The start marker, content and end marker of one block, seen as lines. */
  lemma CoreLines(start: string, body: string, end: string)
    requires NewLine !in start && NewLine !in end
    ensures var content := SplitLines(body);
            SplitLines(Render([WriteLine(start), Write(body), WriteLine(end)]))
            == [start] + content[..|content| - 1] + [content[|content| - 1] + end, ""]
  {
    var content := SplitLines(body);
    var n := |content|;
    var tail := body + end;
    RenderCore(start, body, end);
    SplitLinesAppend(start, tail + [NewLine] + "");
    assert SplitLines(start) == [start];
    SplitLinesAppend(tail, "");
    assert SplitLines("") == [""];
    SplitLinesExtendLast(body, end);
    assert SplitLines(tail) == content[..n - 1] + [content[n - 1] + end];
    FrontAndLastTwo(start, content[..n - 1], content[n - 1] + end, "");
  }

  lemma RenderCore(start: string, body: string, end: string)
    ensures Render([WriteLine(start), Write(body), WriteLine(end)]) == start + [NewLine] + (body + end + [NewLine] + "")
  {
    var core := [WriteLine(start), Write(body), WriteLine(end)];
    assert core[1..] == [Write(body), WriteLine(end)];
    assert core[2..] == [WriteLine(end)];
    assert Render([WriteLine(end)]) == end + [NewLine];
    assert Render([Write(body), WriteLine(end)]) == body + (end + [NewLine]);
  }

  /** With content read as lines, the block shows every line but the last on its own. */
  lemma {:induction false} BlockLinesOfContent(source: Option<string>, name: string, lines: seq<string>)
    requires source.Some? ==> NewLine !in source.value
    requires NewLine !in name
    requires |lines| > 0 && NoLineBreaks(lines)
    ensures SplitLines(Render(BlockEvents(Block(source, name, JoinLines(lines)))))
            == LinesOfBlock(source, name, lines)
  {
    SplitJoin(lines);
    BlockLines(Block(source, name, JoinLines(lines)));
  }

  /**
   An empty file's block: the start marker, then the end marker on a line of
   its own, exactly as for a file holding one empty line.
   */
  lemma EmptyContentBlockLines(source: Option<string>, name: string)
    requires source.Some? ==> NewLine !in source.value
    requires NewLine !in name
    ensures SplitLines(Render(BlockEvents(Block(source, name, JoinLines([])))))
            == LinesOfBlock(source, name, [""])
            == SourceLines(source) + [StartPrefix + name, EndPrefix + name, ""]
  {
    NoLinesJoinLikeOneEmptyLine();
    assert Block(source, name, JoinLines([])) == Block(source, name, JoinLines([""]));
    BlockLinesOfContent(source, name, [""]);
    OneEmptyLineOfBlock(source, name);
  }

  /** With one empty content line, the end marker stands on a line of its own. */
  lemma OneEmptyLineOfBlock(source: Option<string>, name: string)
    ensures LinesOfBlock(source, name, [""]) == SourceLines(source) + [StartPrefix + name, EndPrefix + name, ""]
  {
    var content: seq<string> := [""];
    assert content[..0] == [];
    assert content[0] + EndPrefix + name == EndPrefix + name;
  }
}
