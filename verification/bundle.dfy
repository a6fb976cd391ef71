/**
 The `bundle` command handler (Program.cs lines 50-120) as one function from
 its options, the working directory, the enumerated paths and each file's
 lines to its outcome. The steps run in the handler's order: validation,
 collection, the empty check, sorting, then reading, filtering and writing
 each file in sorted order.
 */
module Bundle {
  import opened Wrappers
  import opened Text
  import opened Paths
  import opened Sorting
  import opened Validation
  import opened Collection
  import opened LineFilter
  import opened Emitter

  /** The command's options; `author` is None when the option was not given. */
  datatype Options = Options(
    language: string,
    note: bool,
    sort: string,
    removeEmptyLines: bool,
    author: Option<string>)

  /**
   How one invocation ends. Only `Bundled` carries writer calls; the partial
   output a read failure leaves behind is not modelled.
   */
  datatype Outcome =
    | Rejected(reason: Rejection)
    | NoFiles
    | ReadFailure(path: string)
    | Bundled(events: seq<Event>)

  // ---------------------------------------------------------------------------
  // Sorting
  // ---------------------------------------------------------------------------

  /**
   The key the files are ordered by. The `switch` compares the sort option as
   given, not lower-cased, so only "type" itself selects the extension.
   */
  function SortKey(sort: string, path: string): string {
    if sort == "type" then Extension(path) else FileName(path)
  }

  /**
   The files in emission order: a permutation of the collected files, ordered
   by extension for "type" and by file name for any other sort option, with
   files of equal key in enumeration order.
   */
  function SortFiles(files: seq<string>, sort: string): (r: seq<string>)
    ensures multiset(r) == multiset(files)
    ensures sort == "type" ==> forall i, j :: 0 <= i < j < |r| ==> Leq(Extension(r[i]), Extension(r[j]))
    ensures sort != "type" ==> forall i, j :: 0 <= i < j < |r| ==> Leq(FileName(r[i]), FileName(r[j]))
    ensures SameKeyOrder(r, files, p => SortKey(sort, p))
  {
    var r := SortBy(files, p => SortKey(sort, p));
    assert SortedBy(r, p => SortKey(sort, p));
    r
  }

  /**
   "Type" passes validation like "type", yet the files are then sorted by
   name, exactly as with "name".
   */
  lemma {:induction false} CapitalisedTypeSortsByName(language: string, files: seq<string>)
    ensures Validate(language, "Type") == Validate(language, "type")
    ensures SortFiles(files, "Type") == SortFiles(files, "name")
  {
    var lowered := ToLower("Type");
    assert lowered[0] == 't' && lowered[1] == 'y' && lowered[2] == 'p' && lowered[3] == 'e';
    assert lowered == ToLower("type");
    SortByDependsOnKeysOnly(files, p => SortKey("Type", p), p => SortKey("name", p));
  }

  // ---------------------------------------------------------------------------
  // Reading and writing
  // ---------------------------------------------------------------------------

  /** The block written for one file whose lines were read. */
  function FileBlock(opts: Options, root: string, path: string, lines: seq<string>): Block {
    Block(
      if opts.note then Some(RelativePath(root, path)) else None,
      FileName(path),
      JoinLines(FilterContent(opts.removeEmptyLines, lines)))
  }

  /** The block for the file, with its relative path, name and filtered content. */
  predicate DescribesFile(b: Block, opts: Options, root: string, path: string, lines: seq<string>) {
    && (b.source.Some? <==> opts.note)
    && (opts.note ==> b.source.value == RelativePath(root, path))
    && b.name == FileName(path)
    && b.body == JoinLines(FilterContent(opts.removeEmptyLines, lines))
  }

  /**
   Reads the files in order. The first file that cannot be read (a path with
   no entry in `contents`) ends the run.
   */
  function ReadBlocks(opts: Options, root: string, files: seq<string>, contents: map<string, seq<string>>)
    : (r: Result<seq<Block>, string>)
    ensures r.Success? <==> forall i :: 0 <= i < |files| ==> files[i] in contents
    ensures r.Success? ==> |r.value| == |files|
    ensures r.Success? ==> forall i :: 0 <= i < |files| ==>
                             DescribesFile(r.value[i], opts, root, files[i], contents[files[i]])
    ensures r.Failure? ==> exists i :: 0 <= i < |files| && files[i] == r.error && files[i] !in contents
                                     && forall j :: 0 <= j < i ==> files[j] in contents
    decreases |files|
  {
    if |files| == 0 then Success([])
    else if files[0] !in contents then Failure(files[0])
    else
      var first := FileBlock(opts, root, files[0], contents[files[0]]);
      match ReadBlocks(opts, root, files[1..], contents)
      case Failure(p) =>
        var i :| 0 <= i < |files[1..]| && files[1..][i] == p && files[1..][i] !in contents
                 && forall j :: 0 <= j < i ==> files[1..][j] in contents;
        assert files[i + 1] == p;
        Failure(p)
      case Success(rest) =>
        assert forall i :: 0 < i < |files| ==> files[i] == files[1..][i - 1];
        Success([first] + rest)
  }

  /**
   An empty file and a file holding one empty line give the same block, with
   an empty body, whether or not blank lines are removed.
   */
  lemma EmptyFileBlockLikeOneEmptyLine(opts: Options, root: string, path: string)
    ensures FileBlock(opts, root, path, []) == FileBlock(opts, root, path, [""])
    ensures FileBlock(opts, root, path, []).body == ""
  {
    NoLinesJoinLikeOneEmptyLine();
    assert IsBlank("");
    assert RemoveBlankLines([""]) == [];
  }

  /** The author written at the top: the given author unless it is missing or blank. */
  function AuthorLine(author: Option<string>): Option<string> {
    if HasAuthor(author) then author else None
  }

  // ---------------------------------------------------------------------------
  // The handler
  // ---------------------------------------------------------------------------

  /**
   One `bundle` invocation: validation, collection, the empty check, sorting,
   then reading and writing every file in sorted order. `paths` are the full
   paths `Directory.GetFiles` returns, each starting with `root`, and
   `contents` holds the lines each file gives when it is read during the run;
   the output file, which may itself be among the paths, is not modelled.
   */
  function Run(opts: Options, root: string, paths: seq<string>, contents: map<string, seq<string>>): Outcome {
    match Validate(opts.language, opts.sort)
    case Some(reason) => Rejected(reason)
    case None =>
      var collected := Collect(paths, opts.language);
      if |collected| == 0 then NoFiles
      else
        match ReadBlocks(opts, root, SortFiles(collected, opts.sort), contents)
        case Failure(p) => ReadFailure(p)
        case Success(blocks) => Bundled(Encode(Layout(AuthorLine(opts.author), blocks)))
  }

  /**
   The language is checked first, then the sort option, and only then are
   files collected; with nothing collected the run stops before writing.
   */
  lemma RunChecksInOrder(opts: Options, root: string, paths: seq<string>, contents: map<string, seq<string>>)
    ensures var r := Run(opts, root, paths, contents);
            && (r == Rejected(InvalidLanguage) <==> ToLower(opts.language) !in ValidLanguages)
            && (r == Rejected(InvalidSort)
                <==> ToLower(opts.language) in ValidLanguages && ToLower(opts.sort) !in ValidSortOptions)
            && (r == NoFiles
                <==> Validate(opts.language, opts.sort) == None && Collect(paths, opts.language) == [])
  {
  }

  /**
   A run writes the bundle exactly when the options are valid, some file is
   collected and every collected file can be read; otherwise the reported
   unreadable file is one of the collected files.
   */
  lemma RunWritesWhenAllFilesRead(opts: Options, root: string, paths: seq<string>, contents: map<string, seq<string>>)
    ensures var r := Run(opts, root, paths, contents);
            && (r.ReadFailure? ==> r.path in Collect(paths, opts.language) && r.path !in contents)
            && (r.Bundled?
                <==> && Validate(opts.language, opts.sort) == None
                     && Collect(paths, opts.language) != []
                     && forall p :: p in Collect(paths, opts.language) ==> p in contents)
  {
    var collected := Collect(paths, opts.language);
    if Validate(opts.language, opts.sort) == None && collected != [] {
      var files := SortFiles(collected, opts.sort);
      SameElements(collected, files);
      var read := ReadBlocks(opts, root, files, contents);
      assert Run(opts, root, paths, contents) == if read.Success? then Bundled(Encode(Layout(AuthorLine(opts.author), read.value))) else ReadFailure(read.error);
      if read.Failure? {
        var i :| 0 <= i < |files| && files[i] == read.error && files[i] !in contents;
      }
      assert read.Success? <==> forall p :: p in collected ==> p in contents;
    }
  }

  /**
   What a successful run writes reads back as the author (when it is not
   blank) followed by one block per collected file in sorted order, each with
   its relative path when notes are on, its file name and its filtered content;
   and the output starts with an author line exactly when the author is not blank.
   */
  lemma RunWritesSortedBlocks(opts: Options, root: string, paths: seq<string>, contents: map<string, seq<string>>)
    requires Run(opts, root, paths, contents).Bundled?
    ensures var events := Run(opts, root, paths, contents).events;
            var files := SortFiles(Collect(paths, opts.language), opts.sort);
            && Decode(events).Some?
            && Decode(events).value.author == AuthorLine(opts.author)
            && |Decode(events).value.blocks| == |files|
            && (forall i :: 0 <= i < |files| ==>
                  DescribesFile(Decode(events).value.blocks[i], opts, root, files[i], contents[files[i]]))
            && (StartsWith(Render(events), AuthorPrefix) <==> HasAuthor(opts.author))
  {
    var files := SortFiles(Collect(paths, opts.language), opts.sort);
    var blocks := ReadBlocks(opts, root, files, contents).value;
    var layout := Layout(AuthorLine(opts.author), blocks);
    DecodeEncode(layout);
    AuthorLineFirst(layout);
  }

  /**
   The enumerated paths are full paths under the working directory, and the
   exclusion tests them whole: in a directory whose own path contains an
   excluded token, a valid run always ends with "no files".
   */
  lemma {:induction false} ExcludedDirectoryFindsNoFiles(
    opts: Options, root: string, paths: seq<string>, contents: map<string, seq<string>>, token: string)
    requires token in ExcludedDirs && Contains(root, token)
    requires forall i :: 0 <= i < |paths| ==> StartsWith(paths[i], root)
    ensures Run(opts, root, paths, contents).NoFiles? || Run(opts, root, paths, contents).Rejected?
    ensures Validate(opts.language, opts.sort) == None ==> Run(opts, root, paths, contents) == NoFiles
  {
    ExcludedRootCollectsNothing(paths, root, token, opts.language);
  }

  /** "/home/robin/app" contains "bin", so a valid run there finds no files. */
  lemma RobinsHomeFindsNoFiles(opts: Options, paths: seq<string>, contents: map<string, seq<string>>)
    requires Validate(opts.language, opts.sort) == None
    requires forall i :: 0 <= i < |paths| ==> StartsWith(paths[i], "/home/robin/app")
    ensures Run(opts, "/home/robin/app", paths, contents) == NoFiles
  {
    assert OccursAt("/home/robin/app", "bin", 8);
    assert "bin" in ExcludedDirs;
    ExcludedDirectoryFindsNoFiles(opts, "/home/robin/app", paths, contents, "bin");
  }

  /** A permutation has the same elements, each at some index. */
  lemma SameElements(s: seq<string>, t: seq<string>)
    requires multiset(s) == multiset(t)
    ensures forall p :: p in s <==> p in t
    ensures (forall i :: 0 <= i < |t| ==> t[i] in s) && (forall i :: 0 <= i < |s| ==> s[i] in t)
  {
    assert forall p :: p in s <==> p in multiset(s);
    assert forall p :: p in t <==> p in multiset(t);
  }
}
