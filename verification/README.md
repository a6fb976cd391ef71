# fib: the bundle and create-rsp commands in Dafny

`fib` is a small command-line tool with two commands:

- `bundle` collects the code files of one language under the current directory and writes them into a single text file, sorted by name or by extension. It can prefix each file with its relative path, drop blank lines and put an author line at the top.
- `create-rsp` asks for the same options one line at a time and writes a `bundle` command line to `bundle.rsp`, which the tool can replay with `fib @bundle.rsp`.

This project models both handlers of `Program.cs` as pure functions over explicit inputs:

- the full paths `Directory.GetFiles` enumerates, each starting with the working directory;
- each file's lines, as a map from path to lines;
- the console input, as a sequence of lines where None is end of input.

It then proves what the handlers promise.

Modules, in pipeline order:

- `Validation`: the two fixed option lists and the case-insensitive check of `--language` and `--sort`.
- `Collection`: the exclusion of build-output paths (substring match on `bin`, `obj`, `debug`, `release`) and the language filter by extension.
- `Paths`: `GetFileName`, `GetExtension` and `GetRelativePath`, with both '/' and '\' as separators, as on Windows.
- `Sorting`: `OrderBy` as a stable insertion sort. Keys are compared in ordinal string order, where .NET uses the current culture's order (see Left out). The proofs show it is a permutation, ordered, stable, and the only sequence with those three properties.
- `LineFilter`: the optional removal of blank lines.
- `Emitter`: the calls made on the `StreamWriter`, as a sequence of `WriteLine`/`Write` events. A decoder reads them back, and a view relates the rendered text to the lines a reader sees.
- `Bundle`: the whole `bundle` handler, with an `Outcome` that is a rejection, "no files", a read failure or the written events.
- `Rsp`: the `create-rsp` dialogue and the command line it writes. A parser for that command line proves the round trip.
- `Text`, `Seqs`, `Wrappers`: the string primitives (`ToLower`, `Trim`, `IsNullOrWhiteSpace`, `Join`, line splitting), order-preserving filtering, and `Option`/`Result`.

## Model

| member | source | states |
|---|---|---|
| Validation.Validate | Program.cs:54-64 | The language is rejected exactly when its lower-case form is not one of c#, java, js, all. The sort is rejected exactly when the language passed and its lower-case form is not name or type. The result is None exactly when both pass. |
| Validation.ValidListsAreLowerCase | Program.cs:4-5 | Every entry of both option lists is already lower case, so lower-casing the input is enough to match them. |
| Validation.ValidateAcceptsAnyCase | Program.cs:54-64 | An option passes exactly when it spells a list entry in any mix of ASCII case. The language is the first one rejected. |
| Validation.ValidateIgnoresCase | Program.cs:54-64 | Options that differ only in ASCII case get the same verdict. |
| Collection.Collect | Program.cs:70-74 | A path is collected iff it was enumerated, contains none of the excluded tokens as a substring, and either the language is "all" or the path ends in "." plus the language, ignoring case. Enumeration order and multiplicity are kept, and the result is a subsequence of the enumerated paths. |
| Collection.CollectIsTwoFilters | Program.cs:72-74 | Collection equals the exclusion `Where` followed by the language `Where`, chained as in the handler. |
| Collection.CollectAll | Program.cs:74 | With the language "all", in any case, only the exclusion filter removes paths. |
| Collection.CSharpNeverMatchesCs | Program.cs:74 | The language is used literally as the extension, so "c#" never collects a file ending in ".cs". |
| Collection.ExcludedRootCollectsNothing | Program.cs:69-73 | When the working directory's own path contains an excluded token, no file under it is collected. |
| Bundle.ExcludedDirectoryFindsNoFiles | Program.cs:69-80 | In such a directory a run is either rejected by validation or ends with "no files", and with valid options it always ends with "no files". |
| Bundle.RobinsHomeFindsNoFiles | Program.cs:69-80 | A valid run in "/home/robin/app" ends with "no files", because "robin" contains "bin". |
| Collection.SubstringExclusion | Program.cs:70-73 | The exclusion is a case-sensitive substring test: "src/binoculars.js" is excluded and "src/Bin/app.js" is not. |
| Paths.FileName | Program.cs:85 | The file name is the longest suffix of the path without a separator; a separator precedes it when it is not the whole path. |
| Paths.Extension | Program.cs:84 | The extension starts with the file name's last dot and holds no other dot. It is empty exactly when the file name has no dot or ends with one. |
| Paths.RelativePath | Program.cs:99 | A path under the root loses the root. It also loses the separator that follows, unless the root already ends in one, as "/" and `C:\` do. Any other path is returned unchanged. |
| Paths.RelativePathOfCombine | Program.cs:99 | For a file that `Directory.GetFiles` lists as the root combined with a non-empty relative path, `GetRelativePath` returns that relative path. This holds with either separator, and whether or not the root ends in one. |
| Paths.RelativePathExamples | Program.cs:99 | Under "/" the file "/x.js" is "x.js", and under `C:\` the file `C:\src\x.js` is `src\x.js`. Under "/home/app" the file "/home/app/x.js" is "x.js". "/home/apple/x.js" is not under the root, and the model returns it unchanged by convention: `GetFiles` never lists such a path (see Left out). |
| Sorting.SortBy | Program.cs:84-85 | `OrderBy` returns a permutation of its input, ordered by key, in which the elements of each key keep their input order. |
| Sorting.SortByIsTheStableSort | Program.cs:84-85 | Any sequence that is ordered by key and keeps the input order within each key equals `SortBy`'s result. |
| Sorting.SortByDependsOnKeysOnly | Program.cs:82-86 | Two key functions that agree on every element sort alike. |
| Bundle.SortFiles | Program.cs:82-86 | The raw sort option "type" orders the files by extension; any other value orders them by file name. The result is a permutation that keeps the enumeration order among files with equal keys. |
| Bundle.CapitalisedTypeSortsByName | Program.cs:60-86 | "Type" passes validation exactly like "type", yet the `switch` then sorts by name, as it does for "name". |
| LineFilter.FilterContent | Program.cs:102-106 | Without the flag the lines are written as read. With it, the result keeps every line that is not empty or white space only, as often as it occurs and in file order, and keeps no other line. |
| LineFilter.RemoveBlankLinesIsTheBlankFreeSubsequence | Program.cs:105 | The filtered content is the only subsequence of the file's lines that has no blank line and keeps each non-blank line as often as it occurs. |
| LineFilter.RemoveBlankLinesUnique | Program.cs:105 | Among the blank-free subsequences of the lines, the filtered content is the only one as long as the filtered content. |
| LineFilter.RemoveBlankLinesIdempotent | Program.cs:105 | Removing blank lines a second time changes nothing. |
| LineFilter.RemoveBlankLinesKeepsCleanContent | Program.cs:105 | A file without blank lines passes through unchanged. |
| Bundle.ReadBlocks | Program.cs:95-110 | Reading succeeds iff every sorted file can be read. Each block then holds the relative path exactly when notes are on, the file name, and the filtered lines joined with newlines. On failure, the reported file is the first unreadable one. |
| Emitter.DecodeEncode | Program.cs:88-111 | The writer calls of a bundle read back as its author (present only when not blank) and its blocks, in order. |
| Emitter.AuthorLineFirst | Program.cs:90-93 | The output starts with "// Author: " exactly when the author is given and not blank, and that first line then carries the author. |
| Emitter.BlockLines | Program.cs:108-110 | Cut into lines, a block is the optional source line, the start marker, the content lines, and the end marker glued to the last content line. |
| Emitter.BlockLinesOfContent | Program.cs:108-110 | For content read as a non-empty list of lines without line breaks, the block shows every line but the last on its own line, and the end marker follows the last one. |
| Emitter.EmptyContentBlockLines | Program.cs:102-110 | An empty file's block is the optional source line, the start marker and the end marker on a line of its own, the same lines as for a file holding one empty line. |
| Text.SplitJoin | Program.cs:109 | Joining a non-empty list of lines without line breaks with newlines, then cutting the result at newlines, gives the lines back. |
| Text.NoLinesJoinLikeOneEmptyLine | Program.cs:109 | No lines and one empty line both join to the empty text, which reads back as one empty line, so the empty list does not survive the round trip. |
| Bundle.EmptyFileBlockLikeOneEmptyLine | Program.cs:102-109 | An empty file, which `File.ReadAllLines` reads as no lines, gives the same block as a file holding one empty line. Its body is empty whether or not blank lines are removed. |
| Text.JoinSplit | Program.cs:109 | Cutting a text at its newlines and joining the pieces restores the text. |
| Bundle.RunChecksInOrder | Program.cs:54-80 | The run is rejected for the language first, then for the sort option, and stops with "no files" exactly when the options are valid and nothing is collected. |
| Bundle.RunWritesWhenAllFilesRead | Program.cs:72-111 | The bundle is written exactly when the options are valid, some file is collected and every collected file can be read. A reported unreadable file is a collected file. |
| Bundle.RunWritesSortedBlocks | Program.cs:82-111 | A written bundle reads back as the author line (when not blank) and one block per collected file in sorted order. Each block holds the relative path when notes are on, the file name and the filtered content. |
| Rsp.ParseCommandOfCommand | Program.cs:179-183 | The written command line reads back as the answers it was built from. A blank author is left out. Values must not contain a double quote. |
| Rsp.ValidAnswersWriteAcceptedCommand | Program.cs:179-183 | For a valid language and sort, the command line passes the bundle command's validation. When the output path and the author contain no double quote, it also reads back as the recorded answers. |
| Rsp.PromptLanguage | Program.cs:131-140 | An accepted language is one of the valid languages, read from a line of input after the starting point. |
| Rsp.PromptLanguageStopsAtFirstAnswer | Program.cs:131-140 | The prompt stops at the first line that, trimmed and lower-cased, names a valid language, and accepts that language. It never ends exactly when no remaining line does. |
| Rsp.PromptSort | Program.cs:150-167 | The prompt always ends after reading at least one line, with "name" or "type". |
| Rsp.PromptSortStopsAtFirstAnswer | Program.cs:151-167 | The prompt stops at the first line that is null, blank after trimming, or a valid sort option. The sort is "name" for a null or blank line and the named option otherwise. |
| Rsp.PromptSortAtEnd | Program.cs:154-160 | At end of input the null read ends the prompt with "name". |
| Rsp.Interview | Program.cs:127-177 | The dialogue ends exactly when some input line names a valid language. Its answers then pass the bundle command's validation. |
| Rsp.InterviewExample | Program.cs:131-177 | "python" is asked again and " JS " is accepted as "js". Reads at the end of input then give the output "bundle.txt", no note, sort by name, blank lines kept and no author. |
| Text.TrimIsMiddleSlice | Program.cs:134 | `Trim` returns the slice of the input between its leading and trailing white space. The slice neither starts nor ends with white space. |
| Text.TrimEmptyIffBlank | Program.cs:156 | A line trims to the empty string exactly when it is empty or white space only, so a blank sort answer selects the default. |

## Left out

- Console and file I/O are not modelled: `Directory.GetFiles`, `File.ReadAllLines`, the `StreamWriter`, `File.WriteAllText` of `bundle.rsp` and every `Console.WriteLine` message. Paths, file contents and input lines are parameters, and the writer is a sequence of calls.
- The "*.*" pattern and recursive enumeration are not modelled: the enumerated paths are an input sequence.
- The System.CommandLine parser is not modelled: required options, aliases, the "name" default of `--sort`, `FileInfo.FullName` and the `@bundle.rsp` expansion. The command line is read back by a small parser for the exact shape `create-rsp` writes.
- `ToLower` and `OrdinalIgnoreCase` fold ASCII letters only; culture-specific case mapping is not modelled.
- `Path.GetRelativePath` is modelled only for paths found under the root. It strips the root, and also the separator after it unless the root ends in one. `..` segments, case-insensitive roots and other normalisation are not modelled.
- `Environment.NewLine` is a single line feed.
- Exceptions are not modelled, including the `catch` that reports an error after a partly written output file. A file that cannot be read ends the run with `ReadFailure` before anything is written, which stands for the error message only.
- The language prompt loops for ever once input ends. `Rsp.PromptLanguage` and `Rsp.Interview` return None in that case.
- Rsp.Command: has no contract of its own. Its property is the round trip `Rsp.ParseCommandOfCommand`.
- Rsp.ParseCommandOfCommand: requires that no value contains a double quote, because the command line does not escape quotes, and a quote inside a value would end that value early.
- Rsp.PromptSort: states only that the prompt ends with a valid option. Where it stops and what it chooses are stated by `Rsp.PromptSortStopsAtFirstAnswer`.
- Rsp.PromptLanguage: states only the accepted language's validity and position. The stopping rule is stated by `Rsp.PromptLanguageStopsAtFirstAnswer`.
- Sorting.SortBy: compares keys in ordinal order. `OrderBy` with `Comparer<string>.Default` compares them in the current culture's order. For example, ordinal order puts "B.js" before "a.js", while a culture order puts "a.js" first. Culture collation is not modelled.
- Paths.FileName: treats both '/' and '\' as separators, as .NET does on Windows. On Linux and macOS, `GetFileName` and `GetExtension` split only at '/', so a '\' in a file name is not modelled.
- Rsp.ValidAnswersWriteAcceptedCommand: the read-back half requires that the output path and the author contain no double quote. The prompts accept quotes in both, and the command line writes them unescaped, as noted for `Rsp.ParseCommandOfCommand`.
- Paths.RelativePath: returns a path that is not under the root unchanged. `Path.GetRelativePath` would return it with `..` segments, for example "../apple/x.js" for "/home/apple/x.js" under "/home/app". `Directory.GetFiles` lists only paths under the root, so the bundler never meets this case.
- Bundle.Run: `contents` stands for the lines each file holds when it is read during the run, and the output path is not modelled. The output file can itself be a collected path, for example on a second run with `--language all`, or with `--output x.js --language js`, when the earlier output is in the working directory. The program creates the writer before reading, which truncates that file. Reading it then fails with a sharing violation on Windows, which the handler reports as an error, or returns only what has been flushed. The model instead bundles whatever `contents` gives for that path.
