/**
 The `create-rsp` command (Program.cs lines 122-191): it asks for each bundle
 option on its own line of input and writes one `bundle` command line that the
 CLI reads back from `bundle.rsp`. The input is a sequence of lines, with None
 standing for the null that `Console.ReadLine` returns at end of input.
 */
module Rsp {
  import opened Wrappers
  import opened Text
  import opened Validation

  /** The answers that end up in the response file. */
  datatype Answers = Answers(
    language: string,
    output: string,
    note: bool,
    sort: string,
    removeEmptyLines: bool,
    author: Option<string>)

  // ---------------------------------------------------------------------------
  // The command line written to bundle.rsp
  // ---------------------------------------------------------------------------

  const LanguageFlag := "bundle --language \""
  const OutputFlag := " --output \""
  const NoteFlag := " --note"
  const SortFlag := " --sort \""
  const RemoveFlag := " --remove-empty-lines"
  const AuthorFlag := " --author \""

  /**
   The text of the response file: the language and output path quoted, the
   note switch, the quoted sort, the blank-line switch, then the author when
   it is not blank.
   */
  function Command(a: Answers): string {
    LanguageFlag + (a.language + "\"" + (OutputFlag + (a.output + "\"" + CommandTail(a))))
  }

  /** Everything after the output path. */
  function CommandTail(a: Answers): string {
    (if a.note then NoteFlag else "")
    + (SortFlag + (a.sort + "\"" + ((if a.removeEmptyLines then RemoveFlag else "") + AuthorPart(a.author))))
  }

  function AuthorPart(author: Option<string>): string {
    if !IsNullOrWhiteSpace(author) then AuthorFlag + author.value + "\"" else ""
  }

  // ---------------------------------------------------------------------------
  // Reading a response file back
  // ---------------------------------------------------------------------------

  /** The text after `lit` when `s` starts with it. */
  function Expect(s: string, lit: string): (r: Option<string>)
    ensures r.Some? <==> StartsWith(s, lit)
    ensures r.Some? ==> s == lit + r.value
  {
    if StartsWith(s, lit) then Some(s[|lit|..]) else None
  }

  /** Splits `s` at its first double quote into the value before it and the text after it. */
  function ReadQuoted(s: string): (r: Option<(string, string)>)
    ensures r.Some? <==> '"' in s
    ensures r.Some? ==> '"' !in r.value.0 && s == r.value.0 + "\"" + r.value.1
  {
    if '"' in s then
      var i := FirstIndex(s, '"');
      assert s == s[..i] + "\"" + s[i + 1..];
      Some((s[..i], s[i + 1..]))
    else None
  }

  /** The text after `flag` when `s` starts with it, otherwise `s` itself. */
  function Switch(s: string, flag: string): (bool, string) {
    if StartsWith(s, flag) then (true, s[|flag|..]) else (false, s)
  }

  /**
   Reads a command line of the shape `Command` writes: quoted values that
   contain no double quote, the optional switches in their fixed places.
   */
  function ParseCommand(s: string): Option<Answers> {
    var r0 :- Expect(s, LanguageFlag);
    var language :- ReadQuoted(r0);
    var r1 :- Expect(language.1, OutputFlag);
    var output :- ReadQuoted(r1);
    var note := Switch(output.1, NoteFlag);
    ParseFromSort(note.1, language.0, output.0, note.0)
  }

  /** The part of a command line from the sort option on. */
  function ParseFromSort(s: string, language: string, output: string, note: bool): Option<Answers> {
    var r2 :- Expect(s, SortFlag);
    var sort :- ReadQuoted(r2);
    var remove := Switch(sort.1, RemoveFlag);
    var author :- ParseAuthor(remove.1);
    Some(Answers(language, output, note, sort.0, remove.0, author))
  }

  /** The optional author option at the end of a command line; nothing may follow it. */
  function ParseAuthor(s: string): Option<Option<string>> {
    if s == "" then Some(None)
    else
      var r3 :- Expect(s, AuthorFlag);
      var author :- ReadQuoted(r3);
      if author.1 == "" then Some(Some(author.0)) else None
  }

  /** No value contains a double quote, so each ends at the quote that closes it. */
  predicate Unquoted(a: Answers) {
    && '"' !in a.language && '"' !in a.output && '"' !in a.sort
    && (a.author.Some? ==> '"' !in a.author.value)
  }

  /** What the response file records: a blank or missing author is dropped. */
  function Recorded(a: Answers): Answers {
    a.(author := if IsNullOrWhiteSpace(a.author) then None else a.author)
  }

  lemma ExpectConcat(lit: string, rest: string)
    ensures Expect(lit + rest, lit) == Some(rest)
  {
    assert (lit + rest)[..|lit|] == lit;
    assert (lit + rest)[|lit|..] == rest;
  }

  lemma ReadQuotedConcat(v: string, rest: string)
    requires '"' !in v
    ensures ReadQuoted(v + "\"" + rest) == Some((v, rest))
  {
    var s := v + "\"" + rest;
    assert s[|v|] == '"';
    var i := FirstIndex(s, '"');
    assert i == |v| by {
      assert forall k :: 0 <= k < |v| ==> s[k] == v[k];
    }
    assert s[..i] == v;
    assert s[i + 1..] == rest;
  }

  lemma SwitchConcat(flag: string, on: bool, rest: string)
    requires !StartsWith(rest, flag)
    ensures Switch((if on then flag else "") + rest, flag) == (on, rest)
  {
    if on {
      assert (flag + rest)[..|flag|] == flag;
      assert (flag + rest)[|flag|..] == rest;
    } else {
      assert "" + rest == rest;
    }
  }

  /**
   The response file reads back as the answers it was written from, with a
   blank author left out, as long as no value contains a double quote.
   */
  lemma ParseCommandOfCommand(a: Answers)
    requires Unquoted(a)
    ensures ParseCommand(Command(a)) == Some(Recorded(a))
  {
    var afterSort := (if a.removeEmptyLines then RemoveFlag else "") + AuthorPart(a.author);
    var sortPart := SortFlag + (a.sort + "\"" + afterSort);
    var afterOutput := (if a.note then NoteFlag else "") + sortPart;
    SortIsNotNote(a.sort + "\"" + afterSort);
    SwitchConcat(NoteFlag, a.note, sortPart);
    ParseFromSortOfCommand(a);
    ParseCommandHead(a.language, a.output, afterOutput);
  }

  lemma {:induction false} ParseCommandHead(language: string, output: string, rest: string)
    requires '"' !in language && '"' !in output
    ensures ParseCommand(LanguageFlag + (language + "\"" + (OutputFlag + (output + "\"" + rest))))
            == ParseFromSort(Switch(rest, NoteFlag).1, language, output, Switch(rest, NoteFlag).0)
  {
    var afterLanguage := OutputFlag + (output + "\"" + rest);
    ExpectConcat(LanguageFlag, language + "\"" + afterLanguage);
    ReadQuotedConcat(language, afterLanguage);
    ExpectConcat(OutputFlag, output + "\"" + rest);
    ReadQuotedConcat(output, rest);
  }

  lemma {:induction false} ParseFromSortOfCommand(a: Answers)
    requires Unquoted(a)
    ensures ParseFromSort(SortFlag + (a.sort + "\"" + ((if a.removeEmptyLines then RemoveFlag else "") + AuthorPart(a.author))),
                          a.language, a.output, a.note)
            == Some(Recorded(a))
  {
    var authorPart := AuthorPart(a.author);
    var afterSort := (if a.removeEmptyLines then RemoveFlag else "") + authorPart;
    if authorPart != "" {
      AuthorIsNotRemove(a.author.value + "\"");
    }
    SwitchConcat(RemoveFlag, a.removeEmptyLines, authorPart);
    ParseAuthorOfAuthorPart(a.author);
    ExpectConcat(SortFlag, a.sort + "\"" + afterSort);
    ReadQuotedConcat(a.sort, afterSort);
  }

  lemma ParseAuthorOfAuthorPart(author: Option<string>)
    requires author.Some? ==> '"' !in author.value
    ensures ParseAuthor(AuthorPart(author)) == Some(if IsNullOrWhiteSpace(author) then None else author)
  {
    if !IsNullOrWhiteSpace(author) {
      var quoted := author.value + "\"";
      assert AuthorPart(author) == AuthorFlag + quoted;
      ExpectConcat(AuthorFlag, quoted);
      assert quoted == author.value + "\"" + "";
      ReadQuotedConcat(author.value, "");
    }
  }

  /** The sort option is not mistaken for the note switch. */
  lemma SortIsNotNote(rest: string)
    ensures !StartsWith(SortFlag + rest, NoteFlag)
  {
    FlagMismatch(SortFlag, rest, NoteFlag, 3);
  }

  /** The author option is not mistaken for the blank-line switch. */
  lemma AuthorIsNotRemove(rest: string)
    ensures !StartsWith(AuthorFlag + rest, RemoveFlag)
  {
    FlagMismatch(AuthorFlag, rest, RemoveFlag, 3);
  }

  /** Two option names that differ at position `k` cannot be read one for the other. */
  lemma FlagMismatch(prefix: string, rest: string, flag: string, k: nat)
    requires k < |prefix| && k < |flag| && prefix[k] != flag[k]
    ensures !StartsWith(prefix + rest, flag)
  {
    assert (prefix + rest)[k] == prefix[k];
  }

  // ---------------------------------------------------------------------------
  // The prompts
  // ---------------------------------------------------------------------------

  /** The `i`-th line of input; past the end every read returns null. */
  function LineAt(inputs: seq<Option<string>>, i: nat): Option<string> {
    if i < |inputs| then inputs[i] else None
  }

  /** `ReadLine()?.Trim().ToLower()`. */
  function Normalise(line: Option<string>): (r: Option<string>)
    ensures r.Some? <==> line.Some?
    ensures r.Some? ==> r.value == ToLower(Trim(line.value))
  {
    match line
    case None => None
    case Some(s) => Some(ToLower(Trim(s)))
  }

  /** A yes/no answer is yes when it reads "yes" once trimmed, in any case. */
  predicate IsYes(line: Option<string>) {
    Normalise(line) == Some("yes")
  }

  predicate IsLanguageAnswer(line: Option<string>) {
    Normalise(line).Some? && Normalise(line).value in ValidLanguages
  }

  /**
   The first position from `i` on whose element is accepted: a prompt that
   repeats until an answer is accepted stops there.
   */
  function FirstAccepted<T>(s: seq<T>, i: nat, accept: T -> bool): (r: Option<nat>)
    ensures r.Some? ==> i <= r.value < |s| && accept(s[r.value])
    ensures r.Some? ==> forall j :: i <= j < r.value ==> !accept(s[j])
    ensures r.None? <==> forall j :: i <= j < |s| ==> !accept(s[j])
    decreases |s| - i
  {
    if i >= |s| then None
    else if accept(s[i]) then Some(i)
    else FirstAccepted(s, i + 1, accept)
  }

  /**
   The language prompt from input line `i` on: the accepted language and the
   number of lines read. It repeats until a line names a valid language; None
   when no remaining line does, where the prompt would repeat for ever.
   */
  function PromptLanguage(inputs: seq<Option<string>>, i: nat): (r: Option<(string, nat)>)
    ensures r.Some? ==> i < r.value.1 <= |inputs| && r.value.0 in ValidLanguages
  {
    var first := FirstAccepted(inputs, i, IsLanguageAnswer);
    if first.None? then None
    else
      var k := first.value;
      assert IsLanguageAnswer(inputs[k]);
      Some((Normalise(inputs[k]).value, k + 1))
  }

  /**
   The prompt reads lines up to the first one that names a valid language,
   ignoring case and surrounding white space, and accepts that language; it
   ends exactly when some remaining line names one.
   */
  lemma PromptLanguageStopsAtFirstAnswer(inputs: seq<Option<string>>, i: nat)
    ensures var r := PromptLanguage(inputs, i);
            && (r.None? <==> forall j :: i <= j < |inputs| ==> !IsLanguageAnswer(inputs[j]))
            && (r.Some? ==> && IsLanguageAnswer(inputs[r.value.1 - 1])
                            && r.value.0 == Normalise(inputs[r.value.1 - 1]).value
                            && forall j :: i <= j < r.value.1 - 1 ==> !IsLanguageAnswer(inputs[j]))
  {
    var first := FirstAccepted(inputs, i, IsLanguageAnswer);
    if first.Some? {
      assert PromptLanguage(inputs, i) == Some((Normalise(inputs[first.value]).value, first.value + 1));
    }
  }

  /** The sort prompt stops at null, at a blank line or at a valid sort option. */
  predicate EndsSortPrompt(line: Option<string>) {
    Normalise(line).None? || Normalise(line).value == "" || Normalise(line).value in ValidSortOptions
  }

  /** The sort chosen by a line that ends the prompt: "name" unless the line names one. */
  function SortAnswer(line: Option<string>): string {
    if Normalise(line).None? || Normalise(line).value == "" then "name" else Normalise(line).value
  }

  /**
   The sort prompt from input line `i` on: the chosen sort and the number of
   lines read. It always ends, at the latest at the end of input, where the
   null read selects "name".
   */
  function PromptSort(inputs: seq<Option<string>>, i: nat): (r: (string, nat))
    ensures i < r.1
    ensures r.0 in ValidSortOptions
  {
    match FirstAccepted(inputs, i, EndsSortPrompt)
    case Some(k) =>
      var line := LineAt(inputs, k);
      assert line == inputs[k];
      SortAnswerIsValid(line);
      (SortAnswer(line), k + 1)
    case None =>
      var k := if i < |inputs| then |inputs| else i;
      assert forall j :: i <= j < k ==> LineAt(inputs, j) == inputs[j];
      assert LineAt(inputs, k) == None && Normalise(None) == None;
      ("name", k + 1)
  }

  /**
   The prompt reads lines up to the first one that ends it, and the sort is
   the one that line chooses.
   */
  lemma PromptSortStopsAtFirstAnswer(inputs: seq<Option<string>>, i: nat)
    ensures var (sort, n) := PromptSort(inputs, i);
            && EndsSortPrompt(LineAt(inputs, n - 1))
            && sort == SortAnswer(LineAt(inputs, n - 1))
            && forall j :: i <= j < n - 1 ==> !EndsSortPrompt(LineAt(inputs, j))
  {
    var (sort, n) := PromptSort(inputs, i);
    match FirstAccepted(inputs, i, EndsSortPrompt)
    case Some(k) =>
      assert n == k + 1;
      assert LineAt(inputs, k) == inputs[k];
    case None =>
      assert LineAt(inputs, n - 1) == None;
  }

  lemma SortAnswerIsValid(line: Option<string>)
    requires EndsSortPrompt(line)
    ensures SortAnswer(line) in ValidSortOptions
  {
  }

  /**
   The whole dialogue: language, output path, note, sort, blank-line removal
   and author, each read from the next line of input. None when the language
   prompt never ends.
   */
  function Interview(inputs: seq<Option<string>>): (r: Option<Answers>)
    ensures r.None? <==> forall j :: 0 <= j < |inputs| ==> !IsLanguageAnswer(inputs[j])
    ensures r.Some? ==> r.value.language in ValidLanguages && r.value.sort in ValidSortOptions
    ensures r.Some? ==> Validate(r.value.language, r.value.sort) == None
  {
    PromptLanguageStopsAtFirstAnswer(inputs, 0);
    var (language, i) :- PromptLanguage(inputs, 0);
    var output := match LineAt(inputs, i) case None => "bundle.txt" case Some(s) => Trim(s);
    var note := IsYes(LineAt(inputs, i + 1));
    var (sort, j) := PromptSort(inputs, i + 2);
    var removeEmptyLines := IsYes(LineAt(inputs, j));
    var author := match LineAt(inputs, j + 1) case None => None case Some(s) => Some(Trim(s));
    ValidListsAreLowerCase();
    Some(Answers(language, output, note, sort, removeEmptyLines, author))
  }

  /**
   Answers with a valid language and sort option write a response file whose
   options the bundle command accepts, and which reads back as the recorded
   answers when the output path and the author contain no double quote.
   Every completed dialogue gives such a language and sort option.
   */
  lemma {:induction false} ValidAnswersWriteAcceptedCommand(a: Answers)
    requires a.language in ValidLanguages && a.sort in ValidSortOptions
    requires '"' !in a.output && (a.author.Some? ==> '"' !in a.author.value)
    ensures ParseCommand(Command(a)) == Some(Recorded(a))
    ensures Validate(a.language, a.sort) == None
  {
    ValidListsAreLowerCase();
    assert '"' !in a.language && '"' !in a.sort;
    ParseCommandOfCommand(a);
  }

  /** At the end of input the sort prompt reads null once and settles on "name". */
  lemma PromptSortAtEnd(inputs: seq<Option<string>>, i: nat)
    requires |inputs| <= i
    ensures PromptSort(inputs, i) == ("name", i + 1)
  {
    assert FirstAccepted(inputs, i, EndsSortPrompt) == None;
  }

  /**
   An unknown language is asked for again, a language in capitals is
   accepted, and reads at the end of input give the defaults: "bundle.txt",
   no note, sort by name, keep blank lines, no author.
   */
  lemma InterviewExample()
    ensures Interview([Some("python"), Some(" JS ")])
            == Some(Answers("js", "bundle.txt", false, "name", false, None))
  {
    var inputs := [Some("python"), Some(" JS ")];
    LanguageExample(inputs);
    PromptSortAtEnd(inputs, 4);
  }

  lemma LanguageExample(inputs: seq<Option<string>>)
    requires inputs == [Some("python"), Some(" JS ")]
    ensures PromptLanguage(inputs, 0) == Some(("js", 2))
  {
    TrimOfTrimmed("python");
    ToLowerOfLower("python");
    assert Normalise(inputs[0]) == Some("python");
    assert !IsLanguageAnswer(inputs[0]);
    assert " JS " == [' '] + "JS" + [' '];
    TrimOfPadded("JS");
    var js := ToLower("JS");
    assert js[0] == 'j' && js[1] == 's';
    assert js == "js";
    assert Normalise(inputs[1]) == Some("js");
    assert IsLanguageAnswer(inputs[1]);
  }

}
