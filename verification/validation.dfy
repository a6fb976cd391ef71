/**
 The bundle handler's first step (Program.cs lines 4-5 and 54-64): the
 language and the sort option, lower-cased, must belong to two fixed lists.
 The language is checked first and only the first failure is reported.
 */
module Validation {
  import opened Wrappers
  import opened Text

  const ValidLanguages: seq<string> := ["c#", "java", "js", "all"]
  const ValidSortOptions: seq<string> := ["name", "type"]

  datatype Rejection = InvalidLanguage | InvalidSort

  /** None when both options are accepted, otherwise the first rejected option. */
  function Validate(language: string, sort: string): (r: Option<Rejection>)
    ensures r == Some(InvalidLanguage) <==> ToLower(language) !in ValidLanguages
    ensures r == Some(InvalidSort) <==> ToLower(language) in ValidLanguages && ToLower(sort) !in ValidSortOptions
    ensures r == None <==> ToLower(language) in ValidLanguages && ToLower(sort) in ValidSortOptions
  {
    if ToLower(language) !in ValidLanguages then Some(InvalidLanguage)
    else if ToLower(sort) !in ValidSortOptions then Some(InvalidSort)
    else None
  }

  /** `s` equals, ignoring ASCII case, one of the entries of `options`. */
  predicate OneOfIgnoringCase(s: string, options: seq<string>) {
    exists v | v in options :: EqualsIgnoreCase(s, v)
  }

  /** The fixed lists are written in lower case, so `ToLower` leaves each entry alone. */
  lemma ValidListsAreLowerCase()
    ensures forall v | v in ValidLanguages :: ToLower(v) == v
    ensures forall v | v in ValidSortOptions :: ToLower(v) == v
  {
    forall v | v in ValidLanguages + ValidSortOptions
      ensures ToLower(v) == v
    {
      ToLowerOfLower(v);
    }
  }

  /**
   Validation accepts exactly the options that spell an entry of each list in
   any mix of upper and lower case, and rejects the language first.
   */
  lemma ValidateAcceptsAnyCase(language: string, sort: string)
    ensures Validate(language, sort) == Some(InvalidLanguage) <==> !OneOfIgnoringCase(language, ValidLanguages)
    ensures Validate(language, sort) == None
            <==> OneOfIgnoringCase(language, ValidLanguages) && OneOfIgnoringCase(sort, ValidSortOptions)
  {
    ValidListsAreLowerCase();
    if OneOfIgnoringCase(language, ValidLanguages) {
      var v :| v in ValidLanguages && EqualsIgnoreCase(language, v);
      assert ToLower(language) == v;
    }
    if ToLower(language) in ValidLanguages {
      assert EqualsIgnoreCase(language, ToLower(language)) by {
        ToLowerIdempotent(language);
      }
    }
    if OneOfIgnoringCase(sort, ValidSortOptions) {
      var v :| v in ValidSortOptions && EqualsIgnoreCase(sort, v);
      assert ToLower(sort) == v;
    }
    if ToLower(sort) in ValidSortOptions {
      assert EqualsIgnoreCase(sort, ToLower(sort)) by {
        ToLowerIdempotent(sort);
      }
    }
  }

  /** Options that differ only in ASCII case get the same verdict. */
  lemma ValidateIgnoresCase(language: string, sort: string, language': string, sort': string)
    requires EqualsIgnoreCase(language, language') && EqualsIgnoreCase(sort, sort')
    ensures Validate(language, sort) == Validate(language', sort')
  {
  }
}
