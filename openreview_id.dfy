/** Validation of OpenReview identifiers (`is_valid` with the pattern `^[\w-]+$`). */
module OpenReviewId {
  import opened Text

  /** `\w`, restricted to ASCII: a letter, a digit or `_`. */
  predicate IsWordChar(c: char) {
    'a' <= c <= 'z' || 'A' <= c <= 'Z' || IsDigit(c) || c == '_'
  }

  /** A character of the class `[\w-]`. */
  predicate IsIdChar(c: char) {
    IsWordChar(c) || c == '-'
  }

  /** `[\w-]+` describes all of `s`: the regex engine's scan, one character at a time. */
  function Scan(s: string): (ok: bool)
    ensures ok <==> s != [] && forall i :: 0 <= i < |s| ==> IsIdChar(s[i])
  {
    if s == [] then false
    else if !IsIdChar(s[0]) then false
    else if |s| == 1 then true
    else
      assert forall i :: 1 <= i < |s| ==> s[i] == s[1..][i - 1];
      Scan(s[1..])
  }

  /** `is_valid(openreview_id)`. The closing `$` also matches before a single
      trailing newline. */
  predicate IsValid(s: string) {
    Scan(s) || (|s| > 1 && s[|s| - 1] == '\n' && Scan(s[..|s| - 1]))
  }

  /** An accepted identifier is not empty and holds only word characters and
      hyphens, apart from one final newline. */
  lemma ValidChars(s: string)
    ensures IsValid(s) <==> s != [] && forall i :: 0 <= i < |s| ==> IsIdChar(s[i]) || (i == |s| - 1 > 0 && s[i] == '\n')
  {
    if s != [] && forall i :: 0 <= i < |s| ==> IsIdChar(s[i]) || (i == |s| - 1 > 0 && s[i] == '\n') {
      if s[|s| - 1] == '\n' {
        assert forall i :: 0 <= i < |s| - 1 ==> s[..|s| - 1][i] == s[i];
      }
    }
  }

  /** Nothing an accepted identifier holds is whitespace, `=` or `/`, apart from a final newline. */
  lemma ValidHasNoSeparator(s: string, i: int)
    requires IsValid(s) && 0 <= i < |s| && !(i == |s| - 1 && s[i] == '\n')
    ensures !IsSpace(s[i]) && s[i] != '=' && s[i] != '/'
  {
    ValidChars(s);
  }

  lemma ValidExample()
    ensures IsValid("rJX_Jc-0W")
  {
  }

  lemma PunctuationRejected()
    ensures !IsValid("not a valid id!!")
  {
    var s := "not a valid id!!";
    assert !IsIdChar(s[3]);
    assert s[..|s| - 1][3] == s[3];
  }

  lemma EmptyRejected()
    ensures !IsValid("")
  {
  }
}
