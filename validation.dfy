/** The derived flags of the registration screen: the name and email error flags,
    the helper text shown under each field, and whether the form may be submitted. */
module Validation {
  import opened Wrappers
  import opened Text
  import opened EmailPattern

  /** `nameError`: the name is not blank and shorter than 3 UTF-16 code units. */
  predicate NameError(name: string) {
    !IsBlank(name) && Utf16Length(name) < 3
  }

  /** `emailError`: the email is not blank and does not match the pattern. */
  predicate EmailError(email: string) {
    !IsBlank(email) && !EmailMatches(email)
  }

  /** `formValid`: both fields filled in and neither flagged. */
  predicate FormValid(name: string, email: string) {
    !IsBlank(name) && !NameError(name) && !IsBlank(email) && !EmailError(email)
  }

  const NameHint: string := "M\U{ED}nimo 3 caracteres"
  const EmailHint: string := "Correo no v\U{E1}lido"

  /** The supporting text under the name field: the hint while the name is too short,
      that is, one character, or two characters that each take one UTF-16 code unit. */
  function NameSupportingText(name: string): (t: Option<string>)
    ensures t.Some? <==> !IsBlank(name) && (|name| == 1 || (|name| == 2 && IsBmp(name[0]) && IsBmp(name[1])))
    ensures t.Some? ==> t.value == NameHint
  {
    NameErrorByCharacters(name);
    if NameError(name) then Some(NameHint) else None
  }

  /** The supporting text under the email field: the hint while the email is malformed. */
  function EmailSupportingText(email: string): (t: Option<string>)
    ensures t.Some? <==> !IsBlank(email) && !MatchesPattern(email)
    ensures t.Some? ==> t.value == EmailHint
  {
    EmailMatchesIsPattern(email);
    if EmailError(email) then Some(EmailHint) else None
  }

  /** The name rule in terms of characters: a non-blank name is flagged exactly when it
      is one character long, or two characters both in the Basic Multilingual Plane
      (a character outside it already counts as two code units). */
  lemma NameErrorByCharacters(name: string)
    ensures NameError(name) <==>
      !IsBlank(name) && (|name| == 1 || (|name| == 2 && IsBmp(name[0]) && IsBmp(name[1])))
    ensures NameError(name) ==> 1 <= |name| <= 2
  {
    if |name| == 2 {
      assert name[1..][1..] == [];
    }
  }

  /** An email that matches is never blank: '@' is not whitespace. */
  lemma MatchingEmailIsNotBlank(email: string)
    requires EmailMatches(email)
    ensures !IsBlank(email)
  {
    AcceptedEmailShape(email);
    assert email[AtIndex(email)] == '@';
  }

  /** The form may be submitted exactly when the name is not blank and at least 3 code
      units long and the email is in the pattern's language; the email's own blankness
      check is implied by the match. */
  lemma FormValidIff(name: string, email: string)
    ensures FormValid(name, email) <==>
      !IsBlank(name) && Utf16Length(name) >= 3 && MatchesPattern(email)
  {
    EmailMatchesIsPattern(email);
    if EmailMatches(email) {
      MatchingEmailIsNotBlank(email);
    }
  }

  /** While the form may be submitted, neither field shows a hint. The converse fails:
      a blank field shows no hint yet blocks submission. */
  lemma ValidFormShowsNoHint(name: string, email: string)
    requires FormValid(name, email)
    ensures NameSupportingText(name).None? && EmailSupportingText(email).None?
    ensures |name| >= 2
  {
    NameErrorByCharacters(name);
  }

  /** A name of three spaces shows no hint and still cannot be submitted. */
  lemma BlankNameIsSilentButInvalid(email: string)
    ensures !NameError("   ")
    ensures !FormValid("   ", email)
  {
    assert IsBlank("   ");
  }
}
