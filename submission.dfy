/** The text the "Registrar" button writes into the result panel, and a reader that
    recovers the registration from a success text. */
module Submission {
  import opened Wrappers
  import opened Text
  import opened EmailPattern
  import opened Validation

  const SuccessPrefix: string := "\U{2705} Registrado: "
  const Separator: string := " \U{2014} "
  const NewsletterSuffix: string := " (con bolet\U{ED}n)"
  const FailureText: string := "\U{274C} Completa el formulario correctamente."

  /** The three field values that a success text reports. */
  datatype Registration = Registration(name: string, email: string, subscribe: bool)

  /** The success text: `"✅ Registrado: $name — $email"`, followed by the newsletter
      note when the toggle is on. */
  function SuccessText(name: string, email: string, subscribe: bool): string {
    SuccessPrefix + name + Separator + email + (if subscribe then NewsletterSuffix else "")
  }

  /** The value the button's click assigns to `result`. */
  function SubmitMessage(name: string, email: string, subscribe: bool): string {
    if FormValid(name, email) then SuccessText(name, email, subscribe) else FailureText
  }

  predicate HasSuffix(s: string, suffix: string) {
    |suffix| <= |s| && s[|s| - |suffix|..] == suffix
  }

  /** Index of the last `c` in `s`, or -1 when there is none. */
  function LastIndexOf(s: string, c: char): (k: int)
    ensures -1 <= k < |s|
    ensures k >= 0 ==> s[k] == c
    ensures forall m :: k < m < |s| ==> s[m] != c
  {
    if s == [] then -1
    else if s[|s| - 1] == c then |s| - 1
    else LastIndexOf(s[..|s| - 1], c)
  }

  /** Cutting `s` around a known middle part and joining the pieces gives `s` back. */
  lemma Rejoin(s: string, i: int, j: int, middle: string)
    requires 0 <= i <= j <= |s| && s[i..j] == middle
    ensures s == s[..i] + middle + s[j..]
  {
  }

  /** Separates the newsletter note from the end of a success text's body. */
  function SplitNote(body: string): (r: (string, bool))
    ensures body == r.0 + (if r.1 then NewsletterSuffix else "")
    ensures r.1 <==> HasSuffix(body, NewsletterSuffix)
  {
    if HasSuffix(body, NewsletterSuffix) then
      var main := body[..|body| - |NewsletterSuffix|];
      assert body == main + body[|body| - |NewsletterSuffix|..];
      (main, true)
    else (body, false)
  }

  /** Splits `name + " — " + email` at its last space. */
  function SplitFields(main: string): (r: Option<(string, string)>)
    ensures r.Some? ==> main == r.value.0 + Separator + r.value.1 && ' ' !in r.value.1
  {
    var sp := LastIndexOf(main, ' ');
    if sp < 2 || main[sp - 2..sp + 1] != Separator then None
    else
      Rejoin(main, sp - 2, sp + 1, Separator);
      Some((main[..sp - 2], main[sp + 1..]))
  }

  /** Reads a success text back. The email of a valid form holds no space and does not
      end in ')', so the newsletter note is recognised by its suffix and the email is
      what follows the last space. */
  function ParseSuccess(msg: string): (r: Option<Registration>)
    ensures r.Some? ==> SuccessText(r.value.name, r.value.email, r.value.subscribe) == msg
  {
    if !(|SuccessPrefix| <= |msg| && msg[..|SuccessPrefix|] == SuccessPrefix) then None
    else
      var (main, subscribe) := SplitNote(msg[|SuccessPrefix|..]);
      match SplitFields(main)
      case None => None
      case Some((name, email)) =>
        assert msg == SuccessPrefix + msg[|SuccessPrefix|..];
        Some(Registration(name, email, subscribe))
  }

  /** A text the result panel can show after a submit: the failure text, or a success
      text whose fields form a valid form. */
  predicate IsOutcomeText(msg: string) {
    || msg == FailureText
    || (ParseSuccess(msg).Some? && FormValid(ParseSuccess(msg).value.name, ParseSuccess(msg).value.email))
  }

  /** The last space of `a + b`, where `a` ends in a space and `b` holds none. */
  lemma LastSpaceAtJoin(a: string, b: string)
    requires |a| > 0 && a[|a| - 1] == ' ' && ' ' !in b
    ensures LastIndexOf(a + b, ' ') == |a| - 1
  {
    var s := a + b;
    var k := LastIndexOf(s, ' ');
    assert s[|a| - 1] == ' ';
    forall m | |a| <= m < |s| ensures s[m] != ' ' {
      assert s[m] == b[m - |a|];
    }
  }

  /** A valid form's email contains no space and does not end in ')'. */
  lemma ValidEmailCharacters(name: string, email: string)
    requires FormValid(name, email)
    ensures ' ' !in email
    ensures |email| > 0 && email[|email| - 1] != ')'
  {
    AcceptedEmailShape(email);
  }

  /** Appending the newsletter note to a text that does not end in ')' can be undone,
      and the note is found exactly when it was appended. */
  lemma StripNewsletterNote(main: string, subscribe: bool)
    requires |main| > 0 && main[|main| - 1] != ')'
    ensures var body := main + (if subscribe then NewsletterSuffix else "");
      && HasSuffix(body, NewsletterSuffix) == subscribe
      && (if subscribe then body[..|body| - |NewsletterSuffix|] else body) == main
  {
    var body := main + (if subscribe then NewsletterSuffix else "");
    if !subscribe {
      assert body[|body| - 1] == main[|main| - 1];
      assert NewsletterSuffix[|NewsletterSuffix| - 1] == ')';
    } else {
      assert body[|body| - |NewsletterSuffix|..] == NewsletterSuffix;
    }
  }

  /** The success text ends in the newsletter note exactly when the toggle is on. */
  lemma NewsletterNoteIffSubscribed(name: string, email: string, subscribe: bool)
    requires FormValid(name, email)
    ensures HasSuffix(SubmitMessage(name, email, subscribe), NewsletterSuffix) <==> subscribe
  {
    ValidEmailCharacters(name, email);
    var main := SuccessPrefix + name + Separator + email;
    StripNewsletterNote(main, subscribe);
    assert SuccessText(name, email, subscribe) == main + (if subscribe then NewsletterSuffix else "");
  }

  /** Splitting `name + " — " + email` at its last space gives back both parts. */
  lemma SplitAtSeparator(name: string, email: string)
    requires ' ' !in email
    ensures var main := name + Separator + email;
      var sp := LastIndexOf(main, ' ');
      && sp == |name| + 2
      && main[sp - 2..sp + 1] == Separator
      && main[..sp - 2] == name
      && main[sp + 1..] == email
  {
    LastSpaceAtJoin(name + Separator, email);
    assert name + Separator + email == (name + Separator) + email;
  }

  /** The reader recovers the fields from any success text whose email holds no space
      and does not end in ')'. */
  lemma ParseSuccessTextOf(name: string, email: string, subscribe: bool)
    requires ' ' !in email && |email| > 0 && email[|email| - 1] != ')'
    ensures ParseSuccess(SuccessText(name, email, subscribe)) == Some(Registration(name, email, subscribe))
  {
    var msg := SuccessText(name, email, subscribe);
    var main := name + Separator + email;
    var body := main + (if subscribe then NewsletterSuffix else "");
    assert msg == SuccessPrefix + body;
    assert msg[..|SuccessPrefix|] == SuccessPrefix;
    assert msg[|SuccessPrefix|..] == body;
    StripNewsletterNote(main, subscribe);
    SplitAtSeparator(name, email);
  }

  /** Round trip: a valid form's success text reads back as the name, email and toggle
      it was built from. */
  lemma ParseSuccessText(name: string, email: string, subscribe: bool)
    requires FormValid(name, email)
    ensures ParseSuccess(SubmitMessage(name, email, subscribe)) == Some(Registration(name, email, subscribe))
  {
    ValidEmailCharacters(name, email);
    ParseSuccessTextOf(name, email, subscribe);
  }

  /** The two outcomes are told apart by their first character, and the failure text
      does not depend on the fields or the toggle. */
  lemma OutcomeByFirstCharacter(name: string, email: string, subscribe: bool)
    ensures var msg := SubmitMessage(name, email, subscribe);
      |msg| > 0 && (msg[0] == '\U{2705}' <==> FormValid(name, email))
    ensures !FormValid(name, email) ==> SubmitMessage(name, email, subscribe) == FailureText
    ensures ParseSuccess(FailureText).None?
  {
    assert FailureText[0] != SuccessPrefix[0];
    assert FailureText[..|SuccessPrefix|][0] == FailureText[0];
  }

  /** Every text a submit produces is one the result panel accepts. */
  lemma SubmitMessageIsOutcome(name: string, email: string, subscribe: bool)
    ensures IsOutcomeText(SubmitMessage(name, email, subscribe))
  {
    if FormValid(name, email) {
      ParseSuccessText(name, email, subscribe);
    }
  }

  /** Conversely, every such text is what some submit writes: the panel texts are
      exactly the texts a submit can produce. */
  lemma OutcomeTextIsSubmitMessage(msg: string)
    requires IsOutcomeText(msg)
    ensures exists name, email, subscribe :: SubmitMessage(name, email, subscribe) == msg
  {
    if msg == FailureText {
      assert SubmitMessage("", "", false) == msg;
    } else {
      var r := ParseSuccess(msg).value;
      assert SubmitMessage(r.name, r.email, r.subscribe) == msg;
    }
  }

  /** The example of a subscribed registration. */
  lemma SubscribedExample(name: string, email: string)
    requires name == "Ana" && email == "ana@x.com"
    ensures SubmitMessage(name, email, true)
      == "\U{2705} Registrado: Ana \U{2014} ana@x.com (con bolet\U{ED}n)"
  {
    ExampleFormValid(name, email);
    assert SubmitMessage(name, email, true) == SuccessText(name, email, true);
    ExampleSuccessText(name, email);
  }

  /** The success text for the example fields, character by character. */
  lemma ExampleSuccessText(name: string, email: string)
    requires name == "Ana" && email == "ana@x.com"
    ensures SuccessText(name, email, true)
      == "\U{2705} Registrado: Ana \U{2014} ana@x.com (con bolet\U{ED}n)"
  {
  }

  /** The example form may be submitted. */
  lemma ExampleFormValid(name: string, email: string)
    requires name == "Ana" && email == "ana@x.com"
    ensures FormValid(name, email)
  {
    assert email[3] == '@' && email[5] == '.';
    assert AtIndex(email) == 3;
    assert DotIndex(email) == 5;
    assert SplitsAt(email, 3, 5);
    MatchingEmailIsNotBlank(email);
    assert !IsWhitespace(name[0]);
    assert Utf16Length(name) >= 3;
  }

  /** The example of an empty name: whatever the email, the failure text. */
  lemma EmptyNameExample(email: string, subscribe: bool)
    ensures SubmitMessage("", email, subscribe) == "\U{274C} Completa el formulario correctamente."
  {
  }
}
