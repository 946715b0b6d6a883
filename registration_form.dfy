/** The state of `QuickRegistrationScreen`: four fields that the text fields, the switch
    and the button each assign in place, one field per callback. */
module RegistrationScreen {
  import opened Wrappers
  import opened Validation
  import opened Submission

  class RegistrationForm {
    var name: string
    var email: string
    var subscribe: bool
    /** The result panel's text; absent until the first submit. */
    var result: Option<string>

    /** The result panel only ever holds nothing or a text a submit can produce. */
    ghost predicate Valid()
      reads this
    {
      result.None? || IsOutcomeText(result.value)
    }

    /** The screen starts with both fields empty, the toggle off and no result. */
    constructor ()
      ensures Valid()
      ensures name == "" && email == "" && !subscribe && result == None
    {
      name := "";
      email := "";
      subscribe := false;
      result := None;
    }

    /** `onValueChange = { name = it }` of the name field. */
    method SetName(value: string)
      requires Valid()
      modifies this`name
      ensures Valid()
      ensures name == value
      ensures email == old(email) && subscribe == old(subscribe) && result == old(result)
    {
      name := value;
    }

    /** `onValueChange = { email = it }` of the email field. */
    method SetEmail(value: string)
      requires Valid()
      modifies this`email
      ensures Valid()
      ensures email == value
      ensures name == old(name) && subscribe == old(subscribe) && result == old(result)
    {
      email := value;
    }

    /** `onCheckedChange = { subscribe = it }` of the newsletter switch. */
    method SetSubscribe(value: bool)
      requires Valid()
      modifies this`subscribe
      ensures Valid()
      ensures subscribe == value
      ensures name == old(name) && email == old(email) && result == old(result)
    {
      subscribe := value;
    }

    /** The button's `onClick`: overwrites the result with the success text when the
        form is valid and with the failure text otherwise; nothing else changes. */
    method Submit()
      requires Valid()
      modifies this`result
      ensures Valid()
      ensures result == Some(SubmitMessage(name, email, subscribe))
      ensures FormValid(name, email) ==> ParseSuccess(result.value) == Some(Registration(name, email, subscribe))
      ensures !FormValid(name, email) ==> result == Some(FailureText)
      ensures name == old(name) && email == old(email) && subscribe == old(subscribe)
    {
      result := Some(SubmitMessage(name, email, subscribe));
      SubmitMessageIsOutcome(name, email, subscribe);
      if FormValid(name, email) {
        ParseSuccessText(name, email, subscribe);
      }
    }

    /** What the result panel displays: the text, or a dash before the first submit.
        A dash is never a submit's text, so the dash means "not submitted yet". */
    function PanelText(): (t: string)
      requires Valid()
      reads this
      ensures t == "\U{2014}" <==> result.None?
      ensures result.Some? ==> t == result.value
    {
      match result
      case None => "\U{2014}"
      case Some(text) =>
        assert text != "\U{2014}" by {
          if text != FailureText {
            assert |SuccessPrefix| > 1;
          }
        }
        text
    }
  }
}
