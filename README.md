# Quick Registration: form validation and submit, in Dafny

This project models the logic of `QuickRegistrationScreen`, the single screen of the
Quick Registration Android app. The screen holds four pieces of state: a name, an email,
a newsletter toggle and the text of the result panel. It derives an error flag for each
field and shows a hint text under a flagged field. It also derives whether the form may
be submitted. The "Registrar" button overwrites the result with a success text that
repeats the fields, or with a fixed failure text.

Modules, one per concern of the screen:

- `Wrappers`: the `Option` type that stands for Kotlin's nullable `String?`.
- `Text`: Kotlin's `isBlank` and `String.length`. `Char.isWhitespace` on the JVM is
  `Character.isWhitespace || Character.isSpaceChar`, written out as a set of code points.
  `length` counts UTF-16 code units: `Utf16Length` counts a character outside the Basic
  Multilingual Plane as two, because a Dafny `char` is a Unicode scalar value.
- `EmailPattern`: the regular expression `^[\w.+-]+@[\w-]+\.[\w.-]{2,}$`, matched
  against the whole string, with `\w` the ASCII class `[A-Za-z0-9_]` as OpenJDK's
  `java.util.regex` defines it.
  `MatchesPattern` is the pattern's language, stated as "some split of the string
  fits". `EmailMatches` is a deterministic matcher that tries only the first `@` and the
  first `.` after it. This is correct because no class contains `@` and the label class
  contains no `.`. The two are proved equal.
- `Validation`: `nameError`, `emailError`, `formValid` and the two supporting texts.
- `Submission`: the text the button writes, and a reader `ParseSuccess` that recovers
  the name, the email and the toggle from a success text. The reader is the partner
  that the round-trip lemma is stated against.
- `RegistrationScreen`: the class `RegistrationForm` with the four mutable fields and
  one method per callback. Its invariant says that the result panel holds either nothing
  or the failure text or a success text whose fields form a valid form; these texts are
  proved to be exactly the texts a submit can produce.

Two consequences of following the code exactly:

- Blankness, not emptiness. A name or email made only of whitespace is treated as
  empty: it shows no hint, and the form still cannot be submitted.
- A name is "short" by UTF-16 code units. So one character outside the Basic
  Multilingual Plane is flagged, and two such characters make a valid name.

## Model

| member | source | states |
|---|---|---|
| Text.Utf16Length | app/src/main/java/com/chuco/myapplication/MainActivity.kt:87 | `name.length` lies between the number of characters and twice that, and equals it exactly when every character is in the Basic Multilingual Plane |
| EmailPattern.SplitIsUnique | app/src/main/java/com/chuco/myapplication/MainActivity.kt:88 | any split that fits the pattern has its `@` at the first `@` and its `.` at the first `.` after it, so the pattern is unambiguous |
| EmailPattern.EmailMatchesIsPattern | app/src/main/java/com/chuco/myapplication/MainActivity.kt:88 | the deterministic matcher accepts exactly the strings of the pattern's language (both directions) |
| EmailPattern.AcceptedEmailShape | app/src/main/java/com/chuco/myapplication/MainActivity.kt:88 | an accepted email has exactly one `@`, a `.` after it, at least 6 characters, only pattern characters, and ends in a character of `[\w.-]` |
| EmailPattern.ShortestTailAccepted | app/src/main/java/com/chuco/myapplication/MainActivity.kt:88 | `"a@b.co"` is accepted |
| EmailPattern.OneLetterTailRejected | app/src/main/java/com/chuco/myapplication/MainActivity.kt:88 | `"a@b.c"` is rejected, because the part after the dot needs at least 2 characters |
| EmailPattern.NoAtRejected | app/src/main/java/com/chuco/myapplication/MainActivity.kt:88 | `"not-an-email"` is rejected |
| Validation.NameErrorByCharacters | app/src/main/java/com/chuco/myapplication/MainActivity.kt:87 | a name is flagged exactly when it is not blank and has 1 character, or 2 characters both in the Basic Multilingual Plane; a flagged name has 1 or 2 characters |
| Validation.MatchingEmailIsNotBlank | app/src/main/java/com/chuco/myapplication/MainActivity.kt:88 | an email that matches the pattern is never blank, so `emailError` is false exactly for blank or matching emails |
| Validation.NameSupportingText | app/src/main/java/com/chuco/myapplication/MainActivity.kt:110 | the hint "Mínimo 3 caracteres" is shown exactly when the name is not blank and is one character, or two characters that each take one UTF-16 code unit; otherwise there is none |
| Validation.EmailSupportingText | app/src/main/java/com/chuco/myapplication/MainActivity.kt:122 | the hint "Correo no válido" is shown exactly when the email is not blank and outside the pattern's language; otherwise there is none |
| Validation.FormValidIff | app/src/main/java/com/chuco/myapplication/MainActivity.kt:139 | the form may be submitted exactly when the name is not blank and at least 3 code units long and the email is in the pattern's language |
| Validation.ValidFormShowsNoHint | app/src/main/java/com/chuco/myapplication/MainActivity.kt:139 | a submittable form shows no hint, and its name has at least 2 characters |
| Validation.BlankNameIsSilentButInvalid | app/src/main/java/com/chuco/myapplication/MainActivity.kt:87 | a name of three spaces shows no hint, yet the form cannot be submitted, whatever the email |
| Submission.SplitNote | app/src/main/java/com/chuco/myapplication/MainActivity.kt:143 | a success text's body is a main part followed by the newsletter note exactly when it ends in that note |
| Submission.SplitFields | app/src/main/java/com/chuco/myapplication/MainActivity.kt:143 | a split of `name — email` at the last space rebuilds the text and yields an email with no space |
| Submission.ParseSuccess | app/src/main/java/com/chuco/myapplication/MainActivity.kt:143 | whatever the reader accepts is a success text, rebuilt from the fields it returns |
| Submission.ValidEmailCharacters | app/src/main/java/com/chuco/myapplication/MainActivity.kt:88 | the email of a submittable form has no space and does not end in `)` |
| Submission.StripNewsletterNote | app/src/main/java/com/chuco/myapplication/MainActivity.kt:143 | appending the note to a text that does not end in `)` can be undone, and the note is found exactly when it was appended |
| Submission.NewsletterNoteIffSubscribed | app/src/main/java/com/chuco/myapplication/MainActivity.kt:143 | a submittable form's success text ends in " (con boletín)" exactly when the toggle is on |
| Submission.ParseSuccessTextOf | app/src/main/java/com/chuco/myapplication/MainActivity.kt:143 | the reader recovers name, email and toggle from any success text whose email has no space and does not end in `)` |
| Submission.ParseSuccessText | app/src/main/java/com/chuco/myapplication/MainActivity.kt:142-143 | round trip: a submittable form's text reads back as exactly its name, email and toggle |
| Submission.OutcomeByFirstCharacter | app/src/main/java/com/chuco/myapplication/MainActivity.kt:142-146 | the text starts with ✅ exactly when the form is submittable; otherwise it is the fixed failure text, independent of the fields and the toggle, and the reader rejects it |
| Submission.SubmitMessageIsOutcome | app/src/main/java/com/chuco/myapplication/MainActivity.kt:142-146 | every text a submit produces is the failure text or a text the reader accepts whose fields form a valid form |
| Submission.OutcomeTextIsSubmitMessage | app/src/main/java/com/chuco/myapplication/MainActivity.kt:142-146 | conversely, every such text is what some submit writes, so the panel texts are exactly the texts a submit can produce |
| Submission.SubscribedExample | app/src/main/java/com/chuco/myapplication/MainActivity.kt:143 | Ana, ana@x.com, subscribed yields "✅ Registrado: Ana — ana@x.com (con boletín)" |
| Submission.ExampleFormValid | app/src/main/java/com/chuco/myapplication/MainActivity.kt:139 | the form with Ana and ana@x.com may be submitted |
| Submission.EmptyNameExample | app/src/main/java/com/chuco/myapplication/MainActivity.kt:145 | an empty name yields "❌ Completa el formulario correctamente." whatever the email and toggle |
| RegistrationScreen.RegistrationForm.constructor | app/src/main/java/com/chuco/myapplication/MainActivity.kt:81-84 | the screen starts with an empty name and email, the toggle off and no result |
| RegistrationScreen.RegistrationForm.SetName | app/src/main/java/com/chuco/myapplication/MainActivity.kt:107 | the name field's callback sets the name and nothing else |
| RegistrationScreen.RegistrationForm.SetEmail | app/src/main/java/com/chuco/myapplication/MainActivity.kt:119 | the email field's callback sets the email and nothing else |
| RegistrationScreen.RegistrationForm.SetSubscribe | app/src/main/java/com/chuco/myapplication/MainActivity.kt:134 | the switch's callback sets the toggle and nothing else |
| RegistrationScreen.RegistrationForm.Submit | app/src/main/java/com/chuco/myapplication/MainActivity.kt:141-146 | the click overwrites the result with the submit text; on a valid form that text reads back as the fields, otherwise it is the failure text; name, email and toggle are unchanged |
| RegistrationScreen.RegistrationForm.PanelText | app/src/main/java/com/chuco/myapplication/MainActivity.kt:170 | the panel shows a dash exactly when nothing has been submitted, and the result text otherwise |

## Left out

- Android lifecycle and theming (`MainActivity.onCreate`, `enableEdgeToEdge`, `Surface`), lines 28-38: framework calls with no logic.
- The `LabelAndField` composable and all layout, icons, colours and spacing, lines 41-75 and 90-172: presentation only. Its one behaviour, showing the supporting text when it is not null, is what `NameSupportingText` and `EmailSupportingText` return.
- `rememberSaveable` persistence across rotation: the four variables are modelled as plain fields.
- Compose recomposition timing. In the app, `formValid` is computed at the last composition and captured by the click handler. The model evaluates it at click time. The two agree whenever the screen has recomposed since the last edit.
- `QuickRegistrationPreview`, lines 176-180: design-time tooling.
- A general regular-expression engine: only this one pattern is modelled, by a matcher proved equal to its language.
- `Text.IsWhitespace` fixes the whitespace set of current Unicode versions. A JVM built on a much older Unicode table (one that still classed U+180E as a space) would differ on that one character.
- EmailPattern.IsWordChar: fixes OpenJDK's ASCII meaning of `\w`. On Android, `java.util.regex` is backed by ICU, where `\w` may also match Unicode letters, marks and decimal digits. If so, a device accepts emails such as "josé@x.com" that `EmailMatches` rejects, and flags fewer emails than `EmailError` does.
- Text.Utf16Length: strings are sequences of Unicode scalar values. A Kotlin `String` can also hold an unpaired surrogate, which the model cannot represent. For example, a name made of one lone surrogate is flagged by the app (length 1, not blank) but cannot be written as a model input.
