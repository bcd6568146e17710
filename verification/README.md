# Adamus Capital inquiry form: a Dafny model

This project models the interactive core of the Adamus Capital website and proves properties of it.

The browser side (`static/adamus.js`) has two parts:

- **The submit handler of the inquiry form.** It removes the error elements of the previous attempt. It then checks the fields of the current layout in a fixed order: the full name on narrow screens, first and last name otherwise, then email, organization and inquiry type. Each failing field gets an inline error element with a one-shot `input` listener, and the field takes focus. When any field fails, the handler cancels the submission. Otherwise it runs the submit button through a timed sequence:
  - "Submitting..." on #666, disabled;
  - after 1500 ms, "Inquiry Received" on #4a4a4a;
  - after 2000 ms more, the original text on #1a1a1a, enabled, with the form reset and a confirmation note appended;
  - after 4000 ms more, the note is removed.
- **The navigation menu.** The hamburger toggles the `open` class and swaps ☰ for ✕ and back. Any link closes the menu.

The server side (`app.py`) has two parts:

- **The `/send` route.** It reads the posted fields with `''` as the default and strips each one. It builds the sender's name from `fullName`, or else from `firstName` and `lastName`. It then hands the inquiry to a background mail thread and redirects to `/`.
- **The mail thread.** It composes the notification: Subject, To and From headers, a blank line, and the body template.

Modules:

- `TextOps` (text.dfy): the two whitespace sets and trimming.
  - `String.prototype.trim` and the regex class `\s` use one set.
  - Python `str.strip` uses the other. It adds U+001C..U+001F and U+0085 and lacks U+FEFF.
  - This module also holds splitting on and joining with `'\n'`.
- `Patterns` (patterns.dfy): the character-class regular expressions.
  - The email expression is a split predicate.
  - A scan is proved to accept exactly its language.
- `FormValidation` (validation.dfy): what the handler decides, as values.
  - `Verdict` gives each field's message.
  - `Failures` gives the ordered list of failures one submit reports.
- `InquiryForm` (inquiry_form.dfy): the page as a class whose fields the handlers update.
  - The fields are: form values, error elements, registered listeners, focus, button look, confirmation notes and pending timers.
  - The submit handler is a method proved against `FormValidation`'s `Failures`. The input handler is proved against the listeners registered on the control.
  - The three timer callbacks are methods proved against `ButtonMatches`, which ties the button's look to the pending timer.
  - All of them keep an invariant relating the button to the pending timer and each error to its listener.
- `NavMenu` (nav_menu.dfy): the menu as a class with the `open` flag and the button glyph.
- `MailServer` (mail_server.dfy): field extraction, name composition, the mail text and the `/send` response, as functions.
- `Wrappers` (wrappers.dfy): the `Option` type both sides use.

The handler cancels the submission only when a field fails (static/adamus.js:159-162). Otherwise it starts the button's timed labels and does not cancel the browser's own submission, which navigates to the form's action. The model follows the page as if it stays loaded (see "## Left out").

## Model

| member | source | states |
|---|---|---|
| TextOps.Trim | static/adamus.js:86 | the result has no whitespace at either end, is what remains of the input once a leading and a trailing whitespace run are cut off, and is empty exactly when the input is all whitespace |
| TextOps.TrimUnique | static/adamus.js:86 | trimming has one outcome: text with non-whitespace ends, surrounded by any whitespace runs, trims to itself |
| TextOps.TrimIdempotent | app.py:64 | stripping a stripped value changes nothing |
| TextOps.LinesUnlines | app.py:37-48 | splitting a newline-join of newline-free lines at `'\n'` gives those lines back |
| TextOps.UnlinesLines | app.py:37-48 | joining the lines of a text with newlines gives the text back |
| TextOps.UnlinesAppend | app.py:37-49 | joining two non-empty line lists is joining each and putting one newline between them |
| TextOps.LinesAppend | app.py:49 | the lines of `a + "\n" + b` are the lines of `a` followed by those of `b` |
| Patterns.NamePattern | static/adamus.js:90 | the name pattern: two or more characters from the name class; a matching name has no digits and no whitespace but the plain space |
| Patterns.OrganizationPattern | static/adamus.js:142 | the organization pattern: two or more characters from its class; a matching value is ASCII apart from whitespace |
| Patterns.EmailPattern | static/adamus.js:129 | the language of the email expression, as a choice of at-sign and last-dot positions; every member has at least six characters |
| Patterns.IsEmail | static/adamus.js:129 | the email check as a scan from the first at sign; anything it accepts has at least six characters, and `EmailScanMatchesRegex` proves it equal to the language |
| Patterns.IndexOf | static/adamus.js:129 | the index of the first occurrence of a character, or the length when it does not occur |
| Patterns.LastIndexOf | static/adamus.js:129 | the index of the last occurrence of a character, or -1 when it does not occur |
| Patterns.EmailScanMatchesRegex | static/adamus.js:129 | the at-sign/last-dot scan accepts exactly the strings the email regular expression matches |
| Patterns.EmailHasOneAtSign | static/adamus.js:129 | a matching address has exactly one at sign, with a non-empty part before it |
| Patterns.EmailRejectsDoubleAt | static/adamus.js:129 | "john@@x" does not match |
| Patterns.EmailAcceptsAddress | static/adamus.js:129 | "john@example.com" matches |
| Patterns.OrganizationExamples | static/adamus.js:142 | "Acme, Inc." matches the organization pattern and a single letter does not |
| FormValidation.Verdict | static/adamus.js:86-155 | the message one present field earns: the message box is never checked, and any message other than "fill out" is the field's own pattern message |
| FormValidation.VerdictFillOut | static/adamus.js:86-155 | "fill out" is given exactly to blank values: all whitespace for text fields, the empty string for the inquiry type; other messages only to non-blank values |
| FormValidation.CheckedFields | static/adamus.js:83-156 | the fields each layout checks: the full name exactly on narrow viewports, the first name exactly on wide ones, never the message box |
| FormValidation.FailuresOver | static/adamus.js:83-156 | the failures of a list of checks, at most one per check |
| FormValidation.Failures | static/adamus.js:83-156 | the failures one submit reports, at most one per checked field; `FailureIff` and `FailuresAscending` give exactly which and in what order |
| FormValidation.FailuresOverMembers | static/adamus.js:83-156 | a failure is reported exactly for each checked, present field whose verdict is a message, and it carries that message |
| FormValidation.FailuresOverAscending | static/adamus.js:83-156 | checking fields in ascending order reports failures in ascending order |
| FormValidation.FailuresAscending | static/adamus.js:83-156 | failures come in the handler's order of checks, and no field is reported twice |
| FormValidation.FailureIff | static/adamus.js:83-156 | field f is reported with message m iff the layout checks f, f's element is present, and f's verdict is m |
| FormValidation.LayoutDecidesNameFields | static/adamus.js:83-121 | the narrow layout never reports first or last name, the wide one never the full name, and no absent field or message box is reported |
| FormValidation.AcceptedIff | static/adamus.js:159-162 | the submission proceeds iff every checked, present field passes |
| FormValidation.FocusEndsOnLatestFailure | static/adamus.js:88 | focus ends on the failing field latest in the order of checks |
| FormValidation.NameVerdict | static/adamus.js:86-94 | a name passes iff its trimmed value has two or more letters or spaces; "fill out" iff it is all whitespace; "only letters" otherwise |
| FormValidation.EmailVerdict | static/adamus.js:125-133 | the email passes iff its trimmed value is in the regex's language; "fill out" iff all whitespace; "invalid format" otherwise |
| FormValidation.OrganizationVerdict | static/adamus.js:138-146 | the organization passes iff its trimmed value has two or more ASCII letters, digits, whitespace, dots, commas or hyphens; "fill out" iff all whitespace |
| FormValidation.InquiryTypeVerdict | static/adamus.js:151-155 | the inquiry type fails iff its value is the empty string; it is not trimmed |
| InquiryForm.ListenersOnCloseOverField | static/adamus.js:75-80 | when each error has its listener on its own control, the listeners on a control close over exactly the errors shown for it |
| InquiryForm.RenderedAt | static/adamus.js:65-80 | the k-th inserted error element is numbered base+k and carries the k-th failure's field and message; its listener is on that field |
| InquiryForm.RenderedFieldsDistinct | static/adamus.js:73 | failures on distinct fields insert error elements before distinct controls |
| InquiryForm.FailuresOnDistinctControls | static/adamus.js:83-156 | the error elements one submit inserts stand before distinct controls |
| InquiryForm.CheckOrder | static/adamus.js:83-156 | the failures of each layout are the concatenation of the per-block failures, in block order |
| InquiryForm.StartStep | static/adamus.js:163-169 | from an enabled button no stage timer is pending; the start leaves "Submitting..." on #666, disabled, with the first timer pending |
| InquiryForm.ShowReceivedStep | static/adamus.js:171-174 | the first timer fires while Submitting and leaves "Inquiry Received" on #4a4a4a, still disabled, with the second timer pending |
| InquiryForm.RestoreStep | static/adamus.js:175-178 | the second timer fires while Received and leaves the original text on #1a1a1a, enabled, with no stage pending |
| InquiryForm.RemovalStep | static/adamus.js:189-191 | removing a confirmation note leaves the button and phase as they were |
| InquiryForm.InquiryPage.RemoveAllErrors | static/adamus.js:59 | every error element leaves the form; listeners and all other state stay |
| InquiryForm.InquiryPage.ShowError | static/adamus.js:65-80 | one new error element goes before the control, and one listener on the control closes over it |
| InquiryForm.InquiryPage.Report | static/adamus.js:86-93 | on a message, the page shows one more failure and focus moves to the control; on none, nothing changes |
| InquiryForm.InquiryPage.CheckField | static/adamus.js:84-95 | one block: an absent control is skipped; otherwise the page grows by that field's failure, if any |
| InquiryForm.InquiryPage.Validate | static/adamus.js:83-156 | the page shows exactly the errors and listeners of `Failures` for the current values and layout, focus is on the last failure, and `valid` holds iff there are none |
| InquiryForm.InquiryPage.Submit | static/adamus.js:56-193 | only this attempt's errors remain, one per failing field, on distinct controls; the submission is prevented iff some field fails; a valid submit starts the button sequence; the page invariant holds |
| InquiryForm.InquiryPage.RemoveErrorOnInput | static/adamus.js:76-79 | the listener's error element leaves the form if it is still there, and the listener unregisters itself |
| InquiryForm.InquiryPage.Input | static/adamus.js:75-80 | typing into a control removes exactly the errors shown for it and every listener on it, including those whose element is already gone; nothing else changes |
| InquiryForm.InquiryPage.AnnounceReceived | static/adamus.js:171-174 | the first callback moves the button from Submitting to Received and schedules the second |
| InquiryForm.InquiryPage.RestoreButton | static/adamus.js:175-192 | the second callback restores and enables the button, resets the form, appends a confirmation note and schedules its removal |
| InquiryForm.InquiryPage.RemoveConfirmationNote | static/adamus.js:189-191 | the third callback removes its confirmation note and leaves the button's phase alone |
| InquiryForm.InquiryPage.FireTimer | static/adamus.js:171-193 | whichever pending timer fires, the page invariant holds and the new state is that callback's: a stage timer advances the phase by `NextPhase` (Submitting→Received→Idle) and sets the button look, timers, notes and form values as its callback does; a removal timer drops its note and timer and keeps the phase, button and values |
| NavMenu.GlyphsAreTrimmed | static/adamus.js:222 | the two glyphs are distinct and already trimmed |
| NavMenu.ToggledGlyph | static/adamus.js:222-226 | a click shows one of the two glyphs: the cross iff the trimmed text was the hamburger |
| NavMenu.ToggleTwice | static/adamus.js:218-227 | two clicks restore the glyph iff it was one of the two glyphs |
| NavMenu.ToggleIgnoresPadding | static/adamus.js:222 | whitespace around a glyph does not change what a click does |
| NavMenu.Menu.ClickHamburger | static/adamus.js:218-227 | the `open` class flips, the glyph swaps, and a glyph matching the open state still matches it |
| NavMenu.Menu.ClickNavLink | static/adamus.js:230-234 | the menu is closed and shows the hamburger, whatever it showed before |
| MailServer.Field | app.py:72-75 | a field is "" when its key is missing or holds only whitespace; otherwise it is the posted value less its surrounding whitespace |
| MailServer.ComposeName | app.py:64-70 | the composed name has no surrounding whitespace |
| MailServer.ReadInquiry | app.py:64-75 | the inquiry is the composed name and the stripped email, organization, inquiry type and message, each read with "" as default |
| MailServer.ReadInquiryTrimmed | app.py:64-75 | no extracted field has whitespace at either end |
| MailServer.ReadInquiryDefaults | app.py:72-75 | a missing email, organization, inquiry type or message key reads as "" |
| MailServer.ReadInquiryNoName | app.py:64-70 | the name is "" when none of the full, first and last name keys is posted |
| MailServer.FullNameTakesPrecedence | app.py:64-66 | a full name with a non-whitespace character is the name, and it is not empty |
| MailServer.NameFromParts | app.py:67-70 | otherwise the name is "first last", or the one present part with no stray space, or "" |
| MailServer.JoinedName | app.py:70 | stripping "first last" for stripped parts gives the join, the single present part, or "" |
| MailServer.Body | app.py:37-48 | the body is the template's lines joined by newlines; the message sits unchanged between the fixed lines before it and those after it |
| MailServer.MailText | app.py:49 | the mail is the Subject, To and From lines and a blank line, then the whole body |
| MailServer.MailTextLayout | app.py:36-49 | for any field values, newlines included, the mail is the newline-join of the headers, the template lines before the message, the message, and the template lines after it, in that order |
| MailServer.BodyLines | app.py:37-48 | the body reads as greeting, blank, Name, Email, Organization, Inquiry Type, "Message:", the message's lines, blank, "---", footer, and an empty tail |
| MailServer.MailLines | app.py:36-49 | the mail reads as the Subject, To and From lines, a blank line, then the body's lines |
| MailServer.MessageRecoverable | app.py:43-45 | the message can be read back from the mail between the "Message:" line and the blank line before the separator |
| MailServer.SendEmail | app.py:33-58 | a mail from the account to the destination, carrying the composed text, is handed over iff the relay session succeeds; failures are swallowed |
| MailServer.Send | app.py:60-85 | `/send` always answers with a redirect to "/", whatever the mail outcome, and the mail carries the stripped fields |

## Left out

- Scroll progress bar, header shading, smooth scrolling, the reveal observer and the stagger delays (static/adamus.js:1-53 and 196-212). They are presentation effects that the form and menu do not depend on.
- The markup of the error element and of the confirmation note: inline styles and `innerHTML`. An error element is modelled as its number, its control and its message.
- Real time. Pending timers are a list, and any pending one may fire. This allows more orders than the browser's deadline order, so every proof covers the real order too. The delays of 1500, 2000 and 4000 ms fix only the order of the stages, and that order is modelled.
- `matchMedia` is a parameter of `Submit`. `focus()` is modelled as the focused control: the control the handler last called `focus()` on. Focus moved by the user, for example by typing into a control, is not modelled. Whether the browser draws focus is not part of the model.
- The browser's own form submission when the handler does not cancel it. Navigating to the form's action is outside the page model, so only the outcome (`Prevented` / `NotPrevented`) is recorded.
- InquiryForm.InquiryPage.AnnounceReceived, InquiryForm.InquiryPage.RestoreButton, InquiryForm.InquiryPage.RemoveConfirmationNote, InquiryForm.InquiryPage.FireTimer: these assume the page survives the navigation that follows an uncancelled submit. In a browser, the new document may replace the page before the 1500, 2000 and 4000 ms callbacks fire, and then the later stages never happen. Such a run is a prefix of a model run, so every property proved here still holds for the stages that do happen.
- InquiryForm.InquiryPage.Submit: requires an enabled button. A browser does not submit a form implicitly while its default button is disabled.
- The HTML document is not part of this model. The form controls' names are taken to equal their ids. Which controls exist is the key set of the page's values. The menu's first state is a constructor parameter.
- MailServer.BodyLines, MailServer.MailLines, MailServer.MessageRecoverable: stated only when the name, email, organization and inquiry type (and the To and From addresses) hold no newline. `send` strips only the ends of each value, so a posted field may contain one; the line-by-line reading then shifts. For every input, `MailServer.MailTextLayout` gives the mail as the newline-join of the fixed lines and the field values.
- SMTP connection, STARTTLS, login and the UTF-8 encoding of the message (app.py:51-55). The relay's success is a parameter of `SendEmail`.
- The background thread (app.py:78-82). The mail is composed from the values passed to it. Its timing relative to the redirect is not modelled.
- The 500 branch of `/send` (app.py:87-89). It is reached when reading the request raises inside the framework, or when `thread.start()` (app.py:82) raises because no new thread can be started. Neither cause is visible to the model, so `Send` always redirects.
- Environment loading, session cookie settings, the index route and the development server (app.py:1-31, 91-96). These are configuration and framework plumbing.
