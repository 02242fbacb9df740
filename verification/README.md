# Portfolio page logic: age line and contact form

A Dafny model of the only behaviour in the portfolio page `Site.js` that is
more than markup:

- **`getAge`**: the age shown on the page. It is the whole number of years
  since the fixed birth date 1998-08-21. The year difference is reduced by
  one while this year's birthday (August 21) is still ahead. The model takes
  "today" as an explicit `Date(year, month, day)` instead of reading the clock
  (`age.dfy`, module `Age`).
- **`ContactForm.handleSubmit`**: the submit handler of the contact form. The
  form's state is name, e-mail, message, `isSubmitting`, `submissionStatus`
  (`idle`/`success`/`error`) and `errorMessage`. The handler works in this order:
  1. It rejects the submit with "Please fill in all fields." if any field is
     blank after `trim()`.
  2. It rejects the submit with "Invalid email address." if the *untrimmed*
     e-mail fails the pattern `/^[\w-\.]+@([\w-]+\.)+[\w-]{2,4}$/`.
  3. Otherwise it enters a sending phase and then settles on success or on
     failure.

  The `disabled={isSubmitting}` attributes on the three inputs and on the
  button keep the form from being edited or resubmitted while a submission is
  in flight (`contact_form.dfy`, module `ContactForm`).

Two supporting modules:

- `strings.dfy` (`Strings`) defines JavaScript's `trim` over the exact
  ECMAScript whitespace and line-terminator set. It also defines
  single-character `split`/`join`.
- `email.dfy` (`Email`) gives two definitions of the e-mail pattern and proves
  them equal. `RegexMatches` follows the pattern's structure. `ValidEmail` is
  the executable reading: split at `@`, then at `.`.

The simulated 2000 ms delay becomes two transitions. `Begin` is the handler
up to the `await`. `Complete` is the rest. The random draw
`Math.random() > 0.2` becomes the boolean `delivered` passed to `Complete`.
`Step` and `Run` put everything together as a sequence of UI events:

- `Edit`: typing into an input.
- `Submit`: a submit event that reaches `handleSubmit` (the browser's own
  checks on the e-mail input come before it; see "Left out").
- `Resolve`: the delay ending.

`Consistent` is the invariant that every reachable state keeps.

## Model

| member | source | states |
|---|---|---|
| Age.GetAge | Site.js:22-30 | The age is the number of completed years: the age-th birthday (1998+age)-08-21 is on or before today, and the next one is after today |
| Age.AgeIsCompletedYears | Site.js:22-30 | Any n whose birthday has been reached while birthday n+1 has not equals the computed age, so the completed-years reading fixes the value |
| Age.AgeAroundBirthday | Site.js:25-29 | On or after this year's August 21 the age is year − 1998; before it, year − 1999 |
| Age.AgeMonotone | Site.js:25-29 | The age never decreases as the date advances |
| Age.AgeRisesOnBirthday | Site.js:25-29 | From August 20 to August 21 of any year the age rises by exactly one |
| Age.AgeConstantBetweenBirthdays | Site.js:25-29 | All dates between birthday n (inclusive) and birthday n+1 (exclusive) have age n |
| Age.AgeNextDay | Site.js:25-29 | From any calendar day to the next, the age is unchanged except when the next day is August 21, when it rises by one |
| Age.AgeExamples | Site.js:22-30 | 2024-08-20 gives 25; 2024-08-21 and 2024-08-22 give 26 |
| Strings.Trim | Site.js:206 | `trim()` returns an empty string exactly when every character is ECMAScript whitespace; a non-empty result starts and ends with a non-whitespace character |
| Strings.TrimPadded | Site.js:206 | Any whitespace padding around a core that starts and ends with a non-whitespace character is removed, leaving exactly the core |
| Strings.TrimIdempotent | Site.js:206 | Trimming twice is the same as trimming once |
| Email.ValidEmailMatches | Site.js:214-215 | Splitting at `@` and `.` accepts exactly the strings that the anchored pattern matches |
| Email.ValidEmailShape | Site.js:214-215 | An accepted address has exactly one `@`. The local part before it is non-empty and made of `[\w-\.]`. The domain after it has only `[\w-]` and dots, no empty label, at least one dot, and a final label of 2–4 characters from `[\w-]` |
| Email.AcceptsShortAddress | Site.js:214-215 | "a@b.co" matches the e-mail pattern |
| Email.RejectsMissingAt | Site.js:214-215 | "not-an-email" does not match the e-mail pattern |
| Email.RejectsLeadingSpace | Site.js:214-215 | " a@b.co" fails, because the pattern is applied to the untrimmed e-mail |
| Email.RejectsShortTopLabel | Site.js:214-215 | "a@b.c" fails, because the final label has only one character |
| ContactForm.CaughtMessage | Site.js:247 | The catch block shows the thrown error's message when it is non-empty, and exactly "An error occurred. Please try again." when it is empty; the text shown is never empty |
| ContactForm.Validate | Site.js:206-220 | Accepts exactly when no field is all whitespace and the untrimmed e-mail matches the pattern. A rejection carries the blank-field text if some field is blank, otherwise the invalid-address text |
| ContactForm.Begin | Site.js:200-220 | The first half of the handler never changes the fields. It enters the sending phase (`isSubmitting`, status idle, empty error text) exactly when validation passes. Otherwise it ends with `isSubmitting` false, status error and the rejection text |
| ContactForm.Complete | Site.js:232-250 | Success sets status success, clears name/e-mail/message and keeps the error text. Failure sets status error with "Failed to send message." and keeps the fields. Both end with `isSubmitting` false |
| ContactForm.HandleSubmit | Site.js:200-251 | A whole run of the handler always ends with `isSubmitting` false. Status success exactly when the input is acceptable and the send is delivered, and then the fields and error text are empty. Status error otherwise, with the fields kept and the validation text or the send-failure text |
| ContactForm.Step | Site.js:259-301 | While submitting, edits and submits leave the form unchanged. An edit of an idle form changes only the edited field. The delay's end has no effect unless a submission is in flight |
| ContactForm.RunConsistent | Site.js:192-301 | Any event sequence preserves the invariant. The error text is empty unless the status is error, and is then one of the three handler texts. A submitting form has status idle and fields that pass validation |
| ContactForm.ReachableConsistent | Site.js:192-251 | Every state reachable from the initial form is consistent; in particular status success never comes with an error text |
| ContactForm.SubmitThenResolve | Site.js:200-251 | On an idle form, pressing submit and then letting the delay end gives exactly one run of the handler |
| ContactForm.InFlightIgnoresInput | Site.js:259-301 | While a submission is in flight, no sequence of edits and submit presses changes the form, so at most one submission is in flight |
| ContactForm.BlankEmailReportedBlank | Site.js:206-219 | For every form whose e-mail is whitespace only, the handler ends in error with "Please fill in all fields.", never with the invalid-address text |
| ContactForm.BlankEmailExample | Site.js:206-211 | E-mail " \t " is reported as "Please fill in all fields." |
| ContactForm.PaddedEmailExample | Site.js:213-219 | E-mail " a@b.co" is reported as "Invalid email address." |
| ContactForm.MissingAtExample | Site.js:213-219 | E-mail "not-an-email" is reported as "Invalid email address." |
| ContactForm.SendExample | Site.js:222-243 | A valid submission ("a@b.co") ends in success or error according to the drawn outcome |

## Left out

- React rendering, JSX markup, framer-motion animations, icons and styling: presentation with no stateable logic. This includes the banners and the button's "Sending..." label, which only display `submissionStatus` and `isSubmitting`.
- `SkillCard` and `ProjectCard` hover flags and overlays (Site.js:101-190): UI toggles.
- The `skills`, `projects` and `socialLinks` tables and the outbound links (Site.js:34-98): static content.
- The 2000 ms `setTimeout` and the Promise machinery (Site.js:232): timing only. They are modelled as the two transitions `Begin` and `Complete`, and as the `Resolve` event.
- `Math.random() > 0.2` (Site.js:235): floating-point randomness, replaced by the `delivered` flag. The 80/20 split is not modelled.
- The commented-out `fetch('/api/contact', …)` call (Site.js:225-231): network I/O with no defined contract.
- The wall clock (`new Date()`, Site.js:24 and 534): today's date is an input.
- Age.GetAge: ignores the time zone. `new Date('1998-08-21')` is UTC midnight, but `getMonth`/`getDate` read local time, so west of UTC the page sees August 20. The model fixes the birth date at (1998, 8, 21).
- React state batching: the model assumes each handler segment's `setX` calls take effect together. The segments are before the `await` and after it. Intermediate renders are not modelled.
- ContactForm.Step: `Submit` stands for a submit event that reaches `handleSubmit`. The browser's handling of the `type="email"` input in a form without `noValidate` (Site.js:254, 275) is not modelled. That input strips leading and trailing ASCII whitespace and newlines from the value. The browser also withholds the submit event when the e-mail is non-empty and not a valid HTML e-mail address. So `ContactForm.MissingAtExample` and `ContactForm.PaddedEmailExample` describe the handler when it is called, not what a user typing in a browser sees; there the browser shows its own prompt or sanitizes the value first. A withheld submit leaves the form unchanged, so the invariants are unaffected.
- Updates after the component unmounts mid-delay are not modelled.
