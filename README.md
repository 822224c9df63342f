# Inquiry form of the Rajasthan Silica Quartz website, modelled in Dafny

The website's script (`app.js`) wires up a contact form. A visitor fills in the inquiry
form and presses the submit button. The script then validates the required fields and
marks each failing one with the class `is-invalid`. If any field fails, it shows one
aggregate error and stops. Otherwise it puts the submit button into a disabled "Sending..."
state and posts the form values, plus five metadata entries, to a form-relay endpoint. When
the request resolves it shows a success or an error message. On success it resets the
form. In every case it restores the button. Two small rules also pre-select an entry in the
product drop-down: one reads the `product` URL parameter, the other reads the grade named
in a product card whose "quote" button was clicked.

The model has five modules:

- `Text`: the string operations the script relies on, with their JavaScript meaning.
  These are `trim`, the white-space class `\s`, `toLowerCase` and `includes`.
- `Email`: the pattern `^[^\s@]+@[^\s@]+\.[^\s@]+$`, written twice. `EmailPattern` states
  the split the expression describes. `IsEmail` is the direct test the validator runs,
  and its contract is that the two agree.
- `ContactForm`: the form's controls as `Field` values. `Validated` and `AllPass` are the
  specification of one validation pass. The class `InquiryForm` holds the field array, the
  submit button, the message element, the requests issued so far and the button content
  to restore. Its methods are the validator's loop, `showFormMessage`, the synchronous part
  of the submit handler (`Submit`) and its continuation (`Resolve`). Two scenario methods,
  `BlankFieldScenario` and `FilledFormScenario`, derive from these contracts alone
  what a whole run does.
- `ProductSelect`: the product `<select>` as a class over an array of options. It has the
  option-selection loop shared by both pre-selection rules, proved against `AfterSelecting`.
- `Wrappers`: an `Option` type.

The request is not sent anywhere. The network outcome is an input to `Resolve`: a response
(with its `ok` flag and whether its body parsed as JSON) or a transport error. The
timestamp is an opaque string passed to `Submit`. The URL parameter and the card title are
`Option` inputs (`None` when absent).

Four behaviours of the code that are easy to misread:

- Only fields that carry `required` are checked, the e-mail format included, because the
  validator walks `querySelectorAll('[required]')`. An e-mail field without `required` is
  never checked (`ContactForm.UnrequiredFieldIgnored`).
- After a successful submission, `form.reset()` restores each control's default value.
  That value is empty only when the markup gives none (`Field.defaultValue`).
- An `ok` response whose body is not JSON ends in the error branch, because
  `response.json()` rejects (`ContactForm.Succeeded`).
- Setting `option.selected = true` in a single-choice `<select>` deselects every other
  option, so there the last matching option is the one left selected. Only in a `multiple`
  list do earlier selections stay. `Select.multiple` chooses between the two behaviours.

## Model

| member | source | states |
|---|---|---|
| `Text.IsWhitespace` | app.js:148-160 | the characters `trim` strips and `\s` matches: the ECMAScript white space and line terminators, including no-break space, the Unicode space separators, the line and paragraph separators and the byte-order mark |
| `Text.AsciiWhitespace` | app.js:148-160 | among ASCII characters, that set is exactly tab, line feed, vertical tab, form feed, carriage return and space |
| `Text.Trim` | app.js:148 | the trimmed value is no longer than the input and neither starts nor ends with white space (`Text.TrimMiddle` gives what is removed) |
| `Text.TrimMiddle` | app.js:148 | the trimmed value is a slice `s[a..b]` of the input, and everything before `a` and from `b` on is white space: exactly the leading and trailing white space is removed |
| `Text.TrimEmptyIff` | app.js:148-153 | a trimmed value is empty exactly when the raw value is all white space (the validator's `!value` test) |
| `Text.Contains` | app.js:284 | `includes` finds a prefix (so the empty string everywhere) and never finds a needle longer than the haystack |
| `Text.Lower` | app.js:284 | `toLowerCase` keeps the length, leaves no upper-case ASCII letter, and keeps every other character in place |
| `Text.LowerLetters` | app.js:284 | each of `A`-`Z` becomes the letter at the same place in `a`-`z` |
| `Text.LowerIdempotent` | app.js:284 | lower-casing a lower-cased string changes nothing |
| `Text.ContainsIff` | app.js:284 | `includes` holds exactly when the needle occurs in the haystack at some offset |
| `Email.EmailPattern` | app.js:160 | the regular expression as a split `local@run.run` of non-empty runs of characters that are neither white space nor `@`; a match is at least five characters long and holds an `@` |
| `Email.IsEmail` | app.js:160-161 | the direct test accepts exactly the strings the regular expression matches: a plain non-empty local part, `@`, and a plain domain holding a `.` with a character on each side |
| `Email.NoAtRejected` | app.js:160-161 | a string without `@` does not match the regular expression |
| `Email.EmailSound` | app.js:160-161 | a split at the first `@` that the direct test accepts matches the regular expression |
| `Email.EmailComplete` | app.js:160-161 | every split the regular expression describes has its `@` first, and the direct test accepts the split there |
| `Email.FirstAtDecides` | app.js:160-161 | with the first `@` fixed, the regular expression matches exactly when the direct test accepts the split at it |
| `Email.AcceptsSample` | app.js:160-161 | `a@b.co` is accepted |
| `Email.RejectsNotAnEmail` | app.js:160-161 | `not-an-email` is rejected |
| `Email.RejectsWhitespace` | app.js:160-161 | any white-space character anywhere rejects the value |
| `Email.RejectsSecondAt` | app.js:160-161 | a value with a second `@` is rejected |
| `Email.RejectsUndottedDomain` | app.js:160-161 | a value whose domain has no `.` with a character on each side is rejected |
| `ContactForm.Fails` | app.js:148-165 | a required field fails exactly when its value is all white space, or it is an e-mail field whose trimmed value does not match the regular expression |
| `ContactForm.Recheck` | app.js:151-164 | one visit changes only the mark: a required field is marked exactly when it fails, and a field without `required` is left as it was |
| `ContactForm.Validated` | app.js:147-166 | validation keeps the number and order of the fields, and each field ends as one visit on its own leaves it |
| `ContactForm.AllPass` | app.js:145-172 | the verdict is true exactly when every required field passes its check |
| `ContactForm.ValidatedAt` | app.js:147-166 | after validation a required field is marked exactly when it fails, whatever its old mark; other fields keep their mark; nothing else about a field changes |
| `ContactForm.ValidationVerdict` | app.js:143-172 | the verdict is true exactly when every required trimmed value is non-empty and every required e-mail value matches the pattern |
| `ContactForm.VerdictMatchesMarks` | app.js:151-172 | the verdict is true exactly when validation leaves no required field marked |
| `ContactForm.ValidatedIdempotent` | app.js:147-166 | validating twice marks the same fields as validating once |
| `ContactForm.UnrequiredFieldIgnored` | app.js:144-147 | a field without `required` has no effect on the verdict: dropping it from the list gives the same verdict |
| `ContactForm.RecheckedEach` | app.js:147-166 | visiting every field on its own, in order, gives the validated field list |
| `ContactForm.Succeeded` | app.js:107-113 | the success branch is reached exactly by a response with `ok` set whose body parses as JSON |
| `ContactForm.FormEntries` | app.js:89 | `new FormData(form)` gives one entry per control, in document order, holding its name and its current value |
| `ContactForm.Reset` | app.js:119 | `reset()` keeps the number of fields and gives every field its default value, changing nothing else |
| `ContactForm.ResetIdempotent` | app.js:119 | resetting a reset form changes nothing |
| `ContactForm.BuildPayload` | app.js:89-97 | the body is every control's entry, then exactly `_subject`, `_cc`, `_autoresponse`, `timestamp`, `source` in that order, with the given timestamp and the fixed texts |
| `ContactForm.ValidationKeepsEntries` | app.js:77-89 | validation changes only marks, so the body carries the values as submitted |
| `ContactForm.AlertClass` | app.js:178 | the class is `alert alert-success mt-3` exactly for the type `success` and `alert alert-danger mt-3` exactly for every other type |
| `ContactForm.InquiryForm.constructor` | app.js:54-59 | the form starts with its controls, an enabled button without `loading`, no request issued and no message shown |
| `ContactForm.InquiryForm.ShowFormMessage` | app.js:176-179 | the message gets the text and the class chosen by the type, and is made visible |
| `ContactForm.InquiryForm.CheckField` | app.js:147-165 | one visit: a required field's old mark is removed and it is marked again exactly when it fails; no other field changes |
| `ContactForm.InquiryForm.ValidateForm` | app.js:143-173 | the fields become `Validated` of the old fields; the result is the verdict; on failure exactly the aggregate error message is shown, on success the message is untouched |
| `ContactForm.InquiryForm.Submit` | app.js:72-97 | an invalid form stops with the error message and no change to the button or the outbox; a valid form disables the button with `loading` and the spinner, remembers the old content, issues one request with the built body and leaves no required field marked; the button is disabled exactly while a request is in flight |
| `ContactForm.InquiryForm.Resolve` | app.js:107-138 | only an `ok` response with a JSON body resets the fields and shows the thank-you message; every other outcome shows the error message and keeps the values; either way the button content is restored, `disabled` is false and `loading` is removed |
| `ProductSelect.ProductMatches` | app.js:284 | the URL rule picks an option exactly when the lower-cased parameter occurs in the lower-cased value at some offset |
| `ProductSelect.QuoteMatches` | app.js:313-320 | the else-if chain picks an option exactly when one of the three pairs holds: the title names `Grade A` and the value `Premium Grade A`, or `Grade B` and `Industrial Grade B`, or `Grade C` and `Commercial Grade C` |
| `ProductSelect.SetSelected` | app.js:285 | `selected = true` selects that option, keeps every value and the number of options, and leaves each other option selected only in a multiple-choice list that already had it selected |
| `ProductSelect.LastMatch` | app.js:283-287 | the position returned is picked by the rule and no later option is picked, or -1 when none is |
| `ProductSelect.Selecting` | app.js:283-287 | visiting the options in order and setting `selected` on each picked one never changes an option's value or the number of options |
| `ProductSelect.SelectingAt` | app.js:283-287 | after the first `n` visits, in a multiple-choice list an option is selected exactly when it was before or was picked; in a single-choice list the last picked option is the only one selected, and with nothing picked nothing changed |
| `ProductSelect.MultipleKeepsAndAdds` | app.js:283-287 | in a multiple-choice list every picked option ends up selected and no option is deselected |
| `ProductSelect.SingleEndsOnLastMatch` | app.js:283-287 | in a single-choice list with a picked option, exactly one option ends up selected, and it is the last picked one |
| `ProductSelect.EmptyProductMatchesAll` | app.js:281-284 | an empty `product` parameter matches every option |
| `ProductSelect.ProductMatchIgnoresCase` | app.js:284 | two parameters that agree once lower-cased pick the same options |
| `ProductSelect.ProductMatchSample` | app.js:284 | `?product=QUARTZ` and `?product=quartz` pick the same options |
| `ProductSelect.QuoteMatchSharesGrade` | app.js:313-320 | an option the quote rule picks contains the same grade (`Grade A`, `B` or `C`) that the card title contains |
| `ProductSelect.UngradedTitlePicksNothing` | app.js:313-320 | a title naming none of the three grades picks no option |
| `ProductSelect.Select.SelectAt` | app.js:285 | `option.selected = true` selects that option; in a single-choice list it also deselects every other one; values are untouched (`SetSelected`) |
| `ProductSelect.Select.SelectWhere` | app.js:283-287 | the loop leaves the options as `AfterSelecting` (the whole list visited in order) describes; its loop invariant is that the first `i` options have been visited |
| `ProductSelect.Select.AutofillFromUrl` | app.js:277-289 | without a `product` parameter nothing changes; with one, the options picked by the case-insensitive `includes` rule are selected |
| `ProductSelect.Select.PrefillFromQuote` | app.js:304-323 | outside a product card nothing changes; inside one, the options picked by the card title's grade are selected |

## Left out

- Fetching, promises and the event loop: the outcome of the request is an input to `Resolve`, and the `submit` listener's registration and `preventDefault` are not modelled.
- `Submit` requires an enabled button. The browser does not fire the submit gesture through a disabled default button, so a second submission cannot start while one is in flight.
- The 8-second timer that hides the message, the 500 ms delay before the quote prefill, and the 2-second link-label timer are not modelled: they are time, not decisions.
- The `gtag` analytics events, the `console.error` log, Bootstrap collapse and tooltips, and the WhatsApp `window.open` are left out as optional third-party calls.
- Smooth scrolling, navbar styling, fade-in animations, lazy images, hover effects, image-error handlers, keyboard shortcuts, the injected style sheet and the structured-data script are left out: they are browser plumbing with no decision logic.
- `new FormData(form)` is modelled as one entry per control, in order. Unnamed, disabled, unchecked and file controls, which `FormData` skips or encodes specially, are not distinguished.
- `Text.Lower`: it lower-cases only the ASCII letters `A`-`Z`, not the full Unicode case mapping of `toLowerCase`. The percent-decoding of the URL parameter is also left out.
- Missing elements that make the code throw are not modelled: a form without a submit button (`submitBtn.innerHTML`, app.js:83, reached after validation has passed), a page without `#formMessage` (app.js:177), and a product card without an `<h3>` (app.js:306). The methods are called on objects that exist.
- The guarded absences are modelled only in part. A quote button outside a product card is `None` for `PrefillFromQuote`, but a page without the product `<select>` (app.js:280, 310) is not modelled: `Select` methods run on an existing list.
- `Date().toLocaleString()` is not modelled: the timestamp is an opaque string given to `Submit`.
