# Form validation and interactive widgets of an event-handling demo page

This project models the behaviour of `script.js`, the one script of a demo
web page, and proves properties of that model. The centre of the model is
the page's form-validation engine:

- the rule table `validationRules`;
- the decision `validateField` takes for one field;
- what `validateField` and `showError` do to the field's presentation.

It also models three small state machines from the script's event handlers:

- the click counter;
- the FAQ accordion;
- the tab switcher.

Modules:

- `Text` (`text.dfy`): the ECMAScript whitespace set (WhiteSpace and
  LineTerminator, sections 12.2 and 12.3 of ECMA-262). Also
  `String.prototype.trim`, written as `Trim`, and character counting and
  searching.
- `Patterns` (`patterns.dfy`): the regular expressions of the rule table
  as four hand-written predicates with ECMAScript semantics (`firstName`
  and `lastName` share one pattern). The e-mail, phone and password
  predicates each have an independent description of the language they
  accept, and a lemma that the two agree.
  - Names: `NameMatches`.
  - E-mail: `EmailMatches` against `EmailShape`.
  - Phone: `PhoneMatches` against `PhoneLanguage`, the renderings of a
    `PhoneShape`.
  - Password: `PasswordMatches` against `PasswordShape`.
- `Validation` (`validation.dfy`): the rule table and `ValidateValue`.
  `ValidateValue` is a total function from the field id, the raw value and
  the live value of the `password` field to a verdict, `Fail(message)` or
  `Pass(showSuccess)`. This module also holds the check-order reference
  `RunChecks` and the per-field properties.
- `FieldDisplay` (`field_display.dfy`): class `Field`, with the
  presentation state `validateField` resets and `showError` sets.
- `Counter` (`counter.dfy`), `Faq` (`faq.dfy`) and `Tabs` (`tabs.dfy`):
  the three widgets, each a class over an integer or over arrays of flags.

Behaviour kept exactly as the script has it:

- `confirmPassword` has no rule. It is compared, trimmed, with the
  untrimmed live password. A password with whitespace at either end can
  therefore never be confirmed (`PaddedPasswordNeverConfirmed`).
- The phone pattern makes the two parentheses independent, so
  `(123456-7890` is accepted (`PhoneAcceptsUnbalanced`).
- The password pattern has no `$` and restricts only the first character.
  Anything may follow an accepted value (`PasswordSuffixFree`,
  `PasswordAcceptsForeignTail`).
- The password look-aheads use `.`, which stops at a line terminator. The
  four character classes must therefore appear before the first line break,
  not anywhere in the value (`LookaheadIff`).
- `validateField` both decides and changes the page. `ValidateValue` is the
  pure decision. The reset and the `showError` effects are in
  `Field.ValidateField`.
- `clickCount` is a JavaScript Number, a 64-bit double. It counts exactly up
  to 2^53 in magnitude; there `++` (or `--` at -2^53) rounds back to the same
  value, so the count stops. `NumberIncrement` and `NumberDecrement` model this.
- A lookup in the JavaScript object `validationRules` also finds names
  inherited from `Object.prototype`, such as `toString`. Such a value has no
  `required`, `minLength` or `pattern`, so it behaves exactly like "no rule".
  The model looks ids up in a `map`, which gives the same verdicts.

## Model

| member | source | states |
|---|---|---|
| Text.IsSpace | script.js:214 | the whitespace `trim()` removes and `\s` matches: the ECMAScript WhiteSpace characters (tab, vertical tab, form feed, space, no-break space, byte order mark and the Unicode space separators) and the line terminators LF, CR, LS and PS |
| Text.LeadingSpace | script.js:214 | the count of leading whitespace: everything before it is whitespace, the next character is not |
| Text.TrailingSpace | script.js:214 | the count of trailing whitespace: everything after it is whitespace, the character before it is not |
| Text.Trim | script.js:214 | `trim()` gives a middle slice of the value with whitespace only cut off, no whitespace at either end, and is empty exactly for an all-whitespace value |
| Text.TrimIsUnique | script.js:214 | any split of a value into whitespace, a stripped middle and whitespace has `Trim` equal to that middle |
| Text.TrimIdempotent | script.js:214 | trimming a trimmed value changes nothing |
| Patterns.NameMatches | script.js:180-186 | `/^[a-zA-Z\s]+$/`: a non-empty value made only of ASCII letters and whitespace |
| Patterns.EmailMatches | script.js:191 | `/^[^\s@]+@[^\s@]+\.[^\s@]+$/`: some split of the value into a part before an "@", a part before a ".", and a last part, each non-empty and free of whitespace and "@" |
| Patterns.EmailMatchesIff | script.js:191 | the e-mail regex accepts exactly the values with no whitespace, one "@" with something before it, and a "." in the domain that is neither its first nor last character |
| Patterns.PhoneMatches | script.js:196 | `/^\(?([0-9]{3})\)?[-. ]?([0-9]{3})[-. ]?([0-9]{4})$/`, read left to right: an optional "(", three digits, an optional ")", an optional separator, three digits, an optional separator, and exactly four digits to the end |
| Patterns.PhoneRenderMatches | script.js:196 | every writing of a phone number the regex allows (optional "(", three digits, optional ")", optional separator, three digits, optional separator, four digits) is accepted |
| Patterns.ParsePhone | script.js:196 | every accepted value is such a writing, and reads back to itself |
| Patterns.PhoneMatchesIff | script.js:196 | the left-to-right matcher accepts exactly the language of the phone regex |
| Patterns.PhoneDigits | script.js:196 | an accepted phone value has exactly ten digits and ten to fourteen characters |
| Patterns.PasswordMatches | script.js:202 | the password regex: four look-aheads, each for a lower-case letter, an upper-case letter, a digit or one of `@$!%*?&` before the first line break, and a first character from `[A-Za-z0-9@$!%*?&]` |
| Patterns.LookaheadIff | script.js:202 | a look-ahead `(?=.*[class])` succeeds exactly when the class occurs before the first line terminator |
| Patterns.PasswordMatchesIff | script.js:202 | the password regex accepts exactly the values whose first character is in `[A-Za-z0-9@$!%*?&]` and whose first line holds a lower-case letter, an upper-case letter, a digit and one of `@$!%*?&` |
| Patterns.PasswordSuffixFree | script.js:202 | anything appended to an accepted password keeps it accepted, since nothing anchors the end |
| Patterns.NameExamples | script.js:180 | `Al` and `Mary Ann` match the name pattern; `Al3x` and the empty value do not |
| Patterns.EmailAccepts | script.js:191 | `a@b.com` and `a@b.c.d` are accepted |
| Patterns.EmailRejects | script.js:191 | `a@b` (no dot in the domain) and `a b@c.d` (whitespace) are rejected |
| Patterns.EmailRejectsTwoAts | script.js:191 | `a@b@c.d` (two "@") is rejected |
| Patterns.PhoneAcceptsDashes | script.js:196 | `123-456-7890` is accepted |
| Patterns.PhoneAcceptsAreaCode | script.js:196 | `(123) 456-7890` is accepted |
| Patterns.PhoneAcceptsUnbalanced | script.js:196 | `(123456-7890` is accepted: the parentheses are independent |
| Patterns.PhoneRejects | script.js:196 | `12345` and `123-456-78901` are rejected |
| Patterns.PasswordAccepts | script.js:202 | `Abcdef1@` is accepted |
| Patterns.PasswordAcceptsForeignTail | script.js:202 | `Abcdef1@ <>` is accepted although it holds characters outside the allowed alphabet |
| Patterns.PasswordRejects | script.js:202 | `abcdefg1@` (no upper-case letter) and `~Abcdef1@` (first character not allowed) are rejected |
| Validation.RuleFor | script.js:215 | exactly firstName, lastName, email, phone and password have a rule, which is required and has a pattern; `confirmPassword` has none; no rule message equals the two fixed messages |
| Validation.TableFacts | script.js:176-205 | the rule table `ValidationRules` holds exactly firstName, lastName, email, phone and password, every rule is required, `confirmPassword` has no entry, and no rule message equals the two fixed messages |
| Validation.CheckFails | script.js:225-249 | the four guards of validateField on the trimmed value: required and empty; shorter than the rule's minimum length; non-empty and not matched by the rule's pattern; confirmPassword and different from the live password |
| Validation.ValidateValue | script.js:212-256 | a pass shows success exactly when the value is not all whitespace; a field without a rule can fail only with "Passwords do not match" |
| Validation.FirstFailureWins | script.js:225-249 | in a chain of checks, the first failing check decides the verdict and its message; later checks do not matter |
| Validation.NoFailurePasses | script.js:251-255 | when no check fails the value passes, with success shown exactly when the trimmed value is non-empty |
| Validation.ValidateRunsChecksInOrder | script.js:224-255 | validateField is the chain required, minLength, pattern, confirmPassword on the trimmed value |
| Validation.RequiredRule | script.js:225-228 | a field with a rule fails with "This field is required" exactly when its value is empty or whitespace only |
| Validation.RuledPassShowsSuccess | script.js:252-255 | a field with a rule that passes always shows success |
| Validation.NameField | script.js:231-240 | firstName and lastName pass exactly when the trimmed value has two or more characters, all ASCII letters or whitespace; other failures on a non-empty trimmed value show the field's own message |
| Validation.EmailField | script.js:189-193 | email passes exactly when the trimmed value has the e-mail shape; a failure on a non-empty trimmed value shows the e-mail message |
| Validation.PhoneField | script.js:194-198 | phone passes exactly when the trimmed value is in the phone language, and then it has ten digits and 10 to 14 characters |
| Validation.RuledFieldVerdict | script.js:225-240 | a field with a rule fails with the required message when empty, with its own message when shorter than its minimum length, and otherwise passes, with success shown, exactly when its pattern matches |
| Validation.PasswordField | script.js:199-204 | a non-empty trimmed password shorter than 8 characters fails with its message; one of 8 or more characters passes exactly when it has the password shape |
| Validation.ConfirmPasswordField | script.js:242-249 | confirmPassword has no rule and fails with "Passwords do not match" exactly when its trimmed value differs from the live password; an empty match passes without success |
| Validation.PaddedPasswordNeverConfirmed | script.js:243-245 | a live password with whitespace at either end makes every confirmation fail |
| Validation.UnruledFieldPasses | script.js:215-255 | a field with no rule other than confirmPassword passes every value, showing success exactly when it is not all whitespace |
| Validation.TrimmingIsInvisible | script.js:214 | validating the trimmed value gives the same verdict as validating the raw one |
| FieldDisplay.AfterValidation | script.js:219-267 | after validation no success class or element is left from the reset, and the error class and element are on exactly for a failure, with its message; a pass keeps the old error text |
| FieldDisplay.ValidationIdempotent | script.js:219-267 | validating twice with the same verdict leaves the same presentation as validating once |
| FieldDisplay.Field.Reset | script.js:220-222 | removes both classes and hides both elements; the error text and value stay |
| FieldDisplay.Field.ShowError | script.js:264-268 | adds the error class, writes the message and shows the error element; nothing else changes |
| FieldDisplay.Field.ValidateField | script.js:212-256 | returns whether the field passes and whether showSuccess is called, and leaves the presentation that the verdict gives |
| Counter.ClickCounter.constructor | script.js:9 | the count starts at 0 and the display is untouched |
| Counter.NumberIncrement | script.js:17 | `++` on an exact integer Number: one more below 2^53, unchanged at 2^53, and the result stays exact |
| Counter.NumberDecrement | script.js:24 | `--` on an exact integer Number: one less above -2^53, unchanged at -2^53, and the result stays exact |
| Counter.IncrementDecrementInverse | script.js:16-27 | away from the limits, a decrement undoes an increment and an increment undoes a decrement |
| Counter.ClickCounter.Increment | script.js:16-20 | the count is incremented as a Number and displayed, in the success colour exactly when it is positive, never the danger colour |
| Counter.ClickCounter.Decrement | script.js:23-27 | the count is decremented as a Number and displayed, in the danger colour exactly when it is negative, never the success colour |
| Counter.ClickCounter.Reset | script.js:30-34 | the count is 0 and displayed in the primary colour |
| Faq.Accordion.Click | script.js:118-140 | answer and icon of the clicked question are flipped, every other answer and icon is cleared, at most one answer is open, and icons that mirrored the answers still do |
| Tabs.TabSwitcher.Select | script.js:149-161 | afterwards exactly the clicked button and exactly the target pane are active |

## Left out

- DOM lookup and rendering (`getElementById`, `querySelector`, `classList`, `style`, `textContent`) are modelled as fields and records. The exceptions a missing element would throw are not modelled:
  - in validateField, a missing error or success element (script.js:216-217) or password field (script.js:244);
  - in the FAQ handler, a question with no next sibling or no `.faq-icon` (script.js:126-127), and fewer icons than answers, where `allIcons[index]` is undefined (script.js:136);
  - in the tab handler, a `data-tab` naming no element (script.js:159).
- `Faq.Accordion` assumes, in `Valid` and in the precondition of `Click`, that there are as many icons as answers, that icon i belongs to question i, and that the clicked question's answer is answer i. The page's markup is not part of this model, so these are assumptions, not facts.
- The event-delegation tests that decide whether a click hit a FAQ question or a tab button (script.js:120-121, 150) are not modelled. `Faq.Accordion.Click` takes the index of the clicked question. `Tabs.TabSwitcher.Select` takes the indices of the clicked button and its target pane. The lookup of the pane by its `data-tab` id is also not modelled.
- The live `password` value that validateField reads from the page is a parameter of `ValidateValue` and `Field.ValidateField`.
- `showSuccess`, the form-submit aggregation and the clear-form button are not part of this model. `showSuccess` is called at script.js:253, and `form`, `successAlert` and `clearFormBtn` are declared at script.js:171-173. Their definitions and uses lie beyond line 268 of the text modelled. `Field.ValidateField` only returns whether `showSuccess` would be called.
- Hover effects and the timed resets (script.js:40-75) are pure styling and `setTimeout` scheduling, and are not modelled.
- The theme toggle and its `localStorage` persistence (script.js:85-106) are browser storage I/O around a flip, and are not modelled.
- There is no general regular-expression engine: the regexes are hand-written predicates over `seq<char>`.
- `value.length` counts UTF-16 code units in JavaScript. The model counts Unicode scalar values, so a value with characters outside the Basic Multilingual Plane has a different length in the model.
- The counter writes the count as text. The model records the integer, not its decimal rendering.
- The constructors of `Faq.Accordion` and `Tabs.TabSwitcher` take the initial flags as parameters, because the page's initial markup is not part of script.js.
