# OTP verification screen and form validation, modelled in Dafny

This project models the client-side logic of a demo authentication front end.
There is no real back end: every server call is a timer that resolves.

- **The OTP verification screen** (`OTPVerification.tsx`). Six one-digit input boxes
  with auto-advance, Backspace navigation and six-digit paste. It auto-submits when
  the last box is filled. Verify and resend are simulated requests, and resend
  starts a 30-second countdown. An effect resends the code by itself whenever
  resend is enabled and the countdown is 0.
- **The validation schemas of the login and sign-up forms** (`Login.tsx`,
  `SignUp.tsx`), plus the character filter of the mobile-number input.

Files:

- `wrappers.dfy`: `Option`.
- `js_text.dfy`: JavaScript string behaviour the pages use: the ASCII classes `\d`,
  `[a-z]` and `[A-Z]`, the characters `String.prototype.trim` strips (the WhiteSpace
  and LineTerminator productions of ECMA-262), `trim` itself, and `slice(-1)`.
- `js_regex.dfy`: the one shape of regular expression all the pages use,
  `/^(?=.*[A])…[B]{m,n}$/` with no flags. `Test` evaluates a pattern by scanning the
  string: each lookahead walks forward to a member of its class, then the body
  class must run to the end. `Means` says the same thing with
  quantifiers. `TestMeans` proves the two agree on every string.
- `otp_screen.dfy`: the screen as a state machine over values. `Screen` holds the
  component state. It also counts the work still pending in the event loop:
  verifications and dispatches waiting at their `await`, and countdown intervals
  not yet cleared. `Step` applies one event, then the re-render and the
  auto-resend effect. `Inv` is the invariant every event preserves.
- `otp_controller.dfy`: the component as a class. Its fields are the state, and
  `otp` is an `array<string>`. Each handler is proved to perform `Step` for the
  code as written.
- `otp_findings.dfy`: three defects in the screen (see Findings). Each has a witness
  against the code as written and a proof about the corrected code.
- `login_form.dfy`, `signup_form.dfy`: the field rules as predicates, with
  closed-form characterisations.

How the model is built:

- Server outcomes and timer firings are events that carry a boolean outcome
  (`VerifyReturned(verified)`, `DispatchReturned(sent)`, `IntervalFired`). The
  simulated calls never fail. The catch of `handleSubmit` runs only if the
  `localStorage.setItem` call at line 91 throws, for instance when storage is
  blocked or full. The catch of `handleResendOtp` cannot run. The model keeps
  both catch branches as the `false` outcome.
- The auto-submit of `handleOtpChange` calls `handleSubmit` from the same render,
  so it reads the boxes as they were before the edit. `Submit` and
  `HandleSubmit` therefore take the boxes they read as an argument, and
  `HandleOtpChange` passes the array it replaced.
- The component itself has no guard against a double submit. Only the disabled
  attributes of the rendered page stop one: boxes at line 188, the button at
  line 205, the resend link at line 222. `Deliverable` says which events can
  reach a handler at all. `UiEnabled` adds those disabled attributes. `Run`
  feeds a sequence of events, each of which must be allowed by `UiEnabled`.
- The auto-resend effect follows React's dependency rule. It runs once at mount,
  and after any event that changes `resendDisabled` or `countdown`.

Three behaviours of the code worth knowing, all modelled as written:

- A paste leaves the error message as it is (OTPVerification.tsx:63-75).
- `handleSubmit` has no in-flight guard (OTPVerification.tsx:77-86).
- The resend link is disabled only by `resendDisabled`, not while a request is
  loading (OTPVerification.tsx:222).

## Model

| member | source | states |
|---|---|---|
| `JsText.TrimStart` | frontend/src/pages/OTPVerification.tsx:65 | the result is the suffix of the input after its leading trimmable characters, and it does not start with one |
| `JsText.TrimEnd` | frontend/src/pages/OTPVerification.tsx:65 | the result is the prefix before the trailing trimmable characters, and it does not end with one |
| `JsText.Trim` | frontend/src/pages/OTPVerification.tsx:65 | `trim` keeps one contiguous part of the string and removes only trimmable characters before and after it |
| `JsText.TrimKeepsUntrimmed` | frontend/src/pages/OTPVerification.tsx:65 | `trim` returns unchanged a string with no trimmable character at either end |
| `JsText.TrimKeepsDigits` | frontend/src/pages/OTPVerification.tsx:65-67 | `trim` never changes a digit string |
| `JsText.TrimmedEnds` | frontend/src/pages/OTPVerification.tsx:65 | the result of `trim` has no trimmable character at either end |
| `JsText.LastChar` | frontend/src/pages/OTPVerification.tsx:44 | `slice(-1)` is empty for empty input, and otherwise one character: the last one |
| `JsRegex.ClassRun` | frontend/src/pages/SignUp.tsx:37 | the run length is the longest prefix whose characters all lie in the class |
| `JsRegex.Test` | frontend/src/pages/SignUp.tsx:37 | every character of a string the pattern accepts lies in its body class |
| `JsRegex.LookaheadMeans` | frontend/src/pages/SignUp.tsx:37 | `(?=.*[c])` holds exactly when a character of the class occurs before the first line terminator |
| `JsRegex.AllLookaheadsMean` | frontend/src/pages/SignUp.tsx:37 | a run of lookaheads holds exactly when each of them does |
| `JsRegex.TestMeans` | frontend/src/pages/SignUp.tsx:37 | the scanning `test` of an anchored pattern agrees, on every string, with its declarative meaning |
| `JsRegex.LookaheadOnOneLine` | frontend/src/pages/SignUp.tsx:37 | on a string without line breaks, a lookahead only asks that some character be in the class |
| `OtpScreen.EmptyCells` | frontend/src/pages/OTPVerification.tsx:24 | six boxes, all empty, so the code is not complete |
| `OtpScreen.Join` | frontend/src/pages/OTPVerification.tsx:78 | boxes of at most one digit join to a digit string no longer than the number of boxes |
| `OtpScreen.JoinOfCells` | frontend/src/pages/OTPVerification.tsx:78-80 | joining one-digit boxes gives a string of length 6 exactly when every box is filled, and its i-th digit is box i |
| `OtpScreen.CodeCompleteIffFilled` | frontend/src/pages/OTPVerification.tsx:78-80 | the length test of `handleSubmit` is exactly "no box is empty" |
| `OtpScreen.EditAccepted` | frontend/src/pages/OTPVerification.tsx:41 | the empty input passes the filter, and any input that passes leaves a box holding "" or one digit after `slice(-1)` |
| `OtpScreen.EditAcceptedIff` | frontend/src/pages/OTPVerification.tsx:41 | an edit is ignored exactly when its input contains a character that is not an ASCII digit; empty input is accepted |
| `OtpScreen.PasteAccepted` | frontend/src/pages/OTPVerification.tsx:65-67 | the trimmed text of an accepted paste splits into six valid boxes |
| `OtpScreen.PasteAcceptedIff` | frontend/src/pages/OTPVerification.tsx:65-67 | a paste is taken exactly when the trimmed text is six ASCII digits |
| `OtpScreen.SplitChars` | frontend/src/pages/OTPVerification.tsx:68 | `split('')` gives one one-character string per character, in order |
| `OtpScreen.SessionPresent` | frontend/src/pages/OTPVerification.tsx:33 | the session check fails for exactly the two falsy values of the user ID: missing and the empty string |
| `OtpScreen.Edited` | frontend/src/pages/OTPVerification.tsx:43-50 | box `index` gets the last character, the other boxes keep theirs, the error clears, and only focus may also change; it stays put for empty input or the last box |
| `OtpScreen.AutoSubmits` | frontend/src/pages/OTPVerification.tsx:52-53 | an auto-submit needs a non-empty edit of the last box with the five boxes before it already filled |
| `OtpScreen.Submit` | frontend/src/pages/OTPVerification.tsx:77-87 | with an incomplete code read, only the error changes, to the incomplete-code message; otherwise loading starts, the error clears and one verification is pending; the boxes, focus and resend state stay as they were |
| `OtpScreen.OtpChange` | frontend/src/pages/OTPVerification.tsx:40-55 | a rejected input changes nothing; an accepted one writes the last character into box `index` only and keeps the other five; focus moves to `index+1` exactly for non-empty input below the last box; without an auto-submit the error clears and loading is untouched; resend state never changes |
| `OtpScreen.KeyDown` | frontend/src/pages/OTPVerification.tsx:57-61 | only focus can change: it moves to `index-1` exactly on Backspace in an empty box other than the first |
| `OtpScreen.PasteCode` | frontend/src/pages/OTPVerification.tsx:63-75 | a valid paste puts the i-th trimmed digit in box i and moves focus to the last box, leaving everything else (error, loading) as it was; any other text changes nothing |
| `OtpScreen.PasteInto` | frontend/src/pages/OTPVerification.tsx:175 | a paste into any box other than the first reaches no handler |
| `OtpScreen.ResendOtp` | frontend/src/pages/OTPVerification.tsx:104-108 | a no-op while resend is disabled; otherwise loading starts, the error clears and one dispatch is pending |
| `OtpScreen.VerifyOutcome` | frontend/src/pages/OTPVerification.tsx:88-101 | success navigates to the dashboard, after writing the auth token, and keeps the boxes; failure empties all six boxes, focuses box 0 and sets the invalid-code message; loading is false after either |
| `OtpScreen.DispatchOutcome` | frontend/src/pages/OTPVerification.tsx:110-132 | success disables resend, sets the count to 30 and starts one interval; failure sets the send-failed message and starts nothing; loading is false after either |
| `OtpScreen.NextCount` | frontend/src/pages/OTPVerification.tsx:117-124 | the updater never yields a negative count, lowers a positive count by one, and sends anything at most 1 to 0 |
| `OtpScreen.IntervalTick` | frontend/src/pages/OTPVerification.tsx:116-125 | the count goes to 0 if it was at most 1, otherwise down by one; the firing that reaches 0 re-enables resend and clears its interval; nothing else changes |
| `OtpScreen.AutoResend` | frontend/src/pages/OTPVerification.tsx:135-139 | the effect does nothing after an event that left its dependencies unchanged |
| `OtpScreen.Step` | frontend/src/pages/OTPVerification.tsx:40-139 | every event keeps six boxes and the user ID |
| `OtpScreen.UiEnabled` | frontend/src/pages/OTPVerification.tsx:188-222 | an event the page allows can reach its handler; while loading, no box edit, key press, paste or verify click gets through (lines 188, 205); the resend link can be clicked exactly when resend is enabled, loading or not (line 222) |
| `OtpScreen.Mount` | frontend/src/pages/OTPVerification.tsx:22-37 | the first screen satisfies the invariant with empty boxes and focus on box 0; without a user ID it goes back to the login page; with one, exactly one dispatch starts and the screen is loading |
| `OtpScreen.MountDispatchesOnce` | frontend/src/pages/OTPVerification.tsx:104-139 | entering with a user ID fires one dispatch by itself, and its success starts the 30-second cooldown with loading off |
| `OtpScreen.Run` | frontend/src/pages/OTPVerification.tsx:167-226 | a run of events allowed by the rendered page keeps six boxes |
| `OtpScreen.RunAppend` | frontend/src/pages/OTPVerification.tsx:167-226 | running two event sequences one after the other is running their concatenation |
| `OtpScreen.StepKeepsInv` | frontend/src/pages/OTPVerification.tsx:24-139 | every event keeps six boxes of "" or one digit, focus in 0..5, a count between 0 and 30 that is positive only while resend is disabled, resend disabled only while an interval runs, and loading only while a request is pending |
| `OtpScreen.RunKeepsInv` | frontend/src/pages/OTPVerification.tsx:24-139 | the invariant holds after any run of allowed events |
| `OtpScreen.AutoSubmitIff` | frontend/src/pages/OTPVerification.tsx:52-53 | an accepted edit runs `handleSubmit` exactly when the edited boxes are all filled and the last box was edited |
| `OtpScreen.SubmitChecksCompleteness` | frontend/src/pages/OTPVerification.tsx:78-87 | an empty box only sets the incomplete-code message and never sets loading; six filled boxes start a verification of a six-digit code with the error cleared |
| `OtpScreen.PasteRoundTrip` | frontend/src/pages/OTPVerification.tsx:63-69 | the code the boxes join to after a paste is the pasted text, trimmed |
| `OtpScreen.CountAfterClosedForm` | frontend/src/pages/OTPVerification.tsx:117-124 | from a count c, n firings leave max(c - n, 0) |
| `OtpScreen.CooldownLastsThirtyTicks` | frontend/src/pages/OTPVerification.tsx:114-124 | from 30 the count stays positive for 29 firings, is 0 after exactly 30, and is never negative |
| `OtpScreen.Ticks` | frontend/src/pages/OTPVerification.tsx:116 | n firings of the interval |
| `OtpScreen.TicksCountDown` | frontend/src/pages/OTPVerification.tsx:116-124 | while the count is above 1, each firing lowers it by one and changes nothing else |
| `OtpScreen.CooldownThenAutoResend` | frontend/src/pages/OTPVerification.tsx:113-139 | after a successful dispatch, resend stays disabled for 29 firings; the 30th re-enables it, stops the interval and makes the effect fire a new dispatch |
| `OtpFindings.AsWrittenAutoSubmitReadsOldBoxes` | frontend/src/pages/OTPVerification.tsx:52-53 | as written, completing the last box starts a verification only if the boxes were already full before the edit; otherwise it shows the incomplete-code message |
| `OtpFindings.StaleAutoSubmitCounterexample` | frontend/src/pages/OTPVerification.tsx:52-53 | boxes 1-5 filled, then typing 6 in the last box: every box is filled, yet the result is the incomplete-code message and no verification |
| `OtpFindings.CorrectedAutoSubmitVerifies` | frontend/src/pages/OTPVerification.tsx:52-53 | when the edited boxes are read, completing the last box always starts the verification of the six digits shown |
| `OtpFindings.TypeDigit` | frontend/src/pages/OTPVerification.tsx:40-50 | a digit typed into a box before the last is stored, clears the error and moves focus on |
| `OtpFindings.TypingFirstFive` | frontend/src/pages/OTPVerification.tsx:40-50 | typing 1 to 5 into empty boxes leaves them reading 1 to 5 with focus on the last box |
| `OtpFindings.TypeLastDigit` | frontend/src/pages/OTPVerification.tsx:40-55 | typing 6 into the last box next: as written, the incomplete-code message; corrected, the verification of "123456" |
| `OtpFindings.TypingScenario` | frontend/src/pages/OTPVerification.tsx:40-55 | typing 1 to 6 box by box: as written it ends with the incomplete-code message; corrected it verifies "123456" once |
| `OtpFindings.WitnessPrefix` | frontend/src/pages/OTPVerification.tsx:63-133 | after the mount dispatch succeeds and the code is pasted: cooldown at 30, all boxes filled, nothing pending |
| `OtpFindings.WitnessSuffix` | frontend/src/pages/OTPVerification.tsx:77-139 | with one second of cooldown left: verify, last firing, dispatch success, verify again, and two verifications are pending |
| `OtpFindings.DoubleVerificationTrace` | frontend/src/pages/OTPVerification.tsx:77-139 | as written, events the rendered page allows start a second verification while the first is still pending |
| `OtpFindings.CorrectedStepKeepsOneRequest` | frontend/src/pages/OTPVerification.tsx:77-133 | with submit and resend ignored while loading, every event keeps at most one request in flight, with loading on exactly while one is |
| `OtpFindings.CorrectedAtMostOneRequest` | frontend/src/pages/OTPVerification.tsx:77-133 | corrected, every run of events keeps at most one request in flight |
| `OtpFindings.MountHasOneRequest` | frontend/src/pages/OTPVerification.tsx:135-139 | corrected, the screen starts with at most one request in flight and no cooldown interval |
| `OtpFindings.DoubleCooldownTrace` | frontend/src/pages/OTPVerification.tsx:104-125 | as written, a resend click while the mount dispatch is pending, then two successful dispatches, leave two intervals counting down one cooldown of 30 |
| `OtpFindings.CorrectedStepKeepsOneCooldown` | frontend/src/pages/OTPVerification.tsx:104-139 | corrected, every event keeps an interval running exactly while resend is disabled, and no dispatch pending then |
| `OtpFindings.CorrectedAtMostOneCooldown` | frontend/src/pages/OTPVerification.tsx:104-139 | corrected, every run of events leaves at most one interval counting down |
| `OtpController.OtpVerification.constructor` | frontend/src/pages/OTPVerification.tsx:22-37 | the new object's state is `Mount` of its user ID, satisfying the invariant |
| `OtpController.OtpVerification.HandleOtpChange` | frontend/src/pages/OTPVerification.tsx:40-55 | an accepted edit installs a freshly allocated array, a rejected one keeps the old array; the auto-submit reads the array it replaced; the new state is `Step` of a cell change |
| `OtpController.OtpVerification.HandleKeyDown` | frontend/src/pages/OTPVerification.tsx:57-61 | the new state is `Step` of the key press |
| `OtpController.OtpVerification.Paste` | frontend/src/pages/OTPVerification.tsx:175 | a paste into box `index` performs `Step` of that paste |
| `OtpController.OtpVerification.HandlePaste` | frontend/src/pages/OTPVerification.tsx:63-75 | the new state is `Step` of a paste into the first box |
| `OtpController.OtpVerification.FilledFrom` | frontend/src/pages/OTPVerification.tsx:69 | a fresh six-box array: the pasted characters, padded with empty boxes |
| `OtpController.OtpVerification.HandleSubmit` | frontend/src/pages/OTPVerification.tsx:77-87 | the new state is `Submit` of the array it was given; given the current array, it is `Step` of a verify click |
| `OtpController.OtpVerification.VerificationReturned` | frontend/src/pages/OTPVerification.tsx:88-101 | the new state is `Step` of the verification outcome |
| `OtpController.OtpVerification.HandleResendOtp` | frontend/src/pages/OTPVerification.tsx:104-108 | the new state is `Step` of a resend click, with the same box array |
| `OtpController.OtpVerification.DispatchReturned` | frontend/src/pages/OTPVerification.tsx:110-132 | the new state is `Step` of the dispatch outcome |
| `OtpController.OtpVerification.Tick` | frontend/src/pages/OTPVerification.tsx:116-139 | one interval firing followed by the auto-resend effect; the new state is `Step` of the firing |
| `LoginForm.UserIdAccepted` | frontend/src/pages/Login.tsx:22-26 | an accepted user ID consists of ASCII letters and digits, and one shorter than 8 or longer than 12 characters is rejected |
| `LoginForm.PasswordAccepted` | frontend/src/pages/Login.tsx:27-29 | every password of at least 8 characters is accepted: `.required()` adds nothing to `.min(8)` |
| `LoginForm.LoginAccepted` | frontend/src/pages/Login.tsx:21-30 | an accepted form has a non-empty user ID and a non-empty password |
| `LoginForm.UserIdAcceptedIff` | frontend/src/pages/Login.tsx:22-26 | a user ID is accepted exactly when it has 8 to 12 characters, all in [a-zA-Z0-9], so every accepted one is non-empty |
| `LoginForm.PasswordAcceptedIff` | frontend/src/pages/Login.tsx:27-29 | a password is accepted exactly when it has at least 8 characters, of any kind |
| `LoginForm.SubmitLogin` | frontend/src/pages/Login.tsx:43-60 | a form the schema rejects does nothing; an accepted one whose login succeeds navigates to the OTP screen carrying exactly the typed user ID |
| `LoginForm.HandOffKeepsSession` | frontend/src/pages/Login.tsx:55 | the handed-over user ID passes the OTP screen's session check: no redirect, and one dispatch starts at mount |
| `SignUpForm.MobileAccepted` | frontend/src/pages/SignUp.tsx:31-33 | an accepted mobile number consists of ASCII digits only |
| `SignUpForm.PasswordAccepted` | frontend/src/pages/SignUp.tsx:34-40 | every character of an accepted password is a letter, a digit or one of @$!%*?& |
| `SignUpForm.ConfirmationAccepted` | frontend/src/pages/SignUp.tsx:41-43 | a confirmation can only be accepted when the password is non-empty |
| `SignUpForm.TermsAccepted` | frontend/src/pages/SignUp.tsx:44-46 | only a ticked terms box passes |
| `SignUpForm.SignUpAccepted` | frontend/src/pages/SignUp.tsx:27-47 | an accepted form has a digits-only mobile number, a password of at least 8 characters, a confirmation equal to it and the terms ticked |
| `SignUpForm.MobileAcceptedIff` | frontend/src/pages/SignUp.tsx:31-33 | a mobile number is accepted exactly when it is ten ASCII digits |
| `SignUpForm.StrongPatternImpliesMinLength` | frontend/src/pages/SignUp.tsx:35-37 | every password the pattern accepts has at least 8 characters and passes the whole field |
| `SignUpForm.PasswordLookahead` | frontend/src/pages/SignUp.tsx:37 | on a string of password characters, each lookahead only asks for one character of its class |
| `SignUpForm.PasswordAcceptedIff` | frontend/src/pages/SignUp.tsx:34-40 | a password is accepted exactly when it has at least 8 characters, all in [A-Za-z0-9@$!%*?&], including a lower-case letter, an upper-case letter, a digit and one of @$!%*?& |
| `SignUpForm.ConfirmationAcceptedIff` | frontend/src/pages/SignUp.tsx:41-43 | the confirmation is accepted exactly when it equals a non-empty password |
| `SignUpForm.AcceptedConfirmationIsStrong` | frontend/src/pages/SignUp.tsx:27-47 | in an accepted form the confirmation meets every password rule itself, the mobile rule holds and the terms are accepted |
| `SignUpForm.FilterStores` | frontend/src/pages/SignUp.tsx:181-182 | every digit string, the empty one included, is stored by the mobile input |
| `SignUpForm.MobileAfterInput` | frontend/src/pages/SignUp.tsx:179-185 | a value the filter allows is stored; any other leaves the field unchanged |
| `SignUpForm.FilterStoresIff` | frontend/src/pages/SignUp.tsx:181-182 | the filter stores a value exactly when every character is a digit or U+0008, the `\b` of the character class; the empty value is stored |
| `SignUpForm.AcceptedMobilePassesFilter` | frontend/src/pages/SignUp.tsx:181-183 | every mobile number the schema accepts gets through the input filter unchanged |

## Left out

- Timing: the delays of `setTimeout` and `setInterval` are not modelled. Outcomes and interval firings are events, so every interleaving is allowed, including ones the real delays make unlikely.
- OtpFindings.DoubleCooldownTrace: the model has no clock, so it shows the two intervals but not the countdown falling twice per second. That rate follows from both intervals firing every 1000 ms (line 125).
- Unmounting: after navigating away, the model still applies completions and interval firings to the screen's state. The source never clears its interval on unmount. The model does not capture that React then drops those updates.
- The browser DOM: `focus` only records which box the handlers last focused. The model does not cover a user clicking into another box, or a `focus()` call on a disabled input having no effect.
- Default paste into boxes 1-5: those boxes have no paste handler. The browser's own insertion, and the `onChange` it triggers, are not modelled.
- Input `maxLength` attributes (OTPVerification.tsx:177, SignUp.tsx:192): these are browser behaviour, so the handlers receive arbitrary strings.
- Notices, `localStorage` and navigation: snackbars are not modelled. Writing the auth token is not modelled separately from navigating to the dashboard. Both are recorded together as `route == Dashboard`.
- Effect scheduling: React StrictMode's double-invoked effects and updaters are not modelled. Only the dependency rule of the auto-resend effect is.
- Yup's `.email()` rule: it uses the library's own pattern and is taken as a boolean. The order in which error messages are chosen, Formik's touched state and the `isLoading` flags of the two forms are not modelled.
- The sign-up submission (SignUp.tsx:66-88): a simulated delay, a random user ID from `Math.random` and a notice. It is left out as nondeterministic.
- LoginForm.PasswordAccepted: lengths are counted in Unicode scalar values, while JavaScript counts UTF-16 code units. The two differ only for characters outside the Basic Multilingual Plane, which no other rule here accepts.
- Dashboard.tsx, AuthGuard.tsx, App.tsx, theme.ts, modules.d.ts, emotion.d.ts, server.js and get-ip.js are not part of this model. They are presentation, routing over a token flag, type declarations, and I/O.
- OtpController.OtpVerification: the class models only the code as written. The corrected behaviour of the findings is stated and proved on `OtpScreen.Step` with `Variant.Corrected`.

## Findings

| source | as written | input that shows it | evidently intended | confidence | as-written member | corrected member |
|---|---|---|---|---|---|---|
| frontend/src/pages/OTPVerification.tsx:52-53 | the auto-submit calls `handleSubmit`, which joins the `otp` of the current render: the boxes before the edit | boxes "1"-"5" filled and the last empty; type "6" into the last box: all six are filled, yet the page shows "Please enter a 6-digit OTP code" and nothing is verified | completing the last box verifies the six digits now shown | high (not executed) | `OtpFindings.StaleAutoSubmitCounterexample` | `OtpFindings.CorrectedAutoSubmitVerifies` |
| frontend/src/pages/OTPVerification.tsx:77-139 | `handleSubmit` has no in-flight guard, and the resend link and the auto-resend effect ignore `isLoading`; a dispatch that returns clears `isLoading` while a verification is still pending, so the verify button is enabled again | enter with a user ID; the first dispatch succeeds; paste "123456"; let the cooldown run down to 1 second; click Verify; the last firing re-enables resend and the effect dispatches; the dispatch returns; click Verify again: two verifications pending | at most one request in flight, as the disabled controls suggest | medium (not executed) | `OtpFindings.DoubleVerificationTrace` | `OtpFindings.CorrectedAtMostOneRequest` |
| frontend/src/pages/OTPVerification.tsx:104-125 | the resend link (line 222) is disabled only by `resendDisabled`, so it can be clicked while the mount dispatch is pending; each successful dispatch starts its own interval on the one shared countdown | enter with a user ID; click "Resend OTP" before the first dispatch returns; both dispatches succeed: two intervals lower the countdown, so the 30-second cooldown ends after 30 firings spread over about 15 seconds | one cooldown interval at a time, so the countdown falls by one each second | high (not executed) | `OtpFindings.DoubleCooldownTrace` | `OtpFindings.CorrectedAtMostOneCooldown` |
