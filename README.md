# Live poll sessions

A teacher opens a poll session and gets a short join code. Students join it by typing that code. The teacher asks timed multiple-choice questions, the students answer them, and the teacher's dashboard tallies the answers as they arrive. Both sides are React components backed by a shared store that sends change events. This project models the state logic of both components in Dafny:

- `Records`: the stored records (poll, question, student, response), the store's replies, and the "maybe single" lookup.
- `Text`: JavaScript's `trim` and the code's ASCII upper-casing, plus the normalisation of a typed join code.
- `QuestionForm`: the teacher's question form, the start guard, option filtering and the time-limit field.
- `LiveResults`: the live results table, with counts and exact percentages.
- `TeacherSession`: the class `TeacherDashboard`, with one method per handler. It keeps a log of the question writes it sends to the store.
- `StudentSession`: the class `StudentInterface`, with one method per handler. It keeps a log of the answers it sends.
- `SessionScenario`: one whole session driven through both classes.

Each store call whose answer the code reads is modelled as a parameter that carries that answer: `Insert`, `Ack` or `Reply`. The two updates that close a question (`src/components/LivePoll.tsx:146-149` and `:207-210`) are not checked by the code; the model logs them as close requests without an outcome. Clock readings are integer milliseconds passed in as `now`. One second of a countdown is one call to `Tick`. Each class has an invariant `Valid()` that every method keeps. Its `Local()` function bundles the local state, so a contract can say exactly what changed.

Where the code and its design description disagree, the model follows the code:

- **Time limit.** The design asks for 10 to 300 seconds. The code only hints at that range with the input's `min`/`max` attributes. `parseInt(...) || 60` accepts any non-zero integer, negative ones included (`ParseTimeLimit`).
- **Start guard.** The design asks for at least two options. The guard checks that option A and option B are non-empty, but the options are then filtered by `trim()`. A blank but non-empty option A therefore passes the guard and is dropped, and the question starts with a single option (`GuardAdmitsSingleOption`). With options A and B both blank, it starts with no option at all: the student sees no option button and the results table has no row (`GuardAdmitsNoOption`).
- **Join lookup.** The design says the code is looked up among active polls. The code looks it up among all polls. More than one match counts as not found (`FindPoll`).
- **Late responses.** The dashboard keeps every response for the current question. That includes responses that arrive after the question was closed (`OnResponseInserted`).
- **Countdown at 0.** The student's countdown effect runs only when the count changes. A question with time limit 0 that arrives while the count already shows 0 therefore stays unanswered (`OnQuestionInserted`, `AfterTimerEffect`). The teacher's form cannot produce such a question, because its time limit is never 0.
- **Ending twice.** The design says ending a question leaves it in the same closed state however often it is ended. The local state does stay the same, but each end writes `ended_at` again, so a second end moves the stored end time (`EndQuestionTwice`).
- **One answer per student.** The design intends at most one response per student and question. Nothing enforces it: a submit the store rejects can be repeated, and each submit that reaches the store is a new response.

## Model

| member | source | states |
|---|---|---|
| Records.WhereSpec | src/components/LivePoll.tsx:505-510 | the rows a query selects are exactly the matching rows, as many as there are |
| Records.MaybeSingle | src/components/LivePoll.tsx:505-519 | a returned row is one of the rows and matches the query |
| Records.MaybeSingleFinds | src/components/LivePoll.tsx:505-519 | a row comes back exactly when exactly one row matches |
| Text.Trim | src/components/LivePoll.tsx:493 | trimming never lengthens a string, and a non-empty result starts and ends with a character that is not white space |
| Text.TrimStartSpec | src/components/LivePoll.tsx:493 | leading trimming removes a white-space prefix and stops at a non-space character |
| Text.TrimEndSpec | src/components/LivePoll.tsx:493 | trailing trimming removes a white-space suffix and stops at a non-space character |
| Text.TrimSpec | src/components/LivePoll.tsx:493 | the trimmed string is the slice between white-space-only ends, and it starts and ends with non-space characters |
| Text.TrimEmptyIffAllSpace | src/components/LivePoll.tsx:493 | a string trims to empty exactly when all of its characters are white space; this is the test of the join guard and of the option filter at line 157 |
| Text.TrimIdempotent | src/components/LivePoll.tsx:611 | trimming an already trimmed value changes nothing |
| Text.ToUpper | src/components/LivePoll.tsx:503 | upper-casing keeps the length and maps each character on its own |
| Text.NormalizeIsUpperOfTrim | src/components/LivePoll.tsx:503 | upper-casing then trimming gives the same code as trimming then upper-casing |
| Text.NormalizeIdempotent | src/components/LivePoll.tsx:503 | normalising a normalised code changes nothing |
| Text.NormalizeCode | src/components/LivePoll.tsx:503 | the looked-up code is never longer than the typed one and has no lower-case ASCII letter |
| Text.NormalizeEmptyIffBlank | src/components/LivePoll.tsx:493-503 | the normalised code is empty exactly when the typed code trims to empty |
| QuestionForm.ParseTimeLimit | src/components/LivePoll.tsx:344 | the field takes the parsed integer unless it is missing or 0, in which case it takes 60; the limit is never 0 |
| QuestionForm.Keep | src/components/LivePoll.tsx:152-157 | filtering never lengthens the list |
| QuestionForm.KeepSpec | src/components/LivePoll.tsx:152-157 | the kept options are not blank and are a subsequence of the input, in order; each non-blank value keeps its multiplicity and each blank value is gone |
| QuestionForm.FilterOptions | src/components/LivePoll.tsx:152-157 | a question gets at most four options |
| QuestionForm.FilterOptionsSpec | src/components/LivePoll.tsx:152-157 | the question's options are the non-blank option fields, in field order, each as often as it was typed |
| QuestionForm.NewQuestion | src/components/LivePoll.tsx:159-170 | the created question has the store's id, is active and has the form's time limit |
| QuestionForm.StartAllowed | src/components/LivePoll.tsx:135 | a start is refused without a poll or with an empty question text, option A or option B; an allowed start with options A and B not blank gets at least two options |
| QuestionForm.FirstTwoKept | src/components/LivePoll.tsx:135-157 | when options A and B are not blank, they are the question's first two options |
| QuestionForm.GuardAdmitsSingleOption | src/components/LivePoll.tsx:135-157 | a form with option A " " passes the guard and yields the single option ["B"] |
| QuestionForm.GuardAdmitsNoOption | src/components/LivePoll.tsx:135-157 | a form with options A and B " " passes the guard and yields no option |
| LiveResults.Letter | src/components/LivePoll.tsx:220 | option i is labelled with the letter 'A' + i |
| LiveResults.CountIsMultiplicity | src/components/LivePoll.tsx:222 | an option's count is how many responses selected its index |
| LiveResults.Percentage | src/components/LivePoll.tsx:223 | the share is 0 without responses, and otherwise percentage × total = count × 100 |
| LiveResults.PercentageAdd | src/components/LivePoll.tsx:223 | the shares of two counts of one total add up to the share of their sum |
| LiveResults.PercentageWhole | src/components/LivePoll.tsx:223 | all responses are 100 percent |
| LiveResults.Row | src/components/LivePoll.tsx:219-224 | a row's count is its index's multiplicity among the selections, and its percentage is that count's share |
| LiveResults.Tally | src/components/LivePoll.tsx:216-227 | no rows without a question; otherwise one row per option, in order, with its letter, text, count and percentage |
| LiveResults.TallyCountsSum | src/components/LivePoll.tsx:216-227 | the counts add up to the number of responses with a valid option index: at most all responses, and exactly all when every index is valid |
| LiveResults.TallyPercentagesSum | src/components/LivePoll.tsx:216-227 | the percentages add up to 100 when there are responses and every index is valid, and to 0 when there are no responses |
| TeacherSession.OpenIdsMeaning | src/components/LivePoll.tsx:144-214 | a question is open after a write log exactly when the log created it and never asked to close it afterwards |
| TeacherSession.OpenIdsAppend | src/components/LivePoll.tsx:144-214 | a new write changes the open questions by that write's id alone |
| TeacherSession.CloseIfActive | src/components/LivePoll.tsx:145-150 | at most one write, and one exactly when the question is active: a close request for that question, stamped `now` |
| TeacherSession.ActiveOf | src/components/LivePoll.tsx:145 | at most one question id is the active one |
| TeacherSession.CloseLeavesNothingOpen | src/components/LivePoll.tsx:144-150 | closing the active question before a start leaves no question open |
| TeacherSession.Closed | src/components/LivePoll.tsx:211 | a closed question is not active, and only its active flag differs from the question before; no question stays no question |
| TeacherSession.ClosedIdempotent | src/components/LivePoll.tsx:211 | closing a closed question changes nothing |
| TeacherSession.TeacherDashboard.Results | src/components/LivePoll.tsx:216-227 | one result row per option of the current question, none without one, and the counts add up to at most the collected responses |
| TeacherSession.TeacherDashboard.constructor | src/components/LivePoll.tsx:45-58 | the dashboard starts without poll, question, students, responses or countdown, with the empty form |
| TeacherSession.TeacherDashboard.AtMostOneOpen | src/components/LivePoll.tsx:134-214 | of the questions this dashboard created, at most one has not been asked to close |
| TeacherSession.TeacherDashboard.CreatePoll | src/components/LivePoll.tsx:102-132 | on success the poll is the stored record with the generated code, the title "Live Poll Session" and active; on a store error nothing changes |
| TeacherSession.TeacherDashboard.SetQuestionText | src/components/LivePoll.tsx:294 | only the form's question text changes |
| TeacherSession.TeacherDashboard.SetOption | src/components/LivePoll.tsx:305-332 | only the edited option field changes |
| TeacherSession.TeacherDashboard.SetTimeLimit | src/components/LivePoll.tsx:344 | only the form's time limit changes, to the parsed value or 60 |
| TeacherSession.TeacherDashboard.StartQuestion | src/components/LivePoll.tsx:134-202 | a refused start changes nothing; a failed insert only closes the previously active question; a successful start sets the new active question, clears the responses, starts the countdown at the limit and resets the form |
| TeacherSession.TeacherDashboard.EndQuestion | src/components/LivePoll.tsx:204-214 | without a question nothing happens; otherwise a close is written, the question is marked inactive and the countdown stops |
| TeacherSession.TeacherDashboard.Tick | src/components/LivePoll.tsx:93-100 | a count above 1 drops by one; the step from 1 to 0 ends the question; no countdown, or a count of 0 or below, changes nothing |
| TeacherSession.TeacherDashboard.OnStudentInserted | src/components/LivePoll.tsx:68-71 | a student of this poll is appended once; other students are ignored |
| TeacherSession.TeacherDashboard.OnResponseInserted | src/components/LivePoll.tsx:77-83 | a response is appended exactly when it is for the current question; nothing else changes |
| TeacherSession.EndQuestionTwice | src/components/LivePoll.tsx:204-214 | ending twice leaves the same local state as ending once, but sends two close requests, the second with the later end time |
| StudentSession.ElapsedSeconds | src/components/LivePoll.tsx:558 | the elapsed seconds are the floor of the elapsed milliseconds over 1000 |
| StudentSession.Remaining | src/components/LivePoll.tsx:559 | the remaining time is never negative; it is the limit minus elapsed when that is positive, and 0 otherwise |
| StudentSession.RemainingWithinLimit | src/components/LivePoll.tsx:558-559 | when the question started in the past and the limit is not negative, the remaining time lies in [0, limit] |
| StudentSession.RemainingOneSecondLater | src/components/LivePoll.tsx:558-559 | joining one second later shows one second less, down to 0 |
| StudentSession.RemainingRoundsElapsedDown | src/components/LivePoll.tsx:558-559 | 1.999 s into a 30 s question shows 29; 20 s into 60 s shows 40; past the limit shows 0 |
| StudentSession.FindPoll | src/components/LivePoll.tsx:503-519 | a found poll is one of the store's polls and has the looked-up code |
| StudentSession.FindPollFinds | src/components/LivePoll.tsx:503-519 | a poll is found exactly when the store answers and exactly one poll has the code |
| StudentSession.FindActiveQuestion | src/components/LivePoll.tsx:546-553 | a question caught up with is one of the store's questions, belongs to the poll and is active |
| StudentSession.FindActiveQuestionFinds | src/components/LivePoll.tsx:546-553 | a question is caught up with exactly when the store answers and the poll has exactly one active question |
| StudentSession.CatchUp | src/components/LivePoll.tsx:553-560 | a countdown is set exactly when there is an active question; it is never negative, and within the time limit when the question started in the past |
| StudentSession.AfterTimerEffect | src/components/LivePoll.tsx:483-490 | the effect never clears an answer, does nothing when the count has not changed or is not 0, and marks the question answered when the count has just become 0 |
| StudentSession.JoinFieldsFilled | src/components/LivePoll.tsx:493 | joining may go ahead exactly when neither the name nor the code is all white space |
| StudentSession.StudentInterface.constructor | src/components/LivePoll.tsx:428-437 | the interface starts with empty fields, not joined, and with no question, choice, answer or countdown |
| StudentSession.StudentInterface.SetStudentName | src/components/LivePoll.tsx:611 | only the name changes, to the trimmed text |
| StudentSession.StudentInterface.SetPollCode | src/components/LivePoll.tsx:621 | only the code changes, to the trimmed and upper-cased text |
| StudentSession.StudentInterface.JoinPoll | src/components/LivePoll.tsx:492-567 | each outcome happens exactly in its case; a blank name or code, an unknown code and a failed insert each change nothing; a join holds the looked-up poll and the new student under the name as entered, and then catches up |
| StudentSession.StudentInterface.CatchUpWith | src/components/LivePoll.tsx:545-561 | right after joining, the current question becomes the poll's single active question, the countdown its time left, and the question counts as answered exactly when no time is left |
| StudentSession.StudentInterface.OnQuestionInserted | src/components/LivePoll.tsx:445-462 | an active question of this poll becomes current, with a countdown at its limit, no choice and no answer; anything else is ignored |
| StudentSession.StudentInterface.OnQuestionUpdated | src/components/LivePoll.tsx:463-474 | the question and countdown are cleared exactly when the current question is reported inactive; the choice and answer flag stay |
| StudentSession.StudentInterface.Tick | src/components/LivePoll.tsx:483-490 | a positive count drops by one, and reaching 0 marks the question answered; otherwise nothing changes |
| StudentSession.StudentInterface.SelectAnswer | src/components/LivePoll.tsx:666-676 | only the choice changes, to one of the current question's options |
| StudentSession.StudentInterface.Submit | src/components/LivePoll.tsx:569-594 | without a choice, question and student nothing is sent; otherwise the chosen option is sent for the current question, and the question counts as answered exactly when the store accepts it |
| StudentSession.KeptCodeIsLookedUp | src/components/LivePoll.tsx:503-621 | the kept code is looked up unchanged |
| SessionScenario.TypedCode | src/components/LivePoll.tsx:503-621 | "xyz123" is kept and looked up as "XYZ123" |
| SessionScenario.AnnCanJoin | src/components/LivePoll.tsx:493-503 | the name "Ann" and the kept code "XYZ123" pass the join check, and the code is looked up unchanged |
| SessionScenario.ColorOptions | src/components/LivePoll.tsx:152-157 | the form Red / Blue / "" / "" yields exactly the options Red and Blue |
| SessionScenario.ColorResults | src/components/LivePoll.tsx:216-227 | one answer for option B tallies as A 0 (0 %) and B 1 (100 %) |
| SessionScenario.ColorQuestion | src/components/LivePoll.tsx:45-594 | across a whole session: one student is seen, the results are A 0 / B 1 (100 %), after 30 ticks the question is closed and answered, and a later submit is not sent |

## Left out

- The store is not modelled. The outcome of every call the code checks is a parameter, and the store's id generation is part of those outcomes. The store's clock is not: the student record's `joined_at`, which the store fills in (the insert at `src/components/LivePoll.tsx:528` sends only the poll id and the name), is the caller's `now` in `JoinPoll`. Channel subscriptions and their server-side filters are modelled as guards in the event handlers.
- TeacherSession.TeacherDashboard.AtMostOneOpen: the updates that close a question are assumed to succeed, because the code never checks their result (`src/components/LivePoll.tsx:146-149`, `:207-210`). The property is about questions asked to close; whether the store closed them is not modelled.
- Code generation from `Math.random` is not modelled; the code is a parameter of `CreatePoll`.
- Time limits and countdowns are exact integers. JavaScript numbers are doubles: `parseInt` of a long digit string is inexact, and above 2^53 a count minus 1 equals the count, so the countdown would stop and the question would never close by itself. Neither effect is modelled; `ParseTimeLimit` and both `Tick` methods count exactly.
- Dates are integer milliseconds. A missing or unparsable `started_at` (which gives NaN) is not modelled.
- `setTimeout` is not modelled: one second is one `Tick` call. The effect reacting to a count of 0 is folded into the method that produces the 0.
- React scheduling, stale closures, batching and effect re-subscription are not modelled. Neither is concurrency: each handler runs to completion, and two handlers never interleave across a store call.
- A double click while a submit is still in flight is not modelled, because it depends on that interleaving.
- JSX rendering, toasts and console logging are left out. So is the `pages/Index.tsx` page switch.
- The browser's `maxLength={6}` truncation of the code field is not modelled.
- The disabled state of the Start button is not modelled, since it lives only in the markup. `StartQuestion` models the handler's own checks, including closing a still-active question.
- `Text.ToUpper`: only ASCII letters are upper-cased. JavaScript's full Unicode case mapping, which can change a string's length, is not modelled.
- `LiveResults.Letter`: `String.fromCharCode` gives a lone surrogate for a code unit from 0xD800 to 0xDFFF; the model gives U+FFFD there, since a Dafny character cannot be a lone surrogate. Above that range the model follows JavaScript: the code unit is taken modulo 2^16. No question reaches these indices, since it has at most four options.
- `LiveResults.Percentage`: exact rational arithmetic. The floating-point division and multiplication of JavaScript, with its rounding, are not modelled.
