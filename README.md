# pt-tracker exercise-session logic in Dafny

pt-tracker is a browser app for physiotherapy exercises. Each exercise has
target reps, target sets and an optional hold time. The user counts reps,
completes sets, and rests 60 seconds between sets. Hold exercises (a plank,
say) count themselves down and credit the rep when the hold ends. Finished
exercises go into a history log capped at 100 entries, newest first.

This project models that session logic and proves what it promises:

- `Validation`: the ordered validator of an exercise definition
  (`src/validation.js`). It is proved equal to a reference "first broken
  rule" validator.
- `Records`: the exercise and history records, and the array operations
  the app applies to them: `Object.assign` of a partial update,
  `splice(i, 1)` and the capped `unshift` of the history log.
- `State`: the module-level store of `src/state.js`, as a class. Its
  ghost snapshot of what is stored must equal the live lists after every
  successful write.
- `Timers`: `formatTime` and the two countdown tracks of `src/timers.js`.
  - `formatTime` is proved to read back through a `M:SS` parser. The
    test examples are proved too.
  - The rest and hold maps live in a `TimerCoordinator` class. The host's
    pending `setTimeout`/`setInterval` callbacks are an explicit map of
    jobs, fired by `Arm`, `TickHold` and `TickRest`.
- `Form`, `Progress` and `App`: the controller of the single-file build
  `src/app.js`, as a `Session` class.
  - `Form` covers reading the form: JavaScript `trim`, `parseInt` and
    `|| default`.
  - `Progress` holds the pure progress updates.
  - `App` holds the handlers and the wake-lock bookkeeping.
- `JsString`: the JavaScript string built-ins these rely on: `trim`,
  `toString` on integers and `padStart`.

Environment inputs are parameters of the methods:

- whether the browser grants a wake lock;
- the answer to `confirm()`;
- `Date.now()`;
- whether a DOM element exists;
- whether a storage write succeeds (in `State`).

A timer tick returns the count it displays; the displayed text is
`Timers.FormatTime` of that count.

Some consequences of the code, each proved:

- `addRep` changes no exercise but the one at its index.
- `resetExercise` changes no exercise but the one at its index.
- `saveExercise` never calls the validator. `Form.SavedDefinitionValidIff`
  and `Form.NegativeRepsAreSaved` state what that lets through.
- 105 completions drop the 5 oldest entries
  (`Records.HundredAndFiveCompletions`).
- A hold that has not armed yet keeps `true` as its record, and clearing
  it passes `true` to `clearInterval`, which converts it to timer id 1.
  Timeouts and intervals share one id space, so this stops whatever timer
  got id 1 (`Timers.PendingHoldClearStopsTimerOne`).
- A granted wake-lock request overwrites the variable without releasing
  the sentinel it held, and a release reaches only the latest one
  (`App.TwoHoldsLeakASentinel`).

## Model

| member | source | states |
|---|---|---|
| Validation.ValidateExercise | src/validation.js:10-28 | The verdict is valid exactly when the name is present and not blank, reps ≥ 1, sets ≥ 1 and hold ≥ 0. Any error is one of the four messages. |
| Validation.FirstBroken | src/validation.js:11-25 | Reference ordered validator: no message exactly when no rule is broken; otherwise the message of a broken rule with every earlier rule holding. |
| Validation.FirstBrokenRuleDecides | src/validation.js:11-27 | The validator equals the reference validator run over the rules in the order name, reps, sets, hold. |
| Validation.EarliestBrokenRuleWins | src/validation.js:11-25 | A broken rule whose earlier rules all hold decides the error message. |
| Validation.SingleViolationNamesItsRule | src/validation.js:11-25 | A definition breaking exactly one rule is rejected with that rule's message. |
| Validation.BoundaryValuesAccepted | src/validation.js:15-27 | 1 rep, 1 set and 0 hold are accepted. 0 reps, 0 sets and -1 hold are each rejected with their own message. |
| JsString.TrimStart | src/app.js:358 | Removing leading whitespace never lengthens the text, and what is left starts with non-whitespace or is empty. |
| JsString.TrimEnd | src/app.js:358 | Removing trailing whitespace never lengthens the text, and what is left ends with non-whitespace or is empty. |
| JsString.Trim | src/app.js:358 | Trimming gives the empty string exactly for all-whitespace input. Otherwise the result starts and ends with non-whitespace and is no longer than the input. |
| JsString.TrimIsSlice | src/app.js:358 | The trimmed string is a contiguous slice of the input. What is cut before and after it is whitespace. |
| JsString.TrimIdempotent | src/app.js:358 | Trimming twice is trimming once. |
| JsString.TrimStartIsSuffix | src/app.js:358 | Removing leading whitespace keeps a suffix of the input. |
| JsString.TrimStartDropsBlank | src/app.js:358 | What removing leading whitespace drops is all whitespace. |
| JsString.TrimEndIsPrefix | src/app.js:358 | Removing trailing whitespace keeps a prefix of the input. |
| JsString.TrimEndDropsBlank | src/app.js:358 | What removing trailing whitespace drops is all whitespace. |
| JsString.TrimStartEmptyIffBlank | src/validation.js:11 | Removing leading whitespace empties a string exactly when it is all whitespace. |
| JsString.TrimEndEmptyIffBlank | src/validation.js:11 | Removing trailing whitespace empties a string exactly when it is all whitespace. |
| JsString.NatToString | src/timers.js:15 | The decimal text of `n` is non-empty digits that read back as `n`. It has one digit exactly when `n` < 10, and two digits for 10 to 99. |
| JsString.IntToString | src/app.js:330-333 | A non-negative number's text is digits that read as the number; a negative number's is a minus sign before digits that read as its magnitude. |
| JsString.PadStart | src/timers.js:15 | The padded length is the larger of the input length and the width. |
| JsString.PadStartPrepends | src/timers.js:15 | Padding only prepends: the result ends with the input, and everything before it is the fill character. |
| Form.RadixDigit | src/app.js:359-361 | A digit's value is below the radix. In base 10 the digits are exactly '0'-'9', with their decimal value. |
| Form.DigitRun | src/app.js:359-361 | The digit run is a prefix of the input made of digits in the radix. It stops at the end of the input or at the first non-digit. |
| Form.RadixValue | src/app.js:359-361 | A run of k digits read in its radix is below radix^k. |
| Form.ReadMagnitude | src/app.js:359-361 | The magnitude is NaN exactly when no digit comes first, or, after a `0x` prefix, no hexadecimal digit. |
| Form.ParseInt | src/app.js:359-361 | A field that is empty after its leading whitespace reads as NaN, and a negative number comes only from a leading minus sign. |
| Form.ReadDigits | src/app.js:359-361 | There is nothing to read exactly when the input is empty or does not start with a digit. |
| Form.DecimalRadixValue | src/app.js:359-361 | Reading decimal digits in base 10 gives the value `toString` encodes. |
| Form.ReadMagnitudeOfDigits | src/app.js:359-361 | The decimal digits of `m` read back as `m`. |
| Form.ParseIntOfToString | src/app.js:359-361 | `parseInt(String(n))` gives `n` back, for every integer `n`. |
| Form.ParseIntOfNegative | src/app.js:359-361 | `parseInt(String(n))` gives back a negative `n`. |
| Form.ParseIntOfNatural | src/app.js:359-361 | `parseInt(String(n))` gives back a non-negative `n`. |
| Form.ParseIntMinusMagnitude | src/app.js:359-361 | A '-' before text whose magnitude reads as `m` reads as `-m`. |
| Form.ParseIntUnsigned | src/app.js:359-361 | With no whitespace or sign in front, `parseInt` reads the magnitude of the text. |
| Form.ParseIntMinus | src/app.js:359-361 | A leading '-' negates the magnitude that follows it. |
| Form.ParseIntPlus | src/app.js:359-361 | A leading '+' is skipped. |
| Form.ParseIntEmptyNaN | src/app.js:359-361 | The empty field reads as NaN. |
| Form.ParseIntLettersNaN | src/app.js:359-361 | A field of letters reads as NaN. |
| Form.ParseIntSignOnlyNaN | src/app.js:359-361 | A lone sign reads as NaN. |
| Form.ParseIntSkipsWhitespace | src/app.js:359-361 | Leading whitespace does not change what `parseInt` reads. |
| Form.ReadOneDigit | src/app.js:359-361 | A one-digit field reads as that digit. |
| Form.ParseIntSigned | src/app.js:359-361 | "+7" reads as 7 and "-5" as -5. |
| Form.ParseIntStopsAtLetter | src/app.js:359-361 | "12abc" reads as 12: the digits stop at the first letter. |
| Form.ParseIntStopsAtPoint | src/app.js:359-361 | "3.9" reads as 3: the fraction is dropped. |
| Form.ParseIntHex | src/app.js:359-361 | "0x1A" reads as 26: `0x` switches to base 16. |
| Form.OrDefault | src/app.js:359-361 | `parseInt(..) \|\| d` keeps a non-zero number and gives `d` for NaN or 0. |
| Form.ReadForm | src/app.js:358-361 | The saved name is the trimmed field. Reps and sets are never 0. The hold is 0 exactly when its field reads as NaN or 0. |
| Form.PrefilledFormReadsBack | src/app.js:330-333 | Saving an untouched edit form gives the exercise's definition back, with the name trimmed and a 0 target replaced by its default. |
| Form.BlankFormReadsDefaults | src/app.js:338-341 | The blank add form reads as an unnamed exercise with 10 reps, 3 sets and no hold. |
| Form.SavedDefinitionValidIff | src/app.js:357-363 | A definition the save accepts (non-empty trimmed name) passes the validator exactly when no number in it is negative. |
| Form.ValidIffNonNegative | src/validation.js:10-28 | With a non-blank name and non-zero targets, the validator accepts exactly when no number is negative. |
| Form.NegativeRepsAreSaved | src/app.js:359 | A typed "-5" reps is saved as -5, though the validator rejects it. |
| Records.Assign | src/state.js:52-55 | `Object.assign(e, p)` is the spread `{...e, ...p}`: the result's properties are those of `e` overlaid with those `p` carries. |
| Records.AssignOverwritesPresentFields | src/state.js:52-55 | `Object.assign` overwrites each property the update carries and keeps each one it lacks. |
| Records.AssignExtremes | src/state.js:53 | An empty update changes nothing; an update carrying every property replaces the exercise. |
| Records.AssignComposes | src/state.js:53 | Two successive updates act as their merge, so repeating an update changes nothing more. |
| Records.SpliceStart | src/state.js:62 | The splice position is clamped to the array. An in-range start is kept, and a negative start counts from the end. |
| Records.SpliceOne | src/state.js:62 | `splice(start, 1)` removes one element when the start lands inside the array, and nothing when it lands at the end. |
| Records.SpliceOneShifts | src/state.js:61-64 | Removing position `i` keeps the elements before it and moves every later element down by one. |
| Records.SpliceOneRemovesOne | src/state.js:61-64 | Exactly one element goes, the one at `i`; the rest is the same multiset. |
| Records.SpliceOneEdges | src/state.js:62 | A start past the end removes nothing; -1 removes the last element. |
| Records.Logged | src/state.js:97-105 | The logged history starts with the new entry, followed by the previous entries in order, and holds at most 100 entries. |
| Records.LoggedDropsOnlyOldest | src/state.js:103-105 | What logging drops is the oldest suffix of the old history, and only on overflow. |
| Records.LogAll | src/state.js:97-107 | After logging a non-empty run, the last entry logged is first and the log holds at most 100 entries. |
| Records.LogAllKeepsNewest | src/state.js:97-107 | Logging a run of entries gives them newest first, followed by the old history, cut to 100 entries. |
| Records.HundredAndFiveCompletions | tests/state.test.js:119-127 | 105 completions from an empty log keep 100 entries, newest first, dropping the 5 oldest. |
| State.Store.constructor | src/state.js:9-12 | Loading gives the stored lists or empty ones, no editing, and storage equal to memory. |
| State.Store.SaveExercises | src/state.js:28 | A successful write makes the stored exercise list the live one; a failed write leaves it. |
| State.Store.SaveHistory | src/state.js:89 | A successful write makes the stored history the live one; a failed write leaves it. |
| State.Store.SetExercises | src/state.js:26-29 | Replaces the exercise list and writes it through. |
| State.Store.AddExercise | src/state.js:42-45 | Appends at the end, keeping earlier elements, and writes through. |
| State.Store.UpdateExercise | src/state.js:52-55 | Applies `Object.assign` to exercise `index` only, and writes through. |
| State.Store.RemoveExercise | src/state.js:61-64 | Splices out one exercise and writes through. |
| State.Store.GetExercise | src/state.js:71-73 | Returns an exercise exactly for an index inside the list, and that exercise is the one at the index. |
| State.Store.SetHistory | src/state.js:87-90 | Replaces the history and writes it through. |
| State.Store.AddHistoryEntry | src/state.js:97-108 | Logs the entry first, capped at 100, and writes through. |
| State.Store.RemoveHistoryEntry | src/state.js:114-117 | Splices out one history entry and writes through. |
| State.Store.ClearHistory | src/state.js:122-125 | Empties the history and writes through. |
| State.Store.SetEditingIndex | src/state.js:139-141 | The editing index reads back as set. |
| State.Store.ToggleEditingHistory | src/state.js:154-156 | The history-editing flag flips. |
| State.Perform | src/state.js:26-156 | Any one mutator call: only an update outside the list throws, and it changes nothing; a successful write keeps storage equal to memory, a failed write leaves storage as it was. |
| State.WritesThrough | src/state.js:26-125 | After any sequence of mutator calls whose writes succeed, storage equals memory; only an update outside the list can stop the sequence early. |
| State.FlagsRoundTrip | tests/state.test.js:131-149 | Two toggles restore the flag, a set index reads back, and neither touches the lists. |
| State.FailedWriteIsCaughtUp | src/state.js:42-45 | A failed write leaves storage behind memory until the next successful write catches it up. |
| Progress.WithRep | src/app.js:387-397 | One rep more; the set and the definition are kept. |
| Progress.WithoutRep | src/app.js:453-459 | One rep fewer when there is one, and otherwise no change; the set and the definition are kept. |
| Progress.NextSet | src/app.js:461-463 | The next set with no reps; the definition is kept. |
| Progress.Restarted | src/app.js:476-478 | Set 1 with no reps, which is sane progress; the definition is kept. |
| Progress.Edited | src/app.js:363-369 | The definition becomes the form's, and the progress is kept. |
| Progress.Created | src/app.js:370-378 | The form's definition on set 1 with no reps. |
| Progress.OperationsKeepProgressSane | src/app.js:453-459 | Every progress update keeps set ≥ 1 and reps ≥ 0, and a new exercise starts so. |
| Progress.RepChangesUndo | src/app.js:453-459 | Subtracting a rep undoes adding one; adding undoes subtracting when there was a rep; at zero, subtracting changes nothing. |
| Progress.DefinitionAndProgressSeparate | src/app.js:363-369 | Rep, set and restart updates keep the definition. An edit replaces the definition and keeps the progress. |
| Progress.CompletionsAdvance | src/app.js:461-463 | `k` completed sets put the exercise `k` sets on, with no reps and the same definition. |
| Progress.RestsThenLogs | src/app.js:461-474 | From set 1, completion `j+1` starts a rest exactly when `j+1` < target sets, and finishes the exercise exactly otherwise. |
| Progress.FullCycle | src/app.js:476-478 | A restarted exercise taken through all its sets is finished, and restarting it gives the same start. |
| Timers.FormatTime | src/timers.js:12-16 | A non-negative count shows digits, a colon and exactly two digits. A negative count's display starts with a minus sign, as `Math.floor` of a negative division is negative. |
| Timers.JsRemainder | src/timers.js:14 | JavaScript `%` by a positive divisor: the mathematical remainder for non-negative operands, and the negated remainder of the magnitude, within (-b, 0], for negative ones. |
| Timers.PaddedSeconds | src/timers.js:15 | Seconds below 60, padded, are two digits that read back as themselves. |
| Timers.FormatTimeParts | src/timers.js:12-16 | A non-negative count displays as its minutes, a colon, and its seconds padded to two characters. |
| Timers.ParseClockOfParts | src/timers.js:15 | A digit string, a colon and two digits parse as minutes × 60 + seconds. |
| Timers.ClockReadsBack | src/timers.js:12-16 | Minutes and padded seconds below 60 read back as minutes × 60 + seconds. |
| Timers.FormatTimeRoundTrip | src/timers.js:12-16 | Every non-negative count's display parses back to the count. |
| Timers.FormatTimeInjective | src/timers.js:12-16 | Different non-negative counts never share a display. |
| Timers.DigitsOf | src/timers.js:15 | Numbers below 10 print as one digit, and 10 to 99 as two. |
| Timers.PaddedDigits | src/timers.js:15 | Padded seconds are the tens digit followed by the units digit. |
| Timers.Display | src/timers.js:12-16 | `m` minutes and `q` < 60 seconds display as the digits of `m`, a colon and exactly two digits of `q`. |
| Timers.FormatTimeZero | tests/timers.test.js:7 | 0 displays as "0:00". |
| Timers.FormatTimeUnderAMinute | tests/timers.test.js:8 | 5 displays as "0:05". |
| Timers.FormatTimeOneMinute | tests/timers.test.js:9 | 60 displays as "1:00". |
| Timers.FormatTimeSixtyMinutes | tests/timers.test.js:16 | 3600 displays as "60:00". |
| Timers.FormatTimeMinutesAndSeconds | tests/timers.test.js:10-21 | 61, 70 and 90 display as "1:01", "1:10" and "1:30". |
| Timers.FormatTimeLongerCounts | tests/timers.test.js:11-15 | 125 displays as "2:05" and 3599 as "59:59". |
| Timers.FormatTimeExamples | tests/timers.test.js:6-23 | Every display the timer tests expect. |
| Timers.ZeroDisplayOnlyAtZero | src/timers.js:12-16 | Among non-negative counts, "0:00" is shown exactly for 0. |
| Timers.HoldStep | src/timers.js:46-50 | A hold tick lowers the counter, shows the new value, and completes exactly when that value is at or below 0. |
| Timers.RestStep | src/timers.js:83-100 | A rest tick shows the counter and completes exactly when it is at or below 0, leaving it as it is; otherwise it lowers the counter, which stays non-negative. |
| Timers.HoldCountdown | src/timers.js:46-55 | `n` hold ticks give exactly `n` outcomes; Timers.HoldCountdownAt says what each one is. |
| Timers.RestCountdown | src/timers.js:83-100 | `n` rest ticks give exactly `n` outcomes; Timers.RestCountdownAt says what each one is. |
| Timers.HoldCountdownAt | src/timers.js:46-50 | Hold tick `j+1` starts from the counter minus `j`. |
| Timers.RestCountdownAt | src/timers.js:83-100 | Until the counter reaches 0, rest tick `j+1` starts from the counter minus `j`. |
| Timers.HoldCompletesOnTickH | src/timers.js:44-55 | A hold of `h` ≥ 1 shows `h` when it arms, then `h-1` down to 0. It completes on tick `h` and no earlier, showing "0:00" only then. |
| Timers.RestCompletesAfterShowingZero | src/timers.js:83-100 | A rest from `s` shows `s` down to 0 and completes on tick `s+1`, the only tick showing "0:00". |
| Timers.RestTimerCompletesOnTick61 | src/timers.js:75-100 | The 60-second rest shows "1:00" first and completes on tick 61, showing "0:00". |
| Timers.TimerCoordinator.constructor | src/timers.js:4-5 | No rest or hold records and no pending callbacks. |
| Timers.TimerCoordinator.HasActiveTimers | src/timers.js:123-125 | True exactly when either map has a record. |
| Timers.TimerCoordinator.IsHolding | src/timers.js:132-134 | A hold record of the exercise implies an active timer. |
| Timers.TimerCoordinator.StartHold | src/timers.js:24-33 | Nothing changes when a hold record exists. Otherwise it places the placeholder, schedules the arming with the hold time and chimes. Either way the exercise is then holding and a timer is active. |
| Timers.TimerCoordinator.Arm | src/timers.js:33-46 | Without a display the record is deleted. With a display the full count is shown and a countdown installed as the record, whatever the record was. |
| Timers.TimerCoordinator.TickHold | src/timers.js:46-55 | Decrements and shows the counter. At or below 0 it stops the timer `clearInterval` receives for the record (the interval, or id 1 for the placeholder) and deletes the record; the tick's own interval survives exactly when it is not that timer. |
| Timers.TimerCoordinator.StartRest | src/timers.js:70-83 | Stops the old rest interval. With both elements present it registers a 60-second countdown. Without them the stale record stays. |
| Timers.TimerCoordinator.TickRest | src/timers.js:83-100 | Shows the counter, then completes at or below 0 (interval and record removed), otherwise decrements. |
| Timers.TimerCoordinator.ClearTimer | src/timers.js:108-117 | Removes exactly the exercise's two records and the timers `clearInterval` receives for them; a placeholder record stops timer 1. Every other job, a pending arming included, is untouched. |
| Timers.ArmedWithoutDisplay | src/timers.js:33-37 | An arming without a display deletes the record and uses up timer id 1. |
| Timers.StartedThenCleared | src/timers.js:108-117 | Clearing a hold before it arms stops timer 1 (here already gone) and leaves the arming callback scheduled. |
| Timers.RestartBeforeArming | src/timers.js:25-33 | After a clear, a second start is accepted and schedules a second arming. |
| Timers.RestThenPendingHold | src/timers.js:24-83 | A rest countdown takes timer 1 and a later hold's arming timer 2. |
| Timers.PendingHoldClearStopsTimerOne | src/timers.js:108-117 | Clearing a hold before it arms stops another exercise's rest countdown (timer 1); its record stays, so a timer still counts as active. |
| Timers.ArmBoth | src/timers.js:33-46 | Both armings install an interval; only the second is registered. |
| Timers.RearmedHoldCompletesTwice | src/timers.js:46-52 | The unregistered interval completes, stops the other one, leaves no timer active, and completes again on its next tick. |
| App.Session.constructor | src/app.js:1-7 | Page load: the stored lists or empty ones, no timers, no wake lock, nothing being edited. |
| App.Session.RequestWakeLock | src/app.js:21-33 | The variable refers to a sentinel afterwards exactly when it did before or the request is granted; a grant adds one live sentinel, replacing the one referred to without releasing it. |
| App.Session.ReleaseWakeLock | src/app.js:35-40 | The variable is cleared, and only the sentinel it referred to is released. |
| App.Session.OnVisibilityChange | src/app.js:43-51 | The lock is requested again exactly when the page becomes visible with a timer active, adding a live sentinel when granted. |
| App.Session.LogCompletion | src/app.js:117-128 | The entry goes first and the log is capped at 100; storage follows. |
| App.Session.ToggleEditHistory | src/app.js:130-133 | The flag flips, but stays off while the log is empty. |
| App.Session.ClearHistory | src/app.js:135-142 | Confirmed: the log empties and editing stops. Declined: nothing changes. |
| App.Session.DeleteHistoryEntry | src/app.js:144-150 | Confirmed: one entry is spliced out and editing stops once the log is empty. Declined: nothing changes. |
| App.Session.ShowModal | src/app.js:319-320 | The form now edits the given exercise (or adds one). |
| App.Session.HideModal | src/app.js:348-351 | The form edits nothing. |
| App.Session.SaveDefinition | src/app.js:363-384 | Saves exactly when the name is non-empty and the edited exercise exists. An edit overwrites only the definition, and an add appends a fresh exercise. The form then closes. |
| App.Session.SaveExercise | src/app.js:357-385 | Saves what the form reads (trimmed name, defaulted numbers), as `SaveDefinition` describes. |
| App.Session.StartHoldTimer | src/app.js:399-408 | Nothing when a hold record exists. Otherwise it places the placeholder, schedules the arming with the exercise's hold time, chimes and requests the wake lock. |
| App.Session.AddRep | src/app.js:387-397 | An exercise with a hold starts its hold and keeps its reps; any other gains exactly one rep. |
| App.Session.ArmHold | src/app.js:411-425 | Without a display the record is deleted. With a display the full hold time is shown and its countdown installed. |
| App.Session.TickHold | src/app.js:426-449 | Decrements and shows the counter. On completion the records are cleared (a placeholder stopping timer 1) and the exercise at the index gains one rep with the bell; the variable's sentinel is released exactly when no timer remains. Editing state and history are untouched. |
| App.Session.SubtractRep | src/app.js:453-459 | One rep fewer when there is one; never below zero. |
| App.Session.StartRestTimer | src/app.js:507-520 | Stops the old interval and registers a 60-second countdown with a wake-lock request; without the elements it stops there. |
| App.Session.CompleteSet | src/app.js:461-474 | Next set with no reps. Then a rest when sets remain, logging nothing; otherwise exactly one history entry and no rest. A missing exercise changes nothing; editing state is untouched. |
| App.Session.TickRest | src/app.js:520-545 | Shows the counter, then completes at or below 0 with the bell, releasing the variable's sentinel when no timer remains; otherwise decrements. |
| App.Session.ResetExercise | src/app.js:476-489 | Set 1 with no reps; this exercise's records go and the timers `clearInterval` receives for them stop (timer 1 for a placeholder); the wake lock is kept. |
| App.Session.RemoveExercise | src/app.js:491-505 | Confirmed: its records go and their timers stop (timer 1 for a placeholder), and it is spliced out, other records keeping their index. Declined: nothing changes. |
| App.HoldOnB | src/app.js:387-425 | The hold of the middle exercise runs under index 1. |
| App.RemovalRedirectsHoldCredit | src/app.js:491-505 | Removing the first exercise during the middle one's hold credits the completed hold to the exercise now at index 1. |
| App.ResetLeavesWakeLockHeld | src/app.js:476-489 | Resetting during a rest stops the timer but keeps the screen awake. |
| App.TwoHoldsStarted | src/app.js:21-33 | Two holds started with granted requests leave two live sentinels. |
| App.TwoHoldsArmed | src/app.js:411-425 | Both holds armed, each with its own interval. |
| App.FirstOfTwoHoldsCompletes | src/app.js:426-449 | The first hold completing keeps the lock while the other runs. |
| App.LastOfTwoHoldsCompletes | src/app.js:426-449 | The last hold completing clears the variable, yet one sentinel stays live. |
| App.TwoHoldsLeakASentinel | src/app.js:21-40 | Two granted requests and two completions end with no timer, no sentinel in the variable, and one sentinel never released. |
| App.PlankArmed | src/app.js:399-425 | A 30-second plank hold is armed with the wake lock held. |
| App.PlankTick | src/app.js:426-430 | A tick above one second only counts down. |
| App.PlankLastTick | src/app.js:430-445 | The last tick credits the rep, rings the bell and releases the only sentinel. |
| App.PlankHoldCompletes | src/app.js:399-450 | Thirty ticks of the plank credit one rep, ring once and leave no live sentinel. |

## Left out

- Rendering (`renderHistory`, `renderExercises`, `createExerciseHTML`,
  `toggleAccordion`) and the modal's DOM work are left out. They only
  build HTML; the one state effect, the reset of the history-editing flag
  on an empty log, is kept.
- `src/ui.js`, `src/audio.js`, `src/storage.js`, `src/sw.js` and `sw.js`
  are not part of this model: presentation, Web Audio, the `localStorage`
  wrapper and the service worker.
  - Storage is a ghost snapshot.
  - The chime and the bell are returned flags.
  - Vibration is left out.
- Real scheduling is left out: the 10 ms arming delay, the 1 s interval
  period, and the order the browser runs callbacks in. The host picks the
  next job by id.
- Timer ids are modelled as consecutive numbers from 1, shared by
  timeouts and intervals. A browser may choose any distinct positive ids;
  which timer `clearInterval(true)` stops depends on which got id 1.
- App.Session.RequestWakeLock: the sentinel is a count of live sentinels
  plus whether the variable refers to one. Whether a request is granted
  is a parameter, and the asynchronous request is taken to settle before
  the next handler runs. The browser releasing sentinels when the page is
  hidden is not modelled, and neither are the `release` listeners, which
  only log.
- In `app.js`, every save is taken to succeed and storage always equals
  memory. A full quota is modelled only in `State`.
- A handler that reads a missing exercise throws a `TypeError`. The
  model stops there, keeping what the handler had already done.
- State.Store.UpdateExercise requires an existing index: with any other,
  `Object.assign(undefined, updates)` at src/state.js:53 throws a
  `TypeError` before anything is saved.
- In `app.js`, a stored value that is not valid JSON makes loading throw
  at src/app.js:1-2; that page load is not modelled. `State` follows
  src/storage.js:8-16, which catches the error and returns `null`, so
  `None` there is the code's own behaviour.
- The `active` field of an exercise is left out. No handler in these
  files writes it.
- The store's collections are values. In src/state.js the getters return
  the live array or object, and `setExercises`, `addExercise` and
  `setHistory` keep the caller's own array or object, so a later change
  through such a reference would bypass the save. No code in these files
  changes data through such a reference.
- Exercise fields are typed integers and strings. The form's `parseInt`
  always yields an integer or NaN, and these files store nothing else.
- App.Session.StartRestTimer: the rest elements are taken to exist when
  `CompleteSet` starts a rest, because the card was just redrawn for a set
  still to do.
- Form.ParseInt: only the `0x` prefix and bases 10 and 16 are modelled.
  Those are the cases `parseInt` with no radix reaches.
- JsString.Trim: a character is a Unicode scalar value, where JavaScript
  strings hold UTF-16 code units. Lengths differ outside the Basic
  Multilingual Plane, and lone surrogates cannot be written. The
  whitespace set is the ECMAScript WhiteSpace and LineTerminator set.
- JsString.IntToString, Form.ParseInt, Form.ReadForm, Form.ParseIntOfToString, Form.PrefilledFormReadsBack:
  numbers are unbounded integers. JavaScript numbers are doubles, exact
  only up to 2^53, and `String(n)` switches to exponent notation from
  10^21 on, where `parseInt` reads back only the leading digits. A longer
  digit string read by `parseInt` rounds to the nearest double, where the
  model gives the exact integer. These members hold for safe integers
  only.
