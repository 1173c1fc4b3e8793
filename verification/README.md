# Back-office front end: a verified model

The manager pages of this repository are a jQuery front end. Most of it moves data between forms, tables and
requests, but a handful of algorithms and small state machines inside it carry real obligations. This project models
them in Dafny and proves what they are for, over all inputs and all runs:

- **Password digest** (`Bits`, `JsNumber`, `Sha1Spec`, `Sha1Facts`, `Utf8`, `Packing`, `EncryptUtil`). SHA-1 in loops
  over signed JavaScript numbers, against FIPS 180-4 written out as recursive functions on 32-bit words, behind the text
  encoder of RFC 3629. `JsNumber.Number` holds only integers that a double represents exactly, so that every `+` of the
  digest is proved exact by its type.
- **Polling scheduler** (`Scheduler`, `RequestErrors`, `TaskExecuter`). Requests, three kinds of timers and a last-in
  first-out queue as an asynchronous step system; requests complete and timers fire in any order. The class `Page` has
  the mutable fields and each callback, proved against the step functions. A payment task whose request fails is
  dropped, a change of currency polls without a task, and a page may start a task that it has started before; all
  three are steps.
- **Breakpoint tracker** (`Breakpoints`, `BreakpointResets`). The poll that updates the classes of the body from the
  last width, against a function of the current width.
- **Amount input** (`Digits`, `Decimal`, `ThousandComma`, `AmountFormatter`, `TypedAmounts`, `SeveralPoints`,
  `PointsShown`, `Cursor`). Typed text to shown text, and shown text typed again.
- **Money and decimals** (`Money`, `DecimalMath`). Rounding and writing on exact decimals, and the arithmetic that takes
  the points out of the texts of its arguments.
- **Debounce** (`Debounce`). The browser's pending timers are part of the state.
- **Trackers** (`GroupIndex`, `UploadTracker`, `AlarmThrottle`). The counting hash map with the account groups kept in
  it, the change flags of a document upload, the half-minute silence of the payment alarm.

Objects and closures that the source updates in place are classes; each method's `ensures` gives its whole new state as
a function of the old one, and the lemmas are about that function. `dafny verify dfyconfig.toml` checks everything.

## Where the code differs from what is said about it

- The rounding mode DOWN is described as never increasing the magnitude (`src/main/webapp/js/util/JSUtil.js:458-459`).
  The code adds a twentieth of a unit before it cuts, so 1.9996 at two places is written 2.00 (`Money.DownExceeds`).
  `Money.DownTruncatesExactlyWhen` gives the exact condition.
- The amount input means to drop every decimal point but the first
  (`src/main/webapp/js/manager/report/Bet.js:199-205`). The regular expression built there looks for a backslash, which
  cleaning has removed, so the branch is dead: `AmountFormatter.Clean` proves it, and the number is the longest prefix
  that reads as one. So 1.2.3 is read as 1.2 and not as 1.23 (`SeveralPoints.SeveralPointsExample`); the value is the
  intended one exactly when no digit but 0 is typed behind the second point
  (`SeveralPoints.ReadsAsIntendedExactlyWhen`). The text shown can be the intended one more often, as for 1.23.4;
  `PointsShown.ShowsAsIntendedExactlyWhen` says for which digits.
- Formatting an amount twice is not formatting it once: 1.101 becomes 1.10 and then 1.1.
  `AmountFormatter.SecondPassKeepsText` says for which amounts that happens (not for 1.100, whose zeros are dropped
  first); a third pass never changes anything.
- `resetBreakpoints` forgets the width but leaves the classes, so the next poll can leave a wrong one.
  `Breakpoints.PollAfterReset` says exactly when, `Breakpoints.ResetLeavesClass` shows one, and
  `BreakpointResets.RightExactlyWhen` is the condition over all runs of polls and resets. Nothing in the repository
  calls `resetBreakpoints`.
- The digest's padding is that of FIPS 180-4 exactly for messages shorter than 2^32 bytes (`Packing.SourceWordsAreFips`).
- Dropping several files into an upload field leaves all of them in the input, while only the first is cached
  (`UploadTracker.InputIsCachedExactlyWhen`, `UploadTracker.TwoFilesDropped`).
- A task is written to be in one place at a time, but the empty page starts the menu task twice
  (`src/main/webapp/page/common/empty.jsp:37-38`, `src/main/webapp/js/manager/Sidebar.js:50-55`). Two requests are then
  in flight; either the second response finds a negative tick and one executor is left over, or both starts go on and
  share one tick (`Scheduler.StartedTwiceGoesIdle`, `Scheduler.StartedTwiceSharesTick`). The balance of executors and
  the fairness of the queue hold for all runs. A task is in one place throughout a run exactly when no step starts it
  while it is in a place (`Scheduler.OnePlaceExactlyWhenStartedOnce`, and `Scheduler.OnePlaceFrom` from any state with
  the task in one place). The countdown is then exact. The menu task is in one place again once its second start is at
  rest, and all of this holds for it from there on.

## Model

| member | source | states |
|---|---|---|
| `EncryptUtil.Mask` | src/main/webapp/js/util/EncryptUtil.js:41-143 | for every text: 40 lower-case hexadecimal digits; eight by eight they are the five words of the hash of its padded bytes, first word in front, most significant digit first; below 2^32 encoded bytes that hash is SHA-1 of FIPS 180-4 |
| `EncryptUtil.HashWords` | src/main/webapp/js/util/EncryptUtil.js:43-86 | the block loop from the initial value of section 5.3.1 of FIPS 180-4: after all blocks the five sums are the recursive hash of the words' residues modulo 2^32 |
| `EncryptUtil.HashBlock` | src/main/webapp/js/util/EncryptUtil.js:86-140 | one block: schedule, eighty rounds and feed-forward are the compression of section 6.1.2, on residues of the signed numbers |
| `EncryptUtil.EightyRounds` | src/main/webapp/js/util/EncryptUtil.js:93-133 | the four loops in sequence are the eighty rounds of the standard, each with its own function and constant |
| `EncryptUtil.Rounds0To19` | src/main/webapp/js/util/EncryptUtil.js:99-106 | the loop with Ch and the first constant takes the state after no round to the state after 20 rounds |
| `EncryptUtil.Rounds20To39` | src/main/webapp/js/util/EncryptUtil.js:108-115 | the first loop with Parity takes the state after 20 rounds to the state after 40 |
| `EncryptUtil.Rounds40To59` | src/main/webapp/js/util/EncryptUtil.js:117-124 | the loop with Maj takes the state after 40 rounds to the state after 60 |
| `EncryptUtil.Rounds60To79` | src/main/webapp/js/util/EncryptUtil.js:126-133 | the second loop with Parity takes the state after 60 rounds to the state after 80 |
| `EncryptUtil.FillSchedule` | src/main/webapp/js/util/EncryptUtil.js:88-91 | the array, filled in place, holds numbers whose residues are the message schedule, each strictly between -2^32 and 2^32 |
| `Sha1Spec.ScheduleRecurrence` | src/main/webapp/js/util/EncryptUtil.js:88-91 | the recursive schedule obeys the standard's recurrence at every index: message words first, then the rotated xor of four earlier entries |
| `EncryptUtil.RoundSum` | src/main/webapp/js/util/EncryptUtil.js:100 | five operands strictly between -2^32 and 2^32 are added without leaving the exact integers, and the mask leaves the sum of their residues modulo 2^32 |
| `EncryptUtil.FeedForward` | src/main/webapp/js/util/EncryptUtil.js:135-139 | the sum with the chaining variable is exact and congruent to addition of words; the result is again a legal operand |
| `EncryptUtil.Choose` | src/main/webapp/js/util/EncryptUtil.js:100 | the OR form on signed numbers has the residue of the standard's XOR form Ch |
| `EncryptUtil.Majority` | src/main/webapp/js/util/EncryptUtil.js:118 | the OR form on signed numbers has the residue of the standard's XOR form Maj |
| `Bits.ChooseOrXor` | src/main/webapp/js/util/EncryptUtil.js:100 | OR and XOR forms of choose agree at every bit length |
| `Bits.MajorityOrXor` | src/main/webapp/js/util/EncryptUtil.js:118 | OR and XOR forms of majority agree at every bit length |
| `JsNumber.MaskAllOnes` | src/main/webapp/js/util/EncryptUtil.js:100-139 | masking with 32 ones keeps the residue of every integer modulo 2^32, so signed and unsigned results never differ later |
| `EncryptUtil.RotateLeft` | src/main/webapp/js/util/EncryptUtil.js:7-9 | signed shift, unsigned shift and or together are ROTL of the word |
| `EncryptUtil.CvtHex` | src/main/webapp/js/util/EncryptUtil.js:11-18 | the eight base-16 digits of the number's residue, most significant first |
| `EncryptUtil.HexReadsBack` | src/main/webapp/js/util/EncryptUtil.js:11-18 | reading k digits back gives every number below 16^k |
| `EncryptUtil.HexChainInjective` | src/main/webapp/js/util/EncryptUtil.js:141-142 | two digests have the same text exactly when all five words agree |
| `EncryptUtil.HexChainSpells` | src/main/webapp/js/util/EncryptUtil.js:141-142 | the digits of the first to the fifth word stand in this order and have the values of the words |
| `Sha1Facts.RoundFunctionBit` | src/main/webapp/js/util/EncryptUtil.js:99-133 | each binary digit of a round's function is a choice in rounds 0 to 19, a majority in rounds 40 to 59 and a parity in the others |
| `Sha1Facts.RotlMultiplies` | src/main/webapp/js/util/EncryptUtil.js:7-9 | rotation is multiplication by a power of two with the overflow put back at the other end |
| `Sha1Facts.ConstantsAreRoots` | src/main/webapp/js/util/EncryptUtil.js:100-127 | the four round constants are the whole parts of 2^30 times the square roots of 2, 3, 5 and 10 |
| `Sha1Facts.InitialPattern` | src/main/webapp/js/util/EncryptUtil.js:44-48 | the initial value is the pattern of counted digits, least significant byte first |
| `Sha1Facts.RoundMoves` | src/main/webapp/js/util/EncryptUtil.js:101-105 | four rounds carry a first variable to the last one, rotated by 30 on its way |
| `Sha1Facts.RoundAdds` | src/main/webapp/js/util/EncryptUtil.js:100 | the new first variable is one sum of five words modulo 2^32 |
| `Sha1Facts.CompressAdds` | src/main/webapp/js/util/EncryptUtil.js:135-139 | each chaining variable is increased by its own working variable modulo 2^32 |
| `Sha1Facts.PaddingLength` | src/main/webapp/js/util/EncryptUtil.js:77-84 | the padded length is the least multiple of 512 bits with room for the marker bit and 64 bits more |
| `Sha1Facts.PaddingBits` | src/main/webapp/js/util/EncryptUtil.js:60-84 | bit by bit the padded message is the message, a 1, zeros, and the number of message bits in the last 64 bits |
| `Bits.BitOfAnd` | src/main/webapp/js/util/EncryptUtil.js:100 | a digit of a conjunction is 1 exactly when both digits are |
| `Bits.BitOfOr` | src/main/webapp/js/util/EncryptUtil.js:100 | a digit of a disjunction is 1 exactly when one of the digits is |
| `Bits.BitOfXor` | src/main/webapp/js/util/EncryptUtil.js:109 | a digit of an exclusive disjunction is 1 exactly when the digits differ |
| `Bits.BitOfNot` | src/main/webapp/js/util/EncryptUtil.js:100 | a digit of the complement is the other one |
| `Utf8.Utf8Encode` | src/main/webapp/js/util/EncryptUtil.js:20-39 | the loop with shifts and masks yields units below 256, the encoding of the text with CR LF read as LF |
| `Utf8.EncodeTextIsRfc3629` | src/main/webapp/js/util/EncryptUtil.js:24-36 | for a text without surrogates the bytes are the one octet sequence that section 3 of RFC 3629 assigns to it, and no other sequence is |
| `Utf8.EncodeUnitIsPattern` | src/main/webapp/js/util/EncryptUtil.js:24-36 | for every code unit, surrogates included, the bytes are the only ones of the row of RFC 3629 chosen by its range that carry its bits |
| `Utf8.PairBecomesLf` | src/main/webapp/js/util/EncryptUtil.js:21 | a CR LF pair anywhere becomes one LF, and what stands before and behind it is replaced on its own |
| `Utf8.DecodeEncode` | src/main/webapp/js/util/EncryptUtil.js:20-39 | a decoder recovers every text, surrogates included |
| `Utf8.EncodedInjective` | src/main/webapp/js/util/EncryptUtil.js:20-39 | two texts get the same bytes exactly when they agree after CR LF is read as LF; without CR LF, when they are equal |
| `Packing.PackMessage` | src/main/webapp/js/util/EncryptUtil.js:52-84 | grouping, the marker by length modulo 4, zero fill and length words give numbers with the residues of the padded message, for every length |
| `Packing.LastWord` | src/main/webapp/js/util/EncryptUtil.js:60-77 | for each length modulo 4 the word with the last bytes and the marker bit is that of the marked message |
| `Packing.ZeroFill` | src/main/webapp/js/util/EncryptUtil.js:79-81 | the fill loop ends, adds fewer than 16 zeros and nothing else, and stops 2 short of a multiple of 16 |
| `Packing.LengthWords` | src/main/webapp/js/util/EncryptUtil.js:83-84 | the two words together, as a 64-bit number, are eight times the length, read modulo 2^32 |
| `Packing.SourceWordsAreFips` | src/main/webapp/js/util/EncryptUtil.js:52-84 | the words are those of section 5.1.1 of FIPS 180-4 exactly when the message is shorter than 2^32 bytes |
| `Sha1Spec.ZeroBytesLeast` | src/main/webapp/js/util/EncryptUtil.js:79-81 | the number of zero bits is the least one that section 5.1.1 allows |
| `Packing.UnpadSourceWords` | src/main/webapp/js/util/EncryptUtil.js:52-84 | length and bytes are recovered from the words for every message below 2^32 bytes |
| `Packing.PaddingInjective` | src/main/webapp/js/util/EncryptUtil.js:52-84 | messages below 2^32 bytes are padded to the same words only when they are equal |
| `Scheduler.StepKeepsInv` | src/main/webapp/js/util/JSUtil.js:879-934 | every callback, repeated starts included, keeps: each start that was not dropped is in one place or came to rest in a check with a negative tick, and executors are balanced |
| `Scheduler.Conservation` | src/main/webapp/js/util/JSUtil.js:902-938 | in every reachable state the starts of a task are those in flight, in a check timer, in a run timer, queued or at rest; requests and execute timers minus live starts are the completed task-less polls, so execute timers exceed everything waiting by the starts at rest and those polls |
| `Scheduler.QueueWithinTimers` | src/main/webapp/js/util/JSUtil.js:879-890 | in every reachable state all queued tasks, check timers and run timers together are no more than the pending execute timers |
| `Scheduler.StepKeepsSingle` | src/main/webapp/js/util/JSUtil.js:902-938 | a task in one place at most, with a negative tick only while its run timer is pending, stays so over every step but one: a start of it while it is in a place; no check of it comes to rest meanwhile |
| `Scheduler.OnePlaceExactlyWhenStartedOnce` | src/main/webapp/js/util/JSUtil.js:902-938 | over all runs, dropped or not, a task is in one place at most in every state exactly when no step starts it while it is in a place; it is then in exactly one of in flight, check timer, run timer, queue while live, and never at rest |
| `Scheduler.OnePlaceFrom` | src/main/webapp/js/util/JSUtil.js:902-938 | the same equivalence from every state with the task in one place, whatever led to it |
| `Scheduler.NoDuplicates` | src/main/webapp/js/util/JSUtil.js:888-890 | the queue never holds a task twice that is in one place |
| `Scheduler.StartedTwiceGoesIdle` | src/main/webapp/page/common/empty.jsp:37-38 | the run of the empty page: the menu task is in flight twice, and ends with one start at rest, two execute timers and the task in one place, its run timer |
| `Scheduler.StartedTwiceSharesTick` | src/main/webapp/js/manager/Sidebar.js:50-55 | with the run timer between the two responses the task is in flight and in a check timer at once, and its next response takes one from the countdown without a check timer |
| `Scheduler.NoStarvation` | src/main/webapp/js/util/JSUtil.js:879-890 | in any run after which all execute timers pending now have fired, each entry queued now has been dispatched, although the queue is last in first out and whatever is started again |
| `Scheduler.DispatchSends` | src/main/webapp/js/util/JSUtil.js:881-883 | a dispatch puts the task in flight and shortens the queue to what was below it; a task in one place is then not queued |
| `Scheduler.Countdown` | src/main/webapp/js/util/JSUtil.js:912-931 | for a task in one place and not started again meanwhile, check timers fired plus check timers left are constant over every run without refresh, and never grow with it |
| `Scheduler.CompletionToQueue` | src/main/webapp/js/manager/Sidebar.js:395-416 | such a task completing with tick c is on top of the queue after its run timer, with exactly c check timers before it, at most c when refreshed, and its tick is the cycle time again |
| `Scheduler.RefreshHastens` | src/main/webapp/js/util/JSUtil.js:932-934 | after a refresh one more check timer fires at most before the run timer |
| `RequestErrors.ErrorDropsPayment` | src/main/webapp/js/manager/Top.js:346-348 | a failed payment request leaves queue, ticks and timers alone and the task nowhere |
| `RequestErrors.DroppedStaysAway` | src/main/webapp/js/manager/Top.js:346-348 | a task that is nowhere stays nowhere over every run that does not start it |
| `RequestErrors.OtherErrors` | src/main/webapp/js/manager/Sidebar.js:411-414 | a failed request of any other task goes on like a successful one; a failed task-less one changes no queue, request or timer |
| `TaskExecuter.Page.Execute` | src/main/webapp/js/util/JSUtil.js:879-887 | pops the newest task and sends it, or sets one more execute timer |
| `TaskExecuter.Page.AddTask` | src/main/webapp/js/util/JSUtil.js:888-890 | the task goes on top of the queue, the rest is unchanged |
| `TaskExecuter.Page.Run` | src/main/webapp/js/util/JSUtil.js:908-911 | the tick is the cycle time again and the task is queued |
| `TaskExecuter.Page.Check` | src/main/webapp/js/util/JSUtil.js:912-931 | nothing on a negative tick, the run timer at zero, otherwise one tick less and a check timer |
| `TaskExecuter.Page.Refresh` | src/main/webapp/js/util/JSUtil.js:932-934 | the refresh step of the system: the tick becomes zero whatever it was, timers stay |
| `TaskExecuter.Page.OnStart` | src/main/webapp/js/manager/Sidebar.js:50-55 | a start is the system's step: the request is sent and the tick stays, whether or not the task was started before |
| `TaskExecuter.Page.OnCurrencyChanged` | src/main/webapp/js/manager/Top.js:306-316 | a change of currency is the system's step: a payment request without a task |
| `TaskExecuter.Page.OnResponse` | src/main/webapp/js/manager/Top.js:323-350 | check and execute on success, and on error for all but the payment task, which is dropped; the step function of the system |
| `TaskExecuter.Page.OnTasklessResponse` | src/main/webapp/js/manager/Top.js:314-348 | a payment request without a task starts one more executor when it succeeds and does nothing when it fails |
| `TaskExecuter.Page.OnCheckTimer` | src/main/webapp/js/util/JSUtil.js:926-928 | a check timer that fires is the system's step: gone, and the check made |
| `TaskExecuter.Page.OnRunTimer` | src/main/webapp/js/util/JSUtil.js:919-921 | a run timer that fires is the system's step: gone, and the task queued |
| `TaskExecuter.Page.OnExecuteTimer` | src/main/webapp/js/util/JSUtil.js:885 | an execute timer that fires is the system's step: gone, and a task dispatched or the timer replaced |
| `Breakpoints.Tracker.Poll` | src/main/webapp/js/util/breakpoints.js:37-91 | one poll, with its nested loop and early exit, has the closed-form effect on the classes, in both modes, for every list, last width and new width; sorting loses no breakpoint |
| `Breakpoints.Tracker.Visit` | src/main/webapp/js/util/breakpoints.js:46-84 | one breakpoint: entering, leaving and contracting into it, in this order |
| `Breakpoints.Tracker.RemoveAll` | src/main/webapp/js/util/breakpoints.js:50-57 | takes off exactly the classes of the list |
| `Breakpoints.Tracker.Reset` | src/main/webapp/js/util/breakpoints.js:22-28 | forgets the width and leaves the classes |
| `Breakpoints.SortIsPermutation` | src/main/webapp/js/util/breakpoints.js:42-44 | the sorted list is a permutation of the list |
| `Breakpoints.PollRefines` | src/main/webapp/js/util/breakpoints.js:37-91 | a poll takes the right classes for one width to the right classes for any other |
| `Breakpoints.RunRefines` | src/main/webapp/js/util/breakpoints.js:37-91 | after any sequence of widths the body has, in distinct mode, exactly the class of the largest breakpoint not above the width, otherwise of all such, whatever the history |
| `Breakpoints.AgreesExactlyWhenPositive` | src/main/webapp/js/util/breakpoints.js:46-88 | history never shows exactly when all breakpoints are positive |
| `Breakpoints.PollAfterReset` | src/main/webapp/js/util/breakpoints.js:22-28 | the exact condition under which the first poll after a reset is right |
| `Breakpoints.ResetLeavesClass` | src/main/webapp/js/util/breakpoints.js:22-28 | with breakpoints 320 and 480, a reset at width 500 and a poll at 300 leave the class of 480 where none is due |
| `BreakpointResets.RightExactlyWhen` | src/main/webapp/js/util/breakpoints.js:22-91 | after every run of polls and resets the classes are those of the latest width exactly when no breakpoint, in distinct mode not the smallest, was last reached by a poll with a reset right behind it and a poll since |
| `AmountFormatter.Input.OnChangeSeparatorAdvanced` | src/main/webapp/js/manager/report/Bet.js:152-259 | the new text, for every old text: empty stays empty, no number gives 0.00, a number is shown with sign, groups and at most two decimals, without a leading zero |
| `AmountFormatter.Clean` | src/main/webapp/js/manager/report/Bet.js:176-205 | the cleaned text reads as the sign of the minus characters and the digits and points; the branch for several points is never taken |
| `TypedAmounts.KeepSelects` | src/main/webapp/js/manager/report/Bet.js:180-187 | cleaning keeps exactly the digits and points, and minus characters where wanted, in their order |
| `TypedAmounts.SignOfText` | src/main/webapp/js/manager/report/Bet.js:177-193 | the number read is negative exactly when the text starts with a minus character or holds an odd number of them |
| `TypedAmounts.SignOfShown` | src/main/webapp/js/manager/report/Bet.js:226-247 | the text shown starts with a minus exactly when that holds and the number read is not zero |
| `PointsShown.FormattedDigits` | src/main/webapp/js/manager/report/Bet.js:152-252 | for every text what is shown is the sign, the grouped whole number of the digits before the first point, and the first two of the decimals up to the second point without trailing zeros, or 00 |
| `AmountFormatter.FormattedStartsPlain` | src/main/webapp/js/manager/report/Bet.js:227-252 | what is shown starts, without sign and separators, with 0 only in front of the point |
| `SeveralPoints.ReadsAsIntendedExactlyWhen` | src/main/webapp/js/manager/report/Bet.js:199-213 | for every text the number read has the value of the intended reading, which keeps the first point and drops the later ones, exactly when no digit but 0 stands behind the second point |
| `SeveralPoints.SeveralPointsExample` | src/main/webapp/js/manager/report/Bet.js:199-213 | 1.2.3 is read as 1.2 where 1.23 is intended |
| `PointsShown.ShowsAsIntendedExactlyWhen` | src/main/webapp/js/manager/report/Bet.js:199-252 | for every text the amount shown is that of the intended reading exactly when the digits behind the second point are all 0, or a second or later decimal before it is not 0, or the decimals before it are 0 and the first two of all are 00, a negative amount having a digit other than 0 in front |
| `PointsShown.ShownExamples` | src/main/webapp/js/manager/report/Bet.js:199-252 | by that condition 1.23.4 is shown as intended and 1.2.3 is not |
| `AmountFormatter.WriteNumber` | src/main/webapp/js/manager/report/Bet.js:226-252 | splitting, cutting, grouping and joining write the number's sign, whole part and decimals |
| `AmountFormatter.ReadsShown` | src/main/webapp/js/manager/report/Bet.js:213-252 | what was shown reads back as the number cut to its shown decimals |
| `AmountFormatter.CutTruncates` | src/main/webapp/js/manager/report/Bet.js:234-241 | the shown number is the number truncated toward zero to two places |
| `AmountFormatter.FirstPassTruncates` | src/main/webapp/js/manager/report/Bet.js:152-259 | for every typed text with a number, the new text holds that number truncated toward zero to two places |
| `AmountFormatter.SecondPassKeepsValue` | src/main/webapp/js/manager/report/Bet.js:152-259 | a second pass never changes the value |
| `AmountFormatter.ThirdPassKeepsText` | src/main/webapp/js/manager/report/Bet.js:152-259 | for every text a third pass changes nothing |
| `AmountFormatter.SecondPassKeepsText` | src/main/webapp/js/manager/report/Bet.js:234-252 | a second pass keeps the text exactly unless the number has more than two decimals once trailing zeros are dropped, the second one is 0, and the first one is not or a negative amount is cut to zero |
| `AmountFormatter.OnePassIsNotEnough` | src/main/webapp/js/manager/report/Bet.js:234-252 | 1.101 becomes 1.10 and then 1.1 |
| `AmountFormatter.KeepGrouped` | src/main/webapp/js/manager/report/Bet.js:180-181 | cleaning takes out exactly the separators that grouping put in |
| `ThousandComma.LookaheadIsGrouped` | src/main/webapp/js/manager/report/Bet.js:244 | the one-pattern grouping puts the same commas as the rule, on every text whose word characters are digits |
| `Cursor.CalculateCursorPosition` | src/main/webapp/js/manager/report/Bet.js:123-146 | the shortest prefix of the new text with as many significant characters as the old prefix; the front when there are too few; after the first character when there were none; never outside the text; where nothing changes the cursor stays behind its significant character |
| `Cursor.KeptPlaces` | src/main/webapp/js/manager/report/Bet.js:137 | the characters counted before the old cursor are those that are neither commas nor white space |
| `Cursor.SignificantPlaces` | src/main/webapp/js/manager/report/Bet.js:132-134 | the characters counted in the new text are those that are neither commas nor blanks |
| `Cursor.WhiteSpaceCharacters` | src/main/webapp/js/manager/report/Bet.js:137 | white space is one of the twenty-five characters that ECMAScript lists |
| `ThousandComma.InsertCommas` | src/main/webapp/js/util/JSUtil.js:669-673 | the loop ends on every text and puts a comma exactly before a digit that follows a digit and starts a positive multiple of three digits |
| `ThousandComma.ThousandComma` | src/main/webapp/js/util/JSUtil.js:668-678 | groups the text before the first point and keeps what stands between the first and the second |
| `ThousandComma.OneCommaKeepsGrouped` | src/main/webapp/js/util/JSUtil.js:671-672 | writing one due comma leaves every other comma due where it was |
| `ThousandComma.GroupsOfThree` | src/main/webapp/js/util/JSUtil.js:670-673 | on digits, with or without a sign, the last three are a group of their own behind the groups of the rest |
| `ThousandComma.ShortDigits` | src/main/webapp/js/util/JSUtil.js:670-673 | at most three digits in a row take no comma |
| `ThousandComma.StripGrouped` | src/main/webapp/js/util/JSUtil.js:668-678 | taking the commas out gives the text back |
| `Digits.WriteStarts` | src/main/webapp/js/util/JSUtil.js:638 | a whole number is written with 0 in front only when it is zero, and zero as 0 |
| `Digits.WriteOfVal` | src/main/webapp/js/util/JSUtil.js:638 | digits without a zero in front are what their value is written as |
| `Money.FormatHalfUp` | src/main/webapp/js/util/JSUtil.js:628-643 | for every amount and precision the written number is the amount rounded half away from zero at that precision, read back from the text without separators |
| `Money.RoundCut` | src/main/webapp/js/util/JSUtil.js:637-638 | the text of the number cut one digit behind the point and then rounded is the number itself rounded half up |
| `Money.CutThenRound` | src/main/webapp/js/util/JSUtil.js:637-638 | one digit behind the point decides the rounding, whatever comes after it |
| `Money.HalfUpUnique` | src/main/webapp/js/util/JSUtil.js:628-643 | nearest with halves up determines the result |
| `Money.FormatDown` | src/main/webapp/js/util/JSUtil.js:623-627 | the mode named DOWN writes the magnitude with a twentieth of a unit added and then cut, with the sign |
| `Money.RoundThenCut` | src/main/webapp/js/util/JSUtil.js:625-627 | one decimal rounded half up and then cut is a twentieth added and then cut |
| `Money.DownTruncatesExactlyWhen` | src/main/webapp/js/util/JSUtil.js:458-460 | DOWN is truncation exactly when less than 19/20 of a unit is cut off, otherwise it exceeds the amount, never by more than 1/20 |
| `Money.DownExceeds` | src/main/webapp/js/util/JSUtil.js:623-627 | 1.9996 at two places becomes 2.00 where truncation leaves 1.99 |
| `Money.WriteFixed` | src/main/webapp/js/util/JSUtil.js:625-640 | without its separators the written text is the plain text of the rounded number and reads as that number; zero has no sign |
| `Money.WritesStartsPlain` | src/main/webapp/js/util/JSUtil.js:623-640 | a written amount starts, without sign and separators, with 0 only in front of the point or as 0 itself |
| `Money.ReadsFixed` | src/main/webapp/js/util/JSUtil.js:625-638 | the plain text with c decimals reads back as the number it was written for |
| `DecimalMath.AddExact` | src/main/webapp/js/util/JSUtil.js:711-735 | for every two arguments, null and empty as zero, scaling the texts up, adding and dividing gives the exact sum of what they denote |
| `DecimalMath.SubtractExact` | src/main/webapp/js/util/JSUtil.js:736-760 | for every two arguments the difference is exact in the same way |
| `DecimalMath.MultiplyExact` | src/main/webapp/js/util/JSUtil.js:762-774 | for every two arguments, null and empty as zero, the product is exact |
| `DecimalMath.PointRemoved` | src/main/webapp/js/util/JSUtil.js:856-866 | for every text of a number the integer without its point, over the power of ten of the decimals counted behind it, is what the text denotes by its digits |
| `DecimalMath.MulExact` | src/main/webapp/js/util/JSUtil.js:855-868 | for every two texts of numbers the product of the integers without points, over the power of ten of all decimals, is the product of what the texts denote |
| `DecimalMath.ScaledUpIsWhole` | src/main/webapp/js/util/JSUtil.js:732-733 | an operand of a sum or difference is an integer once scaled up, and dividing by the same power gives what the argument denotes |
| `DecimalMath.OperandsAreWhole` | src/main/webapp/js/util/JSUtil.js:732-733 | the power of ten that the code scales by leaves no decimals in either operand |
| `DecimalMath.ToText` | src/main/webapp/js/util/JSUtil.js:856 | the text of a computed number is a numeral that denotes the number, so that it can be an argument again |
| `DecimalMath.CreateDecimalSet` | src/main/webapp/js/util/JSUtil.js:704-710 | the loop ends for a positive step; element i is start + i * step and there are floor((end - start) / step) + 1 of them, none when start exceeds end |
| `Debounce.Debouncer.OnCall` | src/main/webapp/js/manager/app.js:195-214 | a call is the step function: arguments and time remembered, a timer only when none is set, an invocation only in immediate mode without a timer |
| `Debounce.Debouncer.OnTimer` | src/main/webapp/js/manager/app.js:199-207 | a timer is the step function: set again for the rest of the wait, or cleared and the function invoked in trailing mode |
| `Debounce.TrailingSafety` | src/main/webapp/js/manager/app.js:193-215 | trailing mode, timers as late as they like: at most one timer, pending exactly when the last call is unserved; every invocation has the arguments of the last call before it, at least the wait later |
| `Debounce.TwoFiringsServe` | src/main/webapp/js/manager/app.js:199-207 | both modes, timers as late as they like: once calls stop two firings at most leave no timer, and in trailing mode exactly one invocation more |
| `Debounce.OneInvocationPerBurst` | src/main/webapp/js/manager/app.js:193-215 | trailing mode, exact timers: exactly one invocation for each ended burst, with its last call's arguments at its last call's time plus the wait, and none inside a burst |
| `Debounce.SilenceBeforeInvocation` | src/main/webapp/js/manager/app.js:199-212 | immediate mode: every invocation is that of a call, with at least the wait of silence before it unless it is the first |
| `Debounce.InvokedAfterSilence` | src/main/webapp/js/manager/app.js:208-212 | immediate mode, exact timers: the first call and every call after a longer silence invoke |
| `GroupIndex.HashMap.Put` | src/main/webapp/js/util/JSUtil.js:151-156 | the binding is replaced or added and the count stays the number of keys |
| `GroupIndex.HashMap.PutAll` | src/main/webapp/js/util/JSUtil.js:158-165 | in any order of the properties the result is the union, the new map winning, and the count stays right |
| `GroupIndex.HashMap.Remove` | src/main/webapp/js/util/JSUtil.js:167-174 | the key is gone, the answer tells whether it was there, and the count stays right |
| `GroupIndex.HashMap.Get` | src/main/webapp/js/util/JSUtil.js:178-180 | the value of the key, or null |
| `GroupIndex.HashMap.Size` | src/main/webapp/js/util/JSUtil.js:147-149 | the number of keys |
| `GroupIndex.HashMap.EntrySet` | src/main/webapp/js/util/JSUtil.js:189-196 | the array of counted size is filled exactly: each slot an entry, each entry in a slot, none twice |
| `GroupIndex.HashMap.Clear` | src/main/webapp/js/util/JSUtil.js:198-201 | no keys and count zero |
| `GroupIndex.DataBase.Insert` | src/main/webapp/js/manager/Eligibility.js:484-493 | the map stays an index: for each currency exactly its groups in order |
| `GroupIndex.DataBase.InsertGroupData` | src/main/webapp/js/manager/Eligibility.js:268-276 | a non-empty list replaces the index by its own; an empty list leaves the old one |
| `GroupIndex.DataBase.GetGroupData` | src/main/webapp/js/manager/Eligibility.js:278-280 | the order-preserving filter of the inserted list by currency, null when it is empty |
| `GroupIndex.FilterKeepsOrder` | src/main/webapp/js/manager/Eligibility.js:268-280 | the filter is the increasing selection of exactly the positions of that currency |
| `UploadTracker.Field.PreviewImage` | src/main/webapp/js/manager/member/profile.js:831-867 | a cancelled choice restores the cached file, an oversize file empties the input, any other is cached and marked as a change |
| `UploadTracker.Field.HandleDrop` | src/main/webapp/js/manager/member/profile.js:869-877 | all dropped files go into the input and the first is previewed |
| `UploadTracker.Field.ClearImage` | src/main/webapp/js/manager/member/profile.js:879-923 | input and cache are empty, and it is a change exactly when there was an original |
| `UploadTracker.Field.LoadBase64Preview` | src/main/webapp/js/manager/member/profile.js:1121-1158 | a loaded image is file, cache and original; a missing one clears the field first and then the original mark |
| `UploadTracker.Field.OnHidden` | src/main/webapp/js/manager/member/profile.js:34-69 | everything is reset |
| `UploadTracker.UnchangedKeepsOriginal` | src/main/webapp/js/manager/member/profile.js:831-923 | after every sequence of choices, cancels, drops, clears, loads and closings an unchanged field caches what was loaded, and the input is empty or starts with the cached file |
| `UploadTracker.ChangedExactlyWhen` | src/main/webapp/js/manager/member/profile.js:831-923 | after every run the change flag is set exactly when an accepted file, or emptying a field whose latest load or closing had loaded an image, came after every other emptying and closing |
| `UploadTracker.CachedExactlyWhen` | src/main/webapp/js/manager/member/profile.js:831-923 | after every run a file is cached exactly when it was accepted or loaded after every clearing, load and closing and every other accepted file |
| `UploadTracker.RejectedChoice` | src/main/webapp/js/manager/member/profile.js:833-848 | a cancelled choice restores the cached file, an oversize one empties the input, and neither touches cache or marks |
| `UploadTracker.InputIsCachedExactlyWhen` | src/main/webapp/js/manager/member/profile.js:831-877 | after every run the input holds the cached file alone, or nothing, exactly when the last event is not a choice or drop of several files with an accepted one in front |
| `UploadTracker.TwoFilesDropped` | src/main/webapp/js/manager/member/profile.js:869-877 | two files dropped stay in the input while only the first is cached |
| `AlarmThrottle.Channel.RenderPaymentNotification` | src/main/webapp/js/manager/Top.js:372-392 | whether it rings, and what is stored afterwards, for every count, kind and clock |
| `AlarmThrottle.PendingRingsExactlyWhen` | src/main/webapp/js/manager/Top.js:375-381 | from any stored state a pending poll with a count rings exactly when 30000 ms have passed since every pending alarm that no empty poll has followed, the stored one included |
| `AlarmThrottle.PendingRingsApart` | src/main/webapp/js/manager/Top.js:375-381 | from any stored state two pending alarms without an empty poll between them are at least 30000 ms apart |
| `AlarmThrottle.PendingRingsAfterEmpty` | src/main/webapp/js/manager/Top.js:375-390 | the first pending poll with a count after an empty one, or with no time stored, rings at once |
| `AlarmThrottle.PlainPollRings` | src/main/webapp/js/manager/Top.js:382-387 | a poll of the other kind rings exactly when its count exceeds that of the poll before; the first one, when nothing or less is stored |

## Left out

- Pages, tables, requests and dialogs: a request is only in flight until it succeeds or fails.
- Words of SHA-1 are numbers below 2^32 with bitwise operations defined on binary digits; whether SHA-1 suits passwords is
  not considered.
- The lengths of messages and typed texts have no upper bound here.
- IEEE-754 effects in amounts and decimals: exponent notation, more than about 15 digits, and inexact products such as
  `money * Math.pow(10, c)`. Numbers are exact decimals; the sign of zero is kept where the code's own branches need it.
- Decimal arguments that are neither null, empty nor `[-]digits[.digits]`: what `Number` makes of spaces, exponents or
  letters.
- `MathUtil.decimal.divide`: its quotients need not terminate.
- `formatMoney` without a rounding mode (`src/main/webapp/js/util/JSUtil.js:647-654`) and with an unknown one.
- The amount input's options other than the defaults: separators, limits, number of decimals, positive only. Its two
  copies in the deposit and member report pages are the same code.
- DecimalMath.CreateDecimalSet: a step that is not positive with a start up to the end is excluded, because the loop of
  the source then never ends.
- Tasks created with a negative tick or cycle time, of which there are none.
- `TaskExecuter.reExecute` has no caller. Timers of the scheduler have no durations; every order is allowed.
- Events that the breakpoint poll triggers when it enters or leaves a breakpoint.
- Debounced functions that call themselves back, and a clock that runs backwards.
- `HashMap.containsKey`, a single lookup that nothing calls.
- `HashMap` keys that shadow properties of the object prototype; `values` and `keySet` run the same loop as `EntrySet`;
  lists stored in the map are values, so that a list shared with its reader is not captured.
- GroupIndex.DataBase.GetGroupData: the list a reader gets is a copy, where the source hands out the stored array.
- One upload field stands for three independent ones; previews, validation and submission are not modelled, and a
  successful submission counts as closing the dialog.
- One alarm channel stands for both, which run the same code on keys of their own (`src/main/webapp/js/manager/Top.js:396-415`);
  the login that empties the browser's storage is not a step.
- Loops and branches of long functions are methods of their own here, called in the order of the source.
