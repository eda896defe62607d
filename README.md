# Countdown / stopwatch timer core in Dafny

This project models the two deterministic components of a small desktop
countdown/stopwatch timer.

* `TimeText` (utils/TimeText.cs) formats and parses durations. `FormatHms`
  renders a second count as `HH:MM:SS`. `TryParseFlexible` reads free text in
  one of three notations, tried in order: colon (`M:S`, `H:M:S`),
  unit-suffixed (`90s`, `h`/`m`/`s` or the Korean units for hour, minute and
  second), and plain digits. Before that, `NormalizeForParse` folds the text
  onto a small alphabet.
* `TimerEngine` (core/TimerEngine.cs) is the countdown/stopwatch state
  machine. It stores absolute instants and recomputes remaining time (rounded
  up) or elapsed time (rounded down) whenever the host polls it.

Files:

* `decimal.dfy` (module `Decimal`): ASCII digit strings and their values.
* `time_text.dfy` (module `TimeText`): the formatter, the normaliser, the
  specification functions of the parser (`Parse`, `ParseNormalized` and one
  function per notation), and the two imperative methods
  `NormalizeForParse` and `TryParseFlexible`. Each method is proved equal to
  its specification function.
* `time_text_properties.dfy` (module `TimeTextProperties`): the properties of
  the formatter and parser, including the round trip from format to parse.
* `time_text_findings.dfy` (module `TimeTextFindings`): two places where the
  parser does not do what it evidently means to do. Each has the behaviour
  as written and a corrected definition (see "## Findings").
* `timer_engine.dfy` (module `Core`): the class `TimerEngine`, its rounding
  functions and client methods that exercise the contracts.

Modelling choices:

* The .NET character tables used by `NormalizeForParse` are not modelled as
  code. These are `char.IsWhiteSpace`, `CharUnicodeInfo.GetDecimalDigitValue`
  and `char.ToLowerInvariant`. They are a parameter `UnicodeTables` instead.
  The predicate `Conforms` fixes what they do on ASCII, on the colon variants
  and on the Korean unit characters. Every property that depends on them
  requires `Conforms`.
* `TryParseFlexible` returns a `ParseOutcome`: either `Returned(ok, secs)` or
  `OverflowThrown`. The second stands for the `OverflowException` that
  `long.Parse` (utils/TimeText.cs:55) throws for a digit run beyond Int64.
* The regex at utils/TimeText.cs:49 is modelled as it actually behaves. By
  then white space has been stripped, and every character other than `:` in
  a normalised string is a regex word character. So `\b` holds only at the
  two ends of the string, and the only possible match is the whole string:
  one digit run followed by one unit. `UnitMatch` is that matcher.
  `RegexMatchAt` is an independent definition of a match of the pattern, and
  `RegexMatchesWholeStringOnly` proves the two agree.
* Engine instants are `DateTime` ticks (100 ns) held in an `int`. The clock
  reading is an explicit parameter `now`, so `Math.Ceiling` and `Math.Floor`
  of `TotalSeconds` become exact integer division by 10,000,000. The
  exceptions the engine throws become a `Status` result.

What the code does where it might be expected to do otherwise:

* The input hint at ui/Form1.cs:177 offers `1h30m` and `1분 20초` as valid
  durations. The unit notation accepts only a single `<digits><unit>` token,
  so the code rejects both; see Finding 1.
* The plain-digit loop at utils/TimeText.cs:71-76 returns success as soon as
  its value passes Int32Max, before it has seen the rest of the text. So
  `12345678901h5` is accepted as Int32Max, although it is not all digits.
  `PlainForm` and `PlainSaturatesBeforeNonDigit` state this behaviour.
* The engine does not remember a paused stopwatch's base for the next run:
  `StartStopwatch` (core/TimerEngine.cs:31-38) takes the base from its
  caller. The engine also does not check that a start call matches the mode.
  So "exactly one instant is set while running" (`InstantsMatchMode`) holds
  only when the host starts each run in its own mode. Every method preserves
  it, and `StopwatchInCountdownModeLeavesStartSet` shows a run that breaks
  it.

## Model

| member | source | states |
|---|---|---|
| TimeText.FormatHms | utils/TimeText.cs:9-16 | the output has eight characters exactly when max(total, 0) is below 100 hours, and more from there on: the hour field is never truncated |
| TimeText.Pad2 | utils/TimeText.cs:15 | the `00` format gives at least two ASCII digits denoting n, exactly two below 100 |
| TimeTextProperties.FormatHmsOfNonPositive | utils/TimeText.cs:9-11 | every negative or zero count formats as `00:00:00` |
| TimeTextProperties.HmsDecomposition | utils/TimeText.cs:12-14 | minutes and seconds lie below 60 and h*3600 + m*60 + s gives back the count |
| TimeTextProperties.FormatHmsFields | utils/TimeText.cs:9-15 | the output is three colon-separated fields of at least two digits, minutes and seconds below 60, denoting max(n, 0) |
| TimeTextProperties.FormatHmsSplits | utils/TimeText.cs:15 | the output is the three padded fields joined by `:`, and splitting on `:` recovers them |
| TimeTextProperties.FormatHmsExamples | utils/TimeText.cs:9-15 | 3661, 270000, 600 and -5 format as `01:01:01`, `75:00:00` (hours not truncated), `00:10:00` and `00:00:00` |
| TimeTextProperties.Pad2Examples | utils/TimeText.cs:15 | 0, 1, 10 and 75 pad to `00`, `01`, `10` and `75` |
| TimeText.NormalizeChar | utils/TimeText.cs:88-98 | one input character contributes at most one character, always from the normal alphabet |
| TimeText.Normalize | utils/TimeText.cs:81-101 | the normalised text is no longer than the input and holds only ASCII digits, `:`, `h`, `m`, `s` and the three Korean units |
| TimeText.NormalizeForParse | utils/TimeText.cs:81-101 | the character loop with its chain of `continue` branches computes `Normalize` of the input |
| TimeTextProperties.NormalizeCharFixesAlphabet | utils/TimeText.cs:88-98 | under the .NET tables every character of the normal alphabet maps to itself |
| TimeTextProperties.NormalizeFixesAlphabet | utils/TimeText.cs:86-99 | text already in the normal alphabet is left unchanged |
| TimeTextProperties.NormalizeConcat | utils/TimeText.cs:86-99 | normalisation works character by character: it distributes over concatenation |
| TimeTextProperties.NormalizeIdempotent | utils/TimeText.cs:81-101 | normalising twice gives what normalising once gives |
| TimeTextProperties.NormalizeStripsWhiteSpace | utils/TimeText.cs:88 | no character of the normalised text is white space |
| TimeText.ParseUInt32 | utils/TimeText.cs:32-39 | `int.TryParse` with no sign or blanks succeeds exactly on a non-empty ASCII digit string whose value fits Int32, and then yields that value |
| TimeText.SplitColon | utils/TimeText.cs:26 | `Split(':')` gives at least one colon-free field (empty ones kept), and joining the fields with `:` gives back the text |
| TimeTextProperties.SplitColonFree | utils/TimeText.cs:26 | colon-free text splits into itself alone |
| TimeTextProperties.SplitColonCons | utils/TimeText.cs:26 | a colon-free field followed by `:` splits off as the first field |
| TimeTextProperties.SplitJoin | utils/TimeText.cs:26 | splitting undoes joining colon-free fields |
| TimeText.ColonForm | utils/TimeText.cs:24-47 | the colon notation never throws, and its success is a count in 0..Int32Max |
| TimeText.FieldsForm | utils/TimeText.cs:27-46 | the colon notation on split fields never throws, and its success is a count in 0..Int32Max |
| TimeTextProperties.FieldsNotation | utils/TimeText.cs:27-46 | the fields are accepted exactly when there are 2 or 3, each is an unsigned Int32 and minutes and seconds are at most 59; then the result is min(h*3600 + m*60 + s, Int32Max) with h = 0 for two fields, otherwise the result is false with secs 0 |
| TimeTextProperties.ColonNotation | utils/TimeText.cs:24-46 | the same iff and result for any colon-free fields joined by `:` |
| TimeTextProperties.ColonTakesPrecedence | utils/TimeText.cs:24-47 | once the normalised text holds a colon, only the colon notation decides the outcome |
| TimeTextProperties.TwoFieldText | utils/TimeText.cs:24-27 | a text of two colon-free fields joined by one colon is read as those two fields |
| TimeText.UnitMatch | utils/TimeText.cs:49-50 | a match splits the text into a non-empty digit run and one unit character; no match means the text is no such pair |
| TimeText.Multiplier | utils/TimeText.cs:56-63 | the unit's factor is 3600 exactly for `h` and the Korean hour, 60 exactly for `m` and the Korean minute, and 1 for anything else |
| TimeTextProperties.RegexMatchesWholeStringOnly | utils/TimeText.cs:49-50 | on a normalised colon-free text the pattern can match only the whole text, and `UnitMatch` finds exactly that match |
| TimeText.IsWordChar | utils/TimeText.cs:49 | the .NET `\w` class on the normal alphabet; digits and units are word characters |
| TimeText.AtBoundary | utils/TimeText.cs:49 | `\b` holds at a position exactly when one of its two neighbours is a word character and the other is not |
| TimeText.RegexMatchAt | utils/TimeText.cs:49 | a match of the pattern is a digit run and a unit that is not preceded or followed by a word character |
| TimeText.UnitForm | utils/TimeText.cs:52-67 | it throws exactly when the digit run exceeds Int64Max; otherwise it succeeds in 0..Int32Max, with exactly value times multiplier whenever that is at most Int32Max |
| TimeTextProperties.UnitNotation | utils/TimeText.cs:49-67 | a digit run plus one unit parses to value times 3600, 60 or 1, saturated at Int32Max, or throws past Int64Max |
| TimeTextProperties.UnitNotationNeedsWholeToken | utils/TimeText.cs:49-50 | a colon-free text in which the pattern has no match goes to the plain-digit loop |
| TimeText.PlainForm | utils/TimeText.cs:70-78 | the plain loop succeeds exactly when the text is all digits or its leading digit run already exceeds Int32Max; success is a count in 0..Int32Max |
| TimeText.ScanPlainDigits | utils/TimeText.cs:70-78 | the accumulator loop with its early saturating return computes `PlainForm` |
| TimeTextProperties.PlainNotation | utils/TimeText.cs:70-78 | a non-empty digit string parses to its decimal value saturated at Int32Max |
| TimeTextProperties.PlainText | utils/TimeText.cs:70-78 | the same on normalised text |
| TimeTextProperties.PlainSaturatesBeforeNonDigit | utils/TimeText.cs:71-75 | a leading digit run past Int32Max is accepted as Int32Max whatever colon-free text follows it, unless that text is one lone unit (the unit notation then applies) |
| TimeTextProperties.SaturatedText | utils/TimeText.cs:71-75 | the same on normalised text, given where the digit run ends |
| TimeTextProperties.SaturatedConcat | utils/TimeText.cs:71-75 | a digit run past Int32Max followed by text that starts with a non-digit (and is not one lone unit) is accepted as Int32Max |
| TimeTextProperties.SaturatedExample | utils/TimeText.cs:71-75 | `12345678901h5` is accepted as Int32Max although it is not all digits |
| TimeText.ParseNormalized | utils/TimeText.cs:22-78 | false always comes with secs 0, success gives a count in 0..Int32Max, and only a single unit token can throw |
| TimeText.Parse | utils/TimeText.cs:18-79 | the same for the raw input, with the throw only when the normalised input is one unit token |
| TimeText.TryParseFlexible | utils/TimeText.cs:18-79 | the method (normalise, then colon, unit and plain notations in that order) computes `Parse` |
| TimeTextProperties.ParseOfNormalText | utils/TimeText.cs:21 | on text already in the normal alphabet, parsing skips straight to the three notations |
| TimeTextProperties.FormatHmsInAlphabet | utils/TimeText.cs:15 | formatted text lies in the normal alphabet |
| TimeTextProperties.FormattedTextParses | utils/TimeText.cs:24-46 | the colon notation reads every formatted count up to Int32Max back exactly |
| TimeTextProperties.FormatParseRoundTrip | utils/TimeText.cs:9-47 | for 0 <= n <= Int32Max, parsing `FormatHms(n)` succeeds with n |
| TimeTextProperties.FormattedExamples | utils/TimeText.cs:24-46 | `00:10:00` parses to 600 and `75:00:00` to 270000 |
| TimeTextProperties.MinutesSecondsExample | utils/TimeText.cs:30-46 | `1:30` parses to 90 |
| TimeTextProperties.MinutesSecondsText | utils/TimeText.cs:30-46 | the same on normalised text |
| TimeTextProperties.SecondsOutOfRangeExample | utils/TimeText.cs:42 | `0:60` is rejected with secs 0 |
| TimeTextProperties.SecondsOutOfRangeText | utils/TimeText.cs:42 | the same on normalised text |
| TimeTextProperties.UnitExample | utils/TimeText.cs:49-67 | `90s` parses to 90 |
| TimeTextProperties.RejectedExamples | utils/TimeText.cs:20-22 | `abc` and the empty text are rejected with secs 0 |
| TimeTextFindings.NormalizeHint | utils/TimeText.cs:86-99 | the hint examples `1h30m` and `1분 20초` normalise to `1h30m` and `1분20초` |
| TimeTextFindings.NormalizeHintLatin | utils/TimeText.cs:86-99 | `1h30m` is already normal |
| TimeTextFindings.NormalizeHintKorean | utils/TimeText.cs:86-99 | `1분 20초` loses its space |
| TimeTextFindings.NormalizeHintMinutes | utils/TimeText.cs:86-99 | `1분` followed by a space normalises to `1분` |
| TimeTextFindings.NormalizeDropsSpace | utils/TimeText.cs:88 | a space normalises to nothing |
| TimeTextFindings.StopsAtSecondCharacter | utils/TimeText.cs:49-73 | normalised text made of one digit, a unit and more is rejected |
| TimeTextFindings.HintExamplesRejected | ui/Form1.cs:177 | as written, both unit examples of the input hint are rejected |
| TimeTextFindings.UnitTokensTotal | ui/Form1.cs:177 | corrected notation: a text read as unit tokens begins with a digit, ends with a unit and holds no colon |
| TimeTextFindings.TokensCons | utils/TimeText.cs:49-63 | reading a sequence of unit tokens takes the first token off the front and adds value times multiplier |
| TimeTextFindings.TokenHead | utils/TimeText.cs:49 | the first token of digits, unit and rest ends right after the unit |
| TimeTextFindings.TokenLast | utils/TimeText.cs:49-63 | a single digit-run-plus-unit token totals value times multiplier |
| TimeTextFindings.TokenNext | utils/TimeText.cs:49-63 | a token followed by more text totals its value times multiplier plus the total of the rest, and fails when the rest is not tokens |
| TimeTextFindings.ParseAsHinted | ui/Form1.cs:177 | the corrected parser never throws, false comes with secs 0 and success gives a count in 0..Int32Max |
| TimeTextFindings.ParseNormalizedAsHinted | utils/TimeText.cs:22-78 | the same on normalised text |
| TimeTextFindings.HintExamplesAccepted | ui/Form1.cs:177 | corrected, `1h30m` parses to 5400 and `1분 20초` to 80 |
| TimeTextFindings.HintedTexts | ui/Form1.cs:177 | the same on the normalised hint texts |
| TimeTextFindings.HoursMinutesTokens | ui/Form1.cs:177 | the tokens of `1h30m` total 5400 seconds |
| TimeTextFindings.MinutesSecondsTokens | ui/Form1.cs:177 | the tokens of `1분20초` total 80 seconds |
| TimeTextFindings.HintedDiffersOnlyOnUnitTokens | utils/TimeText.cs:49-68 | the correction changes the outcome only for input that normalises to a colon-free sequence of unit tokens |
| TimeTextFindings.HintedDiffersOnTokens | utils/TimeText.cs:49-68 | the same on normalised text |
| TimeTextFindings.HintedAgreesOnSingleToken | utils/TimeText.cs:49-67 | on a single unit token within Int64 the correction agrees with the code |
| TimeTextFindings.HintedAgreesOnToken | utils/TimeText.cs:49-67 | the same on normalised text |
| TimeTextFindings.WrapInt64 | utils/TimeText.cs:59 | unchecked long arithmetic lands in the Int64 range, differs from the exact value by a multiple of 2^64, and leaves in-range values alone |
| TimeTextFindings.WrapInt32 | utils/TimeText.cs:66 | the unchecked `(int)` cast of a long lands in the Int32 range, differs from its operand by a multiple of 2^32, and leaves in-range values alone |
| TimeTextFindings.UnitTotalAsWritten | utils/TimeText.cs:55-66 | as written, the unit total after the wrapping long product, the Int32Max test and the `(int)` cast is an Int32 that can be negative |
| TimeTextFindings.UnitTotalAsWrittenBelowWrap | utils/TimeText.cs:52-66 | while the product fits Int64 the code saturates as intended, as `UnitForm` does |
| TimeTextFindings.UnitTotalWrapsNegative | utils/TimeText.cs:55-66 | as written, `2562047788611740h` yields success with -2147479104 seconds, while `UnitForm` saturates at Int32Max |
| TimeTextFindings.WrappedHours | utils/TimeText.cs:59-66 | the wrapped value of 2562047788611740 * 3600 cast to int is -2147479104 |
| Core.CeilSeconds | core/TimerEngine.cs:51 | `Math.Ceiling` of a tick span: the smallest whole number of seconds covering it |
| Core.FloorSeconds | core/TimerEngine.cs:60 | `Math.Floor` of a tick span: the largest whole number of seconds it covers |
| Core.Remaining | core/TimerEngine.cs:87 | the remaining count is the number of whole seconds, rounded up, from now to the target |
| Core.Elapsed | core/TimerEngine.cs:104 | the elapsed count is 0 before the start, and otherwise the whole seconds, rounded down, since the start |
| Core.RemainingReachesZeroAtDeadline | core/TimerEngine.cs:87-88 | the remaining count is at most 0 exactly when the deadline has been reached, and a fraction of a second to go counts as 1 |
| Core.RemainingNonIncreasing | core/TimerEngine.cs:87 | a later poll never shows more time remaining |
| Core.ElapsedCountsWholeSeconds | core/TimerEngine.cs:104 | elapsed is at least 1 exactly when a full second has passed, and never exceeds the real span |
| Core.ElapsedNonDecreasing | core/TimerEngine.cs:104 | a later poll never shows less time elapsed |
| Core.TimerEngine.Valid | core/TimerEngine.cs:9-11 | the invariant every method keeps: shown seconds and base seconds are non-negative Int32 values |
| Core.TimerEngine.InstantsMatchMode | core/TimerEngine.cs:12-13 | while running exactly the instant of the current mode is set, and when idle none; every method keeps it when each start call matches the mode |
| Core.TimerEngine.InInt32Range | core/TimerEngine.cs:47-105 | at the clock reading `now`, a running countdown's remaining seconds and a running stopwatch's base plus elapsed seconds fit in Int32; the instant the current mode does not read is unconstrained |
| Core.TimerEngine.constructor | core/TimerEngine.cs:7-13 | a new engine is an idle countdown showing 0 with no instants set |
| Core.TimerEngine.SetMode | core/TimerEngine.cs:15-20 | while running it throws and changes nothing; otherwise it sets the mode and resets everything else |
| Core.TimerEngine.StartCountdown | core/TimerEngine.cs:22-29 | a non-positive count throws with the state unchanged; otherwise the engine runs showing the count, with the target now + count seconds, no start, and the mode and base untouched |
| Core.TimerEngine.StartStopwatch | core/TimerEngine.cs:31-38 | the base becomes max(0, x) and is shown, the start is now, the engine runs with no target, and the mode is untouched |
| Core.TimerEngine.Pause | core/TimerEngine.cs:40-65 | idle: nothing changes; running countdown: it shows max(0, ceil(target - now)) and clears the target; running stopwatch: the base grows by max(0, floor(now - start)), is shown, and the start is cleared |
| Core.TimerEngine.Reset | core/TimerEngine.cs:67-74 | the engine is idle, shows 0, has base 0 and no instants, and keeps its mode |
| Core.TimerEngine.Tick | core/TimerEngine.cs:76-108 | every branch of the poll: idle does nothing; a countdown without target stops; a countdown past its deadline beeps, stops, shows 0 and clears the target; otherwise it shows ceil(target - now) >= 1; a stopwatch never beeps, shows base + floor(now - start), and stops without a start |
| Core.CountdownBeepsOnce | core/TimerEngine.cs:80-97 | the tick that beeps stops the engine, and the next tick returns (false, false) |
| Core.ResetIsIdempotent | core/TimerEngine.cs:67-74 | resetting twice leaves what resetting once leaves |
| Core.StopwatchInCountdownModeLeavesStartSet | core/TimerEngine.cs:31-65 | a stopwatch started in Countdown mode with base Int32Max and paused at any later reading keeps its start instant and base, so `InstantsMatchMode` fails without the host's discipline |
| Core.CountdownScenario | core/TimerEngine.cs:22-97 | a ten-second countdown shows 1 at 9.4 s, beeps, stops and shows 0 at 10.1 s, and the next tick neither beeps nor stops |
| Core.StopwatchScenario | core/TimerEngine.cs:31-107 | a stopwatch from 0 shows 2 at 2.9 s, and pausing there keeps 2 as base and shown count |

## Left out

- ui/Form1.cs, ui/AutoFontFitter.cs, ui/UiKit.cs, ui/SmoothPanel.cs and ui/TextBoxExtensions.cs are not part of this model. They are WinForms wiring, font measurement and control plumbing that only call into the core. Only the hint text at ui/Form1.cs:177 is used, for Finding 1.
- `DateTime.UtcNow` is not read by the model: the clock reading is the parameter `now`.
- The double arithmetic of `TotalSeconds`, `Math.Ceiling` and `Math.Floor` is replaced by exact integer division on ticks.
- Core.TimerEngine.Pause: requires `InInt32Range(now)` instead of modelling the `(int)` casts of `Math.Ceiling` and `Math.Floor` and the unchecked sum `_baseSeconds + elapsed` (core/TimerEngine.cs:51, 60). Only the branch of the current mode is constrained. An out-of-range cast of a double gives an unspecified value in C# (int.MinValue on x64), and it needs a span beyond about 68 years. The sum wraps as soon as base + elapsed passes Int32Max, which `StartStopwatch` allows for any base (`StartStopwatch(int.MaxValue)` and a `Tick` one second later give a negative count). The host's masked `00:00:00` input (ui/Form1.cs:88) keeps the base at or below 359999, out of reach of that wrap.
- Core.TimerEngine.Tick: requires `InInt32Range(now)` for the same reasons (core/TimerEngine.cs:87, 104-105).
- Core.TimerEngine.StartCountdown: does not model the `ArgumentOutOfRangeException` that `DateTime.AddSeconds` throws past year 9999, because instants are unbounded ticks.
- The .NET character tables are a parameter. The model pins them down only on ASCII, the colon variants and the Korean unit characters.
- TimeText.NormalizeForParse: a `null` input is not modelled, because a Dafny string cannot be null. The empty input gives the empty result, as in the code.
- The general .NET regex engine is not modelled. The matcher `UnitMatch` covers the normalised colon-free strings it is applied to, and `RegexMatchesWholeStringOnly` ties it to a definition of the pattern's matches.
- The regex is case-insensitive, so it would accept `H`, `M` or `S` as units, and the `switch` would count an upper-case `H` or `M` as seconds. Normalised text holds only lower-case units, so `Multiplier` is defined on lower-case units.
- Exception messages are not modelled. Exceptions are the `Status` values and `OverflowThrown`.
- TimeText.TryParseFlexible: follows the code except for the unit notation's 64-bit product. `UnitForm` saturates it exactly instead of wrapping, because the wrap is Finding 2. `UnitTotalAsWritten` models the wrap as written.
- TimeText.Parse: same as TryParseFlexible.
- TimeText.ParseNormalized: same as TryParseFlexible: the unit notation saturates the product that the code wraps.
- TimeText.UnitForm: is the corrected half of Finding 2; it saturates where utils/TimeText.cs:59 and :66 wrap.
- TimeTextProperties.UnitNotation: states the saturated result of `UnitForm`, not the wrap past Int64Max.
- A .NET string is a sequence of UTF-16 code units, and the loop at utils/TimeText.cs:86 goes over code units. A Dafny `char` is a Unicode scalar value instead. So a lone surrogate cannot be expressed here, and a character outside the Basic Multilingual Plane is one `char` in the model but two code units in .NET. For example, .NET sees MATHEMATICAL BOLD DIGIT ONE as two surrogates and drops both, while the model hands it to the tables parameter as one character, which `Conforms` leaves unconstrained.

## Findings

| source | as written | input that shows it | evidently intended | confidence | as-written member | corrected member |
|---|---|---|---|---|---|---|
| utils/TimeText.cs:49 | the unit regex, bounded by `\b` on both sides, runs on text with white space already removed, so `\b` cannot hold between two tokens and only a single token is ever matched; other text falls to the plain-digit loop and is rejected | `1h30m` and `1분 20초`, both shown as valid examples at ui/Form1.cs:177 | text that is a sequence of digit-run-plus-unit tokens is read token by token and their values are summed (`ParseAsHinted`): 5400 and 80 seconds | not executed | TimeTextFindings.HintExamplesRejected | TimeTextFindings.HintExamplesAccepted |
| utils/TimeText.cs:59 | `total += v * 3600` is unchecked long arithmetic, so a product past Int64Max wraps before the `total > int.MaxValue` test, and `(int)total` at line 66 wraps again | `2562047788611740h` gives success with -2147479104 seconds | saturate at Int32Max, as every other path does | not executed | TimeTextFindings.UnitTotalWrapsNegative | TimeText.UnitForm |
