# SnoozeTime — a verified model of BetterReminders' reminder offsets

BetterReminders is an Outlook add-in. It wakes the user up before or after their meetings.
Each wake-up is a `SnoozeTime` (SnoozeTime.cs). That is a pair of an `int` number of seconds and a flag.
The flag says whether the seconds count from now or from the meeting start.
A negative count from the start means "before the start".

This project models the six operations of that value type in Dafny and proves their laws:

- `Parse` reads loose, case-insensitive text such as "10m", "5 minutes before start" or "1.5h after start".
- `ToString` renders an offset as canonical text. It parses that text back and throws when the result differs.
- `CompareTo` is the display order.
- `ParseList` and `ListToString` are the comma-separated codec for lists of offsets: a whole list travels as one string.
- `GetNextReminderTime` is the instant the reminder fires.

Modules, in dependency order:

| file | module | what it holds |
|---|---|---|
| results.dfy | `Results` | `Option` and `Result`, where a failure stands for the exception the C# code throws |
| text.dfy | `Text` | ASCII case folding; `IndexOf(word, InvariantCultureIgnoreCase) >= 0`; decimal digit strings |
| pattern.dfy | `Pattern` | the regular expression `([\d.]+) *(s\|h\|m)`, written as a scan |
| numbers.dfy | `Numbers` | 32-bit `int` (range, wrap-around, negation); `float.Parse` on a run of digits and points, as an exact decimal; `Convert.ToInt32` as half-to-even rounding |
| snooze.dfy | `Snooze` | the `SnoozeTime` datatype, the error kinds, and `Parse` |
| format.dfy | `Format` | `ToString` with its self-check, and the proof that it succeeds exactly on the offsets whose text reads back |
| ordering.dfy | `Ordering` | `CompareTo`, as written and as intended |
| schedule.dfy | `Schedule` | `GetNextReminderTime` |
| list_codec.dfy | `ListCodec` | `ParseList` and `ListToString` |
| parse_examples.dfy, format_examples.dfy, list_examples.dfy | `ParseExamples`, `FormatExamples`, `ListExamples` | concrete inputs and outputs |

The main results, all in exact arithmetic (the code's single-precision `float` is not modelled; see "## Left out"):

- **Round trip.** `Format.ToString` succeeds exactly when `secs != 0` and, for an offset from now, `secs > 0` (`HasCanonicalText`).
  - When it succeeds, parsing its text gives the offset back.
  - When `secs == 0`, the `NonPositiveMagnitude` error of the re-parse escapes.
  - For a negative offset from now, the self-check fails.
  - Every parsed offset has canonical text (`Format.ParsedRoundTrip`).
- **List round trip.** `ListCodec.ListRoundTrip` proves `ParseList(ListToString(L)) == L` for every list of such offsets, including the empty list and the empty string.
- **Order.** `CompareTo`, taken without overflow, is a strict total order. Offsets from the meeting start come before offsets from now, and larger offsets come first within a group.
- **Finding.** The 32-bit subtraction the code uses breaks the order (see below).

The model follows the code where its comments or an obvious reading suggest otherwise:

- The unit `switch` is case-sensitive. "5M" and "2H" are read as seconds, while "5m" is five minutes.
- The `< 1` check is made on the scaled number before rounding. So "0.5s" is rejected, and "1.4s" is one second.
- Within a start-relative group, the larger `Secs` sorts first. So 5 minutes after the start is listed before 5 minutes before it.
- The comment at SnoozeTime.cs:92 says "fromnow items first". The code returns +1 for a from-now receiver, so from-now items sort last.

## Model

| member | source | states |
|---|---|---|
| Snooze.StartTimeRelative | SnoozeTime.cs:43 | Definition: the text contains "start", "after" or "before", ignoring case; Snooze.Parse states that it decides the reference point. |
| Snooze.UnitSeconds | SnoozeTime.cs:47-51 | The case-sensitive switch: 60 exactly for lower-case `m`, 3600 exactly for lower-case `h`, and 1 for every other unit letter. |
| Snooze.Parse | SnoozeTime.cs:37-58 | Fails with MalformedOffset exactly when the text has no `<number> s\|m\|h`. A parsed offset is from now exactly when the text has none of "start", "after" or "before". Its seconds are negative exactly when it is start-relative and lacks "after". They are never zero, and always positive from now. |
| Snooze.FromMatch | SnoozeTime.cs:46-57 | Rejects a number `float.Parse` refuses. A value under one second after unit scaling is NonPositiveMagnitude. Otherwise the result is the half-to-even rounding of the scaled value, with the keyword sign applied, or Overflow outside the `int` range. |
| Snooze.ParseUsesLeftmostMatch | SnoozeTime.cs:39-46 | Number and unit come from the leftmost regex match, however it is found. |
| Snooze.ParseWholeNumber | SnoozeTime.cs:46-57 | A whole number is multiplied by 60 for `m`, by 3600 for `h` and by 1 for anything else, upper-case `M`/`H` included. The result is then rejected at zero, signed, or an overflow. |
| Snooze.NoNumberNoMatch | SnoozeTime.cs:39-41 | Text with no digit or point is rejected as MalformedOffset. |
| Snooze.MalformedExamples | SnoozeTime.cs:39-41 | "", "hello" and "five minutes" are rejected as MalformedOffset. |
| Snooze.AfterStartExample | SnoozeTime.cs:37-58 | "10m after start" is 600 seconds from the start. |
| Snooze.BeforeStartExample | SnoozeTime.cs:37-58 | "10m before start" is -600 seconds from the start. |
| Snooze.FromNowExample | SnoozeTime.cs:37-58 | "10m" is 600 seconds from now. |
| ParseExamples.NoKeywords | SnoozeTime.cs:43-44 | Text without the letters t and b names no keyword, so it is from now. |
| ParseExamples.HourExample | SnoozeTime.cs:47-49 | "1h" is 3600 seconds from now. |
| ParseExamples.UpperCaseUnitExample | SnoozeTime.cs:47-51 | "5M" matches the case-insensitive pattern, but the case-sensitive switch leaves it at 5 seconds. |
| ParseExamples.OneDecimalFromNow | SnoozeTime.cs:46-57 | A text such as "1.5h" with one digit on each side of the point and no keyword is, from now, its digits over ten times the unit's seconds, rounded half to even. |
| ParseExamples.FractionExample | SnoozeTime.cs:46-49 | "1.5h" is 5400 seconds. |
| ParseExamples.HalfToEvenExample | SnoozeTime.cs:57 | "2.5s" rounds to 2 seconds, not 3. |
| ParseExamples.UnderOneSecondExample | SnoozeTime.cs:52-53 | "0.5s" is rejected as NonPositiveMagnitude. |
| ParseExamples.TwoPointsExample | SnoozeTime.cs:39-46 | "1.2.3m" matches the pattern, but `float.Parse` rejects its number. |
| Pattern.MatchUnique | SnoozeTime.cs:39 | At a given start index there is at most one match. |
| Pattern.LeftmostUnique | SnoozeTime.cs:39 | The leftmost match is unique, so the backtracking engine's answer is determined. |
| Pattern.MatchIsMaximal | SnoozeTime.cs:39 | Any match takes the whole run of `[\d.]` and all the following spaces. |
| Pattern.MatchAt | SnoozeTime.cs:39 | The engine's attempt at one index: a match starting there, or a proof that none does. |
| Pattern.FindFrom | SnoozeTime.cs:39 | The leftmost match at or after an index, or a proof that none exists. |
| Pattern.FindMatch | SnoozeTime.cs:39-40 | `Regex.Match`: the leftmost match, and None exactly when the text has no match. |
| Numbers.ParseDecimal | SnoozeTime.cs:46 | A run of digits and points is a number exactly when it has a digit and at most one point. |
| Numbers.ParseIntegerLiteral | SnoozeTime.cs:46 | A digit string parses to the integer it spells. |
| Numbers.ParseFractionLiteral | SnoozeTime.cs:46 | "a.b" parses to the digits of a and b, scaled by the length of b. |
| Numbers.RoundHalfEven | SnoozeTime.cs:57 | `Convert.ToInt32`: the result is within half a unit of the quotient, and even on a tie. |
| Numbers.RoundingUnique | SnoozeTime.cs:57 | Exactly one integer has that property. |
| Numbers.RoundExact | SnoozeTime.cs:57 | A whole quotient rounds to itself. |
| Numbers.RoundNegate | SnoozeTime.cs:54-57 | Rounding commutes with negation, so negating before rounding (as the code does) equals negating the rounded magnitude. |
| Numbers.RoundAtLeastOne | SnoozeTime.cs:52-57 | A quotient of at least one rounds to at least one, so a parsed offset is never zero. |
| Numbers.Wrap32 | SnoozeTime.cs:91 | The 32-bit two's-complement value of an integer: congruent to it mod 2^32, and equal to it when it is in range. |
| Numbers.Negate32 | SnoozeTime.cs:63 | C# `-n` on `int`: the exact negation, except that int.MinValue stays int.MinValue. |
| Numbers.Negate32Wraps | SnoozeTime.cs:63 | That negation is the exact negation reduced to 32 bits. |
| Text.ContainsIgnoreCase | SnoozeTime.cs:43-54 | `IndexOf(word, InvariantCultureIgnoreCase) >= 0`, an occurrence under ASCII case folding, needs a text at least as long as the word; its behaviour on the rendered texts is stated by Format.RenderWording and Format.ParseRender. |
| Text.IntToString | SnoozeTime.cs:65-67 | The decimal text of an `int`: never empty, a leading minus exactly for a negative number, and the digits after it spell the magnitude. |
| Text.NatToString | SnoozeTime.cs:65-67 | The decimal text of a non-negative `int`: non-empty digits, no leading zero, spelling the number. |
| Format.AbsSecs | SnoozeTime.cs:63 | `(Secs > 0) ? Secs : -Secs`: the magnitude, except int.MinValue, which wraps to itself. |
| Format.Render | SnoozeTime.cs:63-70 | The text ToString builds before its self-check is longer than "Remind in "; its wording is stated by Format.RenderWording and Format.RenderFrame, and its reading by Format.ParseRender. |
| Format.ToString | SnoozeTime.cs:60-73 | Succeeds exactly for the offsets with canonical text (non-zero, and positive when from now), and the text then parses back to the offset. At zero the NonPositiveMagnitude error escapes. A negative offset from now fails the self-check, or overflows at int.MinValue. |
| Format.ParsedRoundTrip | SnoozeTime.cs:72 | Every offset Parse returns has canonical text, and rendering then re-parsing gives it back. |
| Format.ToStringIsRender | SnoozeTime.cs:68-72 | A successful ToString returns the rendered sentence unchanged. |
| Format.RenderWording | SnoozeTime.cs:65-67 | The text never contains "h", so never hours. It says "minute" exactly for a whole number of at least one minute, "minutes" unless that is exactly 60 seconds, "second" otherwise, and "seconds" unless that is exactly 1 second. |
| Format.RenderFrame | SnoozeTime.cs:68-70 | The text starts "Remind ". It starts "Remind in " exactly when from now. From the start it ends " before start time" when negative and " after start time" otherwise. |
| Format.ParseRender | SnoozeTime.cs:60-72 | The rendered text parses back to the magnitude with the offset's sign and reference point. From now, the magnitude becomes positive, and int.MinValue overflows. A zero offset is NonPositiveMagnitude. |
| FormatExamples.HourRendering | SnoozeTime.cs:65-69 | One hour from now renders "Remind in 60 minutes". |
| FormatExamples.OneSecondRendering | SnoozeTime.cs:67-69 | One second from now renders "Remind in 1 second". |
| FormatExamples.OneMinuteRendering | SnoozeTime.cs:66-69 | Sixty seconds from now renders "Remind in 1 minute". |
| FormatExamples.BeforeStartRendering | SnoozeTime.cs:65-70 | -90 seconds from the start renders "Remind 90 seconds before start time". |
| FormatExamples.NegativeFromNowRendering | SnoozeTime.cs:72 | -60 seconds from now fails the self-check with InternalInconsistency. |
| Ordering.CompareTo | SnoozeTime.cs:87-94 | Zero exactly on equal offsets. Negative exactly when the first precedes: start-relative before from-now, then larger seconds first. Positive exactly when the second precedes. |
| Ordering.CompareToAsWritten | SnoozeTime.cs:87-94 | The code's comparison, with the subtraction wrapped to 32 bits. It agrees with CompareTo whenever the difference fits in an `int`. |
| Ordering.CompareWrapCounterexample | SnoozeTime.cs:91 | Under the as-written comparison, each of -2147483647 and 1 (both from the start) compares below the other. |
| Ordering.CompareAntisymmetric | SnoozeTime.cs:87-94 | Swapping the operands negates the comparison. |
| Ordering.PrecedesStrictTotalOrder | SnoozeTime.cs:87-94 | The display order is irreflexive, asymmetric, transitive and total. |
| Ordering.DisplayOrderExample | SnoozeTime.cs:89-93 | 300 seconds after the start precedes 300 seconds before it, and both precede 600 seconds from now. |
| Schedule.NextReminderTime | SnoozeTime.cs:32-35 | The reminder is the offset after now when from now, and after the start otherwise. So a start-relative reminder is before the start exactly when its offset is negative. |
| Schedule.ParsedReminderTime | SnoozeTime.cs:32-58 | For parsed text: naming the start without "after" fires before the start, "after" fires after it, and text without keywords fires after now. |
| ListCodec.Join | SnoozeTime.cs:82 | `string.Join(",", …)` starts with the first segment and is at least as long as the number of separators; ListCodec.SplitJoin and ListCodec.JoinInjective state that splitting undoes it. |
| ListCodec.Split | SnoozeTime.cs:77 | `Split(',')`: at least one segment, none containing a comma, and joining them with commas gives the text back. |
| ListCodec.JoinInjective | SnoozeTime.cs:82 | Joining comma-free segments is injective. |
| ListCodec.SplitJoin | SnoozeTime.cs:77-82 | Splitting the join of comma-free segments returns the segments. |
| ListCodec.RemoveEmpty | SnoozeTime.cs:77 | `RemoveEmptyEntries`: the result has no empty segment and is unchanged when there was none. |
| ListCodec.RemoveEmptySingle | SnoozeTime.cs:77 | A single segment is kept exactly when it is not empty. |
| ListCodec.RemoveEmptyConcat | SnoozeTime.cs:77 | Removing empty segments distributes over concatenation, so with RemoveEmptySingle it keeps exactly the non-empty segments in their order. |
| ListCodec.RemoveEmptyKeeps | SnoozeTime.cs:77 | A string is among the kept entries exactly when it is a non-empty segment. |
| ListCodec.MapAll | SnoozeTime.cs:77 | `Select` into a new list: succeeds exactly when every element succeeds, returning the results in order. Otherwise it returns the failure of the first failing element. |
| ListCodec.MapAllSucceeds | SnoozeTime.cs:77 | When each element gives a known value, the result is exactly those values. |
| ListCodec.ParseList | SnoozeTime.cs:75-78 | Over the non-empty comma-separated entries, in order: succeeds exactly when every entry parses, and then returns the parsed offsets in order. Otherwise it fails with the error of the first entry that does not parse. Every offset in a parsed list has canonical text. |
| ListCodec.ParseEntries | SnoozeTime.cs:77 | The same split, drop and `Select` for any reader of an entry. |
| ListCodec.ListToString | SnoozeTime.cs:80-83 | Succeeds exactly when every offset has canonical text, and the text is then the comma-join of the offsets' ToString texts in order. Otherwise the error of the first offset whose ToString fails escapes. |
| ListCodec.JoinAll | SnoozeTime.cs:82 | The same map-then-join for any renderer of an element. |
| ListCodec.RenderSegment | SnoozeTime.cs:60-70 | A rendered offset is never empty and never contains a comma, so it survives the list codec. |
| ListExamples.SplitExample | SnoozeTime.cs:77 | The entries of "10m,,hello" are "10m" and "hello": the empty one between the commas is dropped. |
| ListExamples.BadEntryExample | SnoozeTime.cs:75-78 | "10m,,hello" fails as a whole with MalformedOffset, although its first entry parses. |
| ListCodec.ListRoundTrip | SnoozeTime.cs:75-83 | A list of offsets with canonical text is written without failure and parses back to the same list. The empty list is the empty string. |

## Left out

- `DateTime.Now` and `DateTime.AddSeconds`. Instants are whole seconds on an unbounded integer time line, and the current time is a parameter. The `ArgumentOutOfRangeException` that `AddSeconds` throws past year 9999 is not modelled.
- Format.ToString: the self-check re-parses through a single-precision `float`, which cannot hold every magnitude above 2^24 exactly. For example (16777217 s, from now) renders "Remind in 16777217 seconds", which the code reads back as 16777216 seconds, so its self-check throws; the model's ToString succeeds. The round-trip results above hold in exact arithmetic only.
- Snooze.Parse: `float.Parse` and the unit scaling are single-precision in the code. The model computes with exact decimals, so it differs where a float rounds. For example, the code reads "2147483647s" as 2^31 and raises `OverflowException`, while the model returns 2147483647 seconds. Exact arithmetic is the evident intent.
- Snooze.Parse: a number too large for `float` (an overflow on .NET Framework, infinity then an overflow on .NET Core) is modelled as the Overflow error in both cases.
- `\d` in .NET also matches non-ASCII decimal digits. These are left out: the model's digits are ASCII.
- `RegexOptions.IgnoreCase` folds case by Unicode rules, and `InvariantCultureIgnoreCase` is a culture-aware comparison that also skips ignorable characters such as the soft hyphen. The model compares character by character with ASCII case folding only.
- Exception types and message texts. Errors are the kinds in `Snooze.Error`.
- PreferencesPage.cs, the settings page that edits the list text: it is user-interface and persistence code around this value type.
- The `IComparable<SnoozeTime>` interface plumbing. Any sort that uses CompareTo is outside this model; the order such a sort would rely on is proved total.

## Findings

| source | as written | input that shows it | evidently intended | confidence | as-written member | corrected member |
|---|---|---|---|---|---|---|
| SnoozeTime.cs:91 | `other.Secs - Secs` is computed in 32-bit `int` arithmetic, which wraps when the two offsets are more than 2^31 - 1 seconds apart | a = (-2147483647 s, from start), b = (1 s, from start): both `a.CompareTo(b)` and `b.CompareTo(a)` are int.MinValue, so each sorts before the other | the sign of the exact difference: `b` (the larger offset) first | not executed | Ordering.CompareToAsWritten, Ordering.CompareWrapCounterexample | Ordering.CompareTo |
