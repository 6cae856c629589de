# WhenYouWillDie — a Dafny model of the date-of-birth pipeline

The bot takes a text message, checks it against the pattern `DD.MM.YYYY`, parses it
strictly as a calendar date, adds 70 years and a fixed fraction of a year, subtracts the
current time and replies with the remaining span. `/start` first gets a prompt. This
project models that pipeline and proves what it does, including the case where it
crashes.

- `wrappers.dfy`, module `Wrappers`: `Option`, standing for .NET's `null`.
- `gregorian.dfy`, module `Gregorian`: the proleptic Gregorian calendar as `DateTime`
  counts it. It has the leap-year rule, month lengths and day numbering from 1 January of
  year 1, and `AddYears` with its 29 February clamp.
- `date_text.dfy`, module `DateText`: the regular expression of `IsValidDate` and the strict
  parse `TryParseExact(s, "dd.MM.yyyy", InvariantCulture, None)`. It also holds the
  rendering of a date in that format and the exact gap between the two checks.
- `lifespan.dfy`, module `Lifespan`: `CalculateRemainingTime` as a signed tick count. It
  takes the current time `now` as a parameter. It also has the `TimeSpan.Hours` and
  `TimeSpan.Minutes` components, using C#'s truncating `/` and `%`.
- `bot.dfy`, module `Bot`: the reply selection of `HandleUpdateAsync`. It maps an update
  to the replies sent, in order, and says whether the handler throws. It also has the
  handler as evidently intended.

Points where the code's behaviour is easy to misread:

- `AddDays(0.06 * 365.2425)` adds a fractional number of days, about 21.9, to the target
  date. The model takes that offset as a tick count `offset`.
- `TimeSpan.Hours` is in 0..23 for a non-negative span and in -23..0 for a negative one.
  `TimeSpan.Minutes` is in 0..59 and -59..0 in the same way.
- A text that passes `IsValidDate` but fails `TryParseExact` makes
  `CalculateRemainingTime` return `null`. `.Value` on that `null` throws, and no date
  reply is sent.
- In .NET, `$` also matches before a final line feed, and `\d` matches any Unicode
  decimal digit. `TryParseExact` rejects both, so each is one more way to reach the throw.

## Model

| member | source | states |
|---|---|---|
| `DateText.IsValidDate` | Program.cs:137-141 | an accepted text is 10 characters long, or 11 with a final line feed, with dots at positions 3 and 6 and ASCII digits for day, month and century |
| `DateText.AcceptedShape` | Program.cs:137-141 | `IsValidDate` accepts exactly these texts: 10 characters (or 11 with a final line feed), dots at 3 and 6, day 01..31, month 01..12, century 19 or 20, then two decimal digits |
| `DateText.DayOf` | Program.cs:139 | an accepted text names a day 1..31 |
| `DateText.MonthOf` | Program.cs:139 | an accepted text names a month 1..12 |
| `DateText.YearOf` | Program.cs:139 | an accepted text whose year is in ASCII digits names a year 1900..2099 |
| `DateText.AsciiDigitIsDecimal` | Program.cs:139 | every ASCII digit matches `\d` |
| `DateText.RenderAccepted` | Program.cs:139 | every real date of 1900..2099, written `dd.MM.yyyy`, passes the lexical check |
| `DateText.ThirtyFirstFebruaryAccepted` | Program.cs:139 | `31.02.2020` passes the lexical check and fails the strict parse |
| `DateText.ThirtyFirstAprilAccepted` | Program.cs:139 | `31.04.2021` passes the lexical check and fails the strict parse |
| `DateText.TrailingLineFeed` | Program.cs:139 | `10.11.2010` plus a line feed passes the lexical check and fails the strict parse |
| `DateText.NonAsciiYearDigits` | Program.cs:139 | Arabic-Indic year digits pass `\d` and fail the strict parse |
| `DateText.IsoOrderRejected` | Program.cs:139 | `2010-11-10` fails the lexical check |
| `DateText.ParseExact` | Program.cs:99-106 | the strict parse returns only dates the calendar holds; otherwise it returns `None` (the `null` return), never a throw |
| `DateText.ParseRender` | Program.cs:99-102 | the parse reads back the `dd.MM.yyyy` rendering of a date, and succeeds exactly when the calendar holds that date |
| `DateText.RenderParse` | Program.cs:99-102 | the parse succeeds only on the canonical rendering of the date it returns (exact widths, no white space) |
| `DateText.LeapDayParse` | Program.cs:99-102 | `29.02.2024` parses to 29 February 2024 |
| `DateText.NonLeapDayRejected` | Program.cs:99-106 | `29.02.2023` and `29.02.1900` fail the strict parse (1900 is a century not divisible by 400) |
| `DateText.AcceptedButUnparsable` | Program.cs:99-106 | for an accepted text, the parse fails exactly on a final line feed, a non-ASCII year digit, or a day past the month's length; otherwise it returns the spelled date |
| `DateText.AcceptedAndParsedYear` | Program.cs:53-57 | a text that passes both checks has a year 1900..2099 |
| `Gregorian.DayNumber` | Program.cs:108-112 | the number of a date counted from 1 January of year 1 lies within its year: at least the days before the year, less than those plus the year's length |
| `Gregorian.DaysInMonth` | Program.cs:99-102 | month lengths are 28..31 |
| `Gregorian.MonthTable` | Program.cs:108-109 | the cumulative month tables agree with the month lengths and sum to the year length |
| `Gregorian.IsLeapYear` | Program.cs:99-102 | a year is a leap year when divisible by 400, never when not divisible by 4, and never for a century not divisible by 400 |
| `Gregorian.YearStep` | Program.cs:108-109 | the closed-form day count before a year grows by exactly that year's length (365 or 366) |
| `Gregorian.YearsMonotone` | Program.cs:108-109 | the day count grows by at least 365 days per year |
| `Gregorian.DayNumberInYear` | Program.cs:108-109 | a date's day number lies within its year |
| `Gregorian.DayNumberRange` | Program.cs:108-112 | every valid date has a day number between 0 and that of 31 December 9999 |
| `Gregorian.DayNumberOrder` | Program.cs:112 | day numbers follow calendar order in both directions, and are injective |
| `Gregorian.AddYears` | Program.cs:108-109 | `AddYears` succeeds exactly when the new year is in 1..9999, and yields a valid date |
| `Gregorian.AddYearsClamps` | Program.cs:108-109 | `AddYears` keeps the month and clamps the day to that month's length in the new year |
| `Gregorian.LeapDayClampedAfterSeventy` | Program.cs:108-109 | 70 years after a leap year is never a leap year, so 29 February always becomes 28 February |
| `Gregorian.AddYearsMonotone` | Program.cs:108-109 | `AddYears` keeps calendar order; two dates collide only for 28/29 February landing in a common year |
| `Lifespan.DateToTicks` | Program.cs:108-112 | midnight of a valid date is a tick count whose whole day fits in `DateTime` |
| `Lifespan.DateToTicksOrder` | Program.cs:112 | midnights follow calendar order and are at least a day apart |
| `Lifespan.TargetDate` | Program.cs:108-109 | `AddYears(70)` succeeds exactly when the year plus 70 is in 1..9999; the target of a valid date is valid, 70 years later, in the same month, on the same or an earlier day |
| `Lifespan.RemainingFromBirth` | Program.cs:108-114 | for a parsed date the result is never `null`, and a span fits in `TimeSpan` |
| `Lifespan.CalculateRemainingTime` | Program.cs:97-115 | the result is `null` exactly when the strict parse fails |
| `Lifespan.DeathTicks` | Program.cs:108-110 | the death instant of a birth in 1900..2099 is a valid `DateTime` |
| `Lifespan.TargetBeforeYear2170` | Program.cs:108-110 | target dates up to year 2169 lie far below the largest `DateTime` |
| `Lifespan.RemainingIsSignedDistance` | Program.cs:108-114 | the target is year+70 with the same month and a clamped day; the span is death minus `now`, positive exactly when death is later and negative exactly when it is earlier |
| `Lifespan.LaterBirthNoLessTime` | Program.cs:108-112 | a later birth date never leaves less time; equal time only for 28 and 29 February of one year |
| `Lifespan.LeapDayTarget` | Program.cs:108-109 | 29.02.2024 aims at 28.02.2094 |
| `Lifespan.PastTargetIsNegative` | Program.cs:112 | a birth in 1900 with now in 2026 gives a negative span, not zero |
| `Lifespan.TruncDiv` | Program.cs:125-126 | C# `/` truncates toward zero: the product never passes the dividend and stays within one divisor of it |
| `Lifespan.TruncRem` | Program.cs:125-126 | C# `%` gives a remainder with the dividend's sign, under the divisor in size, that completes the division |
| `Lifespan.Hours` | Program.cs:125 | `Hours` is in -23..23, non-negative for a non-negative span and non-positive for a non-positive one |
| `Lifespan.Minutes` | Program.cs:126 | `Minutes` is in -59..59, non-negative for a non-negative span and non-positive for a non-positive one |
| `Lifespan.NestedDivNonNegative` | Program.cs:125-126 | whole minutes divided by 60 give whole hours, and whole hours divided by 24 give whole days |
| `Lifespan.NestedTruncDiv` | Program.cs:125-126 | the same holds for truncating division of signed spans |
| `Lifespan.SpanComponents` | Program.cs:125-126 | whole days, `Hours`, `Minutes` and a sub-minute rest add up to the span |
| `Lifespan.ComponentsOfNegatedSpan` | Program.cs:125-126 | negating the span negates `Hours` and `Minutes` |
| `Bot.HasText` | Program.cs:37-41 | an update passes both early returns exactly when it is a message carrying some text |
| `Bot.Prompt` | Program.cs:45-51 | the prompt is sent once for `/start` and not at all for any other text |
| `Bot.HandleText` | Program.cs:43-66 | once the text is at hand, the handler throws only when the text passes the lexical check |
| `Bot.HandleUpdate` | Program.cs:35-66 | the handler throws only on an update with text that passes the lexical check |
| `Bot.SilentExactlyWithoutText` | Program.cs:37-41 | no reply exactly when the update has no message or the message has no text |
| `Bot.TextReplies` | Program.cs:45-66 | for a text: the prompt for `/start`, then one date reply (remaining time exactly when the lexical check passes); or a throw after the prompt when the check passes and no span results |
| `Bot.StartGetsPromptThenInvalidFormat` | Program.cs:45-66 | `/start` gets the prompt, then the invalid-format reply |
| `Bot.AcceptedUnparsableFaults` | Program.cs:53-57 | a text that passes the lexical check but not the strict parse makes the handler throw on `null`, with no reply |
| `Bot.AcceptedParsedReplies` | Program.cs:53-58 | a text that passes both checks yields a span, and gets exactly one remaining-time reply carrying that span and its hours and minutes |
| `Lifespan.RemainingOfParsedText` | Program.cs:97-114 | for a text parsed to a birth date of 1900..2099, the result is the span from `now` to the death instant |
| `Bot.AcceptedIsNotStart` | Program.cs:45-53 | a text that passes the lexical check is not `/start`, so it gets no prompt |
| `Bot.HandleTextOfSpan` | Program.cs:53-58 | when the lexical check passes and a span results, the only reply is the remaining time with that span's hours and minutes |
| `Bot.ImpossibleDateFaults` | Program.cs:53-57 | `31.02.2020`, and `10.11.2010` plus a line feed, make the handler throw |
| `Bot.HandleUpdateChecked` | Program.cs:53-66 | the intended handler never throws |
| `Bot.CheckedRepliesOnce` | Program.cs:53-66 | the intended handler sends exactly one date reply per text (remaining time exactly when both checks pass), and agrees with the written handler wherever that one replies |

## Left out

- Telegram client calls, `StartReceiving`, `GetMe`, the cancellation token and the async plumbing (Program.cs:26-33, 47-50, 55-58, 62-65, 71-95) are network I/O over a library whose code is not part of this model. A reply is modelled as the `Reply` sent, and a thrown exception as `Faulted`. What the polling loop does with that exception is not modelled.
- Loading `.env`, looking up the token, and all console input and output (Program.cs:9-24, 68, 80, 93, 104) are environment and console I/O.
- `DateTime.Now` (Program.cs:112) becomes the parameter `now`. The `Kind` of a `DateTime` is not modelled, because subtraction ignores it.
- `AddDays(0.06 * 365.2425)` (Program.cs:110) becomes the parameter `offset`, in ticks. The double product and its conversion to ticks are floating point and are not modelled. The range check `AddDays` makes is modelled as `OutOfRange`.
- The `years`, `months` and `days` fields of `FormatTimeSpan` (Program.cs:119-124) use `double` division and `%` on `TotalDays`, which is floating point. Only `Hours` and `Minutes` are modelled.
- The Russian reply texts (Program.cs:49, 57, 64, 128-134) are presentation. The replies are modelled by kind, and the remaining-time reply carries its numbers.
- Strings are sequences of Unicode scalar values, while .NET uses UTF-16 code units. The two agree on every accepted text, because each accepted position is a character of the Basic Multilingual Plane. A character outside that plane is rejected in both.
- `\d` is modelled as Unicode category Nd in the Basic Multilingual Plane, as of Unicode 15. A .NET runtime with other Unicode data may differ on a few code points.
- `TryParseExact` is modelled only for the format `dd.MM.yyyy`, the invariant culture and `DateTimeStyles.None`.
- `Lifespan.RemainingIsSignedDistance`: proved only for birth years 1900..2099 and offsets from 0 to 366 days. These are the years the lexical check admits and the range the real offset (about 21.9 days) lies in.
- `Lifespan.LaterBirthNoLessTime`: proved only for birth years 1900..2099 and offsets from 0 to 366 days, for the same reason.
- `Lifespan.RemainingOfParsedText`: proved only for birth years 1900..2099 and offsets from 0 to 366 days, for the same reason.
- `Bot.AcceptedParsedReplies`: proved only for offsets from 0 to 366 days, for the same reason.
- `Bot.CheckedRepliesOnce`: proved only for offsets from 0 to 366 days, for the same reason.

## Findings

| source | as written | input that shows it | evidently intended | confidence | as-written member | corrected member |
|---|---|---|---|---|---|---|
| Program.cs:53-57 | the date branch trusts `IsValidDate` and calls `.Value` on `CalculateRemainingTime`'s result. That result is `null` whenever the strict parse fails, so the handler throws and sends no date reply | `31.02.2020`; also `10.11.2010` followed by a line feed, and `10.11.20١٠` | a text the strict parse rejects gets the invalid-format reply | high (not executed) | `Bot.ImpossibleDateFaults` | `Bot.CheckedRepliesOnce` |
