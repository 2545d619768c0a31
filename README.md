# Vocab Power-Up lesson engine, modelled in Dafny

Vocab Power-Up is a single-page app. A learner picks a day from 1 to 30 and
works through that day's activities: antonym and synonym tests, multiple
choice, a roots overview, pronunciation practice, match-the-pairs and a
progress quiz. Each Check button grades one answer and appends one entry to
the gradebook, except for a pronunciation check with an empty transcript and
a synonym question without reference answers, which append nothing. At the end the summary shows `correct/total (pct%)`. It then
saves the score under the day, bumps a daily streak and remembers the day as
the last one completed. The device keeps these values in `localStorage`, and
they can be exported as CSV.

This project models that engine in `app.js`. The parts modelled are:

- how each of the six check handlers decides an answer;
- the gradebook and its summary arithmetic;
- lesson loading and Prev/Next navigation;
- the streak state machine and the calendar arithmetic under it (`fmtDate`, `parseDate`, `daysBetween`);
- the score store, the progress reset and the CSV export.

The mutable parts are classes. `LessonSession.Session` holds the page's
globals `currentDay`, `lesson`, `activityIndex` and `gradebook`.
`Progress.LocalStore` holds the four storage keys. Each method is proved
against a pure function of the old state: `Bump`, `WithScore`, `Complete`,
`CsvAsWritten` and `GradeAsWritten`. The lemmas are stated about those
functions and about the corrected `CsvText` and `Grade`.

Files, in dependency order:

- `wrappers.dfy`: `Option`.
- `text.dfy`: the string operations the app relies on. These are JavaScript's `trim`, ASCII `toLowerCase`/`toUpperCase`, `split`, `join`, `includes`, `String(n)`, `parseInt`, `padStart(2,'0')` and `toTitle`.
- `calendar.dfy`: dates, day numbers, `fmtDate`, `parseDate` and `daysBetween`.
- `gradebook.dfy`: outcomes, the correct count and the rounded percentage.
- `grading.dfy`: lesson data, the answer rules, the synonym scoring loop and what one Check click logs.
- `progress.dfy`: the stored values, `saveScore`, `bumpStreak`, the next day preselected at start-up, the CSV export and the `LocalStore` class.
- `session.dfy`: `loadLesson`, `showActivity`, the Start/Prev/Next buttons, `recordResult`, the Check clicks and `showSummary`.

The antonym check (app.js:188) compares the trimmed, lower-cased response
with the lower-cased `q.answer` itself; the prompt word plays no part. For a
question whose answer is `"cold"`, the responses `"cold"`, `" Cold "` and
`"COLD"` are right and `"chilly"` is wrong. `Grading.AntonymByCore` states
the rule.

## Model

| member | source | states |
|---|---|---|
| Text.TrimExact | app.js:188 | `trim` removes exactly the surrounding JavaScript white space: whitespace + core + whitespace trims to the core when the core has no padding |
| Text.Trim | app.js:188 | definition of `trim`; `Text.TrimExact`, `Text.TrimStartSpaces` and `Text.TrimEndSpaces` state what it removes |
| Text.Lower | app.js:188 | definition of `toLowerCase`; `Text.LowerForgetsCase` states its meaning |
| Text.TrimStartSpaces | app.js:188 | white space put in front of a string does not change what `trimStart` leaves |
| Text.TrimEndSpaces | app.js:188 | white space put after a string does not change what `trimEnd` leaves |
| Text.LowerForgetsCase | app.js:188 | lower-casing forgets case: `Lower(Upper(s)) == Lower(s)`, and `Lower` is idempotent |
| Text.IncludesIff | app.js:301 | `includes(p)` holds exactly when `p` occurs at some index |
| Text.Includes | app.js:301 | definition of `includes`; `Text.IncludesIff` states its meaning |
| Text.JoinSplit | app.js:211 | joining the pieces of `split(sep)` with `sep` gives the string back |
| Text.SplitJoin | app.js:529-531 | splitting a join of separator-free pieces gives the pieces back |
| Text.SplitWhole | app.js:211 | a string without the separator splits into itself alone |
| Text.SplitFirst | app.js:467 | a separator-free first piece followed by the separator is the first element of the split |
| Text.JoinAvoids | app.js:531 | a character in neither the pieces nor the separator is not in the join |
| Text.Split | app.js:211 | `split` gives at least one piece and no piece holds the separator; `Text.JoinSplit` states that the pieces make up the string |
| Text.Join | app.js:531 | definition of `join`; `Text.SplitJoin` and `Text.JoinAvoids` state its meaning |
| Text.NatToString | app.js:464 | `String(n)` of a natural number is non-empty digits, one digit exactly below 10, with no leading zero |
| Text.NatToStringValue | app.js:464 | the digits of `String(n)` denote `n` |
| Text.IntToString | app.js:455 | definition of `String(n)`; `Text.IntToStringRoundTrip` states that `parseInt` reads it back |
| Text.ParseInt | app.js:450 | definition of `parseInt(s, 10)`; `Text.DigitsRoundTrip` and `Text.IntToStringRoundTrip` state what it reads |
| Text.IntToStringRoundTrip | app.js:450-455 | `parseInt(String(n), 10) == n` for every integer, negative ones included |
| Text.DigitsRoundTrip | app.js:467 | `parseInt` of a non-empty digit string is its decimal value |
| Text.PaddedRoundTrip | app.js:464 | `padStart(2,'0')` of a number below 100 is two digits that read back as the number |
| Text.PadStart2 | app.js:464 | definition of `padStart(2,'0')`; `Text.PaddedRoundTrip` states its meaning |
| Text.ToTitleShape | app.js:401-403 | `toTitle` keeps the length and leaves no underscore; up to letter case it is the name with underscores turned into spaces |
| Text.ToTitleIdempotent | app.js:401-403 | applying `toTitle` twice is the same as once |
| Text.ToTitleCapitalizes | app.js:401-403 | for every name, each word start of `toTitle` is its character upper-cased (never a lower-case letter), and every other character is the name's with underscores turned into spaces |
| Text.ToTitle | app.js:401-403 | definition of `toTitle`; `Text.ToTitleCapitalizes`, `Text.ToTitleShape`, `Text.ToTitleIdempotent` and `Grading.TitleExample` state its meaning |
| Calendar.NextDay | app.js:470-475 | the calendar day after a valid date is a valid date; it is the reference for "consecutive dates" |
| Calendar.DayNumber | app.js:472-473 | definition of the midnight a date denotes, as a day count; `Calendar.NextDayNumber`, `Calendar.DayNumberInjective` and `Calendar.DayNumberIncreasing` state its meaning |
| Calendar.DaysBetween | app.js:470-475 | definition of `daysBetween`; `Calendar.DaysBetweenZeroIff` and `Calendar.DaysBetweenOneIff` state its meaning |
| Calendar.NextDayNumber | app.js:470-475 | the next day's day number is one more, across month and year ends and 29 February |
| Calendar.DayNumberInjective | app.js:470-475 | different valid dates have different day numbers |
| Calendar.DayNumberIncreasing | app.js:470-475 | a date earlier in (year, month, day) order has a smaller day number |
| Calendar.YearsOrdered | app.js:470-475 | each year adds at least 365 days |
| Calendar.DaysBetweenIgnoresTime | app.js:472-474 | `daysBetween` does not depend on the time of day of either argument |
| Calendar.DaysBetweenAntisymmetric | app.js:470-475 | `daysBetween(a,b) == -daysBetween(b,a)` |
| Calendar.DaysBetweenZeroIff | app.js:470-475 | for valid dates, `daysBetween` is 0 exactly on the same calendar date |
| Calendar.DaysBetweenOneIff | app.js:470-475 | for valid dates, `daysBetween` is 1 exactly when the second date is the day after the first |
| Calendar.FmtDateRoundTrip | app.js:463-469 | for years from 100 on, `parseDate(fmtDate(d))` is the midnight of `d` |
| Calendar.FmtDate | app.js:463-465 | definition of `fmtDate`; `Calendar.FmtDateRoundTrip`, `Calendar.FmtDateFields` and `Calendar.FmtDateLayout` state its meaning |
| Calendar.ParseDate | app.js:466-469 | definition of `parseDate`; `Calendar.ParseDateFields`, `Calendar.FmtDateRoundTrip` and `Calendar.FmtDateTwoDigitYear` state what it reads |
| Calendar.DateOf | app.js:468 | definition of `new Date(y, m - 1, d)` from three parsed fields; `Calendar.FmtDateTwoDigitYear` states its two-digit-year shift |
| Calendar.FmtDateTwoDigitYear | app.js:466-469 | for years 0 to 99 it reads back as year 1900 + y, as `new Date(y, m, d)` does |
| Calendar.FmtDateFields | app.js:463-465 | `fmtDate` splits on '-' into the year, the padded month and the padded day |
| Calendar.FmtDateLayout | app.js:463-465 | for four-digit years `fmtDate` is `YYYY-MM-DD`: ten characters, dashes at 4 and 7, digits elsewhere |
| Calendar.FieldsRoundTrip | app.js:464-467 | each of the three written fields parses back to its number |
| Calendar.ParseDateFields | app.js:466-469 | three '-' separated fields that parse to y, m and d give the date (y, m, d), with years 0 to 99 shifted by 1900 |
| Gradebook.TagInjective | app.js:191 | different kinds of check log different kind strings |
| Gradebook.CorrectEntries | app.js:413 | `filter(x => x.correct)` keeps exactly the correct entries and none other, as many as the log has correct positions, so it is no longer than the log |
| Gradebook.CorrectEntriesAppend | app.js:405-407 | appending an entry adds it to the correct ones exactly when it is correct |
| Gradebook.CorrectEntriesAll | app.js:413 | an all-correct log is kept whole; a log with nothing correct gives nothing |
| Gradebook.Percent | app.js:414 | `pct` is 0 on an empty log; otherwise it is the integer within half a unit of 100·correct/total, halves rounded up, and at most 100 |
| Gradebook.PercentUnique | app.js:414 | only one integer satisfies that rounding bound |
| Gradebook.PercentExamples | app.js:414 | 2 of 3 gives 67, 1 of 8 gives 13, 5 of 5 gives 100, 0 of 4 gives 0 |
| Gradebook.Summarize | app.js:412-414 | total is the log length, correct is the number of positions holding a right answer, correct ≤ total, 0 ≤ pct ≤ 100, pct 0 for an empty log, plus the rounding bound |
| Gradebook.SummaryAllCorrect | app.js:412-414 | a non-empty log with every answer right scores total/total and 100 % |
| Gradebook.SummaryNoneCorrect | app.js:412-414 | a log with no answer right scores 0/total and 0 %; the empty log gives 0/0 and 0 % |
| Grading.AntonymByCore | app.js:188 | spaces around the response and letter case on either side do not matter; otherwise the response must be the answer |
| Grading.AntonymCorrect | app.js:188 | definition of the antonym rule; `Grading.AntonymByCore` states its meaning |
| Grading.ChoiceRule | app.js:250-251 | no selection is wrong; a selection is right exactly when it equals the answer |
| Grading.ChoiceCorrect | app.js:249-254 | definition of the multiple-choice and quiz rule; `Grading.ChoiceRule` states its meaning |
| Grading.MatchRule | app.js:348 | right exactly when the selection is non-empty and equals `pair.right`; the empty placeholder is never right |
| Grading.MatchCorrect | app.js:348 | definition of the match rule; `Grading.MatchRule` states its meaning |
| Grading.HeardIff | app.js:301 | heard exactly when the lower-cased word occurs in the trimmed, lower-cased transcript |
| Grading.HeardExactWord | app.js:301 | the word itself, in upper or lower case and with spaces around it, is heard |
| Grading.HeardCorrect | app.js:301 | definition of the pronunciation rule; `Grading.HeardIff` and `Grading.HeardExactWord` state its meaning |
| Grading.NormalizeParts | app.js:211 | the parts are exactly the non-empty trimmed, lower-cased pieces of the response |
| Grading.ResponseSet | app.js:211-212 | `new Set(parts)`: its members are exactly the non-empty normalised pieces |
| Grading.MatchCount | app.js:213-216 | the score counts the reference answers found in the set, so it is at most the number of references |
| Grading.SynonymScore | app.js:213-216 | the `score++` loop computes `MatchCount` |
| Grading.MatchCountHits | app.js:214-217 | score ≥ 1 exactly when some reference hits; score ≥ 2 exactly when two different positions of the reference list hit |
| Grading.ResponseOfTwo | app.js:211-212 | the response "x,y" of two plain words gives the set {x, y} |
| Grading.ResponseOfOne | app.js:211-212 | the response "x," gives {x}, because the empty part is dropped |
| Grading.MatchCountThree | app.js:213-216 | with three references the score is the sum of their three hits |
| Grading.SynonymTwoOfThree | app.js:210-217 | naming two of three references, "b,c", is right |
| Grading.SynonymOneOfThree | app.js:210-217 | one reference plus a trailing comma, "a,", is wrong |
| Grading.SynonymRepeatedReference | app.js:213-217 | a reference listed twice, up to case, counts twice, so one typed word can be enough |
| Grading.SynonymCorrect | app.js:217 | definition of the synonym rule; `Grading.MatchCountHits`, `Grading.SynonymTwoOfThree` and `Grading.SynonymOneOfThree` state its meaning |
| Grading.Grade | app.js:187-391 | a check logs nothing exactly for an empty transcript, otherwise one outcome of the check's kind; references missing on a synonym question grade as wrong |
| Grading.SynonymGradeAsWritten | app.js:210-220 | the synonym handler as written agrees with `Grade` whenever the reference list is present |
| Grading.GradeAsWritten | app.js:187-391 | what a click logs as the handlers are written: nothing exactly for an empty transcript or a synonym question without references, and otherwise the outcome `Grade` gives |
| Grading.SynonymMissingAnswers | app.js:214-220 | without a reference list the handler as written logs nothing; the corrected grading logs a wrong answer |
| Grading.Rights | app.js:322 | one option per pair; every pair's right side is offered, and every option is some pair's right side |
| Grading.OffersKind | app.js:187-391 | every check an activity offers logs, when it logs, an outcome of that activity's kind |
| Grading.RootsMatchOffersNothing | app.js:262-275 | the roots overview offers no check and logs nothing |
| Grading.TitleExample | app.js:401-403 | `toTitle("antonym_test")` is "Antonym Test" |
| Grading.HeadingExample | app.js:166 | the first activity's heading is "1. Antonym Test" |
| Grading.Heading | app.js:166 | definition of the heading; `Grading.HeadingExample` and `Text.ToTitleShape` state its meaning |
| Progress.ReadScores | app.js:479-480 | definition of the stored scores as read; their meaning is stated by `Progress.CorruptReadsEmpty` and `Progress.WithScore` |
| Progress.WithScore | app.js:478-483 | `saveScore` sets `scores[day]` to the new record, adds only that key, and keeps every other day's record |
| Progress.LastWriteWins | app.js:481 | saving a day twice keeps only the second record |
| Progress.DifferentDaysCommute | app.js:481 | saves of different days can be made in either order |
| Progress.CorruptReadsEmpty | app.js:480-481 | a save over corrupt stored scores starts again from the empty object |
| Progress.Bump | app.js:438-461 | in every branch the last date becomes today and the scores and last day are kept; the count is kept, reset to 1 or incremented |
| Progress.DayDiff | app.js:448-449 | definition of `daysBetween(parseDate(last), today)`, NaN as None; `Progress.DayDiffOfWritten` states its meaning |
| Progress.DayDiffOfWritten | app.js:448-449 | for a date this code wrote (year from 100 on), the difference is exactly the number of calendar days from that date to today |
| Progress.BumpRestart | app.js:443-446 | with no stored last date, an empty one or an unreadable one, the count becomes 1 |
| Progress.BumpSameDay | app.js:451-452 | a second completion on the same calendar day changes nothing |
| Progress.BumpIdempotent | app.js:438-461 | bumping twice on the same day is the same as bumping once |
| Progress.BumpNextDay | app.js:453-455 | a completion on the day after the stored date adds one to the count, an absent count reading as 0 |
| Progress.BumpGap | app.js:456-458 | any other date, a missed day or a clock set back, resets the count to 1 |
| Progress.BumpEach | app.js:438-461 | after a run of completions the last date is the last day's |
| Progress.StreakOfConsecutiveDays | app.js:438-461 | k completions on k consecutive days, starting without a last date, give a streak of k |
| Progress.NextDayChoice | app.js:32-35 | the preselected day is the last completed day + 1, capped at 30; it is 1 when nothing was completed |
| Progress.NextDayAfterCompleting | app.js:32-35 | after completing day d ≥ 0 the preselected day is in 1..30: d + 1 below 30, else 30 |
| Progress.SortedDays | app.js:527 | the keys sorted numerically: strictly ascending, each stored day exactly once |
| Progress.DataRows | app.js:527-530 | definition of the data rows; `Progress.CsvLayout` states their place and order in the export and `Progress.DataRowReadBack` what each row reads back as |
| Progress.CsvLayout | app.js:519-531 | row 0 is the meta row, row 1 the header, then one row per stored day in ascending order |
| Progress.CsvRows | app.js:519-530 | definition of the rows of the export; `Progress.CsvLayout` and `Progress.RowsOneLine` state their meaning |
| Progress.CsvAsWritten | app.js:531 | definition of the export as written; `Progress.CsvAsWrittenOneLine` states that it is one line |
| Progress.CsvText | app.js:531 | definition of the corrected export; `Progress.CsvLines` states that it splits back into its rows |
| Progress.SavedRowExported | app.js:527-530 | every stored record appears in the export as its day's row |
| Progress.SaveThenExport | app.js:478-483 | after `saveScore` the export carries the new record's row |
| Progress.CsvAfterReset | app.js:115-117 | after the progress reset the export is the meta row `_meta,streak,0,last_completed_day,` and the header |
| Progress.RowsOneLine | app.js:525-530 | no row of the export contains a line break |
| Progress.DataRowReadBack | app.js:529 | a data row splits on ',' into its five fields, the first parsing back to the day |
| Progress.MetaRowReadBack | app.js:522-525 | the meta row splits into its five fields, the third parsing back to the stored count, 0 when absent |
| Progress.CsvAsWrittenOneLine | app.js:531 | the export as written contains no line break: all rows end up on one line |
| Progress.CsvLines | app.js:531 | the export with line breaks splits back into exactly its rows |
| Progress.CompleteEffects | app.js:420-422 | after a completion the export has the day's row and the day as last completed, the last date is today, other days' records are kept, and day + 1 (capped at 30) is preselected |
| Progress.Complete | app.js:420-422 | definition of a completion's effect on the store; `Progress.CompleteEffects` states its meaning |
| Progress.LocalStore.SaveScore | app.js:478-483 | the stored scores become `WithScore` of the old ones; nothing else changes |
| Progress.LocalStore.BumpStreak | app.js:438-461 | the new state is `Bump` of the old state at today's clock reading |
| Progress.LocalStore.SetLastCompletedDay | app.js:422 | only the last completed day changes |
| Progress.LocalStore.ResetProgress | app.js:115-117 | all four keys are removed: the state read back is the empty one, whatever it was before |
| Progress.LocalStore.ExportCsv | app.js:519-531 | the loop builds exactly `CsvAsWritten` of the stored state, the rows joined by backslash and n, and changes nothing |
| LessonSession.Placeholder | app.js:130-135 | definition of the fallback lesson; `LessonSession.PlaceholderGoesToSummary` states that it shows nothing and goes at once to a 0/0 summary |
| LessonSession.Loaded | app.js:126-136 | definition of the loaded lesson; `LessonSession.Session.LoadLesson` and `LessonSession.Session.Start` state what loading does to the page |
| LessonSession.ActivityAt | app.js:149-151 | definition of the activity shown; `LessonSession.PlaceholderGoesToSummary` and `LessonSession.Session.ShowActivity` state its use |
| LessonSession.NextIndex | app.js:90-94 | definition of Next's move; `LessonSession.NavigationStaysInRange`, `LessonSession.NextWalk` and `LessonSession.NextThenPrev` state what it does |
| LessonSession.PrevIndex | app.js:87 | definition of Prev's move; `LessonSession.NavigationStaysInRange` and `LessonSession.NextThenPrev` state what it does |
| LessonSession.NavigationStaysInRange | app.js:86-95 | Prev and Next keep the index inside the list; Next shows the summary only from the last activity or from an empty lesson |
| LessonSession.NextWalk | app.js:89-95 | k clicks on Next from idx reach idx + k while that is inside the list; from the last activity the next click shows the summary |
| LessonSession.NextThenPrev | app.js:86-95 | Next then Prev returns to the same activity |
| LessonSession.PlaceholderGoesToSummary | app.js:130-135 | the placeholder shows no activity, and Next at once summarises the empty gradebook as 0/0, 0 % |
| LessonSession.Session.constructor | app.js:63-66 | the page starts on day 1 with no lesson, index 0 and an empty gradebook |
| LessonSession.Session.LoadLesson | app.js:124-145 | the lesson becomes the fetched one or the placeholder; the gradebook is emptied and the index set to 0 |
| LessonSession.Session.ShowActivity | app.js:147-160 | the index becomes idx and the activity there, if any, is shown; nothing else changes |
| LessonSession.Session.Start | app.js:80-84 | the chosen day is loaded and its first activity shown |
| LessonSession.Session.Prev | app.js:86-88 | the index moves to `PrevIndex`, staying in range; nothing else changes |
| LessonSession.Session.RecordResult | app.js:405-407 | exactly one `{kind, correct}` entry is appended; nothing else changes |
| LessonSession.Session.Check | app.js:187-391 | the click logs `GradeAsWritten(c)`: the corrected outcome, or nothing for an empty transcript and for a synonym question without references; the synonym score comes from the loop |
| LessonSession.Session.ShowSummary | app.js:409-425 | returns `Summarize(gradebook)` and leaves the store at `Complete` of the old store for the lesson's day |
| LessonSession.Session.Next | app.js:89-95 | without a lesson, nothing; otherwise the next activity, or at the end the summary and `Complete` on the store; the index stays in range |

## Findings

| source | as written | input that shows it | evidently intended | confidence | as-written member | corrected member |
|---|---|---|---|---|---|---|
| app.js:214-220 | the scoring loop defaults a missing `answers` list to the empty list, but the wrong-answer hint calls `slice` on it unguarded, so the handler throws before `recordResult` | a synonym question without `answers`, with any response | the answer is logged as wrong, score 0 | not executed | Grading.SynonymMissingAnswers | Grading.Grade |
| app.js:531 | `rows.join('\\n')` joins the rows with a backslash and the letter n | any export: after a reset the text is `_meta,streak,0,last_completed_day,\nday,correct,total,pct,timestamp`, a single line | one CSV row per line | not executed | Progress.CsvAsWrittenOneLine | Progress.CsvLines |

`LessonSession.Session.Check` and `Progress.LocalStore.ExportCsv` do what the
handlers do as written: they compute `Grading.GradeAsWritten` and
`Progress.CsvAsWritten`. `Grading.Grade` and `Progress.CsvText` are the
corrected definitions; the lemmas about grading and about the rows of the
export are stated over them, and `Grading.GradeAsWritten` agrees with
`Grading.Grade` on every click that logs.

## Left out

- The DOM is not modelled: element creation, `innerHTML`, badges, scrolling, visibility of the lesson and results panels, the intro and instructions text, and the day selector's options.
- The loading-screen timer (app.js:10-25) is timer-driven UI.
- `fetch` is not modelled. `loadLesson` takes its outcome as a parameter: a parsed lesson or none, and none gives the placeholder. The JSON schema itself is not checked.
- Speech synthesis and speech recognition (app.js:486-516) are browser APIs. The recogniser is an oracle that hands a transcript, `""` on error, to `LessonSession.Session.Check`.
- The Blob and object-URL download (app.js:102-113) is I/O. `ExportCsv` returns the text.
- The `Math.random` shuffle of the dropdown options and the random radio-group names are not modelled. Grading does not depend on option order.
- `confirm` and `alert` around the progress reset are not modelled. `ResetProgress` is the confirmed branch. Its reset of the day selector to "1" (app.js:119) is UI.
- The Reset button (app.js:96-100) only hides the lesson and results panels.
- `new Date()` and `Date.now()` are parameters: the clock reading `today` with a valid date, and the timestamp `ts`.
- Daylight-saving shifts are not modelled. `daysBetween` is an exact count of calendar days; `Math.round` of the millisecond difference gives the same count under shifts of under 12 hours. Dates outside JavaScript's ±8.64·10^15 ms range, which give Invalid Date, are not modelled.
- Stored values are modelled as what this code writes. The streak count and the last completed day are held as the integers their strings read back to (`Text.IntToStringRoundTrip`). Values written by other code, such as a count that `parseInt` reads as NaN, are not modelled. Neither are stored JSON that parses to a non-object, nor non-integer day keys.
- Calendar.DayNumber: `daysBetween` (app.js:472-473) rebuilds each date with `new Date`, which shifts years 0 to 99 by 1900 again. The model counts such years as given. This differs only for text such as `0100-00-01`, whose month 0 rolls the year back below 100. `fmtDate` never writes such text: its months run from 1 to 12, and the clock gives current years.
- Gradebook.Percent: `Math.round(correct * 100 / total)` runs on a double, and the model rounds the exact rational. The two agree for any gradebook far smaller than 10^13 entries.
- Progress.ReadScores: JSON that parses to `null`, which would make `saveScore` throw, is treated like corrupt JSON.
- Grading.SynonymRepeatedReference: references are matched after lower-casing only, as in the code. Trimming of references is not done by the code and not modelled.
- Text.Lower: `toLowerCase` and `toUpperCase` are ASCII only. Other letters keep their case in the model. `trim` uses the full JavaScript white-space set of the Basic Multilingual Plane.
- Progress.NextDayChoice: `parseInt` is called there without a radix. This agrees with base 10 on the decimal strings this code stores.
- The initial `daySelect.value = lastCompletedDay || "1"` (app.js:75) is not modelled. `initializeApp` overwrites it with `NextDayChoice` (app.js:32-35).
- `initStreakUI` and `updateStreakUI` only display the stored count.
- The match handler logs `""` rather than `false` for an empty selection. Both count as not correct, and the model logs `false`.
- LessonSession.Session.Start: the day comes from the day selector as an integer.
