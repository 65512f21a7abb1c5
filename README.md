# help-session-to-ics, modelled in Dafny

help-session-to-ics turns a teaching roster into an iCalendar file for one
tutor. The roster is a list of courses. Each course has consultations:
weekly help sessions with a list of instructor zIDs, a week specification
such as `1,3-5`, a weekday name, start and end times, a mode and an optional
location. For each consultation that lists the tutor's zID, the program
expands the week specification into week numbers. It projects each week
onto a date of the term that starts on Monday 2024-09-09, and adds one
calendar event per week.

This project models that core of `src/main.rs` and proves what it does:

- `text.dfy` (module `Text`): the pieces of Rust's string library that the
  core relies on, on `seq<char>`. These are splitting on a character,
  `trim` with Rust's Unicode whitespace set, removing every `:`,
  `u32::from_str` (optional `+`, digits only, 32-bit overflow refused) and
  the decimal text of a number.
- `weeks.dfy` (module `Weeks`): `parse_weeks`. The method `ParseWeeks` keeps
  the source's loop over comma-separated tokens and its inner range loop
  (`PushRange`). It is proved equal to a token-by-token reading
  (`ReadToken`, `WeeksOf`, `DiagnosticsOf`). The lines the program writes
  to standard error are returned as an ordered list of diagnostics.
- `dates.dfy` (module `Dates`): the chrono arithmetic the core uses. A date
  is a day number counted from 1970-01-01 in the proleptic Gregorian
  calendar. The module gives the conversion to and from year, month and day,
  `%Y%m%d` formatting, chrono's representable range, the weekday lookup and
  the projection of a week and a weekday onto a date.
- `calendar.dfy` (module `Calendar`): the `Consultation` and `Course`
  records, the event record, and `generate_calendar`.
  - The three nested loops of the source are the methods `GenerateCalendar`,
    `ExpandCourse` and `ExpandWeeks`.
  - Each is proved to perform a trace of actions: write a diagnostic, add an
    event, or panic. The trace is given by `CoursesActions`, and its effect
    by `Perform`.
  - The lemmas about that trace state the program's observable behaviour.
- `scenarios.dfy` (module `Scenarios`): consequences for one-course rosters
  and for particular sessions.
- `wrappers.dfy` (module `Wrappers`): `Option`.

Behaviours of the code that a reader might not expect, all modelled as
written:

- A range token uses only its first two `-`-separated segments: `1-2-3` is
  weeks 1 and 2.
- A descending range such as `5-3` yields no week and no diagnostic.
- Week 0 does not mean the week before the term. `week - 1` on a `u32`
  underflows at src/main.rs:151, so the program panics. A debug build fails
  on the subtraction itself. A release build wraps to `u32::MAX` weeks, and
  adding that to the date panics as out of range (`WrappedWeekZero`). The
  week start is computed before the weekday is examined, so week 0 panics
  even for an unknown weekday.
- A week listed twice gives two identical events with the same UID
  (`RepeatedWeek`). UIDs are therefore not unique in general.
- The "found" flag is set as soon as a consultation lists the zID, before
  its weeks and weekday are examined. It can be true while no event is
  produced (`FoundWithoutEvents`).

## Model

| member | source | states |
|---|---|---|
| Weeks.ParseWeeks | src/main.rs:40-73 | the weeks and diagnostics are those of reading the comma-separated tokens one after another, each by `ReadToken` |
| Weeks.PushRange | src/main.rs:52-54 | the list is extended by every week from `first` up to `last`, ascending, and by nothing when `first > last` |
| Weeks.WeeksOfAppend | src/main.rs:43-70 | tokens are independent: joining two specifications with a comma concatenates their tokens, their weeks and their diagnostics |
| Weeks.WeeksOfOneToken | src/main.rs:43-44 | a specification without a comma is one token, read after trimming |
| Weeks.TokenOutcome | src/main.rs:56-59 | a malformed token gives no week and exactly one diagnostic; a well-formed one gives no diagnostic; a single number gives exactly that week |
| Weeks.AllMalformed | src/main.rs:56-67 | a specification whose tokens are all malformed yields no week and one diagnostic per token |
| Weeks.NoneMalformed | src/main.rs:43-70 | without a malformed token there is no diagnostic |
| Weeks.RangeReadsFirstTwoSides | src/main.rs:45-59 | a token with a `-` is the range of its first two trimmed segments when both parse as u32, and an invalid range otherwise; later segments are ignored |
| Weeks.RangeIgnoresTail | src/main.rs:45-54 | `a-b` followed by any further `-` segments yields exactly the weeks from `a` to `b` and no diagnostic |
| Weeks.ReadNumber | src/main.rs:62-63 | the decimal text of a u32 is read back as that single week |
| Weeks.ParseRendered | src/main.rs:43-70 | any non-empty list of weeks written in decimal and joined by commas is parsed back to the same list, with no diagnostic |
| Weeks.NumberThenRange | src/main.rs:43-54 | a number, a comma and a range yield that week followed by the range, with no diagnostic |
| Weeks.ListAndRange | src/main.rs:43-63 | `1,3-4` yields weeks 1, 3 and 4 |
| Weeks.DescendingRangeIsSilent | src/main.rs:51-54 | a descending range such as `5-3` yields no week and is not reported |
| Weeks.ThirdSegmentIgnored | src/main.rs:46-48 | `1-2-3` yields weeks 1 and 2 |
| Weeks.EmptyFirstSideIsInvalidRange | src/main.rs:56-58 | `-3` yields no week and the diagnostic `Invalid week range: -3` |
| Weeks.EmptySecondSideIsInvalidRange | src/main.rs:56-58 | `3-` yields no week and the diagnostic `Invalid week range: 3-` |
| Weeks.BadNumberToken | src/main.rs:62-67 | a trimmed token without `-` that does not parse yields no week and the diagnostic `Invalid week number: <token>` |
| Weeks.WordIsInvalidNumber | src/main.rs:62-67 | a single word starting with neither a digit nor `+`, such as `abc`, yields no week and one `Invalid week number` diagnostic naming it |
| Text.SplitJoin | src/main.rs:43 | splitting on `,` the pieces glued back with `,` gives the pieces back |
| Text.JoinSplit | src/main.rs:43 | gluing the pieces of a split back together gives the original text |
| Text.SplitAppend | src/main.rs:43 | splitting `a,b` splits `a` and `b` independently, empty pieces included |
| Text.TrimPadded | src/main.rs:44 | trimming removes exactly the Unicode whitespace around a core that neither starts nor ends with whitespace |
| Text.ParseU32OfPadded | src/main.rs:47-48 | the u32 parser reads back the decimal text of every u32, with or without leading zeros |
| Text.ParseU32RejectsNonDigit | src/main.rs:47-48 | a text with a non-digit other than one leading `+` is refused |
| Text.RemoveAllAppend | src/main.rs:172 | removing `:` works piece by piece |
| Text.NatToStringInjective | src/main.rs:182 | different week numbers have different decimal texts |
| Dates.CivilRoundTrip | src/main.rs:140-141 | a valid year, month and day survives the conversion to a day number and back |
| Dates.FormatYmdInjective | src/main.rs:171 | `%Y%m%d` loses nothing: different dates are written differently |
| Dates.TermStartFacts | src/main.rs:139-141 | the term start 2024-09-09 is a Monday, within chrono's range |
| Dates.TermStartText | src/main.rs:140-141 | the term start is written `20240909` |
| Dates.DayOffsetNames | src/main.rs:153-165 | exactly the names `Mon` to `Sun` are recognised, case-sensitively, the k-th with offset k |
| Dates.WrappedWeekZero | src/main.rs:151 | week 0 wrapped to `u32::MAX` weeks leaves chrono's range from any representable start, so week 0 panics in a release build too |
| Dates.ProjectDateValue | src/main.rs:151-167 | a projected date exists only for week 1 or later and a known weekday, and it is the start plus 7 × (week − 1) plus the weekday's offset, on that weekday when the term starts on a Monday |
| Dates.ProjectMonday | src/main.rs:151-154 | the Monday of a week is `week - 1` weeks after the term start |
| Dates.ProjectFirstMonday | src/main.rs:151-154 | week 1 on `Mon` is the term start itself |
| Dates.ProjectNextWeek | src/main.rs:151-167 | the same weekday in consecutive weeks is exactly 7 days apart |
| Calendar.GenerateCalendar | src/main.rs:135-206 | the events and diagnostics are those of performing every course's actions in order, or a panic; the flag says whether some consultation lists the zID |
| Calendar.ExpandCourse | src/main.rs:144-201 | one course's consultations extend the calendar and diagnostics in consultation order; without a panic, it reports whether one of them lists the zID |
| Calendar.ExpandWeeks | src/main.rs:150-199 | one consultation's weeks extend the calendar and diagnostics in week order, or stop at the first panic |
| Calendar.PerformAppend | src/main.rs:143-203 | processing two parts one after the other concatenates their events and diagnostics, unless the first part panicked |
| Calendar.PerformConsult | src/main.rs:145-150 | a kept consultation first reports its week diagnostics, then processes its weeks |
| Calendar.WeekOutcome | src/main.rs:151-199 | one week gives an event on its projected date, an `Invalid day` line for an unknown weekday, or a panic when the week has no start |
| Calendar.WeeksAllDated | src/main.rs:150-199 | when every week can be dated, there is one event per week, in order, on its projected date, and no diagnostic |
| Calendar.WeeksInvalidDay | src/main.rs:161-164 | with an unknown weekday, every week is skipped with one `Invalid day: <day>` line and no event is added |
| Calendar.WeeksPanic | src/main.rs:151 | one week without a start makes the whole week list panic |
| Calendar.ConsultationEvents | src/main.rs:145-199 | a kept consultation whose weeks can all be dated gives its week diagnostics and exactly one event per parsed week, in order and duplicates included, each on its projected date |
| Calendar.InvalidDayEvents | src/main.rs:148-165 | a kept consultation with an unknown weekday gives no event and, after its week diagnostics, one `Invalid day` line per parsed week |
| Calendar.UndatableWeekPanics | src/main.rs:151 | a kept consultation listing week 0, or a week beyond chrono's range, makes the whole run panic, whatever its weekday and whatever follows |
| Calendar.WeekZeroHasNoStart | src/main.rs:151 | week 0 never has a start date |
| Calendar.UnmatchedDoesNothing | src/main.rs:137-205 | when no consultation lists the zID, there is no event, no diagnostic and no panic |
| Calendar.CoursesConcat | src/main.rs:143 | courses are processed in roster order |
| Calendar.RosterOrder | src/main.rs:143-150 | the events of a roster are those of its first part followed by those of the rest, unless the first part panics |
| Calendar.StampInjective | src/main.rs:169-178 | stamps with the same time of day on different dates differ |
| Calendar.DistinctDatesDistinctStarts | src/main.rs:169-173 | events of one consultation on different dates have different start stamps |
| Calendar.UidDistinguishesWeeks | src/main.rs:180-183 | the UID ends with the week number, so different weeks of one consultation get different UIDs |
| Scenarios.OneCourse | src/main.rs:143-146 | a one-course roster whose only consultation lists the zID processes exactly that consultation and counts as found |
| Scenarios.ClockStamp | src/main.rs:169-178 | an `hh:mm` time is written `<date>Thhmm00` |
| Scenarios.FoundWithoutEvents | src/main.rs:145-148 | a kept consultation whose week list yields no week gives no event, yet the zID is found and the week diagnostics are reported |
| Scenarios.MisspelledWeeks | src/main.rs:62-67 | a kept consultation whose week list is a word such as `abc` is found, gives no event and one `Invalid week number` line |
| Scenarios.RepeatedWeek | src/main.rs:180-183 | a week listed twice gives two identical events, UID included |

## Left out

- `read_tutors` and `read_allocations` (src/main.rs:76-79, 129-132) are left out: they read files and deserialise JSON with serde. The roster is a parameter here.
- `get_verified_zid` (src/main.rs:82-126) is left out: it is an interactive prompt loop on standard input. The zID is a parameter.
- `main` (src/main.rs:208-237) is left out: it locates the Downloads directory, writes the file, prints and exits.
- The `ics` crate's serialisation of the calendar is left out. The calendar is a sequence of event records holding the properties the program sets (UID, DTSTAMP, DTSTART, DTEND, SUMMARY, DESCRIPTION, LOCATION). The fixed `VERSION`/`PRODID` header is not modelled.
- Colouring of messages with `colored` is left out. Diagnostics are the plain message texts, in order.
- The `Course`/`Allocation`/`Class` nesting of the input is flattened to a course with its list of consultations, because those wrappers carry no logic.
- The term start is a parameter of `GenerateCalendar`. The program fixes it at 2024-09-09, which is `Dates.TermStart`. Parsing that literal with chrono (src/main.rs:140-141) is not modelled.
- A panic is modelled as the end of the run with no calendar (`Panicked`). The diagnostics written before it are kept. Whether the panic comes from a debug-build underflow or a release-build date overflow is not distinguished.
- The chrono version is not visible in the source. The representable range assumed is that of chrono 0.4.35 and later, years -262143 to 262142.
- src/data/convert_to_json.js is not part of this model: it only converts data files.
- UID uniqueness is not claimed. Repeated weeks, and `-` inside course ids, day names or zIDs, make UIDs collide. Only `UidDistinguishesWeeks` and `RepeatedWeek` are proved.
- Concrete `%Y%m%d` texts are proved for the term start only. Other dates are characterised by `FormatYmdInjective` and `ProjectDateValue`, not by their literal text.
