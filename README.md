# Agenda recurrence model

This project models the recurrence logic of a small agenda library in Dafny.
An `Event` has a title, a start date-time, a duration and an optional
repetition. The repetition has a frequency of days, weeks or months, a set of
exception dates and an optional `Termination`. The question the library
answers is `isInDay`: does some occurrence of the event overlap a given day?

The project has three modules:

- `Calendar` (calendar.dfy) covers the java.time arithmetic the library relies on:
  - dates of the proleptic Gregorian calendar and their epoch days;
  - `plus(k, unit)` for DAYS, WEEKS and MONTHS, where MONTHS clamps to the end of a shorter month;
  - `ChronoUnit.between` on dates, with Java's division that truncates toward zero;
  - date-times as a date plus a second of the day, and durations as whole seconds.
- `Terminations` (termination.dfy) is the immutable `Termination` value.
  - It has two constructor functions, one from an end date and one from a count.
  - Lemmas cover the round trips between the two forms: where they hold, and where month-end clamping breaks them.
- `Events` (event.dfy) holds the `Repetition` record and the `Event` class.
  - The class's setters reassign its `repetition` field.
  - `IsInDay` is a method with the source's loop over two offsets. It is proved equal to the predicate `InDay`.
  - `IsInDayCorrected` is the same method with the loop widened by one offset. It is proved equal to `InDayCorrected`.
  - Lemmas about `InDay` state soundness, completeness for daily and weekly series, and the month-end case it misses.

The source's own comments promise more than its code delivers, and the model follows the code:

- The comments at src/main/java/agenda/Termination.java:39 and 58-59 treat the two constructors as inverses: one occurrence ends on the start, two weekly occurrences end a week later, and so on. For monthly series the count-to-date-to-count round trip can fail. This happens when the month the count reaches is shorter than the start's day of month: from 2024-01-31, two occurrences end on 2024-02-29, which counts back to one (`Terminations.CountRoundTripLosesClampedMonth`). It holds whenever that month is long enough (`Terminations.CountRoundTrip`). From 2024-01-31 with three occurrences the end is 2024-03-31, which counts back to three.
- The javadoc of `isInDay` at src/main/java/agenda/Event.java:77-82 promises true whenever the event occurs on the day. The two-offset window misses an occurrence clamped to the end of a shorter month (see Findings).

## Model

| member | source | states |
|---|---|---|
| Calendar.PlusDays | src/main/java/agenda/Event.java:114 | plusDays gives the date whose epoch day is exactly k later (or earlier) |
| Calendar.PlusMonths | src/main/java/agenda/Termination.java:60 | plusMonths moves the proleptic month by exactly k and clamps the day of month to the target month's length |
| Calendar.EpochDayOrder | src/main/java/agenda/Event.java:94 | isBefore on dates is exactly the order of epoch days, and distinct dates have distinct epoch days |
| Calendar.InstantOrder | src/main/java/agenda/Event.java:115 | isBefore on date-times is exactly the order of their instants in seconds |
| Calendar.PlusSeconds | src/main/java/agenda/Event.java:102 | adding a duration moves the instant by exactly that many seconds, carrying days into the date |
| Calendar.Plus | src/main/java/agenda/Termination.java:60 | LocalDate.plus(k, unit): in days and weeks the epoch day moves by exactly k or 7k; in months the proleptic month moves by k and the day is clamped to the target month's length; `PlusDirection` and `PlusMonotone` state its order properties |
| Calendar.PlusUnits | src/main/java/agenda/Event.java:101 | LocalDateTime.plus(k, unit): the date advances as `Plus` does and the time of day is unchanged |
| Calendar.Between | src/main/java/agenda/Termination.java:40 | ChronoUnit.between on dates, also used at Event.java:96: the epoch-day difference for DAYS; for WEEKS and MONTHS, java's day or packed month-and-day difference divided by 7 or 32 and rounded toward zero; its meaning is stated by `BetweenTruncates` and `BetweenSign`, and the round-trip lemmas relate it to `Plus` |
| Calendar.BetweenTruncates | src/main/java/agenda/Termination.java:40 | in days, between is the offset plusDays needs to reach the end; in weeks and months it is the number of whole units in the span, rounded toward zero for spans in either direction |
| Calendar.PlusDirection | src/main/java/agenda/Termination.java:60 | advancing by k units gives the same date for k = 0, a later date for k > 0 and an earlier one for k < 0 |
| Calendar.PlusMonotone | src/main/java/agenda/Termination.java:60 | advancing by more units never gives an earlier date, and gives a strictly later one when the unit count grows |
| Calendar.BetweenSign | src/main/java/agenda/Termination.java:40 | between is not negative towards a later or equal date and not positive towards an earlier one; in days it is negative exactly when the end is earlier; it is 0 from a date to itself |
| Calendar.MonthEndIsClamped | src/main/java/agenda/Termination.java:60 | 2024-01-31 plus one month is 2024-02-29, and 2023-01-31 plus one month is 2023-02-28 |
| Terminations.TerminationOn | src/main/java/agenda/Termination.java:35-41 | keeps start, frequency and end date; the end date equal to the start counts 1; an end not before the start counts at least 1; in days the count is at least 1 exactly when the end is not before the start |
| Terminations.TerminationAfter | src/main/java/agenda/Termination.java:54-61 | keeps start, frequency and count; a count of 1 ends on the start; the end date is not before the start exactly when the count is at least 1 |
| Terminations.CountRoundTrip | src/main/java/agenda/Termination.java:40-60 | count to date to count gives back any count, for days, for weeks, and for months whenever the month the count reaches is at least as long as the start's day of month; with `CountRoundTripLosesClampedMonth` this is the exact condition for counts of two or more |
| Terminations.CountRoundTripLosesClampedMonth | src/main/java/agenda/Termination.java:40-60 | for months, when the last month is shorter than the start's day of month, the round trip gives one occurrence fewer |
| Terminations.CountRoundTripFailsFromJanuary31 | src/main/java/agenda/Termination.java:40-60 | monthly from 2024-01-31, two occurrences end on 2024-02-29, and ending on 2024-02-29 counts one occurrence |
| Terminations.CountRoundTripHoldsFromJanuary31ToMarch | src/main/java/agenda/Termination.java:40-60 | monthly from 2024-01-31, three occurrences end on 2024-03-31, and ending on 2024-03-31 counts three occurrences |
| Terminations.DateRoundTripDays | src/main/java/agenda/Termination.java:40-60 | date to count to date gives back the date for daily series |
| Terminations.DateRoundTripWeeks | src/main/java/agenda/Termination.java:40-60 | for weekly series and an end not before the start, the date comes back as the latest date not after it that lies a whole number of weeks after the start |
| Terminations.DateRoundTripMonths | src/main/java/agenda/Termination.java:40-60 | for monthly series with start day at most 28, the date comes back as the last monthly date not after the given one: same day of month, and the next monthly date is later than the given one |
| Terminations.TerminationDateMonotone | src/main/java/agenda/Termination.java:60 | a larger count never gives an earlier termination date |
| Events.CheckOverlap | src/main/java/agenda/Event.java:112-116 | the occurrence overlaps the day exactly when it starts before the next midnight and ends after this day's midnight |
| Events.CheckOverlapIsHalfOpen | src/main/java/agenda/Event.java:113-115 | an occurrence ending exactly at the day's midnight, or starting exactly at the next midnight, misses the day; an occurrence of positive length overlaps exactly when some second lies in both half-open intervals |
| Events.IsException | src/main/java/agenda/Event.java:88 | Repetition.isException: the day is in the repetition's exception set; `Event.AddException` states that an added date becomes an exception and no other day changes |
| Events.Event.constructor | src/main/java/agenda/Event.java:33-37 | stores title, start and duration, with no repetition |
| Events.Event.SetRepetition | src/main/java/agenda/Event.java:39-41 | replaces any repetition by a new one of the given frequency with no exceptions and no termination; title, start and duration unchanged |
| Events.Event.AddException | src/main/java/agenda/Event.java:43-47 | with a repetition, adds the date to its exceptions and changes nothing else, so the date becomes an exception and every other day keeps its status; without one, changes nothing |
| Events.Event.SetTerminationOn | src/main/java/agenda/Event.java:49-54 | with a repetition, sets a termination built from the start date, the frequency and the end date, after which the accessors report that date and between + 1; without one, changes nothing |
| Events.Event.SetTerminationAfter | src/main/java/agenda/Event.java:56-61 | with a repetition, sets a termination built from the start date, the frequency and the count, after which the accessors report that count and the start advanced by count - 1 units; without one, changes nothing |
| Events.Event.NumberOfOccurrences | src/main/java/agenda/Event.java:63-68 | the termination's count when both a repetition and a termination exist, otherwise 0 |
| Events.Event.TerminationDate | src/main/java/agenda/Event.java:70-75 | the termination's date when both a repetition and a termination exist, otherwise none |
| Events.Event.OccurrencesMatchTerminationDate | src/main/java/agenda/Event.java:49-75 | an event's termination is always one the constructors build from its start date and frequency, so the reported count is between(start date, reported termination date) + 1, for monthly series as long as the count does not end in a month shorter than the start's day of month |
| Events.Event.IsInDay | src/main/java/agenda/Event.java:83-110 | returns exactly `InDay`: the single occurrence's overlap without a repetition; otherwise false on exception days and days before the start, else whether offset amount - 1 or amount (not negative, accepted by the repetition) overlaps the day |
| Events.Event.SearchOffsets | src/main/java/agenda/Event.java:98-107 | the loop over offsets lo .. hi, skipping negative ones and stopping at the first match, returns exactly whether some offset in the range is a matching candidate |
| Events.Event.IsInDayCorrected | src/main/java/agenda/Event.java:83-110 | the corrected isInDay, whose loop also tries amount + 1, returns exactly `InDayCorrected` |
| Events.SingleOccurrenceInDay | src/main/java/agenda/Event.java:84-86 | without a repetition the event is in the day exactly when it starts before the next midnight and start + duration is after this midnight |
| Events.RepetitionGates | src/main/java/agenda/Event.java:88-94 | with a repetition, an exception day and a day before the start's date are never in the event |
| Events.InDayIsSound | src/main/java/agenda/Event.java:96-107 | every day isInDay accepts is no exception and is overlapped by an accepted occurrence of the series |
| Events.OccurrenceNearDay | src/main/java/agenda/Event.java:96-107 | an accepted occurrence overlapping the day, with duration at most one unit's shortest span, starts on a date at most that many days before the day and not after it |
| Events.OffsetInWindow | src/main/java/agenda/Event.java:96-107 | the offset of such an occurrence lies in amount - 1 .. amount for days and weeks, and in amount - 1 .. amount + 1 for months |
| Events.InDayCompleteForDaysAndWeeks | src/main/java/agenda/Event.java:96-107 | for daily and weekly series with duration at most one unit, isInDay holds exactly when the day is no exception and some accepted occurrence overlaps it |
| Events.InDayMissesClampedMonthEnd | src/main/java/agenda/Event.java:96-107 | monthly from 2024-01-31T10:00 for one hour: isInDay rejects 2024-02-29, although occurrence 1 lies on that day and the widened window accepts it |
| Events.InDayCorrectedIsComplete | src/main/java/agenda/Event.java:96-107 | with the window widened to amount + 1, for every frequency and duration at most one unit's shortest span, the day is in the event exactly when it is no exception and some accepted occurrence overlaps it |
| Events.SingleEventAcrossMidnight | src/main/java/agenda/Event.java:84-86 | a single event from 2024-01-10T23:00 lasting two hours is in 2024-01-10 and 2024-01-11 but not in 2024-01-12 |
| Events.WeeklyJanuaryOccurrence | src/main/java/agenda/Event.java:88-107 | each weekly occurrence in January 2024 of a one-hour event from 2024-01-01T10:00 that the repetition accepts makes its own day part of the event |
| Events.WeeklyEventWithException | src/main/java/agenda/Event.java:88-107 | that weekly event with an exception on 2024-01-15 is not in 2024-01-15, and is in 2024-01-08 and 2024-01-22 when the repetition accepts them |

## Left out

- Repetition's body: Repetition.java is not part of this model.
  - Its frequency, exception set and optional termination come from how Event.java uses it.
  - `isException` is taken to be membership in the exception set.
  - `isValid` is a parameter of `IsInDay` and the predicates, so nothing is assumed about its termination check.
- In-place mutation of the repetition: Java calls `addException` and `setTermination` on the shared `Repetition` object. The model reassigns the event's `repetition` field with an updated value. This is equivalent because no other object holds that repetition.
- Event.NumberOfOccurrences: the `(int)` narrowing cast at Event.java:65 is not modelled. The count is an unbounded integer.
- The getters `getTitle`, `getStart` and `getDuration` are the fields of the `Event` class, read directly.
- `toString`: it only formats a string.
- java.time details:
  - nanosecond precision (durations and times are whole seconds);
  - year-range limits and the `DateTimeException` and `ArithmeticException` overflow errors;
  - ChronoUnit values other than DAYS, WEEKS and MONTHS;
  - time zones (only local dates and date-times are used).
- Calendar.EpochDay: `LocalDate.toEpochDay`'s closed formula is replaced by a month-by-month sum with the same values.
- Calendar.TruncDiv carries no contract of its own. Its properties reach the `Between` lemmas through their proofs.
- Durations are not required to be non-negative, because the source does not demand it. The completeness lemmas assume a duration of at most one unit's shortest span: 1, 7 or 28 days.

## Findings

| source | as written | input that shows it | evidently intended | confidence | as-written member | corrected member |
|---|---|---|---|---|---|---|
| src/main/java/agenda/Event.java:96-107 | only the offsets amount - 1 and amount are tried, where amount = MONTHS.between(startDate, day) | a monthly event from 2024-01-31T10:00 lasting one hour, asked about 2024-02-29: between gives 0, yet occurrence 1 is clamped to 2024-02-29 | isInDay accepts every day overlapped by an accepted occurrence; trying amount + 1 as well achieves this for every frequency | not executed | Events.InDayMissesClampedMonthEnd | Events.Event.IsInDayCorrected, Events.InDayCorrectedIsComplete |
