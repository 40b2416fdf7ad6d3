/** Calendar events with an optional repetition, and the query "does this
    event occur on day D?". */
module Events {
  import opened Calendar
  import opened Terminations

  datatype Option<T> = None | Some(value: T)

  /** The repetition an event owns: its frequency, the dates on which an
      occurrence is suppressed and an optional termination. Its own source
      file is not part of this model; these are the parts the event uses. */
  datatype Repetition = Repetition(frequency: Unit, exceptions: set<Date>, termination: Option<Termination>)

  /** Repetition.isException: the day was recorded as an exception. */
  predicate IsException(r: Repetition, day: Date) {
    day in r.exceptions
  }

  /** The overlap test of an occurrence [occStart, occEnd) with a day: the
      occurrence starts before the next midnight and ends after this one. */
  function CheckOverlap(occStart: DateTime, occEnd: DateTime, day: Date): (b: bool)
    ensures b <==> Instant(occStart) < (EpochDay(day) + 1) * SecondsPerDay
                   && Instant(occEnd) > EpochDay(day) * SecondsPerDay
  {
    var dayStart := AtStartOfDay(day);
    var dayEnd := AtStartOfDay(PlusDays(day, 1));
    InstantOrder(occStart, dayEnd);
    InstantOrder(dayStart, occEnd);
    DateTimeIsBefore(occStart, dayEnd) && DateTimeIsAfter(occEnd, dayStart)
  }

  /** The occurrence j units after the start is a candidate for the day: j is
      not negative, the repetition accepts its start date and it overlaps the day. */
  predicate CandidateMatches(start: DateTime, duration: int, r: Repetition, j: int, day: Date,
                             isValid: (Repetition, Date) -> bool)
  {
    j >= 0 &&
    var occStart := PlusUnits(start, j, r.frequency);
    isValid(r, occStart.date) && CheckOverlap(occStart, PlusSeconds(occStart, duration), day)
  }

  /** The candidate test as a predicate on offsets. */
  function Candidates(start: DateTime, duration: int, r: Repetition, day: Date,
                      isValid: (Repetition, Date) -> bool): int -> bool
  {
    j => CandidateMatches(start, duration, r, j, day, isValid)
  }

  /** Some offset in lo .. hi satisfies m. */
  predicate AnyOffset(m: int -> bool, lo: int, hi: int)
    decreases hi - lo
  {
    lo <= hi && (m(lo) || AnyOffset(m, lo + 1, hi))
  }

  /** The windows of two and three offsets spelled out. */
  lemma AnyOffsetWindows(m: int -> bool, lo: int)
    ensures AnyOffset(m, lo, lo + 1) == (m(lo) || m(lo + 1))
    ensures AnyOffset(m, lo, lo + 2) == (m(lo) || m(lo + 1) || m(lo + 2))
  {
    assert !AnyOffset(m, lo + 2, lo + 1);
    assert !AnyOffset(m, lo + 3, lo + 2);
    assert AnyOffset(m, lo + 1, lo + 2) == (m(lo + 1) || m(lo + 2));
  }

  /** Event.isInDay as written: without a repetition, the single occurrence
      overlaps the day; with one, the day is no exception, not before the
      start's date, and one of the offsets amount - 1 and amount matches,
      where amount is the number of whole units from the start's date to the day. */
  predicate InDay(start: DateTime, duration: int, repetition: Option<Repetition>, day: Date,
                  isValid: (Repetition, Date) -> bool)
  {
    match repetition
    case None => CheckOverlap(start, PlusSeconds(start, duration), day)
    case Some(r) =>
      !IsException(r, day) && !IsBefore(day, start.date) &&
      var amount := Between(start.date, day, r.frequency);
      CandidateMatches(start, duration, r, amount - 1, day, isValid)
      || CandidateMatches(start, duration, r, amount, day, isValid)
  }

  /** isInDay with the window widened to amount + 1, which also reaches an
      occurrence clamped to the end of a shorter month. */
  predicate InDayCorrected(start: DateTime, duration: int, repetition: Option<Repetition>, day: Date,
                           isValid: (Repetition, Date) -> bool)
  {
    match repetition
    case None => CheckOverlap(start, PlusSeconds(start, duration), day)
    case Some(r) =>
      !IsException(r, day) && !IsBefore(day, start.date) &&
      var amount := Between(start.date, day, r.frequency);
      CandidateMatches(start, duration, r, amount - 1, day, isValid)
      || CandidateMatches(start, duration, r, amount, day, isValid)
      || CandidateMatches(start, duration, r, amount + 1, day, isValid)
  }

  /** Some occurrence of the series, at any offset, is accepted by the
      repetition and overlaps the day. */
  ghost predicate HasOccurrenceOn(start: DateTime, duration: int, r: Repetition, day: Date,
                                  isValid: (Repetition, Date) -> bool)
  {
    exists j :: CandidateMatches(start, duration, r, j, day, isValid)
  }

  /** The shortest span of one unit, in days: the longest duration for which
      the candidate window of isInDay is meant to be enough. */
  function MinSpanDays(unit: Unit): int {
    match unit
    case Days => 1
    case Weeks => 7
    case Months => 28
  }

  /** t is built by one of Termination's constructors from start and frequency. */
  predicate Anchored(t: Termination, start: Date, frequency: Unit) {
    t == TerminationOn(start, frequency, t.terminationDateInclusive)
    || t == TerminationAfter(start, frequency, t.numberOfOccurrences)
  }

  class Event {
    var title: string
    var start: DateTime
    /** The duration, in seconds. */
    var duration: int
    var repetition: Option<Repetition>

    /** A termination is always one of the two constructors applied to the
        event's start date and the repetition's frequency. */
    ghost predicate Valid()
      reads this
    {
      repetition.Some? && repetition.value.termination.Some? ==>
        Anchored(repetition.value.termination.value, start.date, repetition.value.frequency)
    }

    constructor (title: string, start: DateTime, duration: int)
      ensures Valid()
      ensures this.title == title && this.start == start && this.duration == duration
      ensures repetition == None
    {
      this.title := title;
      this.start := start;
      this.duration := duration;
      repetition := None;
    }

    /** Replaces any repetition by a new one of the given frequency. */
    method SetRepetition(frequency: Unit)
      requires Valid()
      modifies this
      ensures Valid()
      ensures repetition == Some(Repetition(frequency, {}, None))
      ensures title == old(title) && start == old(start) && duration == old(duration)
    {
      repetition := Some(Repetition(frequency, {}, None));
    }

    /** Records an exception date; does nothing without a repetition. */
    method AddException(date: Date)
      requires Valid()
      modifies this
      ensures Valid()
      ensures old(repetition).None? ==> repetition == None
      ensures old(repetition).Some? ==>
        repetition == Some(old(repetition).value.(exceptions := old(repetition).value.exceptions + {date}))
      ensures old(repetition).Some? ==> IsException(repetition.value, date)
      ensures old(repetition).Some? ==>
        forall d :: d != date ==> (IsException(repetition.value, d) <==> IsException(old(repetition).value, d))
      ensures title == old(title) && start == old(start) && duration == old(duration)
    {
      if repetition.Some? {
        var r := repetition.value;
        repetition := Some(r.(exceptions := r.exceptions + {date}));
      }
    }

    /** Ends the repetition on the given date; does nothing without a repetition. */
    method SetTerminationOn(terminationInclusive: Date)
      requires Valid()
      modifies this
      ensures Valid()
      ensures old(repetition).None? ==> repetition == None
      ensures old(repetition).Some? ==>
        repetition == Some(old(repetition).value.(termination :=
          Some(TerminationOn(start.date, old(repetition).value.frequency, terminationInclusive))))
      ensures old(repetition).Some? ==>
        TerminationDate() == Some(terminationInclusive)
        && NumberOfOccurrences() == Between(start.date, terminationInclusive, repetition.value.frequency) + 1
      ensures title == old(title) && start == old(start) && duration == old(duration)
    {
      if repetition.Some? {
        var r := repetition.value;
        var t := TerminationOn(start.date, r.frequency, terminationInclusive);
        repetition := Some(r.(termination := Some(t)));
      }
    }

    /** Ends the repetition after the given number of occurrences; does
        nothing without a repetition. */
    method SetTerminationAfter(numberOfOccurrences: int)
      requires Valid()
      modifies this
      ensures Valid()
      ensures old(repetition).None? ==> repetition == None
      ensures old(repetition).Some? ==>
        repetition == Some(old(repetition).value.(termination :=
          Some(TerminationAfter(start.date, old(repetition).value.frequency, numberOfOccurrences))))
      ensures old(repetition).Some? ==>
        NumberOfOccurrences() == numberOfOccurrences
        && TerminationDate() == Some(Plus(start.date, numberOfOccurrences - 1, repetition.value.frequency))
      ensures title == old(title) && start == old(start) && duration == old(duration)
    {
      if repetition.Some? {
        var r := repetition.value;
        var t := TerminationAfter(start.date, r.frequency, numberOfOccurrences);
        repetition := Some(r.(termination := Some(t)));
      }
    }

    /** The termination's count, or 0 without a repetition or a termination. */
    function NumberOfOccurrences(): (n: int)
      reads this
      ensures repetition.Some? && repetition.value.termination.Some? ==>
        n == repetition.value.termination.value.numberOfOccurrences
      ensures repetition.None? || repetition.value.termination.None? ==> n == 0
    {
      if repetition.Some? && repetition.value.termination.Some? then
        repetition.value.termination.value.numberOfOccurrences
      else 0
    }

    /** The termination's last date, or none without a repetition or a termination. */
    function TerminationDate(): (d: Option<Date>)
      reads this
      ensures repetition.Some? && repetition.value.termination.Some? ==>
        d == Some(repetition.value.termination.value.terminationDateInclusive)
      ensures repetition.None? || repetition.value.termination.None? ==> d == None
    {
      if repetition.Some? && repetition.value.termination.Some? then
        Some(repetition.value.termination.value.terminationDateInclusive)
      else None
    }

    /** The two accessors agree with each other: the count is the number of
        whole units from the start date to the termination date, plus one,
        whichever constructor built the termination, as long as a monthly
        count does not end in a month shorter than the start's day of month. */
    lemma OccurrencesMatchTerminationDate()
      requires Valid()
      requires repetition.Some? && repetition.value.termination.Some?
      requires repetition.value.frequency == Months ==>
        start.date.day <= LengthOfMonth(ProlepticMonth(start.date) + NumberOfOccurrences() - 1)
      ensures NumberOfOccurrences() == Between(start.date, TerminationDate().value, repetition.value.frequency) + 1
    {
      var t := repetition.value.termination.value;
      var freq := repetition.value.frequency;
      if t != TerminationOn(start.date, freq, t.terminationDateInclusive) {
        CountRoundTrip(start.date, freq, t.numberOfOccurrences);
      }
    }

    /** Does the event occur on the given day? isValid stands for the
        repetition's own check of an occurrence's start date. */
    method IsInDay(day: Date, isValid: (Repetition, Date) -> bool) returns (occurs: bool)
      ensures occurs == InDay(start, duration, repetition, day, isValid)
    {
      if repetition.None? {
        return CheckOverlap(start, PlusSeconds(start, duration), day);
      }
      var r := repetition.value;
      if IsException(r, day) {
        return false;
      }
      var startDay := start.date;
      if IsBefore(day, startDay) {
        return false;
      }
      var amount := Between(startDay, day, r.frequency);
      occurs := SearchOffsets(r, amount - 1, amount, day, isValid);
      AnyOffsetWindows(Candidates(start, duration, r, day, isValid), amount - 1);
    }

    /** isInDay with the candidate loop running up to amount + 1, so that an
        occurrence clamped to the end of a shorter month is also found. */
    method IsInDayCorrected(day: Date, isValid: (Repetition, Date) -> bool) returns (occurs: bool)
      ensures occurs == InDayCorrected(start, duration, repetition, day, isValid)
    {
      if repetition.None? {
        return CheckOverlap(start, PlusSeconds(start, duration), day);
      }
      var r := repetition.value;
      if IsException(r, day) {
        return false;
      }
      var startDay := start.date;
      if IsBefore(day, startDay) {
        return false;
      }
      var amount := Between(startDay, day, r.frequency);
      occurs := SearchOffsets(r, amount - 1, amount + 1, day, isValid);
      AnyOffsetWindows(Candidates(start, duration, r, day, isValid), amount - 1);
    }

    /** The loop of isInDay: tries the offsets lo .. hi in turn, skipping
        negative ones, and stops at the first that matches. */
    method SearchOffsets(r: Repetition, lo: int, hi: int, day: Date, isValid: (Repetition, Date) -> bool)
      returns (found: bool)
      ensures found == AnyOffset(Candidates(start, duration, r, day, isValid), lo, hi)
    {
      ghost var m := Candidates(start, duration, r, day, isValid);
      var k := lo;
      while k <= hi
        invariant lo <= k || lo > hi
        invariant AnyOffset(m, k, hi) == AnyOffset(m, lo, hi)
      {
        if k >= 0 {
          var occStart := PlusUnits(start, k, r.frequency);
          var occEnd := PlusSeconds(occStart, duration);
          if isValid(r, occStart.date) && CheckOverlap(occStart, occEnd, day) {
            assert m(k);
            return true;
          }
        }
        assert !m(k);
        k := k + 1;
      }
      return false;
    }
  }

  /** The half-open interval [lo, hi) holds t. */
  predicate InInterval(t: int, lo: int, hi: int) {
    lo <= t < hi
  }

  /** The overlap test is that of half-open intervals: an occurrence ending
      exactly at the day's midnight, or starting exactly at the next one, does
      not count, and an occurrence of positive length overlaps the day exactly
      when some instant lies in both. */
  lemma CheckOverlapIsHalfOpen(occStart: DateTime, occEnd: DateTime, day: Date)
    ensures Instant(occEnd) == EpochDay(day) * SecondsPerDay ==> !CheckOverlap(occStart, occEnd, day)
    ensures Instant(occStart) == (EpochDay(day) + 1) * SecondsPerDay ==> !CheckOverlap(occStart, occEnd, day)
    ensures Instant(occStart) < Instant(occEnd) ==>
      (CheckOverlap(occStart, occEnd, day) <==>
       exists t :: InInterval(t, Instant(occStart), Instant(occEnd))
                   && InInterval(t, EpochDay(day) * SecondsPerDay, (EpochDay(day) + 1) * SecondsPerDay))
  {
    var dayStart := EpochDay(day) * SecondsPerDay;
    if Instant(occStart) < Instant(occEnd) && CheckOverlap(occStart, occEnd, day) {
      var t := if Instant(occStart) < dayStart then dayStart else Instant(occStart);
      assert InInterval(t, Instant(occStart), Instant(occEnd));
      assert InInterval(t, dayStart, dayStart + SecondsPerDay);
    }
  }

  /** Without a repetition, the event is in the day exactly when it starts
      before the next midnight and ends after this one. */
  lemma SingleOccurrenceInDay(start: DateTime, duration: int, day: Date, isValid: (Repetition, Date) -> bool)
    ensures InDay(start, duration, None, day, isValid) <==>
      Instant(start) < (EpochDay(day) + 1) * SecondsPerDay
      && Instant(start) + duration > EpochDay(day) * SecondsPerDay
  {
  }

  /** With a repetition, an exception day and a day before the start's date
      are never in the event, whatever the duration or the termination. */
  lemma RepetitionGates(start: DateTime, duration: int, r: Repetition, day: Date, isValid: (Repetition, Date) -> bool)
    ensures IsException(r, day) ==> !InDay(start, duration, Some(r), day, isValid)
    ensures IsBefore(day, start.date) ==> !InDay(start, duration, Some(r), day, isValid)
  {
  }

  /** Every day isInDay accepts holds an accepted occurrence of the series. */
  lemma InDayIsSound(start: DateTime, duration: int, r: Repetition, day: Date, isValid: (Repetition, Date) -> bool)
    ensures InDay(start, duration, Some(r), day, isValid) ==>
      !IsException(r, day) && HasOccurrenceOn(start, duration, r, day, isValid)
  {
  }

  /** An occurrence that overlaps the day starts on a date no later than the
      day and, when the duration is at most one unit's shortest span, no more
      than that many days earlier; the day is not before the series start. */
  lemma OccurrenceNearDay(start: DateTime, duration: int, r: Repetition, j: int, day: Date,
                          isValid: (Repetition, Date) -> bool)
    requires CandidateMatches(start, duration, r, j, day, isValid)
    requires duration <= MinSpanDays(r.frequency) * SecondsPerDay
    ensures EpochDay(day) - MinSpanDays(r.frequency) <= EpochDay(Plus(start.date, j, r.frequency)) <= EpochDay(day)
    ensures !IsBefore(day, start.date)
  {
    var occ := Plus(start.date, j, r.frequency);
    PlusDirection(start.date, j, r.frequency);
    EpochDayOrder(start.date, occ);
    EpochDayOrder(day, start.date);
  }

  /** The offset of an occurrence that overlaps the day lies in the window
      [amount - 1, amount] for daily and weekly repetitions and in
      [amount - 1, amount + 1] for monthly ones. */
  lemma OffsetInWindow(start: DateTime, duration: int, r: Repetition, j: int, day: Date,
                       isValid: (Repetition, Date) -> bool)
    requires CandidateMatches(start, duration, r, j, day, isValid)
    requires duration <= MinSpanDays(r.frequency) * SecondsPerDay
    ensures var amount := Between(start.date, day, r.frequency);
      && amount - 1 <= j <= amount + 1
      && (r.frequency != Months ==> j <= amount)
  {
    OccurrenceNearDay(start, duration, r, j, day, isValid);
    var s := start.date;
    var occ := Plus(s, j, r.frequency);
    match r.frequency
    case Days =>
    case Weeks =>
      assert EpochDay(occ) == EpochDay(s) + 7 * j;
    case Months =>
      var span := ProlepticMonth(day) - ProlepticMonth(s);
      assert ProlepticMonth(occ) == ProlepticMonth(s) + j;
      if ProlepticMonth(occ) > ProlepticMonth(day) {
        EpochDayAcrossMonths(day, occ);
      }
      if ProlepticMonth(occ) + 2 <= ProlepticMonth(day) {
        EpochDayInMonth(occ);
        EpochDayInMonth(day);
        MonthStartGrows(ProlepticMonth(occ) + 1, ProlepticMonth(day));
      }
      assert span - 1 <= j <= span;
      IsBeforeByMonth(day, s);
      assert PackedMonthDay(day) - PackedMonthDay(s) == 32 * span + day.day - s.day;
  }

  /** For daily and weekly repetitions the two-offset window is enough: when
      the duration is at most one unit's shortest span, isInDay holds exactly
      when the day is no exception and some accepted occurrence overlaps it. */
  lemma InDayCompleteForDaysAndWeeks(start: DateTime, duration: int, r: Repetition, day: Date,
                                     isValid: (Repetition, Date) -> bool)
    requires r.frequency != Months
    requires duration <= MinSpanDays(r.frequency) * SecondsPerDay
    ensures InDay(start, duration, Some(r), day, isValid) <==>
      !IsException(r, day) && HasOccurrenceOn(start, duration, r, day, isValid)
  {
    if !IsException(r, day) && HasOccurrenceOn(start, duration, r, day, isValid) {
      var j :| CandidateMatches(start, duration, r, j, day, isValid);
      OffsetInWindow(start, duration, r, j, day, isValid);
      OccurrenceNearDay(start, duration, r, j, day, isValid);
      var amount := Between(start.date, day, r.frequency);
      assert j == amount - 1 || j == amount;
      assert CandidateMatches(start, duration, r, amount - 1, day, isValid)
          || CandidateMatches(start, duration, r, amount, day, isValid);
    }
  }

  /** The widened window is exact for every frequency: when the duration is
      at most one unit's shortest span, the day is in the event exactly when
      it is no exception and some accepted occurrence overlaps it. */
  lemma InDayCorrectedIsComplete(start: DateTime, duration: int, r: Repetition, day: Date,
                                 isValid: (Repetition, Date) -> bool)
    requires duration <= MinSpanDays(r.frequency) * SecondsPerDay
    ensures InDayCorrected(start, duration, Some(r), day, isValid) <==>
      !IsException(r, day) && HasOccurrenceOn(start, duration, r, day, isValid)
  {
    if !IsException(r, day) && HasOccurrenceOn(start, duration, r, day, isValid) {
      var j :| CandidateMatches(start, duration, r, j, day, isValid);
      OffsetInWindow(start, duration, r, j, day, isValid);
      OccurrenceNearDay(start, duration, r, j, day, isValid);
      var amount := Between(start.date, day, r.frequency);
      assert j == amount - 1 || j == amount || j == amount + 1;
      assert CandidateMatches(start, duration, r, amount - 1, day, isValid)
          || CandidateMatches(start, duration, r, amount, day, isValid)
          || CandidateMatches(start, duration, r, amount + 1, day, isValid);
    }
  }

  /** A monthly event starting 2024-01-31T10:00 for one hour has its second
      occurrence on 2024-02-29 (clamped), yet isInDay rejects that day
      whatever the repetition accepts: between gives 0, and only the offsets
      -1 and 0 are tried. The widened window finds it. */
  lemma InDayMissesClampedMonthEnd(isValid: (Repetition, Date) -> bool)
    ensures var start := DateTime(YearMonthDay(2024, 1, 31), 10 * 3600);
      var r := Repetition(Months, {}, None);
      var day: Date := YearMonthDay(2024, 2, 29);
      && !InDay(start, 3600, Some(r), day, isValid)
      && (isValid(r, day) ==>
            CandidateMatches(start, 3600, r, 1, day, isValid)
            && InDayCorrected(start, 3600, Some(r), day, isValid))
  {
    var start := DateTime(YearMonthDay(2024, 1, 31), 10 * 3600);
    var day: Date := YearMonthDay(2024, 2, 29);
    var r := Repetition(Months, {}, None);
    MonthEndIsClamped();
    assert Between(start.date, day, Months) == 0;
    assert PlusSeconds(start, 3600) == DateTime(start.date, 11 * 3600);
    assert !CheckOverlap(start, DateTime(start.date, 11 * 3600), day);
    assert PlusUnits(start, 1, Months) == DateTime(day, 10 * 3600);
    assert PlusSeconds(DateTime(day, 10 * 3600), 3600) == DateTime(day, 11 * 3600);
    assert NextDay(day) == YearMonthDay(2024, 3, 1);
  }

  /** A single event from 2024-01-10T23:00 lasting two hours is in
      2024-01-10 and 2024-01-11 but not in 2024-01-12. */
  lemma SingleEventAcrossMidnight(isValid: (Repetition, Date) -> bool)
    ensures var jan10: Date := YearMonthDay(2024, 1, 10);
      var jan11: Date := YearMonthDay(2024, 1, 11);
      var jan12: Date := YearMonthDay(2024, 1, 12);
      var start := DateTime(jan10, 23 * 3600);
      && InDay(start, 2 * 3600, None, jan10, isValid)
      && InDay(start, 2 * 3600, None, jan11, isValid)
      && !InDay(start, 2 * 3600, None, jan12, isValid)
  {
    var jan10: Date := YearMonthDay(2024, 1, 10);
    var jan11: Date := YearMonthDay(2024, 1, 11);
    var jan12: Date := YearMonthDay(2024, 1, 12);
    var start := DateTime(jan10, 23 * 3600);
    var finish := DateTime(jan11, 3600);
    assert PlusDays(jan10, 1) == jan11;
    assert PlusDays(jan11, 1) == jan12;
    assert 90000 / SecondsPerDay == 1 && 90000 % SecondsPerDay == 3600;
    assert PlusSeconds(start, 2 * 3600) == finish;
    assert CheckOverlap(start, finish, jan10);
    assert CheckOverlap(start, finish, jan11);
    assert !DateTimeIsAfter(finish, AtStartOfDay(jan12));
  }

  /** The k-th weekly occurrence of a one-hour event from 2024-01-01T10:00
      makes its own day in January 2024 part of the event. */
  lemma WeeklyJanuaryOccurrence(r: Repetition, k: int, day: Date, isValid: (Repetition, Date) -> bool)
    requires r.frequency == Weeks && !IsException(r, day) && isValid(r, day)
    requires 0 <= k <= 4 && day == YearMonthDay(2024, 1, 1 + 7 * k)
    ensures InDay(DateTime(YearMonthDay(2024, 1, 1), 10 * 3600), 3600, Some(r), day, isValid)
  {
    var jan1: Date := YearMonthDay(2024, 1, 1);
    var start := DateTime(jan1, 10 * 3600);
    assert EpochDay(day) == EpochDay(jan1) + 7 * k;
    assert Between(jan1, day, Weeks) == k;
    EpochDayOrder(PlusDays(jan1, 7 * k), day);
    var occ := DateTime(day, 10 * 3600);
    assert PlusUnits(start, k, Weeks) == occ;
    assert PlusSeconds(occ, 3600) == DateTime(day, 11 * 3600);
    assert CandidateMatches(start, 3600, r, k, day, isValid);
  }

  /** A weekly event from 2024-01-01T10:00 lasting one hour, with an exception
      on 2024-01-15, is not in 2024-01-15 but is in 2024-01-08 and 2024-01-22
      when the repetition accepts those dates. */
  lemma WeeklyEventWithException(isValid: (Repetition, Date) -> bool)
    ensures var jan8: Date := YearMonthDay(2024, 1, 8);
      var jan15: Date := YearMonthDay(2024, 1, 15);
      var jan22: Date := YearMonthDay(2024, 1, 22);
      var start := DateTime(YearMonthDay(2024, 1, 1), 10 * 3600);
      var r := Repetition(Weeks, {jan15}, None);
      && !InDay(start, 3600, Some(r), jan15, isValid)
      && (isValid(r, jan8) ==> InDay(start, 3600, Some(r), jan8, isValid))
      && (isValid(r, jan22) ==> InDay(start, 3600, Some(r), jan22, isValid))
  {
    var jan8: Date := YearMonthDay(2024, 1, 8);
    var jan15: Date := YearMonthDay(2024, 1, 15);
    var jan22: Date := YearMonthDay(2024, 1, 22);
    var r := Repetition(Weeks, {jan15}, None);
    if isValid(r, jan8) {
      WeeklyJanuaryOccurrence(r, 1, jan8, isValid);
    }
    if isValid(r, jan22) {
      WeeklyJanuaryOccurrence(r, 3, jan22, isValid);
    }
  }
}
