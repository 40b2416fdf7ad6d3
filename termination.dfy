/** The end of a repetition, given either as the last date on which an
    occurrence may start or as a number of occurrences; each constructor
    derives the other field once, and the value never changes afterwards. */
module Terminations {
  import opened Calendar

  /** All four fields are final in the source: a Termination is a value. */
  datatype Termination = Termination(
    start: Date,
    frequency: Unit,
    terminationDateInclusive: Date,
    numberOfOccurrences: int)

  /** The constructor taking the inclusive end date: the count is the number
      of whole units from start to that date, plus one. */
  function TerminationOn(start: Date, frequency: Unit, terminationInclusive: Date): (t: Termination)
    ensures t.start == start && t.frequency == frequency
    ensures t.terminationDateInclusive == terminationInclusive
    ensures terminationInclusive == start ==> t.numberOfOccurrences == 1
    ensures !IsBefore(terminationInclusive, start) ==> t.numberOfOccurrences >= 1
    ensures IsBefore(terminationInclusive, start) ==> t.numberOfOccurrences <= 1
    ensures frequency == Days ==> (t.numberOfOccurrences >= 1 <==> !IsBefore(terminationInclusive, start))
  {
    BetweenSign(start, terminationInclusive, frequency);
    Termination(start, frequency, terminationInclusive, Between(start, terminationInclusive, frequency) + 1)
  }

  /** The constructor taking the number of occurrences: the last date is the
      start advanced by one unit fewer than the count. */
  function TerminationAfter(start: Date, frequency: Unit, numberOfOccurrences: int): (t: Termination)
    ensures t.start == start && t.frequency == frequency
    ensures t.numberOfOccurrences == numberOfOccurrences
    ensures numberOfOccurrences == 1 ==> t.terminationDateInclusive == start
    ensures numberOfOccurrences >= 1 <==> !IsBefore(t.terminationDateInclusive, start)
  {
    PlusDirection(start, numberOfOccurrences - 1, frequency);
    Termination(start, frequency, Plus(start, numberOfOccurrences - 1, frequency), numberOfOccurrences)
  }

  /** Count, then date, then count again gives back the count for daily and
      weekly repetitions, and for monthly ones whenever the month the count
      reaches is long enough to hold the start's day of month. */
  lemma CountRoundTrip(start: Date, frequency: Unit, n: int)
    requires frequency == Months ==> start.day <= LengthOfMonth(ProlepticMonth(start) + n - 1)
    ensures TerminationOn(start, frequency, TerminationAfter(start, frequency, n).terminationDateInclusive).numberOfOccurrences == n
  {
    var last := TerminationAfter(start, frequency, n).terminationDateInclusive;
    match frequency
    case Days =>
    case Weeks =>
      assert EpochDay(last) - EpochDay(start) == 7 * (n - 1);
    case Months =>
      ProlepticMonthSplits(last);
      assert last.day == start.day;
      assert PackedMonthDay(last) - PackedMonthDay(start) == 32 * (n - 1);
  }

  /** When the month reached by the count is shorter than the start's day of
      month, the date is clamped and rebuilding from it loses one occurrence. */
  lemma CountRoundTripLosesClampedMonth(start: Date, n: int)
    requires n >= 2
    requires start.day > LengthOfMonth(ProlepticMonth(start) + n - 1)
    ensures TerminationOn(start, Months, TerminationAfter(start, Months, n).terminationDateInclusive).numberOfOccurrences == n - 1
  {
    var last := TerminationAfter(start, Months, n).terminationDateInclusive;
    assert last.day == LengthOfMonth(ProlepticMonth(start) + n - 1);
    var diff := PackedMonthDay(last) - PackedMonthDay(start);
    assert 32 * (n - 1) - 32 < diff < 32 * (n - 1);
  }

  /** Monthly from 2024-01-31, two occurrences end on 2024-02-29, and a
      termination on 2024-02-29 counts one occurrence. */
  lemma CountRoundTripFailsFromJanuary31()
    ensures TerminationAfter(YearMonthDay(2024, 1, 31), Months, 2).terminationDateInclusive == YearMonthDay(2024, 2, 29)
    ensures TerminationOn(YearMonthDay(2024, 1, 31), Months, YearMonthDay(2024, 2, 29)).numberOfOccurrences == 1
  {
    MonthEndIsClamped();
  }

  /** Monthly from 2024-01-31, three occurrences end on 2024-03-31, a month
      long enough for day 31, and counting back from there gives three. */
  lemma CountRoundTripHoldsFromJanuary31ToMarch()
    ensures TerminationAfter(YearMonthDay(2024, 1, 31), Months, 3).terminationDateInclusive == YearMonthDay(2024, 3, 31)
    ensures TerminationOn(YearMonthDay(2024, 1, 31), Months, YearMonthDay(2024, 3, 31)).numberOfOccurrences == 3
  {
    CountRoundTrip(YearMonthDay(2024, 1, 31), Months, 3);
  }

  /** Date, then count, then date again gives back the date for daily
      repetitions, whatever the date. */
  lemma DateRoundTripDays(start: Date, last: Date)
    ensures TerminationAfter(start, Days, TerminationOn(start, Days, last).numberOfOccurrences).terminationDateInclusive == last
  {
    var back := TerminationAfter(start, Days, TerminationOn(start, Days, last).numberOfOccurrences).terminationDateInclusive;
    EpochDayOrder(back, last);
  }

  /** For weekly repetitions the date comes back as the latest date not after
      the given one that lies a whole number of weeks after the start. */
  lemma DateRoundTripWeeks(start: Date, last: Date)
    requires !IsBefore(last, start)
    ensures var back := TerminationAfter(start, Weeks, TerminationOn(start, Weeks, last).numberOfOccurrences).terminationDateInclusive;
      && !IsBefore(back, start) && !IsBefore(last, back)
      && (EpochDay(back) - EpochDay(start)) % 7 == 0
      && EpochDay(last) - EpochDay(back) < 7
      && forall z: Date :: !IsBefore(z, start) && !IsBefore(last, z) && (EpochDay(z) - EpochDay(start)) % 7 == 0 ==> !IsBefore(back, z)
  {
    var back := TerminationAfter(start, Weeks, TerminationOn(start, Weeks, last).numberOfOccurrences).terminationDateInclusive;
    EpochDayOrder(last, start);
    EpochDayOrder(back, start);
    EpochDayOrder(last, back);
    var span := EpochDay(last) - EpochDay(start);
    assert EpochDay(back) == EpochDay(start) + 7 * (span / 7);
    forall z: Date | !IsBefore(z, start) && !IsBefore(last, z) && (EpochDay(z) - EpochDay(start)) % 7 == 0
      ensures !IsBefore(back, z)
    {
      EpochDayOrder(z, start);
      EpochDayOrder(last, z);
      EpochDayOrder(back, z);
      var weeks := (EpochDay(z) - EpochDay(start)) / 7;
      assert EpochDay(z) == EpochDay(start) + 7 * weeks;
      assert weeks <= span / 7;
    }
  }

  /** For monthly repetitions whose start day exists in every month, the date
      comes back as the last monthly date not after the given one: it keeps
      the start's day of month and the next monthly date is later than the
      given one. */
  lemma DateRoundTripMonths(start: Date, last: Date)
    requires start.day <= 28
    requires !IsBefore(last, start)
    ensures var n := TerminationOn(start, Months, last).numberOfOccurrences;
      var back := TerminationAfter(start, Months, n).terminationDateInclusive;
      && back.day == start.day
      && !IsBefore(back, start) && !IsBefore(last, back)
      && IsBefore(last, PlusMonths(start, n))
  {
    var n := TerminationOn(start, Months, last).numberOfOccurrences;
    var back := TerminationAfter(start, Months, n).terminationDateInclusive;
    var next := PlusMonths(start, n);
    ProlepticMonthSplits(back);
    ProlepticMonthSplits(next);
    IsBeforeByMonth(last, start);
    IsBeforeByMonth(last, back);
    IsBeforeByMonth(last, next);
    var months := ProlepticMonth(last) - ProlepticMonth(start);
    assert last.day >= start.day ==> n - 1 == months;
    assert last.day < start.day ==> n - 1 == months - 1;
  }

  /** The termination date built from a count never decreases as the count grows. */
  lemma TerminationDateMonotone(start: Date, frequency: Unit, n1: int, n2: int)
    requires n1 <= n2
    ensures !IsBefore(TerminationAfter(start, frequency, n2).terminationDateInclusive,
                      TerminationAfter(start, frequency, n1).terminationDateInclusive)
  {
    PlusMonotone(start, n1 - 1, n2 - 1, frequency);
  }
}
