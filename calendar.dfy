/** Calendar arithmetic of the proleptic Gregorian calendar, as java.time's
    LocalDate, LocalDateTime and ChronoUnit.between perform it for the three
    units a repetition may use (DAYS, WEEKS, MONTHS).

    A date is a valid (year, month, day) triple; its epoch day counts days from
    1970-01-01 and is accumulated month by month, which gives the same numbers
    as LocalDate.toEpochDay. A date-time is a date and a second of the day;
    durations are whole seconds. */
module Calendar {

  /** The ChronoUnit values a repetition is restricted to. */
  datatype Unit = Days | Weeks | Months

  const SecondsPerDay: int := 86400
  /** Proleptic month of January 1970, the origin of epoch days. */
  const EpochMonth: int := 1970 * 12

  predicate IsLeapYear(year: int) {
    year % 4 == 0 && (year % 100 != 0 || year % 400 == 0)
  }

  function MonthLength(year: int, month: int): (n: int)
    ensures 28 <= n <= 31
  {
    if month == 2 then (if IsLeapYear(year) then 29 else 28)
    else if month == 4 || month == 6 || month == 9 || month == 11 then 30
    else 31
  }

  function Min(a: int, b: int): int {
    if a < b then a else b
  }

  datatype YearMonthDay = YearMonthDay(year: int, month: int, day: int)

  predicate IsValidDate(d: YearMonthDay) {
    1 <= d.month <= 12 && 1 <= d.day <= MonthLength(d.year, d.month)
  }

  /** LocalDate: only valid triples exist. */
  type Date = d: YearMonthDay | IsValidDate(d) witness YearMonthDay(1970, 1, 1)

  /** LocalDate.getProlepticMonth: months since January of year 0. */
  function ProlepticMonth(d: YearMonthDay): int {
    d.year * 12 + d.month - 1
  }

  /** Length of the month with the given proleptic month number. */
  function LengthOfMonth(pm: int): int {
    MonthLength(pm / 12, pm % 12 + 1)
  }

  lemma ProlepticMonthSplits(d: Date)
    ensures ProlepticMonth(d) / 12 == d.year && ProlepticMonth(d) % 12 + 1 == d.month
    ensures LengthOfMonth(ProlepticMonth(d)) == MonthLength(d.year, d.month)
  {
  }

  /** Epoch day of the first day of proleptic month pm. */
  function MonthStart(pm: int): int
    decreases if pm < EpochMonth then EpochMonth - pm else pm - EpochMonth
  {
    if pm == EpochMonth then 0
    else if pm > EpochMonth then MonthStart(pm - 1) + LengthOfMonth(pm - 1)
    else MonthStart(pm + 1) - LengthOfMonth(pm)
  }

  lemma MonthStartStep(pm: int)
    ensures MonthStart(pm + 1) == MonthStart(pm) + LengthOfMonth(pm)
  {
  }

  /** Every month has at least 28 days, so month starts grow at least that fast. */
  lemma {:induction false} MonthStartGrows(p: int, q: int)
    requires p <= q
    ensures MonthStart(p) + 28 * (q - p) <= MonthStart(q)
    decreases q - p
  {
    if p < q {
      MonthStartGrows(p, q - 1);
      MonthStartStep(q - 1);
    }
  }

  /** LocalDate.toEpochDay. */
  function EpochDay(d: Date): int {
    MonthStart(ProlepticMonth(d)) + d.day - 1
  }

  /** A date lies inside its month's run of epoch days. */
  lemma EpochDayInMonth(d: Date)
    ensures MonthStart(ProlepticMonth(d)) <= EpochDay(d) < MonthStart(ProlepticMonth(d) + 1)
  {
    ProlepticMonthSplits(d);
    MonthStartStep(ProlepticMonth(d));
  }

  /** LocalDate.isBefore: the lexicographic order on (year, month, day). */
  predicate IsBefore(a: Date, b: Date) {
    a.year < b.year || (a.year == b.year && (a.month < b.month || (a.month == b.month && a.day < b.day)))
  }

  /** The lexicographic date order is the order of proleptic months, then days. */
  lemma IsBeforeByMonth(a: Date, b: Date)
    ensures IsBefore(a, b) <==>
      ProlepticMonth(a) < ProlepticMonth(b) || (ProlepticMonth(a) == ProlepticMonth(b) && a.day < b.day)
    ensures ProlepticMonth(a) == ProlepticMonth(b) ==> a.year == b.year && a.month == b.month
  {
    ProlepticMonthSplits(a);
    ProlepticMonthSplits(b);
  }

  /** A later month starts after every day of an earlier one. */
  lemma EpochDayAcrossMonths(a: Date, b: Date)
    requires ProlepticMonth(a) < ProlepticMonth(b)
    ensures EpochDay(a) < EpochDay(b)
  {
    EpochDayInMonth(a);
    EpochDayInMonth(b);
    MonthStartGrows(ProlepticMonth(a) + 1, ProlepticMonth(b));
  }

  /** The calendar order of dates is the order of their epoch days. */
  lemma EpochDayOrder(a: Date, b: Date)
    ensures IsBefore(a, b) <==> EpochDay(a) < EpochDay(b)
    ensures EpochDay(a) == EpochDay(b) <==> a == b
  {
    IsBeforeByMonth(a, b);
    IsBeforeByMonth(b, a);
    if ProlepticMonth(a) < ProlepticMonth(b) {
      EpochDayAcrossMonths(a, b);
    } else if ProlepticMonth(b) < ProlepticMonth(a) {
      EpochDayAcrossMonths(b, a);
    }
  }

  /** The day after d (LocalDate.plusDays(1)). */
  function NextDay(d: Date): Date {
    if d.day < MonthLength(d.year, d.month) then YearMonthDay(d.year, d.month, d.day + 1)
    else if d.month < 12 then YearMonthDay(d.year, d.month + 1, 1)
    else YearMonthDay(d.year + 1, 1, 1)
  }

  /** The day before d (LocalDate.minusDays(1)). */
  function PreviousDay(d: Date): Date {
    if d.day > 1 then YearMonthDay(d.year, d.month, d.day - 1)
    else if d.month > 1 then YearMonthDay(d.year, d.month - 1, MonthLength(d.year, d.month - 1))
    else YearMonthDay(d.year - 1, 12, 31)
  }

  lemma NextDayEpoch(d: Date)
    ensures EpochDay(NextDay(d)) == EpochDay(d) + 1
  {
    ProlepticMonthSplits(d);
    MonthStartStep(ProlepticMonth(d));
  }

  lemma PreviousDayEpoch(d: Date)
    ensures EpochDay(PreviousDay(d)) == EpochDay(d) - 1
  {
    assert NextDay(PreviousDay(d)) == d;
    NextDayEpoch(PreviousDay(d));
  }

  /** LocalDate.plusDays: the unique date whose epoch day is k later. */
  function PlusDays(d: Date, k: int): (r: Date)
    ensures EpochDay(r) == EpochDay(d) + k
    decreases if k < 0 then -k else k
  {
    if k == 0 then d
    else if k > 0 then NextDayEpoch(d); PlusDays(NextDay(d), k - 1)
    else PreviousDayEpoch(d); PlusDays(PreviousDay(d), k + 1)
  }

  /** LocalDate.plusMonths: shift the proleptic month by k and clamp the day of
      month to the length of the target month. */
  function PlusMonths(d: Date, k: int): (r: Date)
    ensures ProlepticMonth(r) == ProlepticMonth(d) + k
    ensures r.day == Min(d.day, LengthOfMonth(ProlepticMonth(r)))
  {
    ProlepticMonthSplits(d);
    if k == 0 then d
    else
      var pm := ProlepticMonth(d) + k;
      var r: Date := YearMonthDay(pm / 12, pm % 12 + 1, Min(d.day, MonthLength(pm / 12, pm % 12 + 1)));
      ProlepticMonthSplits(r);
      r
  }

  /** LocalDate.plus(k, unit); WEEKS is plusDays(7 * k). */
  function Plus(d: Date, k: int, unit: Unit): (r: Date)
    ensures unit == Days ==> EpochDay(r) == EpochDay(d) + k
    ensures unit == Weeks ==> EpochDay(r) == EpochDay(d) + 7 * k
    ensures unit == Months ==> ProlepticMonth(r) == ProlepticMonth(d) + k
                               && r.day == Min(d.day, LengthOfMonth(ProlepticMonth(r)))
  {
    match unit
    case Days => PlusDays(d, k)
    case Weeks => PlusDays(d, 7 * k)
    case Months => PlusMonths(d, k)
  }

  /** Division truncated toward zero, as Java's `/` on long. */
  function TruncDiv(a: int, b: int): int
    requires b > 0
  {
    if a >= 0 then a / b else -((-a) / b)
  }

  /** The value LocalDate.monthsUntil compares: proleptic month and day packed. */
  function PackedMonthDay(d: Date): int {
    ProlepticMonth(d) * 32 + d.day
  }

  /** ChronoUnit.between(a, b) on dates: DAYS is the epoch-day difference,
      WEEKS that difference divided by 7 and MONTHS the packed difference
      divided by 32, both truncated toward zero. */
  function Between(a: Date, b: Date, unit: Unit): int {
    match unit
    case Days => EpochDay(b) - EpochDay(a)
    case Weeks => TruncDiv(EpochDay(b) - EpochDay(a), 7)
    case Months => TruncDiv(PackedMonthDay(b) - PackedMonthDay(a), 32)
  }

  /** between counts whole units: in days it is the offset plusDays needs to
      reach b; in weeks and months it is the span divided by the unit's
      length, rounded toward zero in both directions. */
  lemma BetweenTruncates(a: Date, b: Date, unit: Unit)
    ensures unit == Days ==> PlusDays(a, Between(a, b, unit)) == b
    ensures unit == Weeks && EpochDay(a) <= EpochDay(b) ==>
      0 <= EpochDay(b) - EpochDay(a) - 7 * Between(a, b, unit) < 7
    ensures unit == Weeks && EpochDay(b) < EpochDay(a) ==>
      0 <= 7 * Between(a, b, unit) - (EpochDay(b) - EpochDay(a)) < 7
    ensures unit == Months && PackedMonthDay(a) <= PackedMonthDay(b) ==>
      0 <= PackedMonthDay(b) - PackedMonthDay(a) - 32 * Between(a, b, unit) < 32
    ensures unit == Months && PackedMonthDay(b) < PackedMonthDay(a) ==>
      0 <= 32 * Between(a, b, unit) - (PackedMonthDay(b) - PackedMonthDay(a)) < 32
  {
    EpochDayOrder(PlusDays(a, EpochDay(b) - EpochDay(a)), b);
  }

  /** Advancing by k units moves forward exactly when k is positive. */
  lemma PlusDirection(d: Date, k: int, unit: Unit)
    ensures k == 0 ==> Plus(d, k, unit) == d
    ensures k > 0 ==> IsBefore(d, Plus(d, k, unit))
    ensures k < 0 ==> IsBefore(Plus(d, k, unit), d)
  {
    EpochDayOrder(d, Plus(d, k, unit));
    EpochDayOrder(Plus(d, k, unit), d);
    IsBeforeByMonth(d, Plus(d, k, unit));
    IsBeforeByMonth(Plus(d, k, unit), d);
  }

  /** Advancing by more units never gives an earlier date. */
  lemma PlusMonotone(d: Date, k1: int, k2: int, unit: Unit)
    requires k1 <= k2
    ensures !IsBefore(Plus(d, k2, unit), Plus(d, k1, unit))
    ensures k1 < k2 ==> IsBefore(Plus(d, k1, unit), Plus(d, k2, unit))
  {
    EpochDayOrder(Plus(d, k2, unit), Plus(d, k1, unit));
    EpochDayOrder(Plus(d, k1, unit), Plus(d, k2, unit));
    IsBeforeByMonth(Plus(d, k2, unit), Plus(d, k1, unit));
    IsBeforeByMonth(Plus(d, k1, unit), Plus(d, k2, unit));
  }

  /** The sign of between(a, b): never negative from a to a later or equal
      date, never positive to an earlier one; in days, negative exactly when b
      is earlier. */
  lemma BetweenSign(a: Date, b: Date, unit: Unit)
    ensures !IsBefore(b, a) ==> Between(a, b, unit) >= 0
    ensures IsBefore(b, a) ==> Between(a, b, unit) <= 0
    ensures unit == Days ==> (Between(a, b, unit) < 0 <==> IsBefore(b, a))
    ensures a == b ==> Between(a, b, unit) == 0
  {
    EpochDayOrder(b, a);
    IsBeforeByMonth(b, a);
  }

  /** LocalTime as a second of the day. */
  type SecondOfDay = s: int | 0 <= s < SecondsPerDay

  /** LocalDateTime, to whole seconds. */
  datatype DateTime = DateTime(date: Date, time: SecondOfDay)

  /** Seconds since 1970-01-01T00:00. */
  function Instant(t: DateTime): int {
    EpochDay(t.date) * SecondsPerDay + t.time
  }

  /** LocalDate.atStartOfDay. */
  function AtStartOfDay(d: Date): DateTime {
    DateTime(d, 0)
  }

  /** LocalDateTime.isBefore: date first, then time of day. */
  predicate DateTimeIsBefore(a: DateTime, b: DateTime) {
    IsBefore(a.date, b.date) || (a.date == b.date && a.time < b.time)
  }

  /** LocalDateTime.isAfter. */
  predicate DateTimeIsAfter(a: DateTime, b: DateTime) {
    DateTimeIsBefore(b, a)
  }

  /** The date-time order is the order of instants. */
  lemma InstantOrder(a: DateTime, b: DateTime)
    ensures DateTimeIsBefore(a, b) <==> Instant(a) < Instant(b)
  {
    EpochDayOrder(a.date, b.date);
    EpochDayOrder(b.date, a.date);
  }

  /** LocalDateTime.plus(Duration): add s seconds, carrying whole days into the date. */
  function PlusSeconds(t: DateTime, s: int): (r: DateTime)
    ensures Instant(r) == Instant(t) + s
  {
    var total := t.time + s;
    DateTime(PlusDays(t.date, total / SecondsPerDay), total % SecondsPerDay)
  }

  /** LocalDateTime.plus(k, unit) for a date unit: the date advances, the time of day is kept. */
  function PlusUnits(t: DateTime, k: int, unit: Unit): (r: DateTime)
    ensures r.time == t.time
  {
    DateTime(Plus(t.date, k, unit), t.time)
  }

  /** plusMonths clamps to the end of a shorter month (2024 is a leap year). */
  lemma MonthEndIsClamped()
    ensures PlusMonths(YearMonthDay(2024, 1, 31), 1) == YearMonthDay(2024, 2, 29)
    ensures PlusMonths(YearMonthDay(2023, 1, 31), 1) == YearMonthDay(2023, 2, 28)
  {
  }
}
