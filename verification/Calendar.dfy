/** Dates of the proleptic Gregorian calendar with a time of day in UTC, and the period arithmetic of
    the quarantine digests. Years are not bounded. */
module Calendar {
  const MICROSECONDS_PER_DAY := 24 * 3600 * 1_000_000

  datatype Moment = Moment(year: int, month: int, day: int, time: int) {
    predicate Valid() {
      1 <= month <= 12 && 1 <= day <= DaysIn(year, month) && 0 <= time < MICROSECONDS_PER_DAY
    }
  }

  predicate Leap(year: int) {
    year % 4 == 0 && (year % 100 != 0 || year % 400 == 0)
  }

  /** `calendar.monthrange(year, month)[1]` */
  function DaysIn(year: int, month: int): (d: int)
    ensures 28 <= d <= 31
  {
    if month == 2 then (if Leap(year) then 29 else 28)
    else if month in {4, 6, 9, 11} then 30
    else 31
  }

  predicate Lt(a: Moment, b: Moment) {
    a.year < b.year || (a.year == b.year &&
      (a.month < b.month || (a.month == b.month &&
        (a.day < b.day || (a.day == b.day && a.time < b.time)))))
  }

  predicate Le(a: Moment, b: Moment) {
    a == b || Lt(a, b)
  }

  function NextDay(m: Moment): Moment {
    if m.day < DaysIn(m.year, m.month) then m.(day := m.day + 1)
    else if m.month < 12 then m.(month := m.month + 1, day := 1)
    else m.(year := m.year + 1, month := 1, day := 1)
  }

  function PreviousDay(m: Moment): Moment {
    if m.day > 1 then m.(day := m.day - 1)
    else if m.month > 1 then m.(month := m.month - 1, day := DaysIn(m.year, m.month - 1))
    else m.(year := m.year - 1, month := 12, day := 31)
  }

  /** `value + timedelta(days=n)` */
  function AddDays(m: Moment, n: int): Moment
    decreases if n >= 0 then n else -n
  {
    if n == 0 then m
    else if n > 0 then AddDays(NextDay(m), n - 1)
    else AddDays(PreviousDay(m), n + 1)
  }

  datatype Periodicity = Daily | Weekly | Monthly

  function AddMonths(m: Moment, amount: int): Moment {
    var index := m.year * 12 + (m.month - 1) + amount;
    var year, month := index / 12, index % 12 + 1;
    var last := DaysIn(year, month);
    Moment(year, month, if m.day <= last then m.day else last, m.time)
  }

  /** `_shift_period` */
  function ShiftPeriod(m: Moment, periodicity: Periodicity, amount: int): Moment {
    match periodicity
    case Daily => AddDays(m, amount)
    case Weekly => AddDays(m, 7 * amount)
    case Monthly => AddMonths(m, amount)
  }

  lemma {:induction false} AddDaysForward(a: Moment, b: Moment, n: nat)
    requires a.Valid() && b.Valid()
    ensures AddDays(a, n).Valid()
    ensures n > 0 ==> Lt(a, AddDays(a, n))
    ensures Lt(a, b) ==> Lt(AddDays(a, n), AddDays(b, n))
    decreases n
  {
    if n > 0 {
      AddDaysForward(NextDay(a), NextDay(b), n - 1);
    }
  }

  lemma {:induction false} AddDaysBack(a: Moment, n: nat)
    requires a.Valid()
    ensures AddDays(a, 0 - n).Valid()
    ensures n > 0 ==> Lt(AddDays(a, 0 - n), a)
    ensures AddDays(AddDays(a, 0 - n), n) == a
    decreases n
  {
    if n > 0 {
      var p := PreviousDay(a);
      assert NextDay(p) == a;
      AddDaysBack(p, n - 1);
      DaysCompose(AddDays(p, 0 - (n - 1)), n - 1);
      assert AddDays(a, 0 - n) == AddDays(p, 0 - (n - 1));
    }
  }

  lemma {:induction false} DaysCompose(m: Moment, n: nat)
    ensures AddDays(m, n + 1) == NextDay(AddDays(m, n))
    decreases n
  {
    if n > 0 {
      DaysCompose(NextDay(m), n - 1);
    }
  }

  /** A shifted moment is a valid date. */
  lemma ShiftIsValid(m: Moment, periodicity: Periodicity, amount: int)
    requires m.Valid()
    ensures ShiftPeriod(m, periodicity, amount).Valid()
  {
    var days := if periodicity.Weekly? then 7 * amount else amount;
    if days >= 0 {
      AddDaysForward(m, m, days);
    } else {
      AddDaysBack(m, -days);
    }
  }

  lemma MonthsMoveOn(m: Moment, amount: int)
    requires m.Valid()
    ensures amount > 0 ==> Lt(m, AddMonths(m, amount))
    ensures amount < 0 ==> Lt(AddMonths(m, amount), m)
  {
    var before, after := m.year * 12 + (m.month - 1), m.year * 12 + (m.month - 1) + amount;
    assert before / 12 == m.year && before % 12 == m.month - 1;
  }

  /** Shifting forward moves strictly forward, shifting back strictly back. */
  lemma ShiftMovesOn(m: Moment, periodicity: Periodicity, amount: int)
    requires m.Valid()
    ensures amount > 0 ==> Lt(m, ShiftPeriod(m, periodicity, amount))
    ensures amount < 0 ==> Lt(ShiftPeriod(m, periodicity, amount), m)
  {
    var days := if periodicity.Weekly? then 7 * amount else amount;
    if days >= 0 {
      AddDaysForward(m, m, days);
    } else {
      AddDaysBack(m, -days);
    }
    MonthsMoveOn(m, amount);
  }

  /** Two days of one month that the end of the target month clamps to its last day, at times of day
      in the opposite order. */
  predicate ClampedTogether(a: Moment, b: Moment, periodicity: Periodicity, amount: int) {
    && periodicity.Monthly?
    && a.year == b.year && a.month == b.month && a.day < b.day && b.time < a.time
    && DaysIn(AddMonths(a, amount).year, AddMonths(a, amount).month) <= a.day
  }

  lemma MonthsKeepOrder(a: Moment, b: Moment, amount: int)
    requires a.Valid() && b.Valid() && Lt(a, b)
    ensures Le(AddMonths(a, amount), AddMonths(b, amount)) <==> !ClampedTogether(a, b, Monthly, amount)
  {
    var i, j := a.year * 12 + (a.month - 1) + amount, b.year * 12 + (b.month - 1) + amount;
    if i < j {
      assert i / 12 < j / 12 || (i / 12 == j / 12 && i % 12 < j % 12);
    } else {
      assert a.year == b.year && a.month == b.month;
    }
  }

  /** Shifting forward keeps the order of two moments, except when the end of a month clamps both to
      the same day and their times of day then swap them. */
  lemma ShiftKeepsOrderExactlyWhen(a: Moment, b: Moment, periodicity: Periodicity, amount: nat)
    requires a.Valid() && b.Valid() && Le(a, b)
    ensures Le(ShiftPeriod(a, periodicity, amount), ShiftPeriod(b, periodicity, amount)) <==>
              !ClampedTogether(a, b, periodicity, amount)
  {
    if a != b {
      AddDaysForward(a, b, if periodicity.Weekly? then 7 * amount else amount);
      MonthsKeepOrder(a, b, amount);
    }
  }

  /** The order is lost for late on 30 January and early on 31 January. */
  lemma ShiftCanSwap()
    ensures var a := Moment(2025, 1, 30, 23 * 3600 * 1_000_000);
            var b := Moment(2025, 1, 31, 1 * 3600 * 1_000_000);
            a.Valid() && b.Valid() && Lt(a, b) && Lt(ShiftPeriod(b, Monthly, 1), ShiftPeriod(a, Monthly, 1))
  {
  }

  lemma MonthBackUndoes(m: Moment)
    requires m.Valid()
    ensures AddMonths(AddMonths(m, -1), 1) == m <==> m.day <= DaysIn(AddMonths(m, -1).year, AddMonths(m, -1).month)
  {
    var index := m.year * 12 + (m.month - 1) - 1;
    assert (index / 12) * 12 + index % 12 == index;
    assert (index + 1) / 12 == m.year && (index + 1) % 12 == m.month - 1;
  }

  /** Whole days can be taken back, months cannot always: the clamped day is lost. */
  lemma ShiftBackUndoes(m: Moment, periodicity: Periodicity)
    requires m.Valid()
    ensures ShiftPeriod(ShiftPeriod(m, periodicity, -1), periodicity, 1) == m <==>
              !periodicity.Monthly? || m.day <= DaysIn(AddMonths(m, -1).year, AddMonths(m, -1).month)
  {
    AddDaysBack(m, if periodicity.Weekly? then 7 else 1);
    MonthBackUndoes(m);
  }

  // ---- the arithmetic by the numbers of the days ----

  /** Days before a month in a year without leap day. */
  function DaysBefore(month: int): int {
    match month
    case 1 => 0 case 2 => 31 case 3 => 59 case 4 => 90 case 5 => 120 case 6 => 151
    case 7 => 181 case 8 => 212 case 9 => 243 case 10 => 273 case 11 => 304 case _ => 334
  }

  /** The number of a day, counted from the beginning of year 1: 365 days a year, a leap day every four
      years, but not every hundred, but every four hundred. */
  function DayNumber(m: Moment): int {
    var y := m.year - 1;
    var leapDay := if m.month > 2 && m.year % 4 == 0 && (m.year % 100 != 0 || m.year % 400 == 0) then 1 else 0;
    365 * y + y / 4 - y / 100 + y / 400 + DaysBefore(m.month) + leapDay + m.day
  }

  /** A year has 365 days, or 366. */
  lemma YearOn(year: int)
    ensures year / 4 - (year - 1) / 4 == if year % 4 == 0 then 1 else 0
    ensures year / 100 - (year - 1) / 100 == if year % 100 == 0 then 1 else 0
    ensures year / 400 - (year - 1) / 400 == if year % 400 == 0 then 1 else 0
    ensures year % 400 == 0 ==> year % 100 == 0
    ensures year % 100 == 0 ==> year % 4 == 0
  {
  }

  lemma NextDayNumber(m: Moment)
    requires m.Valid()
    ensures DayNumber(NextDay(m)) == DayNumber(m) + 1 && NextDay(m).Valid() && NextDay(m).time == m.time
  {
    if m.day == DaysIn(m.year, m.month) {
      if m.month < 12 { NextMonthNumber(m); } else { NextYearNumber(m); }
    }
  }

  lemma NextMonthNumber(m: Moment)
    requires 1 <= m.month < 12 && m.day == DaysIn(m.year, m.month)
    ensures DayNumber(m.(month := m.month + 1, day := 1)) == DayNumber(m) + 1
  {
    MonthOn(m.year, m.month);
  }

  lemma NextYearNumber(m: Moment)
    requires m.month == 12 && m.day == 31
    ensures DayNumber(m.(year := m.year + 1, month := 1, day := 1)) == DayNumber(m) + 1
  {
    YearOn(m.year);
  }

  /** The months have their lengths. */
  lemma MonthOn(year: int, month: int)
    requires 1 <= month < 12
    ensures DayNumber(Moment(year, month + 1, 1, 0)) == DayNumber(Moment(year, month, 1, 0)) + DaysIn(year, month)
  {
  }

  lemma PreviousDayNumber(m: Moment)
    requires m.Valid()
    ensures DayNumber(PreviousDay(m)) == DayNumber(m) - 1 && PreviousDay(m).Valid() && PreviousDay(m).time == m.time
  {
    var p := PreviousDay(m);
    assert NextDay(p) == m;
    NextDayNumber(p);
  }

  lemma {:induction false} AddDaysNumber(m: Moment, n: int)
    requires m.Valid()
    ensures DayNumber(AddDays(m, n)) == DayNumber(m) + n && AddDays(m, n).time == m.time
    decreases if n >= 0 then n else -n
  {
    if n > 0 {
      NextDayNumber(m);
      AddDaysNumber(NextDay(m), n - 1);
    } else if n < 0 {
      PreviousDayNumber(m);
      AddDaysNumber(PreviousDay(m), n + 1);
    }
  }

  /** A day is one day on, a week is seven, at the same time of day. */
  lemma DaysAndWeeks(m: Moment, amount: int)
    requires m.Valid()
    ensures DayNumber(ShiftPeriod(m, Daily, amount)) == DayNumber(m) + amount
    ensures DayNumber(ShiftPeriod(m, Weekly, amount)) == DayNumber(m) + 7 * amount
    ensures ShiftPeriod(m, Daily, amount).time == ShiftPeriod(m, Weekly, amount).time == m.time
  {
    AddDaysNumber(m, amount);
    AddDaysNumber(m, 7 * amount);
  }

  /** A month is the same day so many months on, or the last day there if that month has no such day. */
  lemma MonthsOn(m: Moment, amount: int)
    requires m.Valid()
    ensures var r := ShiftPeriod(m, Monthly, amount);
            && r.year * 12 + r.month == m.year * 12 + m.month + amount && 1 <= r.month <= 12 && r.time == m.time
            && (r.(day := m.day).Valid() ==> r.day == m.day)
            && (!r.(day := m.day).Valid() ==> r.day < m.day && r.Valid() && !r.(day := r.day + 1).Valid())
  {
    var index := m.year * 12 + (m.month - 1) + amount;
    assert index / 12 * 12 + index % 12 == index;
  }

  /** Which days there are: two that follow each other by number are the only ones with these numbers. */
  lemma MonthLengths(year: int, month: int)
    requires 1 <= month <= 12
    ensures var first := Moment(year, month, 1, 0);
            var next := if month < 12 then Moment(year, month + 1, 1, 0) else Moment(year + 1, 1, 1, 0);
            DaysIn(year, month) == DayNumber(next) - DayNumber(first)
  {
    if month < 12 { MonthOn(year, month); } else { YearOn(year); }
  }
}
