/**
 * The proleptic Gregorian calendar of Python's `datetime`: dates from
 * 0001-01-01 to 9999-12-31, a day number counted from 0001-01-01 (a
 * days-from-civil / civil-from-days pair), `date + timedelta(days=k)`, and
 * the `%d/%m/%Y`, `%d-%m-%Y` and `%Y-%m-%d` renderings the invoice uses.
 */
module Calendar {
  import opened Wrappers
  import opened Text

  datatype Date = Date(year: int, month: int, day: int)

  const MinYear: int := 1
  const MaxYear: int := 9999

  predicate IsLeap(y: int)
  {
    y % 4 == 0 && (y % 100 != 0 || y % 400 == 0)
  }

  function DaysInYear(y: int): int
  {
    if IsLeap(y) then 366 else 365
  }

  function DaysInMonth(y: int, m: int): (n: int)
    requires 1 <= m <= 12
    ensures 28 <= n <= 31
  {
    if m == 2 then (if IsLeap(y) then 29 else 28)
    else if m == 4 || m == 6 || m == 9 || m == 11 then 30
    else 31
  }

  predicate Valid(d: Date)
  {
    MinYear <= d.year <= MaxYear && 1 <= d.month <= 12 && 1 <= d.day <= DaysInMonth(d.year, d.month)
  }

  /** Days from 0001-01-01 to the first day of year `y`. */
  function DaysBeforeYear(y: int): nat
    requires y >= MinYear
  {
    if y == MinYear then 0 else DaysBeforeYear(y - 1) + DaysInYear(y - 1)
  }

  /** Days from the first of January of `y` to the first day of month `m`. */
  function DaysBeforeMonth(y: int, m: int): nat
    requires 1 <= m <= 12
  {
    if m == 1 then 0 else DaysBeforeMonth(y, m - 1) + DaysInMonth(y, m - 1)
  }

  /** The twelve months fill the year exactly. */
  lemma YearIsTwelveMonths(y: int)
    ensures DaysBeforeMonth(y, 12) + DaysInMonth(y, 12) == DaysInYear(y)
  {
    assert DaysBeforeMonth(y, 2) == 31;
    assert DaysBeforeMonth(y, 4) == 59 + (if IsLeap(y) then 1 else 0) + 31;
    assert DaysBeforeMonth(y, 6) == 120 + (if IsLeap(y) then 1 else 0) + 31;
    assert DaysBeforeMonth(y, 8) == 181 + (if IsLeap(y) then 1 else 0) + 31;
    assert DaysBeforeMonth(y, 10) == 243 + (if IsLeap(y) then 1 else 0) + 30;
    assert DaysBeforeMonth(y, 12) == 304 + (if IsLeap(y) then 1 else 0) + 30;
  }

  lemma {:induction false} MonthsBeforeEnd(y: int, m: int)
    requires 1 <= m <= 12
    ensures DaysBeforeMonth(y, m) + DaysInMonth(y, m) <= DaysInYear(y)
    decreases 12 - m
  {
    if m == 12 {
      YearIsTwelveMonths(y);
    } else {
      MonthsBeforeEnd(y, m + 1);
    }
  }

  lemma {:induction false} DaysBeforeMonthMonotone(y: int, m1: int, m2: int)
    requires 1 <= m1 <= m2 <= 12
    ensures DaysBeforeMonth(y, m1) + (if m1 < m2 then DaysInMonth(y, m1) else 0) <= DaysBeforeMonth(y, m2)
    decreases m2 - m1
  {
    if m1 < m2 - 1 {
      DaysBeforeMonthMonotone(y, m1, m2 - 1);
    }
  }

  lemma {:induction false} DaysBeforeYearMonotone(y1: int, y2: int)
    requires MinYear <= y1 <= y2
    ensures DaysBeforeYear(y1) + (if y1 < y2 then DaysInYear(y1) else 0) <= DaysBeforeYear(y2)
    decreases y2 - y1
  {
    if y1 < y2 - 1 {
      DaysBeforeYearMonotone(y1, y2 - 1);
    }
  }

  /** Days-from-civil: the number of days from 0001-01-01 to `d` (`d.toordinal() - 1`). */
  function DayNumber(d: Date): nat
    requires Valid(d)
  {
    DaysBeforeYear(d.year) + DaysBeforeMonth(d.year, d.month) + d.day - 1
  }

  /** One past the last day number Python's `date` can represent (10000-01-01). */
  function DayNumberLimit(): nat
  {
    DaysBeforeYear(MaxYear + 1)
  }

  /** Civil-from-days: the date `n` days after 0001-01-01. */
  function FromDayNumber(n: nat): Date
  {
    FromYearDay(MinYear, n)
  }

  /** The date `n` days after the first of January of year `y`. */
  function FromYearDay(y: int, n: nat): Date
    requires y >= MinYear
    decreases n
  {
    if n < DaysInYear(y) then FromMonthDay(y, 1, n)
    else FromYearDay(y + 1, n - DaysInYear(y))
  }

  /** The date `n` days after the first day of month `m` of year `y`, within that year. */
  function FromMonthDay(y: int, m: int, n: nat): Date
    requires 1 <= m <= 12
    decreases 12 - m
  {
    if m == 12 || n < DaysInMonth(y, m) then Date(y, m, n + 1)
    else FromMonthDay(y, m + 1, n - DaysInMonth(y, m))
  }

  lemma {:induction false} FromMonthDayCorrect(y: int, m: int, n: nat)
    requires 1 <= m <= 12 && DaysBeforeMonth(y, m) + n < DaysInYear(y)
    ensures var r := FromMonthDay(y, m, n);
      r.year == y && 1 <= r.month <= 12 && 1 <= r.day <= DaysInMonth(y, r.month)
      && DaysBeforeMonth(y, r.month) + r.day - 1 == DaysBeforeMonth(y, m) + n
    decreases 12 - m
  {
    var r := FromMonthDay(y, m, n);
    if m == 12 {
      YearIsTwelveMonths(y);
      assert r == Date(y, 12, n + 1);
    } else if n < DaysInMonth(y, m) {
      assert r == Date(y, m, n + 1);
    } else {
      var k := DaysInMonth(y, m);
      assert DaysBeforeMonth(y, m + 1) == DaysBeforeMonth(y, m) + k;
      assert r == FromMonthDay(y, m + 1, n - k);
      FromMonthDayCorrect(y, m + 1, n - k);
    }
  }

  lemma {:induction false} FromYearDayCorrect(y: int, n: nat)
    requires y >= MinYear
    ensures var r := FromYearDay(y, n);
      r.year >= y && 1 <= r.month <= 12 && 1 <= r.day <= DaysInMonth(r.year, r.month)
      && DaysBeforeYear(r.year) + DaysBeforeMonth(r.year, r.month) + r.day - 1 == DaysBeforeYear(y) + n
      && n < DaysBeforeYear(r.year) - DaysBeforeYear(y) + DaysInYear(r.year)
    decreases n
  {
    var k := DaysInYear(y);
    if n < k {
      assert DaysBeforeMonth(y, 1) == 0;
      assert FromYearDay(y, n) == FromMonthDay(y, 1, n);
      FromMonthDayCorrect(y, 1, n);
    } else {
      assert FromYearDay(y, n) == FromYearDay(y + 1, n - k);
      assert DaysBeforeYear(y + 1) == DaysBeforeYear(y) + k;
      FromYearDayCorrect(y + 1, n - k);
    }
  }

  /** Every day number below the limit names a valid date, and naming it back gives the same number. */
  lemma DayNumberOfFromDayNumber(n: nat)
    requires n < DayNumberLimit()
    ensures Valid(FromDayNumber(n)) && DayNumber(FromDayNumber(n)) == n
  {
    FromYearDayCorrect(MinYear, n);
    var r := FromDayNumber(n);
    if r.year > MaxYear {
      DaysBeforeYearMonotone(MaxYear + 1, r.year);
    }
  }

  /** Civil-from-days undoes days-from-civil on every valid date. */
  lemma FromDayNumberOfDayNumber(d: Date)
    requires Valid(d)
    ensures DayNumber(d) < DayNumberLimit()
    ensures FromDayNumber(DayNumber(d)) == d
  {
    DayNumberBounds(d);
    DaysBeforeYearMonotone(d.year, MaxYear + 1);
    var e := FromDayNumber(DayNumber(d));
    DayNumberOfFromDayNumber(DayNumber(d));
    DayNumberInjective(e, d);
  }

  /** Distinct valid dates have distinct day numbers. */
  lemma DayNumberInjective(a: Date, b: Date)
    requires Valid(a) && Valid(b) && DayNumber(a) == DayNumber(b)
    ensures a == b
  {
    if Before(a, b) {
      DayNumberOrder(a, b);
    } else if Before(b, a) {
      DayNumberOrder(b, a);
    }
  }

  /** `d + timedelta(days=k)`: `None` where Python raises OverflowError. */
  function AddDays(d: Date, k: int): (r: Option<Date>)
    requires Valid(d)
    ensures r.Some? <==> 0 <= DayNumber(d) + k < DayNumberLimit()
    ensures r.Some? ==> Valid(r.value) && DayNumber(r.value) == DayNumber(d) + k
  {
    var n := DayNumber(d) + k;
    if 0 <= n < DayNumberLimit() then
      DayNumberOfFromDayNumber(n);
      Some(FromDayNumber(n))
    else None
  }

  /** The calendar's successor, stated without day numbers. */
  function Tomorrow(d: Date): Date
    requires Valid(d)
  {
    if d.day < DaysInMonth(d.year, d.month) then Date(d.year, d.month, d.day + 1)
    else if d.month < 12 then Date(d.year, d.month + 1, 1)
    else Date(d.year + 1, 1, 1)
  }

  /** Adding one day steps to the next day, over the end of a month and of a year. */
  lemma AddOneDay(d: Date)
    requires Valid(d) && d != Date(MaxYear, 12, 31)
    ensures AddDays(d, 1) == Some(Tomorrow(d))
  {
    var t := Tomorrow(d);
    if d.day < DaysInMonth(d.year, d.month) {
      AddDaysWithinMonth(d, 1);
    } else if d.month < 12 {
      AddDaysIntoNextMonth(d, 1);
    } else {
      AddDaysIntoNextYear(d, 1);
    }
  }

  /** Adding zero days is the identity. */
  lemma AddZeroDays(d: Date)
    requires Valid(d)
    ensures AddDays(d, 0) == Some(d)
  {
    FromDayNumberOfDayNumber(d);
  }

  /** Adding `a` and then `b` days is adding `a + b` days, when every step stays in range. */
  lemma AddDaysCompose(d: Date, a: int, b: int)
    requires Valid(d) && AddDays(d, a).Some?
    ensures AddDays(AddDays(d, a).value, b) == AddDays(d, a + b)
  {
    var m := AddDays(d, a).value;
    if AddDays(d, a + b).Some? {
      FromDayNumberOfDayNumber(AddDays(d, a + b).value);
      FromDayNumberOfDayNumber(AddDays(m, b).value);
    }
  }

  /** Adding k days within one month moves the day of the month by k. */
  lemma AddDaysWithinMonth(d: Date, k: nat)
    requires Valid(d) && d.day + k <= DaysInMonth(d.year, d.month)
    ensures AddDays(d, k) == Some(Date(d.year, d.month, d.day + k))
  {
    FromDayNumberOfDayNumber(Date(d.year, d.month, d.day + k));
  }

  /** Adding k days that run past the end of a month (not December) lands in the next month. */
  lemma AddDaysIntoNextMonth(d: Date, k: nat)
    requires Valid(d) && d.month < 12
    requires DaysInMonth(d.year, d.month) < d.day + k <= DaysInMonth(d.year, d.month) + DaysInMonth(d.year, d.month + 1)
    ensures AddDays(d, k) == Some(Date(d.year, d.month + 1, d.day + k - DaysInMonth(d.year, d.month)))
  {
    var e := Date(d.year, d.month + 1, d.day + k - DaysInMonth(d.year, d.month));
    assert DaysBeforeMonth(d.year, d.month + 1) == DaysBeforeMonth(d.year, d.month) + DaysInMonth(d.year, d.month);
    assert Valid(e) && DayNumber(e) == DayNumber(d) + k;
    FromDayNumberOfDayNumber(e);
  }

  /** Adding k days that run past the 31st of December lands in January of the next year. */
  lemma AddDaysIntoNextYear(d: Date, k: nat)
    requires Valid(d) && d.month == 12 && d.year < MaxYear && 31 < d.day + k <= 62
    ensures AddDays(d, k) == Some(Date(d.year + 1, 1, d.day + k - 31))
  {
    var e := Date(d.year + 1, 1, d.day + k - 31);
    YearIsTwelveMonths(d.year);
    assert DaysBeforeYear(d.year + 1) == DaysBeforeYear(d.year) + DaysInYear(d.year);
    assert Valid(e) && DayNumber(e) == DayNumber(d) + k;
    FromDayNumberOfDayNumber(e);
  }

  // ---------------------------------------------------------------------
  // Renderings and parsing.
  // ---------------------------------------------------------------------

  /** `strftime("%d<sep>%m<sep>%Y")`. */
  function FormatDMY(d: Date, sep: char): (s: string)
    requires Valid(d)
    ensures |s| == 10 && s[2] == sep && s[5] == sep
  {
    Fixed(d.day, 2) + [sep] + Fixed(d.month, 2) + [sep] + Fixed(d.year, 4)
  }

  /** The three fields of a day-first rendering sit at fixed positions. */
  lemma FormatDMYFields(d: Date, sep: char)
    requires Valid(d)
    ensures var s := FormatDMY(d, sep);
      s[..2] == Fixed(d.day, 2) && s[3..5] == Fixed(d.month, 2) && s[6..] == Fixed(d.year, 4)
      && s == s[..2] + [sep] + s[3..5] + [sep] + s[6..]
  {
  }

  /** `strftime("%Y-%m-%d")`. */
  function FormatISO(d: Date): (s: string)
    requires Valid(d)
    ensures |s| == 10 && s[4] == '-' && s[7] == '-'
  {
    Fixed(d.year, 4) + IsoTail(d)
  }

  /** The `-%m-%d` part of the ISO rendering. */
  function IsoTail(d: Date): (s: string)
    requires Valid(d)
    ensures |s| == 6 && s[0] == '-' && s[3] == '-'
  {
    "-" + (Fixed(d.month, 2) + ("-" + Fixed(d.day, 2)))
  }

  /** `datetime.strptime(s, "%d/%m/%Y")` on two-digit day and month: `None` where Python raises ValueError. */
  function ParseDMY(s: string): (r: Option<Date>)
    ensures r.Some? ==> Valid(r.value) && |s| == 10 && s[2] == '/' && s[5] == '/'
  {
    if |s| == 10 && s[2] == '/' && s[5] == '/'
       && AllDigits(s[..2]) && AllDigits(s[3..5]) && AllDigits(s[6..])
    then
      var d := Date(ParseDigits(s[6..]), ParseDigits(s[3..5]), ParseDigits(s[..2]));
      if Valid(d) then Some(d) else None
    else None
  }

  /** Parsing a rendered date gives the date back. */
  lemma ParseFormatDMY(d: Date)
    requires Valid(d)
    ensures ParseDMY(FormatDMY(d, '/')) == Some(d)
  {
    var s := FormatDMY(d, '/');
    assert s[..2] == Fixed(d.day, 2) && s[3..5] == Fixed(d.month, 2) && s[6..] == Fixed(d.year, 4);
    ParseFixed(d.day, 2);
    ParseFixed(d.month, 2);
    ParseFixed(d.year, 4);
  }

  /** Rendering a parsed date gives the input string back. */
  lemma FormatParseDMY(s: string)
    requires ParseDMY(s).Some?
    ensures FormatDMY(ParseDMY(s).value, '/') == s
  {
    FixedParse(s[..2]);
    FixedParse(s[3..5]);
    FixedParse(s[6..]);
    assert s == s[..2] + ['/'] + s[3..5] + ['/'] + s[6..];
  }

  // ---------------------------------------------------------------------
  // The ISO rendering orders as the calendar does.
  // ---------------------------------------------------------------------

  lemma {:induction false} LessFixed(x: nat, y: nat, w: nat)
    requires x < Pow10(w) && y < Pow10(w)
    ensures Less(Fixed(x, w), Fixed(y, w)) <==> x < y
  {
    if w > 0 {
      var p := Pow10(w - 1);
      assert x / 10 < p && y / 10 < p by {
        assert Pow10(w) == 10 * p;
      }
      var a', b' := Fixed(x / 10, w - 1), Fixed(y / 10, w - 1);
      var c, c' := DigitChar(x % 10), DigitChar(y % 10);
      LessFixed(x / 10, y / 10, w - 1);
      LessAppend(a', [c], b', [c']);
      assert Less([c], [c']) <==> x % 10 < y % 10 by {
        assert [c][1..] == [] && [c'][1..] == [];
        LessIrreflexive([]);
      }
      if x / 10 == y / 10 {
        assert x < y <==> x % 10 < y % 10;
      } else {
        ParseFixed(x / 10, w - 1);
        ParseFixed(y / 10, w - 1);
        assert x < y <==> x / 10 < y / 10;
      }
    }
  }

  /** A date lies in its month and its year. */
  lemma DayNumberBounds(d: Date)
    requires Valid(d)
    ensures DaysBeforeYear(d.year) + DaysBeforeMonth(d.year, d.month) <= DayNumber(d)
    ensures DayNumber(d) < DaysBeforeYear(d.year) + DaysBeforeMonth(d.year, d.month) + DaysInMonth(d.year, d.month)
    ensures DayNumber(d) < DaysBeforeYear(d.year) + DaysInYear(d.year)
  {
    MonthsBeforeEnd(d.year, d.month);
  }

  /** The later of two dates has the larger day number. */
  lemma DayNumberOrder(a: Date, b: Date)
    requires Valid(a) && Valid(b)
    requires Before(a, b)
    ensures DayNumber(a) < DayNumber(b)
  {
    DayNumberBounds(a);
    DayNumberBounds(b);
    if a.year < b.year {
      DaysBeforeYearMonotone(a.year, b.year);
    } else if a.month < b.month {
      DaysBeforeMonthMonotone(a.year, a.month, b.month);
    }
  }

  /** The calendar order of two dates, field by field. */
  predicate Before(a: Date, b: Date)
  {
    a.year < b.year || (a.year == b.year && (a.month < b.month || (a.month == b.month && a.day < b.day)))
  }

  /** The `-%m-%d` tails of two ISO keys order as month, then day. */
  lemma IsoTailOrder(a: Date, b: Date)
    requires Valid(a) && Valid(b)
    ensures Less(IsoTail(a), IsoTail(b)) <==> a.month < b.month || (a.month == b.month && a.day < b.day)
  {
    var ma, mb := Fixed(a.month, 2), Fixed(b.month, 2);
    var da, db := Fixed(a.day, 2), Fixed(b.day, 2);
    LessIrreflexive("-");
    LessAppend("-", ma + ("-" + da), "-", mb + ("-" + db));
    LessAppend(ma, "-" + da, mb, "-" + db);
    LessAppend("-", da, "-", db);
    LessFixed(a.month, b.month, 2);
    LessFixed(a.day, b.day, 2);
    ParseFixed(a.month, 2);
    ParseFixed(b.month, 2);
  }

  /** Two ISO keys order as year, then month, then day. */
  lemma IsoOrderIsFieldOrder(a: Date, b: Date)
    requires Valid(a) && Valid(b)
    ensures Less(FormatISO(a), FormatISO(b)) <==> Before(a, b)
  {
    var ya, yb := Fixed(a.year, 4), Fixed(b.year, 4);
    LessAppend(ya, IsoTail(a), yb, IsoTail(b));
    LessFixed(a.year, b.year, 4);
    ParseFixed(a.year, 4);
    ParseFixed(b.year, 4);
    assert ya == yb <==> a.year == b.year;
    IsoTailOrder(a, b);
  }

  /** Comparing `%Y-%m-%d` strings as Python does compares the dates they name. */
  lemma IsoOrderIsDateOrder(a: Date, b: Date)
    requires Valid(a) && Valid(b)
    ensures Less(FormatISO(a), FormatISO(b)) <==> DayNumber(a) < DayNumber(b)
  {
    IsoOrderIsFieldOrder(a, b);
    if Before(a, b) {
      DayNumberOrder(a, b);
    } else if a != b {
      assert Before(b, a);
      DayNumberOrder(b, a);
    }
  }

  // ---------------------------------------------------------------------
  // The due date of the invoice header.
  // ---------------------------------------------------------------------

  /** `due_days` with its default of 0 when the key is absent. */
  function DueDaysOf(dueDays: Option<int>): int
  {
    if dueDays.Some? then dueDays.value else 0
  }

  /**
   * `(strptime(emission, "%d/%m/%Y") + timedelta(days=due_days)).strftime("%d/%m/%Y")`
   * with `due_days` defaulting to 0: `None` where Python raises (a
   * malformed emission date, or a due date outside years 1 to 9999).
   */
  function DueDate(emission: string, dueDays: Option<int>): (r: Option<string>)
    ensures ParseDMY(emission).None? ==> r.None?
    ensures r.Some? ==> ParseDMY(emission).Some? && ParseDMY(r.value).Some?
    ensures r.Some? ==> DayNumber(ParseDMY(r.value).value)
                        == DayNumber(ParseDMY(emission).value) + DueDaysOf(dueDays)
  {
    match ParseDMY(emission)
    case None => None
    case Some(d) =>
      match AddDays(d, DueDaysOf(dueDays))
      case None => None
      case Some(due) =>
        ParseFormatDMY(due);
        Some(FormatDMY(due, '/'))
  }

  /** Without `due_days` the due date is the emission date itself. */
  lemma DueDateDefault(emission: string)
    requires ParseDMY(emission).Some?
    ensures DueDate(emission, None) == Some(emission)
    ensures DueDate(emission, Some(0)) == Some(emission)
  {
    AddZeroDays(ParseDMY(emission).value);
    FormatParseDMY(emission);
  }

  /** Any in-range due date of a well-formed emission date is rendered; only overflow fails. */
  lemma DueDateDefined(d: Date, k: int)
    requires Valid(d) && 0 <= DayNumber(d) + k < DayNumberLimit()
    ensures DueDate(FormatDMY(d, '/'), Some(k)) == Some(FormatDMY(AddDays(d, k).value, '/'))
  {
    ParseFormatDMY(d);
  }

  lemma OneDigit(n: nat)
    requires n < 10
    ensures Fixed(n, 2) == ['0', DigitChar(n)]
  {
    assert n / 10 == 0 && n % 10 == n;
    assert Fixed(n, 2) == Fixed(0, 1) + [DigitChar(n)];
    assert Fixed(0, 1) == [] + [DigitChar(0)];
  }

  lemma TwoDigits(n: nat)
    requires 10 <= n < 100
    ensures Fixed(n, 2) == [DigitChar(n / 10), DigitChar(n % 10)]
  {
    assert Fixed(n / 10, 1) == Fixed(0, 0) + [DigitChar(n / 10)];
  }

  lemma Year2025()
    ensures Fixed(2025, 4) == "2025"
  {
    assert Fixed(2, 1) == [] + ['2'];
    assert Fixed(20, 2) == "2" + ['0'];
    assert Fixed(202, 3) == "20" + ['2'];
  }

  lemma ExampleEmission()
    ensures FormatDMY(Date(2025, 1, 28), '/') == "28/01/2025"
  {
    TwoDigits(28);
    OneDigit(1);
    Year2025();
  }

  lemma ExampleDue()
    ensures FormatDMY(Date(2025, 2, 7), '/') == "07/02/2025"
  {
    OneDigit(7);
    OneDigit(2);
    Year2025();
  }

  /** 28/01/2025 plus 10 days is 07/02/2025: the addition crosses the end of January. */
  lemma DueDateExample()
    ensures DueDate("28/01/2025", Some(10)) == Some("07/02/2025")
  {
    var d, e := Date(2025, 1, 28), Date(2025, 2, 7);
    assert DueDate(FormatDMY(d, '/'), Some(10)) == Some(FormatDMY(e, '/')) by {
      AddDaysIntoNextMonth(d, 10);
      DueDateDefined(d, 10);
    }
    ExampleEmission();
    ExampleDue();
  }
}
