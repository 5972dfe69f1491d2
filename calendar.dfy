/** Date-only (UTC) calendar arithmetic as the application does it with
    `Date` objects anchored at midnight UTC: proleptic Gregorian dates, their
    day numbers, weekdays, `YYYY-MM-DD` strings, the business-day generator of
    data_manager.js, and the `HH:MM` stamps written for late arrivals. */
module Calendar {
  import opened Collections
  import opened Text

  datatype Date = Date(year: int, month: int, day: int)

  predicate IsLeapYear(y: int) {
    y % 4 == 0 && (y % 100 != 0 || y % 400 == 0)
  }

  function DaysInMonth(y: int, m: int): int
    requires 1 <= m <= 12
  {
    if m == 2 then (if IsLeapYear(y) then 29 else 28)
    else if m == 4 || m == 6 || m == 9 || m == 11 then 30
    else 31
  }

  function DaysInYear(y: int): int {
    if IsLeapYear(y) then 366 else 365
  }

  predicate ValidDate(d: Date) {
    1 <= d.month <= 12 && 1 <= d.day <= DaysInMonth(d.year, d.month)
  }

  /** Dates that `toISOString` writes with a four-digit year. */
  predicate Formattable(d: Date) {
    ValidDate(d) && 0 <= d.year <= 9999
  }

  // ---------------------------------------------------------------------
  // Day numbers
  // ---------------------------------------------------------------------

  /** Days from 0000-01-01 to the first day of year `y`: 365 per year plus
      one per leap year before `y`. */
  function DaysBeforeYear(y: int): int {
    365 * y + (y + 3) / 4 - (y + 99) / 100 + (y + 399) / 400
  }

  lemma {:induction false} DaysBeforeNextYear(y: int)
    ensures DaysBeforeYear(y + 1) == DaysBeforeYear(y) + DaysInYear(y)
  {
    CountStep4(y);
    CountStep100(y);
    CountStep400(y);
    LeapDivisors(y);
  }

  lemma {:induction false} LeapDivisors(y: int)
    ensures y % 400 == 0 ==> y % 100 == 0
    ensures y % 100 == 0 ==> y % 4 == 0
  {
    if y % 400 == 0 {
      var k := y / 400;
      assert y == 100 * (4 * k);
    }
    if y % 100 == 0 {
      var k := y / 100;
      assert y == 4 * (25 * k);
    }
  }

  lemma {:induction false} CountStep4(y: int)
    ensures (y + 4) / 4 == (y + 3) / 4 + (if y % 4 == 0 then 1 else 0)
  {
    var q, r := (y + 3) / 4, (y + 3) % 4;
    assert y + 3 == 4 * q + r && 0 <= r < 4;
    if r == 3 {
      assert y == 4 * q;
      assert y + 4 == 4 * (q + 1);
    } else {
      assert y + 4 == 4 * q + (r + 1) && r + 1 < 4;
      assert y == 4 * (q - 1) + (r + 1);
    }
  }

  lemma {:induction false} CountStep100(y: int)
    ensures (y + 100) / 100 == (y + 99) / 100 + (if y % 100 == 0 then 1 else 0)
  {
    var q, r := (y + 99) / 100, (y + 99) % 100;
    assert y + 99 == 100 * q + r && 0 <= r < 100;
    if r == 99 {
      assert y == 100 * q;
      assert y + 100 == 100 * (q + 1);
    } else {
      assert y + 100 == 100 * q + (r + 1) && r + 1 < 100;
      assert y == 100 * (q - 1) + (r + 1);
    }
  }

  lemma {:induction false} CountStep400(y: int)
    ensures (y + 400) / 400 == (y + 399) / 400 + (if y % 400 == 0 then 1 else 0)
  {
    var q, r := (y + 399) / 400, (y + 399) % 400;
    assert y + 399 == 400 * q + r && 0 <= r < 400;
    if r == 399 {
      assert y == 400 * q;
      assert y + 400 == 400 * (q + 1);
    } else {
      assert y + 400 == 400 * q + (r + 1) && r + 1 < 400;
      assert y == 400 * (q - 1) + (r + 1);
    }
  }

  lemma {:induction false} DaysBeforeYearGrows(a: int, b: int)
    requires a < b
    ensures DaysBeforeYear(a) + DaysInYear(a) <= DaysBeforeYear(b)
    decreases b - a
  {
    DaysBeforeNextYear(a);
    if a + 1 < b {
      DaysBeforeYearGrows(a + 1, b);
    }
  }

  /** Days from the first of January of `y` to the first day of month `m`. */
  function DaysBeforeMonth(y: int, m: int): int
    requires 1 <= m <= 12
  {
    (if m == 1 then 0 else if m == 2 then 31 else if m == 3 then 59
     else if m == 4 then 90 else if m == 5 then 120 else if m == 6 then 151
     else if m == 7 then 181 else if m == 8 then 212 else if m == 9 then 243
     else if m == 10 then 273 else if m == 11 then 304 else 334)
    + (if m > 2 && IsLeapYear(y) then 1 else 0)
  }

  lemma {:induction false} DaysBeforeMonthGrows(y: int, m1: int, m2: int)
    requires 1 <= m1 < m2 <= 12
    ensures DaysBeforeMonth(y, m1) + DaysInMonth(y, m1) <= DaysBeforeMonth(y, m2)
  {
  }

  /** The day number of a date: days since 0000-01-01. */
  function Ordinal(d: Date): int
    requires ValidDate(d)
  {
    DaysBeforeYear(d.year) + DaysBeforeMonth(d.year, d.month) + d.day - 1
  }

  lemma {:induction false} OrdinalWithinYear(d: Date)
    requires ValidDate(d)
    ensures DaysBeforeYear(d.year) <= Ordinal(d) < DaysBeforeYear(d.year) + DaysInYear(d.year)
  {
  }

  /** The calendar order of dates: by year, then month, then day. */
  predicate Before(a: Date, b: Date) {
    a.year < b.year
    || (a.year == b.year && (a.month < b.month || (a.month == b.month && a.day < b.day)))
  }

  /** Day numbers follow the calendar order, and different dates have
      different day numbers. */
  lemma {:induction false} OrdinalOrder(a: Date, b: Date)
    requires ValidDate(a) && ValidDate(b)
    ensures Before(a, b) <==> Ordinal(a) < Ordinal(b)
    ensures Ordinal(a) == Ordinal(b) <==> a == b
  {
    if Before(a, b) {
      OrdinalBefore(a, b);
    } else if Before(b, a) {
      OrdinalBefore(b, a);
    }
  }

  lemma {:induction false} OrdinalBefore(a: Date, b: Date)
    requires ValidDate(a) && ValidDate(b) && Before(a, b)
    ensures Ordinal(a) < Ordinal(b)
  {
    OrdinalWithinYear(a);
    if a.year < b.year {
      DaysBeforeYearGrows(a.year, b.year);
    } else if a.month < b.month {
      DaysBeforeMonthGrows(a.year, a.month, b.month);
    }
  }

  /** The next calendar day (`setUTCDate(getUTCDate() + 1)`). */
  function NextDay(d: Date): (r: Date)
    requires ValidDate(d)
    ensures ValidDate(r) && Ordinal(r) == Ordinal(d) + 1
  {
    if d.day < DaysInMonth(d.year, d.month) then Date(d.year, d.month, d.day + 1)
    else if d.month < 12 then Date(d.year, d.month + 1, 1)
    else DaysBeforeNextYear(d.year); Date(d.year + 1, 1, 1)
  }

  /** The previous calendar day (`setUTCDate(getUTCDate() - 1)`). */
  function PrevDay(d: Date): (r: Date)
    requires ValidDate(d)
    ensures ValidDate(r) && Ordinal(r) == Ordinal(d) - 1
  {
    if d.day > 1 then Date(d.year, d.month, d.day - 1)
    else if d.month > 1 then Date(d.year, d.month - 1, DaysInMonth(d.year, d.month - 1))
    else DaysBeforeNextYear(d.year - 1); Date(d.year - 1, 12, 31)
  }

  /** `k` days after `d` (before it when `k` is negative). */
  function AddDays(d: Date, k: int): (r: Date)
    requires ValidDate(d)
    ensures ValidDate(r) && Ordinal(r) == Ordinal(d) + k
    decreases if k < 0 then -k else k
  {
    if k == 0 then d
    else if k > 0 then AddDays(NextDay(d), k - 1)
    else AddDays(PrevDay(d), k + 1)
  }

  /** `getUTCDay()`: 0 is Sunday, 1 Monday, ..., 6 Saturday. 0000-01-01 was
      a Saturday, which puts 1970-01-01 on a Thursday. */
  function Weekday(d: Date): (w: int)
    requires ValidDate(d)
    ensures 0 <= w < 7
  {
    (Ordinal(d) + 6) % 7
  }

  predicate IsBusinessDay(d: Date)
    requires ValidDate(d)
  {
    1 <= Weekday(d) <= 5
  }

  // ---------------------------------------------------------------------
  // YYYY-MM-DD strings
  // ---------------------------------------------------------------------

  /** `toISOString().split('T')[0]` for a date at midnight UTC. */
  function Iso(d: Date): (s: string)
    requires Formattable(d)
    ensures |s| == 10
  {
    Digits(d.year, 4) + "-" + Digits(d.month, 2) + "-" + Digits(d.day, 2)
  }

  /** `new Date(s + 'T00:00:00Z')` for the `YYYY-MM-DD` form: `None` when
      the string is not a calendar date in that form (`isNaN`). */
  function ParseIso(s: string): (r: Option<Date>)
    ensures r.Some? ==> Formattable(r.value)
  {
    if |s| == 10 && s[4] == '-' && s[7] == '-'
       && AllDigits(s[..4]) && AllDigits(s[5..7]) && AllDigits(s[8..])
    then
      NumberOfBound(s[..4]);
      var d := Date(NumberOf(s[..4]), NumberOf(s[5..7]), NumberOf(s[8..]));
      if ValidDate(d) then Some(d) else None
    else None
  }

  /** Parsing a formatted date gives the date back. */
  lemma {:induction false} ParseIsoOfIso(d: Date)
    requires Formattable(d)
    ensures ParseIso(Iso(d)) == Some(d)
  {
    var s := Iso(d);
    assert s[..4] == Digits(d.year, 4);
    assert s[5..7] == Digits(d.month, 2);
    assert s[8..] == Digits(d.day, 2);
    NumberOfDigits(d.year, 4);
    NumberOfDigits(d.month, 2);
    NumberOfDigits(d.day, 2);
  }

  /** A string that parses is the formatted form of the date it names. */
  lemma {:induction false} IsoOfParseIso(s: string)
    requires ParseIso(s).Some?
    ensures Iso(ParseIso(s).value) == s
  {
    var d := ParseIso(s).value;
    DigitsOfNumber(s[..4]);
    DigitsOfNumber(s[5..7]);
    DigitsOfNumber(s[8..]);
    assert s == s[..4] + "-" + s[5..7] + "-" + s[8..];
  }

  lemma {:induction false} IsoInjective(a: Date, b: Date)
    requires Formattable(a) && Formattable(b) && Iso(a) == Iso(b)
    ensures a == b
  {
    ParseIsoOfIso(a);
    ParseIsoOfIso(b);
  }

  /** Two strings cut by a separator at the same place compare by their
      first parts, then by their second parts. */
  lemma {:induction false} SeparatedOrder(p: string, q: string, sep: char, r: string, s: string)
    requires |p| == |q|
    ensures Less(p + [sep] + r, q + [sep] + s) <==> Less(p, q) || (p == q && Less(r, s))
    ensures p + [sep] + r == q + [sep] + s <==> p == q && r == s
  {
    assert p + [sep] + r == p + ([sep] + r);
    assert q + [sep] + s == q + ([sep] + s);
    LessConcat(p, q, [sep] + r, [sep] + s);
    LessConcat([sep], [sep], r, s);
    LessIrreflexive([sep]);
    if p + [sep] + r == q + [sep] + s {
      assert p == (p + [sep] + r)[..|p|];
      assert r == (p + [sep] + r)[|p| + 1..];
    }
  }

  /** `YYYY-MM-DD` strings compare with `<` exactly as the dates they name
      compare in time. Every range check on date strings rests on this. */
  lemma {:induction false} IsoOrder(a: Date, b: Date)
    requires Formattable(a) && Formattable(b)
    ensures Less(Iso(a), Iso(b)) <==> Before(a, b)
  {
    var ya, yb := Digits(a.year, 4), Digits(b.year, 4);
    var ma, mb := Digits(a.month, 2), Digits(b.month, 2);
    var da, db := Digits(a.day, 2), Digits(b.day, 2);
    SeparatedOrder(ya, yb, '-', ma, mb);
    SeparatedOrder(ya + "-" + ma, yb + "-" + mb, '-', da, db);
    DigitsOrder(a.year, b.year, 4);
    DigitsOrder(a.month, b.month, 2);
    DigitsOrder(a.day, b.day, 2);
    NumberOfDigits(a.year, 4);
    NumberOfDigits(b.year, 4);
    NumberOfDigits(a.month, 2);
    NumberOfDigits(b.month, 2);
  }

  /** The same fact in terms of day numbers, for `<` and for `<=`. */
  lemma {:induction false} IsoOrdinalOrder(a: Date, b: Date)
    requires Formattable(a) && Formattable(b)
    ensures Less(Iso(a), Iso(b)) <==> Ordinal(a) < Ordinal(b)
    ensures LessEq(Iso(a), Iso(b)) <==> Ordinal(a) <= Ordinal(b)
  {
    IsoOrder(a, b);
    IsoOrder(b, a);
    OrdinalOrder(a, b);
  }

  /** A valid date between two formattable dates is formattable. */
  lemma {:induction false} FormattableBetween(x: Date, lo: Date, hi: Date)
    requires ValidDate(x) && Formattable(lo) && Formattable(hi)
    requires Ordinal(lo) <= Ordinal(x) <= Ordinal(hi)
    ensures Formattable(x)
  {
    OrdinalOrder(lo, x);
    OrdinalOrder(x, hi);
  }

  predicate AllFormattable(ds: seq<Date>) {
    forall i :: 0 <= i < |ds| ==> Formattable(ds[i])
  }

  function IsoAll(ds: seq<Date>): (r: seq<string>)
    requires AllFormattable(ds)
    ensures |r| == |ds| && forall i :: 0 <= i < |ds| ==> r[i] == Iso(ds[i])
  {
    if |ds| == 0 then [] else [Iso(ds[0])] + IsoAll(ds[1..])
  }


  // ---------------------------------------------------------------------
  // Business days
  // ---------------------------------------------------------------------

  /** The Monday-to-Friday dates from `cur` to `last`, both included, in
      calendar order. */
  function BusinessDaysFrom(cur: Date, last: Date): seq<Date>
    requires ValidDate(cur) && ValidDate(last)
    decreases Ordinal(last) - Ordinal(cur) + 1
  {
    if Ordinal(last) < Ordinal(cur) then []
    else (if IsBusinessDay(cur) then [cur] else []) + BusinessDaysFrom(NextDay(cur), last)
  }

  /** Every date listed is a Monday-to-Friday date of the range. */
  lemma {:induction false} BusinessDaysWithin(cur: Date, last: Date)
    requires ValidDate(cur) && ValidDate(last)
    ensures forall d | d in BusinessDaysFrom(cur, last) ::
              ValidDate(d) && IsBusinessDay(d) && Ordinal(cur) <= Ordinal(d) <= Ordinal(last)
    decreases Ordinal(last) - Ordinal(cur) + 1
  {
    if Ordinal(last) >= Ordinal(cur) {
      var tail := BusinessDaysFrom(NextDay(cur), last);
      BusinessDaysWithin(NextDay(cur), last);
      if IsBusinessDay(cur) {
        assert BusinessDaysFrom(cur, last) == [cur] + tail;
      } else {
        assert BusinessDaysFrom(cur, last) == tail;
      }
    }
  }

  /** Valid dates in strictly increasing calendar order. */
  predicate Ascending(ds: seq<Date>) {
    forall i, j :: 0 <= i < j < |ds| ==> ValidDate(ds[i]) && ValidDate(ds[j]) && Ordinal(ds[i]) < Ordinal(ds[j])
  }

  lemma {:induction false} AscendingCons(d: Date, ds: seq<Date>)
    requires ValidDate(d) && Ascending(ds)
    requires forall x | x in ds :: ValidDate(x) && Ordinal(d) < Ordinal(x)
    ensures Ascending([d] + ds)
  {
    var r := [d] + ds;
    forall i, j | 0 <= i < j < |r| ensures ValidDate(r[i]) && ValidDate(r[j]) && Ordinal(r[i]) < Ordinal(r[j]) {
      assert r[j] == ds[j - 1] && ds[j - 1] in ds;
      if i > 0 {
        assert r[i] == ds[i - 1];
      }
    }
  }

  /** The dates are listed in strictly increasing order. */
  lemma {:induction false} BusinessDaysAscending(cur: Date, last: Date)
    requires ValidDate(cur) && ValidDate(last)
    ensures Ascending(BusinessDaysFrom(cur, last))
    decreases Ordinal(last) - Ordinal(cur) + 1
  {
    if Ordinal(last) >= Ordinal(cur) {
      var tail := BusinessDaysFrom(NextDay(cur), last);
      BusinessDaysAscending(NextDay(cur), last);
      if IsBusinessDay(cur) {
        BusinessDaysWithin(NextDay(cur), last);
        AscendingCons(cur, tail);
        assert BusinessDaysFrom(cur, last) == [cur] + tail;
      } else {
        assert BusinessDaysFrom(cur, last) == tail;
      }
    }
  }

  /** No Monday-to-Friday date of the range is left out. */
  lemma {:induction false} BusinessDaysComplete(cur: Date, last: Date, x: Date)
    requires ValidDate(cur) && ValidDate(last) && ValidDate(x) && IsBusinessDay(x)
    requires Ordinal(cur) <= Ordinal(x) <= Ordinal(last)
    ensures x in BusinessDaysFrom(cur, last)
    decreases Ordinal(x) - Ordinal(cur)
  {
    var tail := BusinessDaysFrom(NextDay(cur), last);
    if Ordinal(x) == Ordinal(cur) {
      OrdinalOrder(x, cur);
      assert BusinessDaysFrom(cur, last) == [cur] + tail;
    } else {
      BusinessDaysComplete(NextDay(cur), last, x);
      if IsBusinessDay(cur) {
        assert BusinessDaysFrom(cur, last) == [cur] + tail;
      } else {
        assert BusinessDaysFrom(cur, last) == tail;
      }
    }
  }

  /** The business days from a date on or after `lo` up to `last` are all
      formattable when `lo` and `last` are. */
  lemma {:induction false} BusinessDaysFormattable(lo: Date, cur: Date, last: Date)
    requires Formattable(lo) && Formattable(last) && ValidDate(cur) && Ordinal(lo) <= Ordinal(cur)
    ensures AllFormattable(BusinessDaysFrom(cur, last))
  {
    BusinessDaysWithin(cur, last);
    var ds := BusinessDaysFrom(cur, last);
    forall i | 0 <= i < |ds| ensures Formattable(ds[i]) {
      assert ds[i] in ds;
      FormattableBetween(ds[i], lo, last);
    }
  }

  /** What `getBusinessDays(startDateStr, endDateStr)` returns: nothing when
      either bound is not a date, otherwise the business days between them. */
  function BusinessDayStrings(startStr: string, endStr: string): seq<string> {
    match (ParseIso(startStr), ParseIso(endStr))
    case (Some(s), Some(e)) =>
      BusinessDaysFormattable(s, s, e);
      IsoAll(BusinessDaysFrom(s, e))
    case _ => []
  }

  /** One step of the walk in `GetBusinessDays`: the business days already
      collected, plus `current` when it is one, plus those after it, make up
      the same list as before the step. */
  lemma {:induction false} AdvanceDay(current: Date, last: Date, done: seq<Date>, whole: seq<Date>)
    requires ValidDate(current) && ValidDate(last) && Ordinal(current) <= Ordinal(last)
    requires done + BusinessDaysFrom(current, last) == whole
    ensures IsBusinessDay(current) ==> (done + [current]) + BusinessDaysFrom(NextDay(current), last) == whole
    ensures !IsBusinessDay(current) ==> done + BusinessDaysFrom(NextDay(current), last) == whole
  {
    var tail := BusinessDaysFrom(NextDay(current), last);
    if IsBusinessDay(current) {
      assert BusinessDaysFrom(current, last) == [current] + tail;
      assert (done + [current]) + tail == done + ([current] + tail);
    } else {
      assert BusinessDaysFrom(current, last) == tail;
    }
  }

  /** Formatting a list one date longer adds that date's string. */
  lemma {:induction false} IsoAllSnoc(done: seq<Date>, d: Date)
    requires AllFormattable(done) && Formattable(d)
    ensures AllFormattable(done + [d]) && IsoAll(done + [d]) == IsoAll(done) + [Iso(d)]
  {
    var ds := done + [d];
    forall i | 0 <= i < |ds| ensures Formattable(ds[i]) {
      if i < |done| {
        assert ds[i] == done[i];
      }
    }
    var r, q := IsoAll(ds), IsoAll(done) + [Iso(d)];
    assert |r| == |q|;
    forall i | 0 <= i < |r| ensures r[i] == q[i] {
      if i < |done| {
        assert ds[i] == done[i];
      }
    }
  }

  /** data_manager.js `getBusinessDays`: walks from the start date to the
      end date one day at a time and keeps the Monday-to-Friday dates. */
  method GetBusinessDays(startStr: string, endStr: string) returns (dates: seq<string>)
    ensures dates == BusinessDayStrings(startStr, endStr)
  {
    var startDate := ParseIso(startStr);
    var endDate := ParseIso(endStr);
    if startDate.None? || endDate.None? {
      return [];
    }
    var first, last := startDate.value, endDate.value;
    BusinessDaysFormattable(first, first, last);
    dates := [];
    ghost var done: seq<Date> := [];
    var current := first;
    while Ordinal(current) <= Ordinal(last)
      invariant ValidDate(current) && Ordinal(first) <= Ordinal(current)
      invariant current == first || Ordinal(current) <= Ordinal(last) + 1
      invariant done + BusinessDaysFrom(current, last) == BusinessDaysFrom(first, last)
      invariant AllFormattable(done) && dates == IsoAll(done)
      decreases Ordinal(last) - Ordinal(current)
    {
      AdvanceDay(current, last, done, BusinessDaysFrom(first, last));
      var dayOfWeek := Weekday(current);
      if 1 <= dayOfWeek <= 5 {
        FormattableBetween(current, first, last);
        IsoAllSnoc(done, current);
        dates := dates + [Iso(current)];
        done := done + [current];
      }
      current := NextDay(current);
    }
    assert done == BusinessDaysFrom(first, last);
  }

  /** When both bounds parse, the result is the formatted list of the
      business days between them. */
  lemma {:induction false} BusinessDayStringsOfDates(startStr: string, endStr: string)
    requires ParseIso(startStr).Some? && ParseIso(endStr).Some?
    ensures var s, e := ParseIso(startStr).value, ParseIso(endStr).value;
            && AllFormattable(BusinessDaysFrom(s, e))
            && BusinessDayStrings(startStr, endStr) == IsoAll(BusinessDaysFrom(s, e))
  {
    var s, e := ParseIso(startStr).value, ParseIso(endStr).value;
    BusinessDaysFormattable(s, s, e);
  }

  /** `getBusinessDays(s, e)` is empty when a bound is not a date, or when
      `s` comes after `e`. */
  lemma {:induction false} BusinessDayStringsEmpty(startStr: string, endStr: string)
    ensures ParseIso(startStr).None? || ParseIso(endStr).None? ==> BusinessDayStrings(startStr, endStr) == []
    ensures ParseIso(startStr).Some? && ParseIso(endStr).Some? && Less(endStr, startStr)
            ==> BusinessDayStrings(startStr, endStr) == []
  {
    if ParseIso(startStr).Some? && ParseIso(endStr).Some? && Less(endStr, startStr) {
      var s, e := ParseIso(startStr).value, ParseIso(endStr).value;
      IsoOfParseIso(startStr);
      IsoOfParseIso(endStr);
      IsoOrdinalOrder(e, s);
      assert BusinessDaysFrom(s, e) == [];
    }
  }

  /** The dates come out in strictly increasing string order, so the list
      has no duplicates and is already sorted. */
  lemma {:induction false} BusinessDayStringsAscending(startStr: string, endStr: string)
    ensures var r := BusinessDayStrings(startStr, endStr);
            forall i, j :: 0 <= i < j < |r| ==> Less(r[i], r[j])
  {
    if ParseIso(startStr).Some? && ParseIso(endStr).Some? {
      var s, e := ParseIso(startStr).value, ParseIso(endStr).value;
      BusinessDayStringsOfDates(startStr, endStr);
      BusinessDaysAscending(s, e);
      var ds := BusinessDaysFrom(s, e);
      var r := BusinessDayStrings(startStr, endStr);
      forall i, j | 0 <= i < j < |r| ensures Less(r[i], r[j]) {
        IsoOrdinalOrder(ds[i], ds[j]);
      }
    }
  }

  /** Every listed string is a Monday-to-Friday date between the bounds. */
  lemma {:induction false} BusinessDayStringsSound(startStr: string, endStr: string)
    ensures var r := BusinessDayStrings(startStr, endStr);
            forall i :: 0 <= i < |r| ==>
              && ParseIso(r[i]).Some?
              && IsBusinessDay(ParseIso(r[i]).value)
              && LessEq(startStr, r[i]) && LessEq(r[i], endStr)
  {
    if ParseIso(startStr).Some? && ParseIso(endStr).Some? {
      var s, e := ParseIso(startStr).value, ParseIso(endStr).value;
      BusinessDayStringsOfDates(startStr, endStr);
      BusinessDaysWithin(s, e);
      IsoOfParseIso(startStr);
      IsoOfParseIso(endStr);
      var ds := BusinessDaysFrom(s, e);
      var r := BusinessDayStrings(startStr, endStr);
      forall i | 0 <= i < |r|
        ensures ParseIso(r[i]).Some? && IsBusinessDay(ParseIso(r[i]).value)
        ensures LessEq(startStr, r[i]) && LessEq(r[i], endStr)
      {
        assert ds[i] in ds;
        ParseIsoOfIso(ds[i]);
        IsoOrdinalOrder(s, ds[i]);
        IsoOrdinalOrder(ds[i], e);
      }
    }
  }

  /** No Monday-to-Friday date between the bounds is missing. */
  lemma {:induction false} BusinessDayStringsComplete(startStr: string, endStr: string, x: Date)
    requires ParseIso(startStr).Some? && ParseIso(endStr).Some?
    requires Formattable(x) && IsBusinessDay(x)
    requires LessEq(startStr, Iso(x)) && LessEq(Iso(x), endStr)
    ensures Iso(x) in BusinessDayStrings(startStr, endStr)
  {
    var s, e := ParseIso(startStr).value, ParseIso(endStr).value;
    IsoOfParseIso(startStr);
    IsoOfParseIso(endStr);
    IsoOrdinalOrder(s, x);
    IsoOrdinalOrder(x, e);
    BusinessDaysComplete(s, e, x);
    BusinessDayStringsOfDates(startStr, endStr);
    var ds := BusinessDaysFrom(s, e);
    var i :| 0 <= i < |ds| && ds[i] == x;
    assert BusinessDayStrings(startStr, endStr)[i] == Iso(x);
  }

  // ---------------------------------------------------------------------
  // Clock readings and HH:MM stamps
  // ---------------------------------------------------------------------

  type Hour = h: int | 0 <= h < 24
  type Minute = m: int | 0 <= m < 60

  /** A reading of the local wall clock (`getHours()`, `getMinutes()`). */
  datatype Clock = Clock(hour: Hour, minute: Minute)

  /** `${hours}:${minutes}`, each padded to two digits. */
  function Stamp(c: Clock): string {
    Digits(c.hour, 2) + ":" + Digits(c.minute, 2)
  }

  /** A 24-hour, zero-padded `HH:MM` string. */
  predicate IsTimeStamp(s: string) {
    |s| == 5 && s[2] == ':' && AllDigits(s[..2]) && AllDigits(s[3..])
    && NumberOf(s[..2]) < 24 && NumberOf(s[3..]) < 60
  }

  /** A stamp is an `HH:MM` string that reads back as the clock it came from. */
  lemma {:induction false} StampIsTimeStamp(c: Clock)
    ensures IsTimeStamp(Stamp(c))
    ensures NumberOf(Stamp(c)[..2]) == c.hour && NumberOf(Stamp(c)[3..]) == c.minute
  {
    var s := Stamp(c);
    assert s[..2] == Digits(c.hour, 2) && s[3..] == Digits(c.minute, 2);
    NumberOfDigits(c.hour, 2);
    NumberOfDigits(c.minute, 2);
  }

  /** Stamps compare as strings in chronological order, so sorting them as
      strings sorts them by time. */
  lemma {:induction false} StampOrder(a: Clock, b: Clock)
    ensures Less(Stamp(a), Stamp(b)) <==> a.hour < b.hour || (a.hour == b.hour && a.minute < b.minute)
  {
    var ha, hb := Digits(a.hour, 2), Digits(b.hour, 2);
    var ma, mb := Digits(a.minute, 2), Digits(b.minute, 2);
    SeparatedOrder(ha, hb, ':', ma, mb);
    DigitsOrder(a.hour, b.hour, 2);
    DigitsOrder(a.minute, b.minute, 2);
    NumberOfDigits(a.hour, 2);
    NumberOfDigits(b.hour, 2);
  }
}
