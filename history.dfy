/** The attendance history of a section (app.js): the recorded dates in
    ascending order, the period filter (the last N days, or a custom range
    of date strings), and the table shown for it, either one row of counts
    per date or, when a student name is typed, that student's status per
    date. */
module History {
  import opened Collections
  import opened Text
  import opened Calendar
  import opened Schema
  import opened Attendance
  import opened Summary

  // ---------------------------------------------------------------------
  // Period filter
  // ---------------------------------------------------------------------

  /** The first date of an `n`-day window ending today. */
  function WindowStart(today: Date, days: int): Date
    requires ValidDate(today)
  {
    AddDays(today, -(days - 1))
  }

  /** The period filter reads as a window length when it parses as an integer. */
  predicate WindowFormattable(filter: string, today: Date)
    requires ValidDate(today)
  {
    filter != "custom" && ParseInt(filter).Some? ==> Formattable(WindowStart(today, ParseInt(filter).value))
  }

  predicate InRange(lo: string, hi: string, d: string) {
    LessEq(lo, d) && LessEq(d, hi)
  }

  /** `allDates.filter(d => d >= lo && d <= hi)`. */
  function Between(allDates: seq<string>, lo: string, hi: string): (r: seq<string>)
    ensures forall d :: d in r <==> d in allDates && InRange(lo, hi, d)
  {
    Filter(allDates, (d: string) => InRange(lo, hi, d))
  }

  lemma BetweenIsSubsequence(allDates: seq<string>, lo: string, hi: string)
    ensures IsSubsequence(Between(allDates, lo, hi), allDates)
  {
    FilterIsOrderedSelection(allDates, (d: string) => InRange(lo, hi, d));
  }

  /** A range whose bounds are the wrong way round is empty. */
  lemma BetweenReversedIsEmpty(allDates: seq<string>, lo: string, hi: string)
    requires Less(hi, lo)
    ensures Between(allDates, lo, hi) == []
  {
    var r := Between(allDates, lo, hi);
    if |r| > 0 {
      assert r[0] in r;
      LessEqTransitive(lo, r[0], hi);
      assert false;
    }
  }

  /** `getFilteredHistoryDates`: with `custom`, the dates between the two
      bounds taken in either order, none if a bound is empty; with a
      number `n`, the dates from `n - 1` days before today up to today;
      with anything else, all dates. */
  function FilteredHistoryDates(allDates: seq<string>, filter: string, customStart: string, customEnd: string, today: Date): seq<string>
    requires Formattable(today) && WindowFormattable(filter, today)
  {
    if filter == "custom" then
      if customStart == "" || customEnd == "" then []
      else
        var start := if LessEq(customStart, customEnd) then customStart else customEnd;
        var end := if LessEq(customStart, customEnd) then customEnd else customStart;
        Between(allDates, start, end)
    else
      match ParseInt(filter)
      case None => allDates
      case Some(days) =>
        var startStr := Iso(WindowStart(today, days));
        var todayStr := Iso(today);
        Between(allDates, startStr, todayStr)
  }

  /** The period filter only removes dates: the result keeps the order of
      the recorded dates, and every date it keeps is recorded. */
  lemma FilteredIsSubsequence(allDates: seq<string>, filter: string, customStart: string, customEnd: string, today: Date)
    requires Formattable(today) && WindowFormattable(filter, today)
    ensures IsSubsequence(FilteredHistoryDates(allDates, filter, customStart, customEnd, today), allDates)
  {
    var r := FilteredHistoryDates(allDates, filter, customStart, customEnd, today);
    if filter == "custom" {
      if customStart == "" || customEnd == "" {
      } else {
        var start := if LessEq(customStart, customEnd) then customStart else customEnd;
        var end := if LessEq(customStart, customEnd) then customEnd else customStart;
        BetweenIsSubsequence(allDates, start, end);
      }
    } else if ParseInt(filter).None? {
      SubsequenceOfSelf(allDates);
    } else {
      var days := ParseInt(filter).value;
      BetweenIsSubsequence(allDates, Iso(WindowStart(today, days)), Iso(today));
    }
  }

  /** A custom range keeps a date exactly when it lies between the smaller
      and the larger bound, whichever field holds which. */
  lemma CustomRangeSymmetric(allDates: seq<string>, a: string, b: string, today: Date)
    requires Formattable(today)
    ensures FilteredHistoryDates(allDates, "custom", a, b, today) == FilteredHistoryDates(allDates, "custom", b, a, today)
    ensures forall d :: d in FilteredHistoryDates(allDates, "custom", a, b, today) <==>
              d in allDates && a != "" && b != "" && ((InRange(a, b, d) || InRange(b, a, d)))
  {
    LessTotal(a, b);
    LessAsymmetric(a, b);
    LessIrreflexive(a);
    forall d ensures InRange(b, a, d) && LessEq(a, b) ==> a == b {
      if InRange(b, a, d) && LessEq(a, b) {
        LessEqTransitive(b, d, a);
        LessEqAntisymmetric(a, b);
      }
    }
    forall d ensures InRange(a, b, d) && LessEq(b, a) ==> a == b {
      if InRange(a, b, d) && LessEq(b, a) {
        LessEqTransitive(a, d, b);
        LessEqAntisymmetric(a, b);
      }
    }
  }

  /** The last-N-days window, for recorded dates in `YYYY-MM-DD` form:
      a date is kept exactly when it is at most `n - 1` days before today
      and not after today. */
  lemma WindowSelectsLastDays(allDates: seq<string>, filter: string, today: Date, d: Date)
    requires Formattable(today) && WindowFormattable(filter, today)
    requires filter != "custom" && ParseInt(filter).Some?
    requires Formattable(d)
    ensures Iso(d) in FilteredHistoryDates(allDates, filter, "", "", today) <==>
              Iso(d) in allDates && Ordinal(today) - (ParseInt(filter).value - 1) <= Ordinal(d) <= Ordinal(today)
  {
    var start := WindowStart(today, ParseInt(filter).value);
    IsoOrdinalOrder(start, d);
    IsoOrdinalOrder(d, today);
  }

  /** A window of zero or fewer days keeps nothing, whatever the keys. */
  lemma NonPositiveWindowIsEmpty(allDates: seq<string>, filter: string, today: Date)
    requires Formattable(today) && WindowFormattable(filter, today)
    requires filter != "custom" && ParseInt(filter).Some? && ParseInt(filter).value <= 0
    ensures FilteredHistoryDates(allDates, filter, "", "", today) == []
  {
    var start := WindowStart(today, ParseInt(filter).value);
    IsoOrdinalOrder(today, start);
    BetweenReversedIsEmpty(allDates, Iso(start), Iso(today));
  }

  // ---------------------------------------------------------------------
  // History table
  // ---------------------------------------------------------------------

  datatype DayCount = DayCount(date: string, counts: Tally)
  datatype StudentDay = StudentDay(date: string, mark: string)

  /** What `historyTableTemplate` shows. */
  datatype HistoryView =
    | NoRecords
    | NoneInPeriod
    | DayCounts(rows: seq<DayCount>)
    | NoMatch
    | StudentHistory(student: Student, days: seq<StudentDay>)

  /** The label of a status in a student's history. */
  function Label(status: string): (l: string)
    ensures l == "Asisti\U{00F3}" <==> status == "P" || status == "U"
    ensures l == "Inasistente" <==> status == "A"
    ensures l == "Retardo" <==> status == "L"
    ensures l == "Sin registro" <==> !IsStatus(status)
  {
    if status == "P" || status == "U" then "Asisti\U{00F3}"
    else if status == "A" then "Inasistente"
    else if status == "L" then "Retardo"
    else "Sin registro"
  }

  /** The typed text matches `"last first"` or `"first last"`, lower-cased. */
  predicate NameMatches(st: Student, needle: string) {
    Contains(ToLower(st.lastName + " " + st.firstName), needle)
    || Contains(ToLower(st.firstName + " " + st.lastName), needle)
  }

  /** The row of one date in the counts table. */
  function DayRow(records: DateMap, date: string, students: seq<Student>): (r: DayCount)
    ensures r.date == date
    ensures r.counts == TallyOf(DayStatuses(DayOf(records, date), students))
    ensures var day := DayOf(records, date);
            r.counts == Tally(NumWith(day, students, {"P", "U", "L"}), NumWith(day, students, {"A"}), NumWith(day, students, {"L"}))
  {
    TallyOfDay(DayOf(records, date), students);
    DayCount(date, TallyOf(DayStatuses(DayOf(records, date), students)))
  }

  /** The counts table: one row per date, in order, counting the students
      read as present (`P`, `U` or `L`), absent (`A`) and late (`L`). */
  function DayRows(records: DateMap, dates: seq<string>, students: seq<Student>): (r: seq<DayCount>)
    ensures |r| == |dates|
    ensures forall i :: 0 <= i < |dates| ==> r[i].date == dates[i]
    ensures forall i :: 0 <= i < |dates| ==>
              var day := DayOf(records, dates[i]);
              && r[i].counts.present == NumWith(day, students, {"P", "U", "L"})
              && r[i].counts.absent == NumWith(day, students, {"A"})
              && r[i].counts.late == NumWith(day, students, {"L"})
  {
    seq(|dates|, i requires 0 <= i < |dates| => DayRow(records, dates[i], students))
  }

  /** One student's history: one row per date, in order, labelled attended
      for `P` or no mark, absent for `A`, late for `L`, and no record for
      any other stored value. */
  function StudentRows(records: DateMap, dates: seq<string>, st: Student): (r: seq<StudentDay>)
    ensures |r| == |dates|
    ensures forall i :: 0 <= i < |dates| ==> r[i].date == dates[i]
    ensures forall i :: 0 <= i < |dates| ==>
              var s := StatusOf(DayOf(records, dates[i]), st);
              && (r[i].mark == "Asisti\U{00F3}" <==> s == "P" || s == "U")
              && (r[i].mark == "Inasistente" <==> s == "A")
              && (r[i].mark == "Retardo" <==> s == "L")
              && (r[i].mark == "Sin registro" <==> !IsStatus(s))
  {
    seq(|dates|, i requires 0 <= i < |dates| => StudentDay(dates[i], Label(StatusOf(DayOf(records, dates[i]), st))))
  }

  predicate HistoryArgs(filter: string, today: Date) {
    Formattable(today) && WindowFormattable(filter, today)
  }

  function HistoryTable(students: seq<Student>, records: DateMap, filter: string, customStart: string,
                       customEnd: string, studentFilter: string, today: Date): HistoryView
    requires HistoryArgs(filter, today)
  {
    var allDates := SortedKeys(records.Keys);
    if |allDates| == 0 then NoRecords
    else
      var dates := ViewDates(records, filter, customStart, customEnd, today);
      if |dates| == 0 then NoneInPeriod
      else
        var needle := ToLower(Trim(studentFilter));
        if needle == "" then DayCounts(DayRows(records, dates, students))
        else
          var matching := Filter(students, (s: Student) => NameMatches(s, needle));
          if |matching| == 0 then NoMatch
          else StudentHistory(matching[0], StudentRows(records, dates, matching[0]))
  }

  /** The dates of the view: those recorded in the period, ascending. */
  function ViewDates(records: DateMap, filter: string, customStart: string, customEnd: string, today: Date): seq<string>
    requires HistoryArgs(filter, today)
  {
    FilteredHistoryDates(SortedKeys(records.Keys), filter, customStart, customEnd, today)
  }

  /** Which message or table the history shows: no records only when the
      section has no attendance dates at all, the empty-period message only
      when the period holds none of them, and otherwise a table. */
  lemma HistoryViewCases(students: seq<Student>, records: DateMap, filter: string, customStart: string,
                         customEnd: string, studentFilter: string, today: Date)
    requires HistoryArgs(filter, today)
    ensures var v := HistoryTable(students, records, filter, customStart, customEnd, studentFilter, today);
            var dates := ViewDates(records, filter, customStart, customEnd, today);
            && (v.NoRecords? <==> |records| == 0)
            && (v.NoneInPeriod? <==> |records| > 0 && |dates| == 0)
            && (v.DayCounts? <==> |dates| > 0 && ToLower(Trim(studentFilter)) == "")
            && (v.NoMatch? <==> |dates| > 0 && ToLower(Trim(studentFilter)) != ""
                                && forall k :: 0 <= k < |students| ==> !NameMatches(students[k], ToLower(Trim(studentFilter))))
  {
    var allDates := SortedKeys(records.Keys);
    var needle := ToLower(Trim(studentFilter));
    if |allDates| == 0 {
      assert records.Keys == {};
    }
    FilterHeadIsFirst(students, (s: Student) => NameMatches(s, needle));
  }

  /** Without a student filter, each row counts the roster on one recorded
      date of the period, dates ascending, and no row counts anyone twice. */
  lemma DayCountsSpec(students: seq<Student>, records: DateMap, filter: string, customStart: string,
                      customEnd: string, studentFilter: string, today: Date)
    requires HistoryArgs(filter, today)
    requires HistoryTable(students, records, filter, customStart, customEnd, studentFilter, today).DayCounts?
    ensures var rows := HistoryTable(students, records, filter, customStart, customEnd, studentFilter, today).rows;
            && |rows| == |ViewDates(records, filter, customStart, customEnd, today)|
            && (forall i :: 0 <= i < |rows| ==> rows[i].date in records)
            && (forall i, j :: 0 <= i < j < |rows| ==> Less(rows[i].date, rows[j].date))
            && (forall i :: 0 <= i < |rows| ==>
                  rows[i].counts.late <= rows[i].counts.present && Marked(rows[i].counts) <= |students|)
  {
    DayCountsRows(students, records, filter, customStart, customEnd, studentFilter, today);
    ViewDatesSubsequence(records, filter, customStart, customEnd, today);
    DayRowsSpec(records, ViewDates(records, filter, customStart, customEnd, today), SortedKeys(records.Keys), students);
  }

  lemma ViewDatesSubsequence(records: DateMap, filter: string, customStart: string, customEnd: string, today: Date)
    requires HistoryArgs(filter, today)
    ensures IsSubsequence(ViewDates(records, filter, customStart, customEnd, today), SortedKeys(records.Keys))
  {
    FilteredIsSubsequence(SortedKeys(records.Keys), filter, customStart, customEnd, today);
  }

  lemma DayCountsRows(students: seq<Student>, records: DateMap, filter: string, customStart: string,
                      customEnd: string, studentFilter: string, today: Date)
    requires HistoryArgs(filter, today)
    requires HistoryTable(students, records, filter, customStart, customEnd, studentFilter, today).DayCounts?
    ensures HistoryTable(students, records, filter, customStart, customEnd, studentFilter, today).rows
         == DayRows(records, ViewDates(records, filter, customStart, customEnd, today), students)
  {
  }

  lemma DayRowsSpec(records: DateMap, dates: seq<string>, allDates: seq<string>, students: seq<Student>)
    requires IsSubsequence(dates, allDates) && allDates == SortedKeys(records.Keys)
    ensures var rows := DayRows(records, dates, students);
            && (forall i :: 0 <= i < |rows| ==> rows[i].date in records)
            && (forall i, j :: 0 <= i < j < |rows| ==> Less(rows[i].date, rows[j].date))
            && (forall i :: 0 <= i < |rows| ==>
                  rows[i].counts.late <= rows[i].counts.present && Marked(rows[i].counts) <= |students|)
  {
    var rows := DayRows(records, dates, students);
    SubsequenceIncreasing(dates, allDates);
    SubsequenceMembersOf(dates, allDates);
    forall i | 0 <= i < |rows|
      ensures rows[i].counts.late <= rows[i].counts.present && Marked(rows[i].counts) <= |students|
    {
      assert rows[i] == DayRow(records, dates[i], students);
      TallyOfBounds(DayStatuses(DayOf(records, dates[i]), students));
    }
  }

  /** With a student filter, the history is that of the first student in
      roster order whose name matches, one label per recorded date of the
      period, telling attended, absent, late or no record. */
  lemma StudentHistorySpec(students: seq<Student>, records: DateMap, filter: string, customStart: string,
                           customEnd: string, studentFilter: string, today: Date)
    requires HistoryArgs(filter, today)
    requires HistoryTable(students, records, filter, customStart, customEnd, studentFilter, today).StudentHistory?
    ensures var v := HistoryTable(students, records, filter, customStart, customEnd, studentFilter, today);
            var needle := ToLower(Trim(studentFilter));
            var dates := ViewDates(records, filter, customStart, customEnd, today);
            && (exists k :: 0 <= k < |students| && students[k] == v.student && NameMatches(students[k], needle)
                            && forall j :: 0 <= j < k ==> !NameMatches(students[j], needle))
            && |v.days| == |dates|
            && forall i :: 0 <= i < |v.days| ==>
                 v.days[i].date == dates[i] && v.days[i].mark == Label(StatusOf(DayOf(records, dates[i]), v.student))
  {
    var needle := ToLower(Trim(studentFilter));
    FilterHeadIsFirst(students, (s: Student) => NameMatches(s, needle));
    var k := FindIndex(students, (s: Student) => NameMatches(s, needle));
    assert k.Some?;
  }

  lemma {:induction false} SubsequenceIncreasing(r: seq<string>, s: seq<string>)
    requires IsSubsequence(r, s) && StrictlyIncreasing(s)
    ensures StrictlyIncreasing(r)
    decreases |s|
  {
    if |r| > 0 && |s| > 0 {
      assert StrictlyIncreasing(s[1..]);
      if r[0] == s[0] {
        SubsequenceIncreasing(r[1..], s[1..]);
        SubsequenceMembersOf(r[1..], s[1..]);
        forall i, j | 0 <= i < j < |r| ensures Less(r[i], r[j]) {
          if i == 0 {
            assert r[j] == r[1..][j - 1];
            var k :| 0 <= k < |s[1..]| && s[1..][k] == r[j];
            assert s[k + 1] == r[j];
          } else {
            assert r[i] == r[1..][i - 1] && r[j] == r[1..][j - 1];
          }
        }
      } else {
        SubsequenceIncreasing(r, s[1..]);
      }
    }
  }

  lemma {:induction false} SubsequenceMembersOf<T>(r: seq<T>, s: seq<T>)
    requires IsSubsequence(r, s)
    ensures forall x :: x in r ==> x in s
    ensures forall i :: 0 <= i < |r| ==> exists k :: 0 <= k < |s| && s[k] == r[i]
    decreases |s|
  {
    if |r| > 0 && |s| > 0 {
      if r[0] == s[0] {
        SubsequenceMembersOf(r[1..], s[1..]);
        forall i | 0 <= i < |r| ensures exists k :: 0 <= k < |s| && s[k] == r[i] {
          if i == 0 {
            assert s[0] == r[0];
          } else {
            assert r[i] == r[1..][i - 1];
            var k :| 0 <= k < |s[1..]| && s[1..][k] == r[1..][i - 1];
            assert s[k + 1] == r[i];
          }
        }
      } else {
        SubsequenceMembersOf(r, s[1..]);
        forall i | 0 <= i < |r| ensures exists k :: 0 <= k < |s| && s[k] == r[i] {
          var k :| 0 <= k < |s[1..]| && s[1..][k] == r[i];
          assert s[k + 1] == r[i];
        }
      }
    }
  }
}
