/** The computations behind app.js's screens that do not change the data:
    the dates shown in a section's attendance map, the `DD/MM` column
    headers, the birthday check, the beginning-of-term marker, and the
    page's own view state with the handlers that update it. */
module Views {
  import opened Collections
  import opened Text
  import opened Calendar
  import opened Schema
  import opened Attendance
  import opened History
  import opened DataManager

  // ---------------------------------------------------------------------
  // Attendance map dates
  // ---------------------------------------------------------------------

  /** The weekday filter of the map: the section's visible weekdays, or
      Monday to Friday when the list is empty. */
  function VisibleDays(visible: seq<int>): seq<int> {
    if |visible| > 0 then visible else AllWeekdays
  }

  predicate OnVisibleDay(visible: seq<int>, d: string) {
    ParseIso(d).Some? && Weekday(ParseIso(d).value) in VisibleDays(visible)
  }

  /** The last day of the map: today or the last recorded date, whichever
      is later. */
  function MapEnd(recorded: seq<string>, todayStr: string): string {
    if |recorded| > 0 then
      var last := recorded[|recorded| - 1];
      if Less(last, todayStr) then todayStr else last
    else todayStr
  }

  /** The first day of the map: the start date, moved back to the last day
      when it comes after it. */
  function MapStart(startDate: string, end: string): string {
    if Less(end, startDate) then end else startDate
  }

  /** The business days of the map on the visible weekdays. */
  function MapDays(sec: Section, todayStr: string): seq<string>
    requires sec.startDate.Some?
  {
    var end := MapEnd(SortedKeys(sec.attendance.Keys), todayStr);
    var start := MapStart(sec.startDate.value, end);
    Filter(BusinessDayStrings(start, end), (d: string) => OnVisibleDay(sec.visibleWeekdays, d))
  }

  /** The dates of `sectionDetailTemplate`'s attendance map: nothing
      without a start date; with one, every visible business day from the
      start date to today or the last recorded date when the full map is
      shown, and only today otherwise. */
  function DisplayDates(sec: Section, todayStr: string, showFullMap: bool): seq<string> {
    if !Truthy(sec.startDate) then []
    else if showFullMap then MapDays(sec, todayStr)
    else [todayStr]
  }

  /** Without the full map, the map is today's column alone, whether or not
      today is a business day or a visible weekday. */
  lemma DisplayDatesTodayOnly(sec: Section, todayStr: string)
    ensures DisplayDates(sec, todayStr, false) == if Truthy(sec.startDate) then [todayStr] else []
  {
  }

  /** `getBusinessDays(start, end)` restricted to the visible weekdays. */
  function VisibleBusinessDays(start: string, end: string, visible: seq<int>): seq<string> {
    Filter(BusinessDayStrings(start, end), (d: string) => OnVisibleDay(visible, d))
  }

  lemma BusinessDayMember(start: string, end: string, x: string)
    requires x in BusinessDayStrings(start, end)
    ensures ParseIso(x).Some? && IsBusinessDay(ParseIso(x).value)
    ensures LessEq(start, x) && LessEq(x, end)
  {
    var all := BusinessDayStrings(start, end);
    var k :| 0 <= k < |all| && all[k] == x;
    BusinessDayStringsSound(start, end);
  }

  lemma VisibleBusinessDaysSound(start: string, end: string, visible: seq<int>)
    ensures var r := VisibleBusinessDays(start, end, visible);
            && StrictlyIncreasing(r)
            && (forall i :: 0 <= i < |r| ==>
                  && ParseIso(r[i]).Some? && IsBusinessDay(ParseIso(r[i]).value)
                  && OnVisibleDay(visible, r[i]) && LessEq(start, r[i]) && LessEq(r[i], end))
  {
    var all := BusinessDayStrings(start, end);
    var r := VisibleBusinessDays(start, end, visible);
    BusinessDayStringsAscending(start, end);
    FilterIsOrderedSelection(all, (d: string) => OnVisibleDay(visible, d));
    SubsequenceIncreasing(r, all);
    forall i | 0 <= i < |r|
      ensures ParseIso(r[i]).Some? && IsBusinessDay(ParseIso(r[i]).value)
      ensures OnVisibleDay(visible, r[i]) && LessEq(start, r[i]) && LessEq(r[i], end)
    {
      assert r[i] in r;
      BusinessDayMember(start, end, r[i]);
    }
  }

  /** The full map lists, in ascending order, visible business days only,
      none before the start date nor after the later of today and the last
      recorded date. */
  lemma FullMapSound(sec: Section, todayStr: string)
    requires Truthy(sec.startDate)
    ensures var r := DisplayDates(sec, todayStr, true);
            var end := MapEnd(SortedKeys(sec.attendance.Keys), todayStr);
            && StrictlyIncreasing(r)
            && (forall i :: 0 <= i < |r| ==>
                  && ParseIso(r[i]).Some? && IsBusinessDay(ParseIso(r[i]).value)
                  && OnVisibleDay(sec.visibleWeekdays, r[i])
                  && LessEq(r[i], end) && LessEq(MapStart(sec.startDate.value, end), r[i]))
  {
    var end := MapEnd(SortedKeys(sec.attendance.Keys), todayStr);
    var start := MapStart(sec.startDate.value, end);
    assert DisplayDates(sec, todayStr, true) == VisibleBusinessDays(start, end, sec.visibleWeekdays);
    VisibleBusinessDaysSound(start, end, sec.visibleWeekdays);
  }

  /** The last day of the map is neither before today nor before any
      recorded date, and is one of them. */
  lemma MapEndCovers(recorded: seq<string>, todayStr: string)
    requires StrictlyIncreasing(recorded)
    ensures LessEq(todayStr, MapEnd(recorded, todayStr))
    ensures forall k :: 0 <= k < |recorded| ==> LessEq(recorded[k], MapEnd(recorded, todayStr))
    ensures MapEnd(recorded, todayStr) == todayStr || MapEnd(recorded, todayStr) in recorded
  {
    var end := MapEnd(recorded, todayStr);
    LessIrreflexive(todayStr);
    if |recorded| > 0 {
      var last := recorded[|recorded| - 1];
      LessIrreflexive(last);
      LessAsymmetric(last, todayStr);
      LessTotal(last, todayStr);
      forall k | 0 <= k < |recorded| ensures LessEq(recorded[k], end) {
        if k < |recorded| - 1 {
          LessAsymmetric(recorded[k], last);
          LessEqIsReflexiveLess(recorded[k], last);
          LessEqIsReflexiveLess(last, end);
          LessEqTransitive(recorded[k], last, end);
        }
      }
    }
  }

  /** With every recorded key a `YYYY-MM-DD` date, the full map hides no
      recorded date: every recorded business day on a visible weekday, not
      before the start date, has its column. */
  lemma FullMapShowsRecords(sec: Section, todayStr: string, d: string)
    requires Truthy(sec.startDate)
    requires ParseIso(sec.startDate.value).Some? && ParseIso(todayStr).Some?
    requires forall k :: k in sec.attendance ==> ParseIso(k).Some?
    requires d in sec.attendance && ParseIso(d).Some? && IsBusinessDay(ParseIso(d).value)
    requires OnVisibleDay(sec.visibleWeekdays, d) && LessEq(sec.startDate.value, d)
    ensures d in DisplayDates(sec, todayStr, true)
  {
    var recorded := SortedKeys(sec.attendance.Keys);
    var end := MapEnd(recorded, todayStr);
    MapEndCovers(recorded, todayStr);
    var k :| 0 <= k < |recorded| && recorded[k] == d;
    MapStartIsStart(sec.startDate.value, d, end);
    IsoOfParseIso(d);
    BusinessDayStringsComplete(sec.startDate.value, end, ParseIso(d).value);
    assert d in BusinessDayStrings(sec.startDate.value, end);
    assert DisplayDates(sec, todayStr, true) == VisibleBusinessDays(sec.startDate.value, end, sec.visibleWeekdays);
  }

  lemma MapStartIsStart(start: string, d: string, end: string)
    requires LessEq(start, d) && LessEq(d, end)
    ensures MapStart(start, end) == start
  {
    LessEqTransitive(start, d, end);
  }

  // ---------------------------------------------------------------------
  // Column headers
  // ---------------------------------------------------------------------

  /** `formatDateHeader`: `${day}/${month}` from the pieces of
      `dateStr.split('-')`, a missing piece printing as `undefined`. */
  function FormatDateHeader(dateStr: string): string {
    var parts := Split(dateStr, '-');
    var month := if |parts| > 1 then parts[1] else "undefined";
    var day := if |parts| > 2 then parts[2] else "undefined";
    day + "/" + month
  }

  lemma DigitsHaveNoDash(n: nat, w: nat)
    requires n < Pow10(w)
    ensures NoneOf(Digits(n, w), (x: char) => x == '-')
  {
    var s := Digits(n, w);
    forall i | 0 <= i < |s| ensures s[i] != '-' {
      assert IsDigit(s[i]);
    }
  }

  /** The header of a date's column is its day and month, zero-padded. */
  lemma FormatDateHeaderOfIso(d: Date)
    requires Formattable(d)
    ensures FormatDateHeader(Iso(d)) == Digits(d.day, 2) + "/" + Digits(d.month, 2)
  {
    var y, m, dd := Digits(d.year, 4), Digits(d.month, 2), Digits(d.day, 2);
    var dash := (x: char) => x == '-';
    DigitsHaveNoDash(d.year, 4);
    DigitsHaveNoDash(d.month, 2);
    DigitsHaveNoDash(d.day, 2);
    SplitWhereNone(dd, dash);
    SplitWhereAt(m, '-', dd, dash);
    assert Iso(d) == y + ['-'] + (m + ['-'] + dd);
    SplitWhereAt(y, '-', m + ['-'] + dd, dash);
    assert Split(Iso(d), '-') == [y, m, dd];
  }

  // ---------------------------------------------------------------------
  // Birthdays
  // ---------------------------------------------------------------------

  /** `s.slice(5)`. */
  function Slice5(s: string): string {
    if |s| >= 5 then s[5..] else ""
  }

  /** `isBirthday`: the birthday is set, has at least five characters, and
      agrees with today's date after the first five (the `MM-DD` part). */
  predicate IsBirthday(birthday: Option<string>, todayStr: string) {
    Truthy(birthday) && |birthday.value| >= 5 && Slice5(birthday.value) == Slice5(todayStr)
  }

  lemma IsoTail(d: Date)
    requires Formattable(d)
    ensures Slice5(Iso(d)) == Digits(d.month, 2) + "-" + Digits(d.day, 2)
  {
    var y, m, dd := Digits(d.year, 4), Digits(d.month, 2), Digits(d.day, 2);
    assert Iso(d) == y + ("-" + m + "-" + dd);
  }

  lemma DigitsInjective(a: nat, b: nat, w: nat)
    requires a < Pow10(w) && b < Pow10(w)
    ensures Digits(a, w) == Digits(b, w) <==> a == b
  {
    NumberOfDigits(a, w);
    NumberOfDigits(b, w);
  }

  /** For dates in `YYYY-MM-DD` form, a birthday is today exactly when the
      month and the day agree, whatever the years. */
  lemma IsBirthdayOfDates(b: Date, t: Date)
    requires Formattable(b) && Formattable(t)
    ensures IsBirthday(Some(Iso(b)), Iso(t)) <==> b.month == t.month && b.day == t.day
  {
    assert Pow10(2) == 100 by {
      assert Pow10(1) == 10;
    }
    IsoTail(b);
    IsoTail(t);
    SeparatedOrder(Digits(b.month, 2), Digits(t.month, 2), '-', Digits(b.day, 2), Digits(t.day, 2));
    DigitsInjective(b.month, t.month, 2);
    DigitsInjective(b.day, t.day, 2);
  }

  function BirthdaysToday(students: seq<Student>, todayStr: string): seq<Student> {
    Filter(students, (s: Student) => IsBirthday(s.birthday, todayStr))
  }

  /** `checkBirthdayAlerts`: on a section's detail page with somebody's
      birthday today, the section is marked as handled for today. */
  function MarkBirthdays(played: map<string, string>, currentView: string, selected: Option<string>,
                         roster: Option<seq<Student>>, todayStr: string): map<string, string> {
    if currentView != "detail" || !Truthy(selected) then played
    else if roster.None? then played
    else if |BirthdaysToday(roster.value, todayStr)| == 0 then played
    else if selected.value in played && played[selected.value] == todayStr then played
    else played[selected.value := todayStr]
  }

  /** The check marks at most the selected section, marks it with today's
      date exactly when it is shown and has a birthday today, and running it
      again changes nothing. */
  lemma MarkBirthdaysSpec(played: map<string, string>, currentView: string, selected: Option<string>,
                          roster: Option<seq<Student>>, todayStr: string)
    ensures var r := MarkBirthdays(played, currentView, selected, roster, todayStr);
            && (forall k :: k in played ==> k in r)
            && (forall k :: k in r && (!Truthy(selected) || k != selected.value) ==> k in played && r[k] == played[k])
            && (Truthy(selected) ==>
                  (selected.value in r && r[selected.value] == todayStr <==>
                     (selected.value in played && played[selected.value] == todayStr)
                     || (currentView == "detail" && roster.Some? && |BirthdaysToday(roster.value, todayStr)| > 0)))
            && MarkBirthdays(r, currentView, selected, roster, todayStr) == r
  {
  }

  // ---------------------------------------------------------------------
  // Beginning-of-term marker
  // ---------------------------------------------------------------------

  const Momentos: seq<string> := ["I", "II", "III"]

  /** `handleInicioMomentoToggle`: the next marker in `I`, `II`, `III`, and
      `I` after an unknown value. */
  function NextMomento(m: string): string {
    Momentos[(IndexOf(Momentos, m) + 1) % |Momentos|]
  }

  lemma NextMomentoCycle(m: string)
    ensures NextMomento("I") == "II" && NextMomento("II") == "III" && NextMomento("III") == "I"
    ensures m !in Momentos ==> NextMomento(m) == "I"
    ensures NextMomento(m) in Momentos
    ensures NextMomento(NextMomento(NextMomento(m))) == (if m in Momentos then m else "III")
  {
    assert Momentos[0] == "I" && Momentos[1] == "II" && Momentos[2] == "III";
  }

  // ---------------------------------------------------------------------
  // Page state
  // ---------------------------------------------------------------------

  /** The part of app.js's `state` object that the handlers below keep. */
  class ViewState {
    var currentView: string
    var selectedSectionId: Option<string>
    var historyFilter: string
    var customStart: string
    var customEnd: string
    var studentFilter: string
    var showFullMap: bool
    var inicioMomento: string
    var birthdayAlarmPlayed: map<string, string>

    /** The initial `state`. */
    constructor ()
      ensures currentView == "sections" && selectedSectionId == None
      ensures historyFilter == "7" && customStart == "" && customEnd == "" && studentFilter == ""
      ensures !showFullMap && inicioMomento == "I" && birthdayAlarmPlayed == map[]
    {
      currentView := "sections";
      selectedSectionId := None;
      historyFilter := "7";
      customStart := "";
      customEnd := "";
      studentFilter := "";
      showFullMap := false;
      inicioMomento := "I";
      birthdayAlarmPlayed := map[];
    }

    method ToggleInicioMomento()
      modifies this
      ensures inicioMomento == NextMomento(old(inicioMomento))
      ensures currentView == old(currentView) && selectedSectionId == old(selectedSectionId)
      ensures historyFilter == old(historyFilter) && customStart == old(customStart)
      ensures customEnd == old(customEnd) && studentFilter == old(studentFilter)
      ensures showFullMap == old(showFullMap) && birthdayAlarmPlayed == old(birthdayAlarmPlayed)
    {
      var i := IndexOf(Momentos, inicioMomento);
      inicioMomento := Momentos[(i + 1) % |Momentos|];
    }

    /** `setHistoryFilter`. */
    method SetHistoryFilter(filter: string)
      modifies this
      ensures historyFilter == filter
      ensures customStart == old(customStart) && customEnd == old(customEnd) && studentFilter == old(studentFilter)
      ensures currentView == old(currentView) && selectedSectionId == old(selectedSectionId)
      ensures showFullMap == old(showFullMap) && inicioMomento == old(inicioMomento)
      ensures birthdayAlarmPlayed == old(birthdayAlarmPlayed)
    {
      historyFilter := filter;
    }

    /** `handleHistoryCustomDateChange`: `start` and `end` set their bound
        (an absent value becomes `''`), any other field name nothing. */
    method SetHistoryCustomDate(field: string, value: Option<string>)
      modifies this
      ensures customStart == (if field == "start" then (if value.Some? then value.value else "") else old(customStart))
      ensures customEnd == (if field == "end" then (if value.Some? then value.value else "") else old(customEnd))
      ensures historyFilter == old(historyFilter) && studentFilter == old(studentFilter)
      ensures currentView == old(currentView) && selectedSectionId == old(selectedSectionId)
      ensures showFullMap == old(showFullMap) && inicioMomento == old(inicioMomento)
      ensures birthdayAlarmPlayed == old(birthdayAlarmPlayed)
    {
      var v := if value.Some? then value.value else "";
      if field == "start" {
        customStart := v;
      } else if field == "end" {
        customEnd := v;
      }
    }

    /** `handleHistoryStudentFilterChange`. */
    method SetHistoryStudentFilter(value: string)
      modifies this
      ensures studentFilter == value
      ensures historyFilter == old(historyFilter) && customStart == old(customStart) && customEnd == old(customEnd)
      ensures currentView == old(currentView) && selectedSectionId == old(selectedSectionId)
      ensures showFullMap == old(showFullMap) && inicioMomento == old(inicioMomento)
      ensures birthdayAlarmPlayed == old(birthdayAlarmPlayed)
    {
      studentFilter := value;
    }

    /** `checkBirthdayAlerts`, with today's date as a parameter. */
    method CheckBirthdayAlerts(store: Store, todayStr: string)
      requires store.Valid()
      modifies this
      ensures birthdayAlarmPlayed == MarkBirthdays(old(birthdayAlarmPlayed), currentView, selectedSectionId,
                                                   if selectedSectionId.Some? && store.GetSection(selectedSectionId.value).Some?
                                                   then Some(store.GetStudents(selectedSectionId.value)) else None,
                                                   todayStr)
      ensures currentView == old(currentView) && selectedSectionId == old(selectedSectionId)
      ensures historyFilter == old(historyFilter) && customStart == old(customStart)
      ensures customEnd == old(customEnd) && studentFilter == old(studentFilter)
      ensures showFullMap == old(showFullMap) && inicioMomento == old(inicioMomento)
    {
      if currentView != "detail" || !Truthy(selectedSectionId) {
        return;
      }
      var id := selectedSectionId.value;
      var section := store.GetSection(id);
      if section.None? {
        return;
      }
      var students := store.GetStudents(section.value.id);
      var birthdays := BirthdaysToday(students, todayStr);
      if |birthdays| == 0 {
        return;
      }
      if id in birthdayAlarmPlayed && birthdayAlarmPlayed[id] == todayStr {
        return;
      }
      birthdayAlarmPlayed := birthdayAlarmPlayed[id := todayStr];
    }
  }
}
