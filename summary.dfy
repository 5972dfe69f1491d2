/** The attendance statistics of app.js: the present/absent counts on a
    section card, the per-gender figures of today's summary, the totals of
    the general summary over every recorded date, and the list of today's
    late arrivals. Unmarked students count as present throughout. */
module Summary {
  import opened Collections
  import opened Text
  import opened Roster
  import opened Schema
  import opened Attendance

  datatype Tally = Tally(present: nat, absent: nat, late: nat)

  const Zero := Tally(0, 0, 0)

  /** How one status is counted: `P` and `U` as present, `L` as present and
      late, `A` as absent, and any other value not at all. */
  function Count(t: Tally, status: string): Tally {
    if status == "P" || status == "U" then t.(present := t.present + 1)
    else if status == "L" then t.(present := t.present + 1, late := t.late + 1)
    else if status == "A" then t.(absent := t.absent + 1)
    else t
  }

  /** The tally of a list of statuses, counted in order. */
  function TallyOf(statuses: seq<string>): Tally
    decreases |statuses|
  {
    if |statuses| == 0 then Zero
    else Count(TallyOf(statuses[..|statuses| - 1]), statuses[|statuses| - 1])
  }

  /** The denominator of the percentages: present plus absent. */
  function Marked(t: Tally): nat {
    t.present + t.absent
  }

  lemma TallyOfSnoc(statuses: seq<string>, s: string)
    ensures TallyOf(statuses + [s]) == Count(TallyOf(statuses), s)
  {
    assert (statuses + [s])[..|statuses|] == statuses;
  }

  /** A tally is a count of codes: present is the number of `P`, `U` and
      `L`, absent the number of `A`, late the number of `L`. */
  lemma {:induction false} TallyOfCounts(statuses: seq<string>)
    ensures var t := TallyOf(statuses);
            var m := multiset(statuses);
            && t.present == m["P"] + m["U"] + m["L"]
            && t.absent == m["A"]
            && t.late == m["L"]
    decreases |statuses|
  {
    if |statuses| > 0 {
      var init := statuses[..|statuses| - 1];
      TallyOfCounts(init);
      assert statuses == init + [statuses[|statuses| - 1]];
    }
  }

  /** Nobody is late without being present, and no status is counted
      twice; when every value is a status code, every one is counted. */
  lemma {:induction false} TallyOfBounds(statuses: seq<string>)
    ensures TallyOf(statuses).late <= TallyOf(statuses).present
    ensures Marked(TallyOf(statuses)) <= |statuses|
    ensures (forall i :: 0 <= i < |statuses| ==> IsStatus(statuses[i])) ==> Marked(TallyOf(statuses)) == |statuses|
    decreases |statuses|
  {
    if |statuses| > 0 {
      var init, x := statuses[..|statuses| - 1], statuses[|statuses| - 1];
      TallyOfBounds(init);
      assert TallyOf(statuses) == Count(TallyOf(init), x);
      if forall i :: 0 <= i < |statuses| ==> IsStatus(statuses[i]) {
        assert forall i :: 0 <= i < |init| ==> IsStatus(init[i]) by {
          forall i | 0 <= i < |init| ensures IsStatus(init[i]) {
            assert init[i] == statuses[i];
          }
        }
        assert IsStatus(x);
      }
    }
  }

  /** `dayRecords[student.id] || 'U'`. */
  function StatusOf(day: DayMap, st: Student): string {
    ReadAs(if st.id in day then Some(day[st.id]) else None)
  }

  // ---------------------------------------------------------------------
  // Section card
  // ---------------------------------------------------------------------

  predicate AbsentOn(day: DayMap, st: Student) {
    StatusOf(day, st) == "A"
  }

  /** `sectionCard`'s counts for today: `A` is absent, everything else,
      including an unmarked student or a foreign value, present. */
  method CardCounts(students: seq<Student>, today: DayMap) returns (present: nat, absent: nat)
    ensures absent == |Filter(students, (s: Student) => AbsentOn(today, s))|
    ensures present + absent == |students|
  {
    present, absent := 0, 0;
    var i := 0;
    while i < |students|
      invariant 0 <= i <= |students|
      invariant absent == |Filter(students[..i], (s: Student) => AbsentOn(today, s))|
      invariant present + absent == i
    {
      FilterAppend(students[..i], [students[i]], (s: Student) => AbsentOn(today, s));
      assert students[..i + 1] == students[..i] + [students[i]];
      var status := StatusOf(today, students[i]);
      if status == "A" {
        absent := absent + 1;
      } else {
        present := present + 1;
      }
      i := i + 1;
    }
    assert students[..i] == students;
  }

  // ---------------------------------------------------------------------
  // Today's summary by gender
  // ---------------------------------------------------------------------

  /** `student.gender === 'M' ? 'M' : student.gender === 'F' ? 'F' : 'U'`. */
  function GenderKey(gender: string): string {
    if gender == "M" then "M" else if gender == "F" then "F" else "U"
  }

  /** The statuses of the students whose gender key is `key`, in roster order. */
  function GenderStatuses(day: DayMap, students: seq<Student>, key: string): seq<string>
    decreases |students|
  {
    if |students| == 0 then []
    else
      var last := students[|students| - 1];
      GenderStatuses(day, students[..|students| - 1], key)
        + (if GenderKey(last.gender) == key then [StatusOf(day, last)] else [])
  }

  /** Every student falls in exactly one of the three groups. */
  lemma {:induction false} GenderPartition(day: DayMap, students: seq<Student>)
    ensures |GenderStatuses(day, students, "M")| + |GenderStatuses(day, students, "F")|
          + |GenderStatuses(day, students, "U")| == |students|
    decreases |students|
  {
    if |students| > 0 {
      GenderPartition(day, students[..|students| - 1]);
    }
  }

  /** `summaryStats`: today's tallies for boys, girls and everyone else. */
  method GenderSummary(students: seq<Student>, today: DayMap) returns (boys: Tally, girls: Tally, others: Tally)
    ensures boys == TallyOf(GenderStatuses(today, students, "M"))
    ensures girls == TallyOf(GenderStatuses(today, students, "F"))
    ensures others == TallyOf(GenderStatuses(today, students, "U"))
  {
    boys, girls, others := Zero, Zero, Zero;
    var i := 0;
    while i < |students|
      invariant 0 <= i <= |students|
      invariant boys == TallyOf(GenderStatuses(today, students[..i], "M"))
      invariant girls == TallyOf(GenderStatuses(today, students[..i], "F"))
      invariant others == TallyOf(GenderStatuses(today, students[..i], "U"))
    {
      var status := StatusOf(today, students[i]);
      var key := GenderKey(students[i].gender);
      GenderStatusesSnoc(today, students, i, "M");
      GenderStatusesSnoc(today, students, i, "F");
      GenderStatusesSnoc(today, students, i, "U");
      TallyOfSnoc(GenderStatuses(today, students[..i], key), status);
      assert key == "M" || key == "F" || key == "U";
      if key == "M" {
        boys := Count(boys, status);
      } else if key == "F" {
        girls := Count(girls, status);
      } else {
        others := Count(others, status);
      }
      i := i + 1;
    }
    assert students[..i] == students;
  }

  lemma GenderStatusesSnoc(day: DayMap, students: seq<Student>, i: nat, key: string)
    requires i < |students|
    ensures GenderKey(students[i].gender) == key ==>
              GenderStatuses(day, students[..i + 1], key) == GenderStatuses(day, students[..i], key) + [StatusOf(day, students[i])]
    ensures GenderKey(students[i].gender) != key ==>
              GenderStatuses(day, students[..i + 1], key) == GenderStatuses(day, students[..i], key)
  {
    assert students[..i + 1][..i] == students[..i];
  }

  /** Today's summary accounts for every student at most once, and for
      every student when all of today's values are status codes. */
  lemma GenderSummaryAccounts(today: DayMap, students: seq<Student>)
    ensures var b := TallyOf(GenderStatuses(today, students, "M"));
            var g := TallyOf(GenderStatuses(today, students, "F"));
            var o := TallyOf(GenderStatuses(today, students, "U"));
            && Marked(b) + Marked(g) + Marked(o) <= |students|
            && ((forall k :: 0 <= k < |students| ==> IsStatus(StatusOf(today, students[k])))
                ==> Marked(b) + Marked(g) + Marked(o) == |students|)
  {
    GenderPartition(today, students);
    TallyOfBounds(GenderStatuses(today, students, "M"));
    TallyOfBounds(GenderStatuses(today, students, "F"));
    TallyOfBounds(GenderStatuses(today, students, "U"));
    if forall k :: 0 <= k < |students| ==> IsStatus(StatusOf(today, students[k])) {
      GenderStatusesKnown(today, students, "M");
      GenderStatusesKnown(today, students, "F");
      GenderStatusesKnown(today, students, "U");
    }
  }

  lemma {:induction false} GenderStatusesKnown(day: DayMap, students: seq<Student>, key: string)
    requires forall k :: 0 <= k < |students| ==> IsStatus(StatusOf(day, students[k]))
    ensures forall i :: 0 <= i < |GenderStatuses(day, students, key)| ==> IsStatus(GenderStatuses(day, students, key)[i])
    decreases |students|
  {
    if |students| > 0 {
      GenderStatusesKnown(day, students[..|students| - 1], key);
    }
  }

  // ---------------------------------------------------------------------
  // General summary
  // ---------------------------------------------------------------------

  /** The statuses of the roster on one date, in roster order: a student
      reads as unmarked exactly when the date's record holds nothing truthy
      (or `U`) for them, and otherwise as the stored value. */
  function DayStatuses(day: DayMap, students: seq<Student>): (r: seq<string>)
    ensures |r| == |students|
    ensures forall k :: 0 <= k < |students| ==>
              (r[k] == "U" <==> students[k].id !in day || day[students[k].id] == "" || day[students[k].id] == "U")
    ensures forall k :: 0 <= k < |students| && r[k] != "U" ==> students[k].id in day && r[k] == day[students[k].id]
  {
    seq(|students|, k requires 0 <= k < |students| => StatusOf(day, students[k]))
  }

  /** How many students of the roster read as one of `codes` on the date,
      counted student by student. */
  function NumWith(day: DayMap, students: seq<Student>, codes: set<string>): nat
    decreases |students|
  {
    if |students| == 0 then 0
    else NumWith(day, students[..|students| - 1], codes)
         + (if StatusOf(day, students[|students| - 1]) in codes then 1 else 0)
  }

  /** A date's tally counts the students: present are those read as `P`,
      `U` or `L`, absent those read as `A`, late those read as `L`. */
  lemma {:induction false} TallyOfDay(day: DayMap, students: seq<Student>)
    ensures TallyOf(DayStatuses(day, students))
         == Tally(NumWith(day, students, {"P", "U", "L"}), NumWith(day, students, {"A"}), NumWith(day, students, {"L"}))
    decreases |students|
  {
    if |students| > 0 {
      var n := |students|;
      TallyOfDay(day, students[..n - 1]);
      assert DayStatuses(day, students) == DayStatuses(day, students[..n - 1]) + [StatusOf(day, students[n - 1])];
    }
  }

  /** Every student's status on every listed date, date by date. */
  function AllStatuses(records: DateMap, dates: seq<string>, students: seq<Student>): seq<string>
    decreases |dates|
  {
    if |dates| == 0 then []
    else AllStatuses(records, dates[..|dates| - 1], students)
           + DayStatuses(DayOf(records, dates[|dates| - 1]), students)
  }

  lemma {:induction false} AllStatusesLength(records: DateMap, dates: seq<string>, students: seq<Student>)
    ensures |AllStatuses(records, dates, students)| == |dates| * |students|
    decreases |dates|
  {
    if |dates| > 0 {
      AllStatusesLength(records, dates[..|dates| - 1], students);
    }
  }

  /** `Object.keys(records)`, in whatever order the object keeps: each
      recorded date exactly once. */
  predicate ListsKeys(dates: seq<string>, records: DateMap) {
    && (forall i, j :: 0 <= i < j < |dates| ==> dates[i] != dates[j])
    && (forall d :: d in dates ==> d in records)
    && (forall d :: d in records ==> d in dates)
  }

  /** `generalSummaryStats`: walks the dates (`Object.keys` of the records)
      and, on each, the roster. */
  method OverallSummary(records: DateMap, dates: seq<string>, students: seq<Student>) returns (total: Tally)
    requires ListsKeys(dates, records)
    ensures total == TallyOf(AllStatuses(records, dates, students))
    ensures |students| > 0 ==> GeneralSummary(records, students) == Some(total)
  {
    total := Zero;
    var i := 0;
    while i < |dates|
      invariant 0 <= i <= |dates|
      invariant total == TallyOf(AllStatuses(records, dates[..i], students))
    {
      var day := DayOf(records, dates[i]);
      total := CountDay(total, AllStatuses(records, dates[..i], students), day, students);
      assert dates[..i + 1][..i] == dates[..i];
      i := i + 1;
    }
    assert dates[..i] == dates;
    ListsKeysTally(records, dates, students);
  }

  /** The inner loop of `generalSummaryStats`: one date's statuses added
      to the running tally. */
  method CountDay(total: Tally, ghost before: seq<string>, day: DayMap, students: seq<Student>) returns (t: Tally)
    requires total == TallyOf(before)
    ensures t == TallyOf(before + DayStatuses(day, students))
  {
    t := total;
    var j := 0;
    assert before + DayStatuses(day, students)[..0] == before;
    while j < |students|
      invariant 0 <= j <= |students|
      invariant t == TallyOf(before + DayStatuses(day, students)[..j])
    {
      var status := StatusOf(day, students[j]);
      TallyOfSnoc(before + DayStatuses(day, students)[..j], status);
      assert before + DayStatuses(day, students)[..j + 1] == before + DayStatuses(day, students)[..j] + [status];
      t := Count(t, status);
      j := j + 1;
    }
    assert DayStatuses(day, students)[..j] == DayStatuses(day, students);
  }

  /** The general summary counts each student once per recorded date; when
      every value is a status code the percentages have |dates| × |roster|
      as denominator, so they show `--` only without dates or students. */
  lemma OverallSummaryAccounts(records: DateMap, dates: seq<string>, students: seq<Student>)
    ensures var t := TallyOf(AllStatuses(records, dates, students));
            && t.late <= t.present
            && Marked(t) <= |dates| * |students|
            && ((forall i :: 0 <= i < |AllStatuses(records, dates, students)| ==> IsStatus(AllStatuses(records, dates, students)[i]))
                ==> Marked(t) == |dates| * |students|)
  {
    AllStatusesLength(records, dates, students);
    TallyOfBounds(AllStatuses(records, dates, students));
  }

  /** The attendance percentage of the general summary as the fraction
      present / marked, or `None` for the `--` placeholder shown when
      nothing is marked. The absence percentage is its complement. */
  function AttendanceRatio(t: Tally): (r: Option<(nat, nat)>)
    ensures r.None? <==> Marked(t) == 0
    ensures r.Some? ==> r.value.1 > 0 && r.value.0 <= r.value.1 && r.value.1 - r.value.0 == t.absent
  {
    if Marked(t) > 0 then Some((t.present, Marked(t))) else None
  }

  lemma ProductIsZero(a: nat, b: nat)
    ensures a * b == 0 <==> a == 0 || b == 0
  {
    if a > 0 && b > 0 {
      assert a * b >= b by {
        assert a * b == (a - 1) * b + b;
      }
    }
  }

  /** What `generalSummaryStats` shows: nothing at all for an empty roster,
      otherwise the totals over every recorded date and student. */
  function GeneralSummary(records: DateMap, students: seq<Student>): Option<Tally> {
    if |students| == 0 then None else Some(TallyOf(AllStatuses(records, SortedKeys(records.Keys), students)))
  }

  lemma {:induction false} AllStatusesAppend(records: DateMap, a: seq<string>, b: seq<string>, students: seq<Student>)
    ensures AllStatuses(records, a + b, students) == AllStatuses(records, a, students) + AllStatuses(records, b, students)
    decreases |b|
  {
    if |b| == 0 {
      assert a + b == a;
    } else {
      var init := b[..|b| - 1];
      assert (a + b)[..|a + b| - 1] == a + init;
      AllStatusesAppend(records, a, init, students);
    }
  }

  lemma RemoveAtMultiset(s: seq<string>, k: nat)
    requires k < |s|
    ensures multiset(s[..k] + s[k + 1..]) == multiset(s) - multiset{s[k]}
  {
    assert s == s[..k] + [s[k]] + s[k + 1..];
  }

  /** Leaving one date out of the walk leaves out that date's cells. */
  lemma AllStatusesRemoveAt(records: DateMap, dates: seq<string>, k: nat, students: seq<Student>)
    requires k < |dates|
    ensures multiset(AllStatuses(records, dates, students))
         == multiset(AllStatuses(records, dates[..k] + dates[k + 1..], students))
          + multiset(DayStatuses(DayOf(records, dates[k]), students))
  {
    var before, after := dates[..k], dates[k + 1..];
    assert dates == before + [dates[k]] + after;
    AllStatusesAppend(records, before + [dates[k]], after, students);
    AllStatusesAppend(records, before, [dates[k]], students);
    AllStatusesAppend(records, before, after, students);
    assert [dates[k]][..0] == [];
  }

  /** Walking the same dates in another order visits the same cells. */
  lemma {:induction false} AllStatusesPermute(records: DateMap, d1: seq<string>, d2: seq<string>, students: seq<Student>)
    requires multiset(d1) == multiset(d2)
    ensures multiset(AllStatuses(records, d1, students)) == multiset(AllStatuses(records, d2, students))
    decreases |d1|
  {
    if |d1| == 0 {
      assert |d2| == |multiset(d2)| == 0;
    } else {
      var x := d1[|d1| - 1];
      var init := d1[..|d1| - 1];
      assert d1 == init + [x];
      assert x in multiset(d2);
      var k :| 0 <= k < |d2| && d2[k] == x;
      RemoveAtMultiset(d2, k);
      AllStatusesPermute(records, init, d2[..k] + d2[k + 1..], students);
      AllStatusesRemoveAt(records, d2, k, students);
    }
  }

  /** A list without repeats holds each of its values once. */
  lemma {:induction false} DistinctCount(s: seq<string>, x: string)
    requires forall i, j :: 0 <= i < j < |s| ==> s[i] != s[j]
    ensures multiset(s)[x] == if x in s then 1 else 0
    decreases |s|
  {
    if |s| > 0 {
      var init := s[..|s| - 1];
      assert s == init + [s[|s| - 1]];
      DistinctCount(init, x);
    }
  }

  lemma SortedKeysListsKeys(records: DateMap)
    ensures ListsKeys(SortedKeys(records.Keys), records)
  {
    var r := SortedKeys(records.Keys);
    forall i, j | 0 <= i < j < |r| ensures r[i] != r[j] {
      LessIrreflexive(r[i]);
    }
  }

  /** The totals do not depend on the order `Object.keys` lists the dates in. */
  lemma ListsKeysTally(records: DateMap, dates: seq<string>, students: seq<Student>)
    requires ListsKeys(dates, records)
    ensures TallyOf(AllStatuses(records, dates, students))
         == TallyOf(AllStatuses(records, SortedKeys(records.Keys), students))
  {
    var sorted := SortedKeys(records.Keys);
    SortedKeysListsKeys(records);
    forall x ensures multiset(dates)[x] == multiset(sorted)[x] {
      DistinctCount(dates, x);
      DistinctCount(sorted, x);
    }
    assert multiset(dates) == multiset(sorted);
    AllStatusesPermute(records, dates, sorted, students);
    TallyOfCounts(AllStatuses(records, dates, students));
    TallyOfCounts(AllStatuses(records, sorted, students));
  }

  /** When every value is a status code, the ratio of the totals is the
      `--` placeholder exactly when there are no dates or no students. */
  lemma PlaceholderExactlyWhenEmpty(records: DateMap, dates: seq<string>, students: seq<Student>)
    requires forall i :: 0 <= i < |AllStatuses(records, dates, students)| ==> IsStatus(AllStatuses(records, dates, students)[i])
    ensures AttendanceRatio(TallyOf(AllStatuses(records, dates, students))).None? <==> |dates| == 0 || |students| == 0
  {
    OverallSummaryAccounts(records, dates, students);
    ProductIsZero(|dates|, |students|);
  }

  /** Every stored value is a status code or the empty string. */
  predicate StatusRecords(records: DateMap) {
    forall d, sid :: d in records && sid in records[d] ==> records[d][sid] == "" || IsStatus(records[d][sid])
  }

  /** Over records holding only status codes, every cell reads as one. */
  lemma {:induction false} AllStatusesAreStatuses(records: DateMap, dates: seq<string>, students: seq<Student>)
    requires StatusRecords(records)
    ensures forall i :: 0 <= i < |AllStatuses(records, dates, students)| ==> IsStatus(AllStatuses(records, dates, students)[i])
    decreases |dates|
  {
    if |dates| > 0 {
      var init := dates[..|dates| - 1];
      var day := DayOf(records, dates[|dates| - 1]);
      AllStatusesAreStatuses(records, init, students);
      var last := DayStatuses(day, students);
      forall k | 0 <= k < |last| ensures IsStatus(last[k]) {
        if last[k] != "U" {
          assert students[k].id in day;
        }
      }
    }
  }

  lemma PlaceholderOverRecords(records: DateMap, dates: seq<string>, students: seq<Student>)
    requires StatusRecords(records)
    requires |dates| == 0 <==> records == map[]
    ensures AttendanceRatio(TallyOf(AllStatuses(records, dates, students))).None? <==> records == map[] || |students| == 0
  {
    AllStatusesAreStatuses(records, dates, students);
    PlaceholderExactlyWhenEmpty(records, dates, students);
  }

  /** The general summary walks a list of dates that is empty exactly when
      nothing is recorded. */
  lemma GeneralSummaryOverKeys(records: DateMap, students: seq<Student>) returns (dates: seq<string>)
    ensures |dates| == 0 <==> records == map[]
    ensures GeneralSummary(records, students)
         == if |students| == 0 then None else Some(TallyOf(AllStatuses(records, dates, students)))
  {
    dates := SortedKeys(records.Keys);
    if records != map[] {
      var d :| d in records;
      assert d in records.Keys;
    }
  }

  /** With status codes only, the general summary is hidden exactly for an
      empty roster; shown, it has the `--` placeholder exactly when no date
      is recorded. */
  lemma GeneralSummaryPlaceholder(records: DateMap, students: seq<Student>)
    requires StatusRecords(records)
    ensures GeneralSummary(records, students).None? <==> |students| == 0
    ensures GeneralSummary(records, students).Some? ==>
              (AttendanceRatio(GeneralSummary(records, students).value).None? <==> records == map[])
  {
    var dates := GeneralSummaryOverKeys(records, students);
    PlaceholderOverRecords(records, dates, students);
  }

  // ---------------------------------------------------------------------
  // Late list
  // ---------------------------------------------------------------------

  /** One row of the late list: `"lastName, firstName"` and the stamp. */
  datatype LateEntry = LateEntry(name: string, time: string)

  function EntryKey(e: LateEntry): Key {
    Key(e.time, "")
  }

  function LateEntryOf(st: Student, stamps: DayMap): LateEntry
    requires st.id in stamps
  {
    LateEntry(st.lastName + ", " + st.firstName, stamps[st.id])
  }

  predicate HasStamp(stamps: DayMap, st: Student) {
    st.id in stamps && stamps[st.id] != ""
  }

  /** The students with a truthy stamp, as entries, in roster order. */
  function StampedEntries(students: seq<Student>, stamps: DayMap): seq<LateEntry>
    decreases |students|
  {
    if |students| == 0 then []
    else
      var rest := StampedEntries(students[1..], stamps);
      if HasStamp(stamps, students[0]) then [LateEntryOf(students[0], stamps)] + rest else rest
  }

  /** The late list of the late-arrivals modal (`lateEntries`), ordered by stamp; entries with the
      same stamp keep roster order. */
  function LateList(students: seq<Student>, stamps: DayMap): seq<LateEntry> {
    SortBy(StampedEntries(students, stamps), EntryKey)
  }

  /** Late arrivals with the same stamp appear in roster order. */
  lemma LateListStable(students: seq<Student>, stamps: DayMap, time: string)
    ensures WithKey(LateList(students, stamps), EntryKey, Key(time, ""))
         == WithKey(StampedEntries(students, stamps), EntryKey, Key(time, ""))
  {
    SortByStable(StampedEntries(students, stamps), EntryKey, Key(time, ""));
  }

  /** The late list is ordered by time and holds one entry for each student
      with a stamp, and nothing else. */
  lemma LateListSpec(students: seq<Student>, stamps: DayMap)
    ensures forall i, j :: 0 <= i < j < |LateList(students, stamps)| ==>
              LessEq(LateList(students, stamps)[i].time, LateList(students, stamps)[j].time)
    ensures multiset(LateList(students, stamps)) == multiset(StampedEntries(students, stamps))
    ensures forall e :: e in LateList(students, stamps) <==>
              exists k :: 0 <= k < |students| && HasStamp(stamps, students[k]) && e == LateEntryOf(students[k], stamps)
  {
    var r := LateList(students, stamps);
    SortBySortsAndPermutes(StampedEntries(students, stamps), EntryKey);
    forall i, j | 0 <= i < j < |r| ensures LessEq(r[i].time, r[j].time) {
      assert !KeyLess(EntryKey(r[j]), EntryKey(r[i]));
    }
    StampedEntriesMembers(students, stamps);
    forall e ensures e in r <==> e in StampedEntries(students, stamps) {
      assert e in r <==> e in multiset(r);
    }
  }

  lemma {:induction false} StampedEntriesMembers(students: seq<Student>, stamps: DayMap)
    ensures forall e :: e in StampedEntries(students, stamps) <==>
              exists k :: 0 <= k < |students| && HasStamp(stamps, students[k]) && e == LateEntryOf(students[k], stamps)
    decreases |students|
  {
    if |students| > 0 {
      StampedEntriesMembers(students[1..], stamps);
      forall e | e in StampedEntries(students, stamps)
        ensures exists k :: 0 <= k < |students| && HasStamp(stamps, students[k]) && e == LateEntryOf(students[k], stamps)
      {
        if e in StampedEntries(students[1..], stamps) {
          var k :| 0 <= k < |students[1..]| && HasStamp(stamps, students[1..][k]) && e == LateEntryOf(students[1..][k], stamps);
          assert students[k + 1] == students[1..][k];
        }
      }
      forall e | exists k :: 0 <= k < |students| && HasStamp(stamps, students[k]) && e == LateEntryOf(students[k], stamps)
        ensures e in StampedEntries(students, stamps)
      {
        var k :| 0 <= k < |students| && HasStamp(stamps, students[k]) && e == LateEntryOf(students[k], stamps);
        if k > 0 {
          assert students[1..][k - 1] == students[k];
        }
      }
    }
  }
}
