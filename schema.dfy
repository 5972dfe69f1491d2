/** The persisted state tree of data_manager.js — subjects, sections,
    students, the sparse attendance map and the late-times map — together
    with the document as it may come back from storage, the load-time
    migration that repairs it, and the weekday normalisation. */
module Schema {
  import opened Collections
  import opened Text
  import opened Roster

  datatype Subject = Subject(id: string, name: string)

  /** A student record. An empty `gender` stands for a missing or falsy
      value; `birthday` is a `YYYY-MM-DD` string or null. */
  datatype Student = Student(id: string, firstName: string, lastName: string, gender: string, birthday: Option<string>)

  /** One date's records: student id to status code (`attendance`) or to an
      `HH:MM` stamp (`lateTimes`). */
  type DayMap = map<string, string>

  /** Date string to that date's records. */
  type DateMap = map<string, DayMap>

  /** A section. `subjectId` is null (`None`) or a string, possibly empty;
      `startDate` is null or a string. */
  datatype Section = Section(
    id: string,
    name: string,
    subjectId: Option<string>,
    students: seq<Student>,
    attendance: DateMap,
    lateTimes: DateMap,
    startDate: Option<string>,
    visibleWeekdays: seq<int>)

  datatype AppData = AppData(subjects: seq<Subject>, sections: seq<Section>)

  /** `defaultState`. */
  const DefaultState := AppData([], [])

  /** Monday to Friday, as `getUTCDay` numbers them. */
  const AllWeekdays: seq<int> := [1, 2, 3, 4, 5]

  /** JavaScript truthiness of an optional string: present and non-empty. */
  predicate Truthy(s: Option<string>) {
    s.Some? && s.value != ""
  }

  /** `value || null` for an optional string. */
  function OrNull(s: Option<string>): (r: Option<string>)
    ensures r == None <==> !Truthy(s)
    ensures r.Some? ==> r == s
  {
    if Truthy(s) then s else None
  }

  // ---------------------------------------------------------------------
  // Roster order
  // ---------------------------------------------------------------------

  /** `sortStudents` orders by last name, then first name. */
  function NameKey(st: Student): Key {
    Key(st.lastName, st.firstName)
  }

  predicate RosterSorted(students: seq<Student>) {
    SortedBy(students, NameKey)
  }

  /** `sortStudents`: the roster in (lastName, firstName) order, the same
      students, each as often as before. */
  function SortStudents(students: seq<Student>): (r: seq<Student>)
    ensures RosterSorted(r) && multiset(r) == multiset(students)
  {
    SortBySortsAndPermutes(students, NameKey);
    SortBy(students, NameKey)
  }

  // ---------------------------------------------------------------------
  // Well-formed states
  // ---------------------------------------------------------------------

  /** What every section of a loaded or edited state satisfies: its roster
      is sorted and at least one weekday is visible. */
  predicate SectionWellFormed(sec: Section) {
    RosterSorted(sec.students) && |sec.visibleWeekdays| > 0
  }

  predicate WellFormed(data: AppData) {
    forall i :: 0 <= i < |data.sections| ==> SectionWellFormed(data.sections[i])
  }

  // ---------------------------------------------------------------------
  // Weekday normalisation
  // ---------------------------------------------------------------------

  /** `Array.from(new Set(s))`: first occurrences, in order; every value of
      `s` occurs in it exactly once. */
  function Dedupe(s: seq<int>): (r: seq<int>)
    ensures forall x :: multiset(r)[x] == if x in s then 1 else 0
    decreases |s|
  {
    if |s| == 0 then []
    else
      var init := s[..|s| - 1];
      var d := Dedupe(init);
      assert s == init + [s[|s| - 1]];
      if s[|s| - 1] in d then d else d + [s[|s| - 1]]
  }

  predicate IsWeekday(d: int) {
    1 <= d <= 5
  }

  predicate NonDecreasing(s: seq<int>) {
    forall i, j :: 0 <= i < j < |s| ==> s[i] <= s[j]
  }

  predicate StrictlyAscending(s: seq<int>) {
    forall i, j :: 0 <= i < j < |s| ==> s[i] < s[j]
  }

  /** Places `x` before the first larger number. */
  function InsertNumber(x: int, s: seq<int>): (r: seq<int>)
    decreases |s|
  {
    if |s| == 0 then [x]
    else if x < s[0] then [x] + s
    else [s[0]] + InsertNumber(x, s[1..])
  }

  /** `s.sort((a, b) => a - b)`, as an insertion sort. */
  function SortNumbers(s: seq<int>): (r: seq<int>)
    decreases |s|
  {
    if |s| == 0 then [] else InsertNumber(s[|s| - 1], SortNumbers(s[..|s| - 1]))
  }

  lemma {:induction false} InsertNumberPermutes(x: int, s: seq<int>)
    ensures multiset(InsertNumber(x, s)) == multiset(s) + multiset{x}
    decreases |s|
  {
    if |s| > 0 && x >= s[0] {
      InsertNumberPermutes(x, s[1..]);
      assert s == [s[0]] + s[1..];
    }
  }

  lemma {:induction false} InsertNumberSorted(x: int, s: seq<int>)
    requires NonDecreasing(s)
    ensures NonDecreasing(InsertNumber(x, s))
    decreases |s|
  {
    if |s| > 0 && x >= s[0] {
      var t := InsertNumber(x, s[1..]);
      InsertNumberSorted(x, s[1..]);
      InsertNumberPermutes(x, s[1..]);
      var r := [s[0]] + t;
      forall i, j | 0 <= i < j < |r| ensures r[i] <= r[j] {
        assert r[j] == t[j - 1];
        if i == 0 {
          assert t[j - 1] in multiset(t);
          assert t[j - 1] == x || t[j - 1] in multiset(s[1..]);
          if t[j - 1] != x {
            var k :| 0 <= k < |s[1..]| && s[1..][k] == t[j - 1];
            assert s[k + 1] == t[j - 1];
          }
        } else {
          assert r[i] == t[i - 1];
        }
      }
    }
  }

  /** The numeric sort orders its input and keeps every number. */
  lemma {:induction false} SortNumbersSortsAndPermutes(s: seq<int>)
    ensures NonDecreasing(SortNumbers(s))
    ensures multiset(SortNumbers(s)) == multiset(s)
    decreases |s|
  {
    if |s| > 0 {
      var init := s[..|s| - 1];
      SortNumbersSortsAndPermutes(init);
      InsertNumberSorted(s[|s| - 1], SortNumbers(init));
      InsertNumberPermutes(s[|s| - 1], SortNumbers(init));
      assert s == init + [s[|s| - 1]];
    }
  }

  /** The `cleaned` list of `setSectionVisibleWeekdays`: distinct numbers,
      only 1 to 5, in ascending order. */
  function CleanWeekdays(ws: seq<int>): seq<int> {
    SortNumbers(Filter(Dedupe(ws), IsWeekday))
  }

  /** The visible weekdays `setSectionVisibleWeekdays` stores: the cleaned
      list, or all five days when that is empty (`null` counts as `[]`). */
  function NormalizeWeekdays(ws: Option<seq<int>>): seq<int> {
    var cleaned := CleanWeekdays(DaysGiven(ws));
    if |cleaned| > 0 then cleaned else AllWeekdays
  }

  /** Two ordered lists holding the same numbers equally often are equal. */
  lemma {:induction false} SortedUnique(a: seq<int>, b: seq<int>)
    requires NonDecreasing(a) && NonDecreasing(b)
    requires multiset(a) == multiset(b)
    ensures a == b
    decreases |a|
  {
    assert |a| == |multiset(a)| == |multiset(b)| == |b|;
    if |a| > 0 {
      assert a[0] == b[0] by {
        assert a[0] in multiset(b) && b[0] in multiset(a);
        var i :| 0 <= i < |b| && b[i] == a[0];
        var j :| 0 <= j < |a| && a[j] == b[0];
        assert b[0] <= b[i] && a[0] <= a[j];
      }
      var ta, tb := a[1..], b[1..];
      assert a == [a[0]] + ta;
      assert b == [b[0]] + tb;
      assert multiset(a) == multiset{a[0]} + multiset(ta);
      assert multiset(b) == multiset{a[0]} + multiset(tb);
      assert multiset(ta) == multiset(tb) by {
        forall y ensures multiset(ta)[y] == multiset(tb)[y] {
          assert multiset(a)[y] == multiset(b)[y];
        }
      }
      assert NonDecreasing(ta) && NonDecreasing(tb);
      SortedUnique(ta, tb);
    }
  }

  lemma {:induction false} SubsequenceAscending(r: seq<int>, s: seq<int>)
    requires StrictlyAscending(s) && IsSubsequence(r, s)
    ensures StrictlyAscending(r)
    decreases |s|
  {
    if |r| > 0 && |s| > 0 {
      assert StrictlyAscending(s[1..]);
      if r[0] == s[0] {
        SubsequenceAscending(r[1..], s[1..]);
        SubsequenceMembers(r[1..], s[1..]);
        forall j | 0 < j < |r| ensures r[0] < r[j] {
          assert r[j] == r[1..][j - 1];
          assert r[j] in r[1..];
          var k :| 0 <= k < |s[1..]| && s[1..][k] == r[j];
          assert s[k + 1] == r[j];
        }
      } else {
        SubsequenceAscending(r, s[1..]);
      }
    }
  }

  lemma {:induction false} SubsequenceMembers(r: seq<int>, s: seq<int>)
    requires IsSubsequence(r, s)
    ensures forall x :: x in r ==> x in s
    decreases |s|
  {
    if |r| > 0 && |s| > 0 {
      if r[0] == s[0] {
        SubsequenceMembers(r[1..], s[1..]);
        assert r == [r[0]] + r[1..];
        assert s == [s[0]] + s[1..];
      } else {
        SubsequenceMembers(r, s[1..]);
        assert s == [s[0]] + s[1..];
      }
    }
  }

  lemma AllWeekdaysAscending()
    ensures StrictlyAscending(AllWeekdays)
  {
  }

  lemma AllWeekdaysMembers(x: int)
    ensures x in AllWeekdays <==> IsWeekday(x)
  {
    if IsWeekday(x) {
      assert AllWeekdays[x - 1] == x;
    }
  }

  lemma AllWeekdaysCount(x: int)
    ensures multiset(AllWeekdays)[x] == if IsWeekday(x) then 1 else 0
  {
    assert multiset(AllWeekdays) == multiset{1, 2, 3, 4, 5};
  }

  /** The weekdays 1..5 that occur in `ws`, in ascending order. */
  function WeekdaysIn(ws: seq<int>): seq<int> {
    Filter(AllWeekdays, (d: int) => d in ws)
  }

  lemma WeekdaysInAscending(ws: seq<int>)
    ensures StrictlyAscending(WeekdaysIn(ws))
  {
    FilterIsOrderedSelection(AllWeekdays, (d: int) => d in ws);
    AllWeekdaysAscending();
    SubsequenceAscending(WeekdaysIn(ws), AllWeekdays);
  }

  /** The weekdays that occur in `ws`, each once. */
  lemma WeekdaysInCount(ws: seq<int>, x: int)
    ensures multiset(WeekdaysIn(ws))[x] == if x in ws && IsWeekday(x) then 1 else 0
  {
    FilterIsOrderedSelection(AllWeekdays, (d: int) => d in ws);
    AllWeekdaysCount(x);
  }

  lemma CleanCount(ws: seq<int>, x: int)
    ensures multiset(Filter(Dedupe(ws), IsWeekday))[x] == if x in ws && IsWeekday(x) then 1 else 0
  {
    FilterIsOrderedSelection(Dedupe(ws), IsWeekday);
  }

  /** The cleaned list is exactly the weekdays 1..5 that occur in the input,
      in ascending order: a reference definition that ignores duplicates,
      order and out-of-range values of the input. */
  lemma CleanWeekdaysSelects(ws: seq<int>)
    ensures CleanWeekdays(ws) == WeekdaysIn(ws)
  {
    var u := Filter(Dedupe(ws), IsWeekday);
    var f := WeekdaysIn(ws);
    SortNumbersSortsAndPermutes(u);
    WeekdaysInAscending(ws);
    forall x ensures multiset(u)[x] == multiset(f)[x] {
      CleanCount(ws, x);
      WeekdaysInCount(ws, x);
    }
    assert multiset(u) == multiset(f);
    SortedUnique(CleanWeekdays(ws), f);
  }

  /** What `setSectionVisibleWeekdays` stores is never empty, strictly
      ascending and within Monday..Friday. */
  lemma NormalizeWeekdaysShape(ws: Option<seq<int>>)
    ensures var r := NormalizeWeekdays(ws);
            && |r| > 0 && StrictlyAscending(r)
            && (forall i :: 0 <= i < |r| ==> IsWeekday(r[i]))
  {
    var input := DaysGiven(ws);
    var r := NormalizeWeekdays(ws);
    CleanWeekdaysSelects(input);
    WeekdaysInAscending(input);
    AllWeekdaysAscending();
    forall i | 0 <= i < |r| ensures IsWeekday(r[i]) {
      assert r[i] in r;
      AllWeekdaysMembers(r[i]);
    }
  }

  /** `weekdaysArray || []`. */
  function DaysGiven(ws: Option<seq<int>>): seq<int> {
    if ws.Some? then ws.value else []
  }

  predicate HasWeekday(input: seq<int>) {
    exists d :: d in input && IsWeekday(d)
  }

  /** A day is stored exactly when it is in 1..5 and in the input, or, when
      the input has no such day, exactly when it is in 1..5. */
  lemma NormalizeWeekdaysSelects(ws: Option<seq<int>>, d: int)
    ensures d in NormalizeWeekdays(ws) <==>
            if HasWeekday(DaysGiven(ws)) then d in DaysGiven(ws) && IsWeekday(d) else IsWeekday(d)
  {
    var input := DaysGiven(ws);
    var f := WeekdaysIn(input);
    CleanWeekdaysSelects(input);
    AllWeekdaysMembers(d);
    if HasWeekday(input) {
      var e :| e in input && IsWeekday(e);
      AllWeekdaysMembers(e);
      assert e in f;
    } else if |f| > 0 {
      assert f[0] in f;
      AllWeekdaysMembers(f[0]);
    }
  }

  /** With no day of 1..5 in the input, all five days are stored. */
  lemma NormalizeWeekdaysDefault(ws: Option<seq<int>>)
    requires !HasWeekday(DaysGiven(ws))
    ensures NormalizeWeekdays(ws) == AllWeekdays
  {
    var f := WeekdaysIn(DaysGiven(ws));
    CleanWeekdaysSelects(DaysGiven(ws));
    if |f| > 0 {
      assert f[0] in f;
      AllWeekdaysMembers(f[0]);
    }
  }

  // ---------------------------------------------------------------------
  // The stored document and the load-time migration
  // ---------------------------------------------------------------------

  /** A section as it may come back from storage: every repaired field is
      optional. `startDate` distinguishes an absent key (`None`) from a
      stored null (`Some(None)`). */
  datatype RawSection = RawSection(
    id: string,
    name: string,
    subjectId: Option<string>,
    students: Option<seq<Student>>,
    attendance: Option<DateMap>,
    lateTimes: Option<DateMap>,
    startDate: Option<Option<string>>,
    visibleWeekdays: Option<seq<int>>)

  /** The parsed document; `None` stands for a missing or non-array field. */
  datatype RawState = RawState(subjects: Option<seq<Subject>>, sections: Option<seq<RawSection>>)

  /** The storage slot: nothing stored, a value `JSON.parse` rejects (or
      that is not an object), or a parsed document. */
  datatype Stored = Missing | Unparsable | Document(doc: RawState)

  /** The subject list after the subject repair in `loadState`, and the id given to
      sections that have no subject. */
  function RepairSubjects(subjects: Option<seq<Subject>>, freshId: string): (seq<Subject>, string) {
    if subjects.None? then ([Subject(freshId, "General")], freshId)
    else
      var s := subjects.value;
      var fallback := if |s| > 0 && s[0].id != "" then s[0].id else freshId;
      (if |s| == 0 then [Subject(fallback, "General")] else s, fallback)
  }

  function AssignSubject(sec: RawSection, fallback: string): RawSection {
    if Truthy(sec.subjectId) then sec else sec.(subjectId := Some(fallback))
  }

  /** The weekdays given to a section stored without any: two named
      sections keep their earlier fixed days. */
  function DefaultWeekdays(name: string): seq<int> {
    if name == "2do A\U{00F1}o A" || name == "2do A\U{00F1}o B" then [1, 2]
    else if name == "2do A\U{00F1}o C" then [3, 4]
    else AllWeekdays
  }

  function WithGender(st: Student): Student {
    if st.gender == "" then st.(gender := "U") else st
  }

  /** `if (!student.gender) student.gender = 'U'` for every student: each
      student keeps its place and every field but the gender, ends with a
      gender, and keeps the gender it already had. */
  function DefaultGenders(students: seq<Student>): (r: seq<Student>)
    ensures |r| == |students|
    ensures forall i :: 0 <= i < |r| ==> r[i].(gender := students[i].gender) == students[i]
    ensures forall i :: 0 <= i < |r| ==> r[i].gender != ""
    ensures forall i :: 0 <= i < |r| && students[i].gender != "" ==> r[i] == students[i]
    ensures forall i :: 0 <= i < |r| ==> (students[i].gender == "" <==> r[i].gender == "U" && r[i] != students[i])
  {
    seq(|students|, i requires 0 <= i < |students| => WithGender(students[i]))
  }

  /** One section through the section loop of `loadState`. */
  function MigrateSection(sec: RawSection): Section
    requires sec.students.Some?
  {
    Section(
      sec.id, sec.name, sec.subjectId,
      SortStudents(DefaultGenders(sec.students.value)),
      if sec.attendance.Some? then sec.attendance.value else map[],
      if sec.lateTimes.Some? then sec.lateTimes.value else map[],
      if sec.startDate.Some? then sec.startDate.value else None,
      if sec.visibleWeekdays.Some? && |sec.visibleWeekdays.value| > 0 then sec.visibleWeekdays.value
      else DefaultWeekdays(sec.name))
  }

  /** `loadState`: the default state when nothing usable is stored, when the
      document has no section array, or when a section has no student array
      (each of which throws inside the `try`); otherwise the repaired tree. */
  function Migrate(stored: Stored, freshId: string): AppData {
    if !stored.Document? then DefaultState
    else
      var doc := stored.doc;
      var (subjects, fallback) := RepairSubjects(doc.subjects, freshId);
      if doc.sections.None? then DefaultState
      else
        var raw := doc.sections.value;
        if exists k :: 0 <= k < |raw| && raw[k].students.None? then DefaultState
        else AppData(subjects, seq(|raw|, k requires 0 <= k < |raw| => MigrateSection(AssignSubject(raw[k], fallback))))
  }

  /** The subject repair of `loadState`: a non-array subject list becomes
      a single `General` subject; an empty one gets one; the first subject's
      id (or a fresh one) is the fallback for sections without a subject. */
  method RepairSubjectList(stored: Option<seq<Subject>>, freshId: string) returns (subjects: seq<Subject>, fallback: string)
    ensures (subjects, fallback) == RepairSubjects(stored, freshId)
  {
    if stored.None? {
      fallback := freshId;
      subjects := [Subject(fallback, "General")];
    } else {
      subjects := stored.value;
      fallback := if |subjects| > 0 && subjects[0].id != "" then subjects[0].id else freshId;
      if |subjects| == 0 {
        subjects := [Subject(fallback, "General")];
      }
    }
  }

  /** The `forEach` that gives every section with a falsy `subjectId` the
      fallback subject. */
  method AssignSubjects(stored: seq<RawSection>, fallback: string) returns (raw: seq<RawSection>)
    ensures |raw| == |stored|
    ensures forall k :: 0 <= k < |raw| ==> raw[k] == AssignSubject(stored[k], fallback)
  {
    raw := stored;
    var i := 0;
    while i < |raw|
      invariant 0 <= i <= |raw| == |stored|
      invariant forall k :: 0 <= k < i ==> raw[k] == AssignSubject(stored[k], fallback)
      invariant forall k :: i <= k < |raw| ==> raw[k] == stored[k]
    {
      if !Truthy(raw[i].subjectId) {
        raw := raw[i := raw[i].(subjectId := Some(fallback))];
      }
      i := i + 1;
    }
  }

  /** The imperative `loadState`: repairs the subject list, assigns orphan
      sections a subject, then repairs each section's fields, genders and
      roster order in turn. */
  method LoadState(stored: Stored, freshId: string) returns (data: AppData)
    ensures data == Migrate(stored, freshId)
  {
    if !stored.Document? {
      return DefaultState;
    }
    var doc := stored.doc;
    var subjects, fallback := RepairSubjectList(doc.subjects, freshId);
    if doc.sections.None? {
      return DefaultState;
    }
    var raw := AssignSubjects(doc.sections.value, fallback);
    var i := 0;
    var sections: seq<Section> := [];
    while i < |raw|
      invariant 0 <= i <= |raw|
      invariant forall k :: 0 <= k < i ==> raw[k].students.Some?
      invariant |sections| == i
      invariant forall k :: 0 <= k < i ==> sections[k] == MigrateSection(raw[k])
    {
      if raw[i].students.None? {
        assert doc.sections.value[i].students.None?;
        return DefaultState;
      }
      var sec := RepairSection(raw[i]);
      sections := sections + [sec];
      i := i + 1;
    }
    assert forall k :: 0 <= k < |raw| ==> doc.sections.value[k].students == raw[k].students;
    data := AppData(subjects, sections);
  }

  /** The body of the migration loop for one section: field defaults, then
      the gender of each student, then the roster order. */
  method RepairSection(raw: RawSection) returns (sec: Section)
    requires raw.students.Some?
    ensures sec == MigrateSection(raw)
  {
    var attendance := if raw.attendance.Some? then raw.attendance.value else map[];
    var lateTimes := if raw.lateTimes.Some? then raw.lateTimes.value else map[];
    var startDate := if raw.startDate.Some? then raw.startDate.value else None;
    var weekdays := if raw.visibleWeekdays.Some? && |raw.visibleWeekdays.value| > 0
                    then raw.visibleWeekdays.value else DefaultWeekdays(raw.name);
    var stored := raw.students.value;
    var students := stored;
    var j := 0;
    while j < |students|
      invariant 0 <= j <= |students| == |stored|
      invariant forall k :: 0 <= k < j ==> students[k] == WithGender(stored[k])
      invariant forall k :: j <= k < |students| ==> students[k] == stored[k]
    {
      if students[j].gender == "" {
        students := students[j := students[j].(gender := "U")];
      }
      j := j + 1;
    }
    assert students == DefaultGenders(stored);
    students := SortStudents(students);
    sec := Section(raw.id, raw.name, raw.subjectId, students, attendance, lateTimes, startDate, weekdays);
  }

  /** After loading, every section has a subject, a sorted roster holding
      the stored students (missing genders set to `U`), and at least one
      visible weekday; at least one subject exists unless the state is the
      default one. */
  lemma MigrateEstablishes(stored: Stored, freshId: string)
    requires freshId != ""
    ensures var data := Migrate(stored, freshId);
            && WellFormed(data)
            && (data != DefaultState ==> |data.subjects| > 0)
            && (forall i :: 0 <= i < |data.sections| ==> Truthy(data.sections[i].subjectId))
            && (forall i :: 0 <= i < |data.sections| ==> GendersSet(data.sections[i].students))
  {
    var data := Migrate(stored, freshId);
    if stored.Document? && stored.doc.sections.Some?
       && !(exists k :: 0 <= k < |stored.doc.sections.value| && stored.doc.sections.value[k].students.None?) {
      var raw := stored.doc.sections.value;
      var fallback := RepairSubjects(stored.doc.subjects, freshId).1;
      forall i | 0 <= i < |data.sections|
        ensures SectionWellFormed(data.sections[i]) && GendersSet(data.sections[i].students)
      {
        MigrateSectionEstablishes(AssignSubject(raw[i], fallback));
      }
    }
  }

  /** Whatever was stored, the loaded state is well formed. */
  lemma MigrateWellFormed(stored: Stored, freshId: string)
    ensures WellFormed(Migrate(stored, freshId))
  {
    var data := Migrate(stored, freshId);
    if stored.Document? && stored.doc.sections.Some?
       && !(exists k :: 0 <= k < |stored.doc.sections.value| && stored.doc.sections.value[k].students.None?) {
      var raw := stored.doc.sections.value;
      var fallback := RepairSubjects(stored.doc.subjects, freshId).1;
      forall i | 0 <= i < |data.sections| ensures SectionWellFormed(data.sections[i]) {
        MigrateSectionEstablishes(AssignSubject(raw[i], fallback));
      }
    }
  }

  /** Every student has a gender. */
  predicate GendersSet(students: seq<Student>) {
    forall k :: 0 <= k < |students| ==> students[k].gender != ""
  }

  /** One migrated section has a sorted roster in which every student has a
      gender, and at least one visible weekday. */
  lemma MigrateSectionEstablishes(raw: RawSection)
    requires raw.students.Some?
    ensures SectionWellFormed(MigrateSection(raw)) && GendersSet(MigrateSection(raw).students)
  {
    var g := DefaultGenders(raw.students.value);
    var sorted := MigrateSection(raw).students;
    forall k | 0 <= k < |sorted| ensures sorted[k].gender != "" {
      assert sorted[k] in multiset(g);
      var m :| 0 <= m < |g| && g[m] == sorted[k];
    }
  }

  /** Loading keeps each stored roster's students: the loaded roster is a
      permutation of the stored one with missing genders set to `U`. */
  lemma MigrateKeepsStudents(stored: Stored, freshId: string, i: int)
    requires stored.Document? && stored.doc.sections.Some?
    requires forall k :: 0 <= k < |stored.doc.sections.value| ==> stored.doc.sections.value[k].students.Some?
    requires 0 <= i < |stored.doc.sections.value|
    ensures var raw := stored.doc.sections.value[i];
            var sec := Migrate(stored, freshId).sections[i];
            && multiset(sec.students) == multiset(DefaultGenders(raw.students.value))
            && sec.id == raw.id && sec.name == raw.name
            && (raw.attendance.Some? ==> sec.attendance == raw.attendance.value)
            && (raw.lateTimes.Some? ==> sec.lateTimes == raw.lateTimes.value)
  {
  }

  // ---------------------------------------------------------------------
  // Saving
  // ---------------------------------------------------------------------

  function ToRawSection(sec: Section): RawSection {
    RawSection(sec.id, sec.name, sec.subjectId, Some(sec.students), Some(sec.attendance),
               Some(sec.lateTimes), Some(sec.startDate), Some(sec.visibleWeekdays))
  }

  /** `JSON.stringify(appState)` as the document it parses back to. */
  function ToRaw(data: AppData): Stored {
    Document(RawState(Some(data.subjects), Some(seq(|data.sections|, i requires 0 <= i < |data.sections| => ToRawSection(data.sections[i])))))
  }

  /** A state the migration has nothing to repair in. */
  predicate Canonical(data: AppData) {
    && |data.subjects| > 0
    && WellFormed(data)
    && forall i :: 0 <= i < |data.sections| ==>
         && Truthy(data.sections[i].subjectId)
         && GendersSet(data.sections[i].students)
  }

  /** Saving a canonical state and loading it again gives the same state
      back, whatever fresh id the load could have drawn. */
  lemma SaveLoadRoundTrip(data: AppData, freshId: string)
    requires Canonical(data)
    ensures Migrate(ToRaw(data), freshId) == data
  {
    var r := Migrate(ToRaw(data), freshId);
    var raw := seq(|data.sections|, i requires 0 <= i < |data.sections| => ToRawSection(data.sections[i]));
    var fallback := RepairSubjects(Some(data.subjects), freshId).1;
    assert !(exists k :: 0 <= k < |raw| && raw[k].students.None?);
    assert |r.sections| == |data.sections|;
    forall i | 0 <= i < |data.sections| ensures r.sections[i] == data.sections[i] {
      var sec := data.sections[i];
      assert AssignSubject(raw[i], fallback) == ToRawSection(sec);
      assert DefaultGenders(sec.students) == sec.students;
      SortBySortedIsIdentity(sec.students, NameKey);
    }
  }

  /** Migration preserves canonical form: loading what the migration
      produced changes nothing more. */
  lemma MigrateCanonical(stored: Stored, freshId: string)
    requires freshId != ""
    ensures Migrate(stored, freshId) != DefaultState ==> Canonical(Migrate(stored, freshId))
  {
    MigrateEstablishes(stored, freshId);
  }
}
