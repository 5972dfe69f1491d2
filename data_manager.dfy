/** data_manager.js: the application state held in memory, its storage
    slot, and every operation that reads or edits it. The state is a
    `Store` whose `subjects` and `sections` lists the methods replace or
    update in place; after each successful edit the store writes its
    serialised state to `saved`. Identifiers drawn from `uuidv4` and the
    clock reading taken for a late stamp are parameters. */
module DataManager {
  import opened Collections
  import opened Calendar
  import opened Roster
  import opened Schema
  import opened Attendance

  /** `appState.sections.find(s => s.id === id)`, as a position. */
  function SectionIndex(sections: seq<Section>, id: string): (r: Option<nat>)
    ensures r.Some? ==> r.value < |sections| && sections[r.value].id == id
                        && forall k :: 0 <= k < r.value ==> sections[k].id != id
    ensures r.None? <==> forall k :: 0 <= k < |sections| ==> sections[k].id != id
  {
    FindIndex(sections, (s: Section) => s.id == id)
  }

  /** `appState.subjects.find(s => s.id === id)`, as a position. */
  function SubjectIndex(subjects: seq<Subject>, id: string): (r: Option<nat>)
    ensures r.Some? ==> r.value < |subjects| && subjects[r.value].id == id
                        && forall k :: 0 <= k < r.value ==> subjects[k].id != id
    ensures r.None? <==> forall k :: 0 <= k < |subjects| ==> subjects[k].id != id
  {
    FindIndex(subjects, (s: Subject) => s.id == id)
  }

  /** `section.students.find(s => s.id === id)`, as a position. */
  function StudentIndex(students: seq<Student>, id: string): (r: Option<nat>)
    ensures r.Some? ==> r.value < |students| && students[r.value].id == id
                        && forall k :: 0 <= k < r.value ==> students[k].id != id
    ensures r.None? <==> forall k :: 0 <= k < |students| ==> students[k].id != id
  {
    FindIndex(students, (s: Student) => s.id == id)
  }

  /** `updateStudent`'s edit of the student record itself. */
  function EditStudent(st: Student, firstName: string, lastName: string, gender: string, birthday: Option<string>): Student {
    st.(firstName := firstName, lastName := lastName,
        gender := if gender != "" then gender else st.gender,
        birthday := OrNull(birthday))
  }

  /** Deleting a subject removes its sections and the subject; a section
      survives exactly when it belongs to another subject or to none. */
  lemma DeleteSubjectSelects(sections: seq<Section>, subjects: seq<Subject>, id: string)
    ensures forall sec :: sec in Filter(sections, (s: Section) => s.subjectId != Some(id))
                     <==> sec in sections && sec.subjectId != Some(id)
    ensures forall sub :: sub in Filter(subjects, (s: Subject) => s.id != id)
                     <==> sub in subjects && sub.id != id
  {
  }

  /** A filtered section list stays well formed. */
  lemma FilterKeepsWellFormed(subjects: seq<Subject>, sections: seq<Section>, keep: Section -> bool)
    requires WellFormed(AppData(subjects, sections))
    ensures forall subs: seq<Subject> :: WellFormed(AppData(subs, Filter(sections, keep)))
  {
    var r := Filter(sections, keep);
    forall i | 0 <= i < |r| ensures SectionWellFormed(r[i]) {
      assert r[i] in r;
      var k :| 0 <= k < |sections| && sections[k] == r[i];
    }
  }

  /** Replacing one section by a well-formed one keeps the state well formed. */
  lemma ReplaceKeepsWellFormed(subjects: seq<Subject>, sections: seq<Section>, i: nat, sec: Section)
    requires WellFormed(AppData(subjects, sections)) && i < |sections| && SectionWellFormed(sec)
    ensures WellFormed(AppData(subjects, sections[i := sec]))
  {
  }

  class Store {
    var subjects: seq<Subject>
    var sections: seq<Section>
    /** The storage slot that `saveState` writes and `loadState` reads. */
    var saved: Stored

    function State(): AppData
      reads this
    {
      AppData(subjects, sections)
    }

    ghost predicate Valid()
      reads this
    {
      WellFormed(State())
    }

    /** Module start-up: `appState = loadState()`; nothing is written back. */
    constructor Load(stored: Stored, freshId: string)
      ensures State() == Migrate(stored, freshId) && saved == stored
      ensures Valid()
    {
      var data := LoadState(stored, freshId);
      MigrateWellFormed(stored, freshId);
      subjects := data.subjects;
      sections := data.sections;
      saved := stored;
    }

    /** `saveState`. */
    method Save()
      modifies this
      ensures saved == ToRaw(State())
      ensures subjects == old(subjects) && sections == old(sections)
    {
      saved := ToRaw(AppData(subjects, sections));
    }

    /** `getSection`: the first section with the id. */
    function GetSection(id: string): (r: Option<Section>)
      reads this
      ensures r.Some? ==> exists k :: 0 <= k < |sections| && sections[k] == r.value
                                       && r.value.id == id && forall j :: 0 <= j < k ==> sections[j].id != id
      ensures r.None? <==> forall k :: 0 <= k < |sections| ==> sections[k].id != id
    {
      var i := SectionIndex(sections, id);
      if i.Some? then Some(sections[i.value]) else None
    }

    /** `getStudents`: the section's roster, which is always sorted, or `[]`. */
    function GetStudents(sectionId: string): (r: seq<Student>)
      reads this
      requires Valid()
      ensures RosterSorted(r)
      ensures GetSection(sectionId).None? ==> r == []
      ensures GetSection(sectionId).Some? ==> r == GetSection(sectionId).value.students
    {
      var i := SectionIndex(sections, sectionId);
      if i.Some? then sections[i.value].students else []
    }

    /** `getAttendanceRecords`: the section's records, or `{}`. */
    function GetAttendanceRecords(sectionId: string): (r: DateMap)
      reads this
      ensures GetSection(sectionId).None? ==> r == map[]
      ensures GetSection(sectionId).Some? ==> r == GetSection(sectionId).value.attendance
    {
      var sec := GetSection(sectionId);
      if sec.Some? then sec.value.attendance else map[]
    }

    /** `getLateTimes`: the section's late stamps, or `{}`. */
    function GetLateTimes(sectionId: string): (r: DateMap)
      reads this
      ensures GetSection(sectionId).None? ==> r == map[]
      ensures GetSection(sectionId).Some? ==> r == GetSection(sectionId).value.lateTimes
    {
      var sec := GetSection(sectionId);
      if sec.Some? then sec.value.lateTimes else map[]
    }

    // -------------------------------------------------------------------
    // Subjects
    // -------------------------------------------------------------------

    /** `addSubject`: appends a subject with a fresh id and returns it. */
    method AddSubject(name: string, freshId: string) returns (subject: Subject)
      requires Valid()
      modifies this
      ensures Valid()
      ensures subject == Subject(freshId, name)
      ensures subjects == old(subjects) + [subject] && sections == old(sections)
      ensures saved == ToRaw(State())
    {
      subject := Subject(freshId, name);
      subjects := subjects + [subject];
      Save();
    }

    /** `updateSubjectName`: renames the first subject with the id; nothing
        changes, and nothing is saved, when there is none. */
    method UpdateSubjectName(id: string, name: string)
      requires Valid()
      modifies this
      ensures Valid() && sections == old(sections)
      ensures match SubjectIndex(old(subjects), id)
              case None => subjects == old(subjects) && saved == old(saved)
              case Some(i) => subjects == old(subjects)[i := old(subjects)[i].(name := name)]
                              && saved == ToRaw(State())
    {
      var i := SubjectIndex(subjects, id);
      if i.Some? {
        subjects := subjects[i.value := subjects[i.value].(name := name)];
        Save();
      }
    }

    /** `deleteSubject`: drops the subject's sections, then the subject. */
    method DeleteSubject(id: string)
      requires Valid()
      modifies this
      ensures Valid()
      ensures sections == Filter(old(sections), (s: Section) => s.subjectId != Some(id))
      ensures subjects == Filter(old(subjects), (s: Subject) => s.id != id)
      ensures saved == ToRaw(State())
    {
      FilterKeepsWellFormed(subjects, sections, (s: Section) => s.subjectId != Some(id));
      sections := Filter(sections, (s: Section) => s.subjectId != Some(id));
      subjects := Filter(subjects, (s: Subject) => s.id != id);
      Save();
    }

    // -------------------------------------------------------------------
    // Sections
    // -------------------------------------------------------------------

    /** `addSection`: appends an empty section with every weekday visible. */
    method AddSection(name: string, subjectId: Option<string>, freshId: string) returns (sec: Section)
      requires Valid()
      modifies this
      ensures Valid()
      ensures sec == Section(freshId, name, subjectId, [], map[], map[], None, AllWeekdays)
      ensures sections == old(sections) + [sec] && subjects == old(subjects)
      ensures saved == ToRaw(State())
    {
      sec := Section(freshId, name, subjectId, [], map[], map[], None, AllWeekdays);
      sections := sections + [sec];
      Save();
    }

    /** `updateSectionName`: renames the section and, when a subject is
        given, moves it there. */
    method UpdateSectionName(id: string, name: string, newSubjectId: Option<string>)
      requires Valid()
      modifies this
      ensures Valid() && subjects == old(subjects)
      ensures match SectionIndex(old(sections), id)
              case None => sections == old(sections) && saved == old(saved)
              case Some(i) =>
                var sec := old(sections)[i];
                && sections == old(sections)[i := sec.(name := name,
                       subjectId := if newSubjectId.Some? then newSubjectId else sec.subjectId)]
                && saved == ToRaw(State())
    {
      var i := SectionIndex(sections, id);
      if i.Some? {
        var sec := sections[i.value];
        sec := sec.(name := name);
        if newSubjectId.Some? {
          sec := sec.(subjectId := newSubjectId);
        }
        sections := sections[i.value := sec];
        Save();
      }
    }

    /** `deleteSection`. */
    method DeleteSection(id: string)
      requires Valid()
      modifies this
      ensures Valid()
      ensures sections == Filter(old(sections), (s: Section) => s.id != id) && subjects == old(subjects)
      ensures saved == ToRaw(State())
    {
      FilterKeepsWellFormed(subjects, sections, (s: Section) => s.id != id);
      sections := Filter(sections, (s: Section) => s.id != id);
      Save();
    }

    /** `setSectionStartDate`: `dateStr || null`. */
    method SetSectionStartDate(id: string, dateStr: Option<string>)
      requires Valid()
      modifies this
      ensures Valid() && subjects == old(subjects)
      ensures match SectionIndex(old(sections), id)
              case None => sections == old(sections) && saved == old(saved)
              case Some(i) => sections == old(sections)[i := old(sections)[i].(startDate := OrNull(dateStr))]
                              && saved == ToRaw(State())
    {
      var i := SectionIndex(sections, id);
      if i.Some? {
        sections := sections[i.value := sections[i.value].(startDate := OrNull(dateStr))];
        Save();
      }
    }

    /** `setSectionVisibleWeekdays`: stores the normalised weekday list. */
    method SetSectionVisibleWeekdays(id: string, weekdays: Option<seq<int>>)
      requires Valid()
      modifies this
      ensures Valid() && subjects == old(subjects)
      ensures match SectionIndex(old(sections), id)
              case None => sections == old(sections) && saved == old(saved)
              case Some(i) => sections == old(sections)[i := old(sections)[i].(visibleWeekdays := NormalizeWeekdays(weekdays))]
                              && saved == ToRaw(State())
    {
      var i := SectionIndex(sections, id);
      if i.Some? {
        NormalizeWeekdaysShape(weekdays);
        sections := sections[i.value := sections[i.value].(visibleWeekdays := NormalizeWeekdays(weekdays))];
        Save();
      }
    }

    /** `clearAttendance`: empties both the attendance and the late records. */
    method ClearAttendance(id: string)
      requires Valid()
      modifies this
      ensures Valid() && subjects == old(subjects)
      ensures match SectionIndex(old(sections), id)
              case None => sections == old(sections) && saved == old(saved)
              case Some(i) => sections == old(sections)[i := old(sections)[i].(attendance := map[], lateTimes := map[])]
                              && saved == ToRaw(State())
    {
      var i := SectionIndex(sections, id);
      if i.Some? {
        sections := sections[i.value := sections[i.value].(attendance := map[], lateTimes := map[])];
        Save();
      }
    }

    // -------------------------------------------------------------------
    // Students
    // -------------------------------------------------------------------

    /** `addStudent`: adds the student to the roster, which is sorted again,
        and returns it; returns nothing when the section does not exist. */
    method AddStudent(sectionId: string, firstName: string, lastName: string, gender: string,
                      birthday: Option<string>, freshId: string) returns (student: Option<Student>)
      requires Valid()
      modifies this
      ensures Valid() && subjects == old(subjects)
      ensures match SectionIndex(old(sections), sectionId)
              case None => student == None && sections == old(sections) && saved == old(saved)
              case Some(i) =>
                && student == Some(Student(freshId, firstName, lastName, gender, OrNull(birthday)))
                && sections == old(sections)[i := old(sections)[i].(
                     students := SortStudents(old(sections)[i].students + [student.value]))]
                && saved == ToRaw(State())
    {
      var i := SectionIndex(sections, sectionId);
      if i.None? {
        return None;
      }
      var st := Student(freshId, firstName, lastName, gender, OrNull(birthday));
      var sec := sections[i.value];
      sections := sections[i.value := sec.(students := SortStudents(sec.students + [st]))];
      Save();
      student := Some(st);
    }

    /** `updateStudent`: edits the first student with the id and sorts the
        roster again; nothing changes when the section or student is missing. */
    method UpdateStudent(sectionId: string, studentId: string, firstName: string, lastName: string,
                         gender: string, birthday: Option<string>)
      requires Valid()
      modifies this
      ensures Valid() && subjects == old(subjects)
      ensures match SectionIndex(old(sections), sectionId)
              case None => sections == old(sections) && saved == old(saved)
              case Some(i) =>
                var sec := old(sections)[i];
                match StudentIndex(sec.students, studentId)
                case None => sections == old(sections) && saved == old(saved)
                case Some(j) =>
                  && sections == old(sections)[i := sec.(students := SortStudents(
                       sec.students[j := EditStudent(sec.students[j], firstName, lastName, gender, birthday)]))]
                  && saved == ToRaw(State())
    {
      var i := SectionIndex(sections, sectionId);
      if i.Some? {
        var sec := sections[i.value];
        var j := StudentIndex(sec.students, studentId);
        if j.Some? {
          var st := sec.students[j.value];
          st := st.(firstName := firstName, lastName := lastName);
          if gender != "" {
            st := st.(gender := gender);
          }
          st := st.(birthday := OrNull(birthday));
          sections := sections[i.value := sec.(students := SortStudents(sec.students[j.value := st]))];
          Save();
        }
      }
    }

    /** `deleteStudent`: removes the student from the roster and, date by
        date, deletes their truthy attendance entries. Late stamps and
        emptied date records stay. */
    method DeleteStudent(sectionId: string, studentId: string)
      requires Valid()
      modifies this
      ensures Valid() && subjects == old(subjects)
      ensures match SectionIndex(old(sections), sectionId)
              case None => sections == old(sections) && saved == old(saved)
              case Some(i) =>
                var sec := old(sections)[i];
                && sections == old(sections)[i := sec.(
                     students := Filter(sec.students, (s: Student) => s.id != studentId),
                     attendance := DropStudentRecords(sec.attendance, studentId))]
                && saved == ToRaw(State())
    {
      var i := SectionIndex(sections, sectionId);
      if i.None? {
        return;
      }
      var sec := sections[i.value];
      FilterKeepsSorted(sec.students, (s: Student) => s.id != studentId, NameKey);
      var students := Filter(sec.students, (s: Student) => s.id != studentId);
      var att := sec.attendance;
      var dates := att.Keys;
      while dates != {}
        invariant dates <= att.Keys && att.Keys == sec.attendance.Keys
        invariant forall d :: d in att ==>
                    att[d] == if d in dates then sec.attendance[d] else DropFromDay(sec.attendance[d], studentId)
        decreases |dates|
      {
        var date :| date in dates;
        if studentId in att[date] && att[date][studentId] != "" {
          att := att[date := att[date] - {studentId}];
        }
        dates := dates - {date};
      }
      assert att == DropStudentRecords(sec.attendance, studentId);
      sections := sections[i.value := sec.(students := students, attendance := att)];
      Save();
    }

    // -------------------------------------------------------------------
    // Attendance
    // -------------------------------------------------------------------

    /** `setAttendanceStatus`: writes the status into the section's records
        step by step and returns it; returns nothing, and changes nothing,
        for an unknown section or a value that is not a status code. */
    method SetAttendanceStatus(sectionId: string, studentId: string, date: string, status: string, now: Clock)
      returns (result: Option<string>)
      requires Valid()
      modifies this
      ensures Valid() && subjects == old(subjects)
      ensures match SectionIndex(old(sections), sectionId)
              case None => result == None && sections == old(sections) && saved == old(saved)
              case Some(i) =>
                if !IsStatus(status) then result == None && sections == old(sections) && saved == old(saved)
                else && result == Some(status)
                     && sections == old(sections)[i := ApplyStatus(old(sections)[i], studentId, date, status, now)]
                     && saved == ToRaw(State())
    {
      var i := SectionIndex(sections, sectionId);
      if i.None? || !IsStatus(status) {
        return None;
      }
      var sec := sections[i.value];
      var att := WriteAttendanceRecord(sec.attendance, date, studentId, status);
      var late := WriteLateRecord(sec.lateTimes, date, studentId, status, now);
      sections := sections[i.value := sec.(attendance := att, lateTimes := late)];
      Save();
      result := Some(status);
    }

    /** `toggleAttendance`: creates the date's record, then sets the status
        that follows the shown one; returns nothing for an unknown section. */
    method ToggleAttendance(sectionId: string, studentId: string, date: string, now: Clock)
      returns (result: Option<string>)
      requires Valid()
      modifies this
      ensures Valid() && subjects == old(subjects)
      ensures match SectionIndex(old(sections), sectionId)
              case None => result == None && sections == old(sections) && saved == old(saved)
              case Some(i) =>
                && result == Some(NextStatus(Shown(old(sections)[i].attendance, date, studentId)))
                && sections == old(sections)[i := Toggle(old(sections)[i], studentId, date, now)]
                && saved == ToRaw(State())
    {
      var i := SectionIndex(sections, sectionId);
      if i.None? {
        return None;
      }
      ghost var before := sections[i.value];
      var sec := sections[i.value];
      if date !in sec.attendance {
        sec := sec.(attendance := sec.attendance[date := map[]]);
        ReplaceKeepsWellFormed(subjects, sections, i.value, sec);
        sections := sections[i.value := sec];
        SectionIndexAfterReplace(old(sections), i.value, sec, sectionId);
      } else {
        assert sec.attendance[date := DayOf(sec.attendance, date)] == sec.attendance;
      }
      assert sec == before.(attendance := before.attendance[date := DayOf(before.attendance, date)]);
      assert sections == old(sections)[i.value := sec];
      var current := Shown(sec.attendance, date, studentId);
      var next := NextStatus(current);
      NextIsStatus(current);
      ApplyAfterCreate(before, studentId, date, next, now);
      ToggleIsNextStatus(before, studentId, date, now);
      result := SetAttendanceStatus(sectionId, studentId, date, next, now);
      assert sections == old(sections)[i.value := Toggle(before, studentId, date, now)];
    }
  }

  /** Replacing a section by one with the same id does not change which
      section an id lookup finds. */
  lemma SectionIndexAfterReplace(sections: seq<Section>, i: nat, sec: Section, id: string)
    requires i < |sections| && sec.id == sections[i].id
    ensures SectionIndex(sections[i := sec], id) == SectionIndex(sections, id)
  {
    var t := sections[i := sec];
    assert forall k :: 0 <= k < |t| ==> (t[k].id == id <==> sections[k].id == id);
  }

  /** The attendance-record updates of `setAttendanceStatus`, statement by
      statement. */
  method WriteAttendanceRecord(attendance: DateMap, date: string, sid: string, status: string)
    returns (att: DateMap)
    ensures att == WriteAttendance(attendance, date, sid, status)
  {
    att := attendance;
    if date !in att {
      att := att[date := map[]];
    }
    if status == "U" {
      var day := att[date] - {sid};
      if day == map[] {
        att := att - {date};
      } else {
        att := att[date := day];
      }
    } else {
      att := att[date := att[date][sid := status]];
    }
  }

  /** The late-time updates of `setAttendanceStatus`, statement by
      statement. */
  method WriteLateRecord(lateTimes: DateMap, date: string, sid: string, status: string, now: Clock)
    returns (late: DateMap)
    ensures late == WriteLateTimes(lateTimes, date, sid, status, now)
  {
    late := lateTimes;
    if date !in late {
      late := late[date := map[]];
    }
    if status == "L" {
      late := late[date := late[date][sid := Stamp(now)]];
    } else if sid in late[date] && late[date][sid] != "" {
      var day := late[date] - {sid};
      if day == map[] {
        late := late - {date};
      } else {
        late := late[date := day];
      }
    }
  }
}
