/** The attendance cell of one student on one date: the status codes, what
    `setAttendanceStatus` writes into a section's attendance and late-time
    records, the U → P → A → L → U cycle of `toggleAttendance`, and the
    clean-up of `deleteStudent`. */
module Attendance {
  import opened Collections
  import opened Calendar
  import opened Schema

  /** `ATTENDANCE_STATUSES`: unmarked, present, absent, late. */
  const Statuses: seq<string> := ["U", "P", "A", "L"]

  predicate IsStatus(s: string) {
    s in Statuses
  }

  /** What is stored for `sid` on `date`, if anything. */
  function Entry(m: DateMap, date: string, sid: string): Option<string> {
    if date in m && sid in m[date] then Some(m[date][sid]) else None
  }

  /** `value || 'U'`: how a stored value reads. */
  function ReadAs(e: Option<string>): string {
    if e.Some? && e.value != "" then e.value else "U"
  }

  /** `attendance[date][sid] || 'U'`: the status a cell shows. */
  function Shown(att: DateMap, date: string, sid: string): string {
    ReadAs(Entry(att, date, sid))
  }

  /** The record of `date`, or the `{}` the code creates when there is none. */
  function DayOf(m: DateMap, date: string): DayMap {
    if date in m then m[date] else map[]
  }

  /** Deletes the cell, and the date's record when that leaves it empty. */
  function RemoveEntry(m: DateMap, date: string, sid: string): DateMap {
    var day := DayOf(m, date) - {sid};
    if day == map[] then m - {date} else m[date := day]
  }

  /** The attendance records after `setAttendanceStatus` has written the
      status: the date's record created, the entry set, or deleted for `U`
      together with a record left empty. */
  function WriteAttendance(att: DateMap, date: string, sid: string, status: string): DateMap {
    if status == "U" then RemoveEntry(att, date, sid)
    else att[date := DayOf(att, date)[sid := status]]
  }

  /** The late-time branch of `setAttendanceStatus` for a status other
      than `L`: the date's late record is created, and a truthy stamp is deleted together with a record it
      leaves empty. A record created here and left empty stays. */
  function ClearStamp(late: DateMap, date: string, sid: string): DateMap {
    var day := DayOf(late, date);
    if sid in day && day[sid] != "" then RemoveEntry(late, date, sid) else late[date := day]
  }

  /** The late-time records after a status is set; `now` is the local time
      of the call. */
  function WriteLateTimes(late: DateMap, date: string, sid: string, status: string, now: Clock): DateMap {
    if status == "L" then late[date := DayOf(late, date)[sid := Stamp(now)]]
    else ClearStamp(late, date, sid)
  }

  /** `setAttendanceStatus` on a section that exists, with a valid status. */
  function ApplyStatus(sec: Section, sid: string, date: string, status: string, now: Clock): Section {
    sec.(attendance := WriteAttendance(sec.attendance, date, sid, status),
         lateTimes := WriteLateTimes(sec.lateTimes, date, sid, status, now))
  }

  /** The cycle step of `toggleAttendance`: the status after `current`; a value that
      is not a status code has index -1 and so is followed by `U`. */
  function NextStatus(current: string): string {
    Statuses[(IndexOf(Statuses, current) + 1) % |Statuses|]
  }

  /** `toggleAttendance` on a section that exists: creates the date's
      record, then sets the status that follows the shown one. */
  function Toggle(sec: Section, sid: string, date: string, now: Clock): Section {
    var created := sec.(attendance := sec.attendance[date := DayOf(sec.attendance, date)]);
    ApplyStatus(created, sid, date, NextStatus(Shown(created.attendance, date, sid)), now)
  }

  /** What a cell holds after a status is written: nothing for `U`, the
      code otherwise. */
  function Written(status: string): Option<string> {
    if status == "U" then None else Some(status)
  }

  // ---------------------------------------------------------------------
  // Setting a status
  // ---------------------------------------------------------------------

  /** After setting a valid status the cell shows it; `U` is stored as no
      entry and every other code as itself; the date's record is either
      gone or not empty. */
  lemma ApplyStatusCell(sec: Section, sid: string, date: string, status: string, now: Clock)
    requires IsStatus(status)
    ensures var att := ApplyStatus(sec, sid, date, status, now).attendance;
            && Entry(att, date, sid) == Written(status)
            && Shown(att, date, sid) == status
            && (date in att ==> att[date] != map[])
  {
    var att := ApplyStatus(sec, sid, date, status, now).attendance;
    if status == "U" && date in att {
      assert att[date] == DayOf(sec.attendance, date) - {sid};
    }
  }

  /** A late student gets the call's `HH:MM` stamp; any other status
      deletes the cell's stamp, so that only an empty stamp already stored
      there can remain. */
  lemma ApplyStatusStamp(sec: Section, sid: string, date: string, status: string, now: Clock)
    requires IsStatus(status)
    ensures var late := ApplyStatus(sec, sid, date, status, now).lateTimes;
            && (status == "L" ==> Entry(late, date, sid) == Some(Stamp(now)))
            && (status != "L" ==> Entry(late, date, sid)
                                  == if Entry(sec.lateTimes, date, sid) == Some("") then Some("") else None)
  {
    var late := ApplyStatus(sec, sid, date, status, now).lateTimes;
    if status != "L" {
      var day := DayOf(sec.lateTimes, date);
      if sid in day && day[sid] != "" {
        if date in late {
          assert late[date] == day - {sid};
        }
      } else {
        assert late[date] == day;
      }
    }
  }

  /** Setting a status touches only that cell: every other student's
      entry and every other date's entries, in both records, are as before,
      and so is the rest of the section. */
  lemma ApplyStatusFrame(sec: Section, sid: string, date: string, status: string, now: Clock, d: string, s: string)
    requires d != date || s != sid
    ensures var r := ApplyStatus(sec, sid, date, status, now);
            && Entry(r.attendance, d, s) == Entry(sec.attendance, d, s)
            && Entry(r.lateTimes, d, s) == Entry(sec.lateTimes, d, s)
            && r.(attendance := sec.attendance, lateTimes := sec.lateTimes) == sec
  {
    var r := ApplyStatus(sec, sid, date, status, now);
    if d == date {
      var aday := DayOf(sec.attendance, date);
      var lday := DayOf(sec.lateTimes, date);
      if s in aday {
        assert s in aday - {sid};
      }
      if s in lday {
        assert s in lday - {sid};
      }
    }
  }

  // ---------------------------------------------------------------------
  // The toggle cycle
  // ---------------------------------------------------------------------

  /** The cycle U → P → A → L → U; anything else is followed by `U`. */
  lemma NextStatusCycle(s: string)
    ensures NextStatus("U") == "P" && NextStatus("P") == "A"
    ensures NextStatus("A") == "L" && NextStatus("L") == "U"
    ensures !IsStatus(s) ==> NextStatus(s) == "U"
    ensures IsStatus(NextStatus(s))
  {
    assert IndexOf(Statuses, "U") == 0;
    assert IndexOf(Statuses, "P") == 1;
    assert IndexOf(Statuses, "A") == 2;
    assert IndexOf(Statuses, "L") == 3;
  }

  /** Every click lands on a status code. */
  lemma NextIsStatus(s: string)
    ensures IsStatus(NextStatus(s))
  {
  }

  /** Creating the date's record first, as `toggleAttendance` does, makes
      no difference: a toggle is setting the next status. */
  lemma ToggleIsNextStatus(sec: Section, sid: string, date: string, now: Clock)
    ensures Toggle(sec, sid, date, now)
         == ApplyStatus(sec, sid, date, NextStatus(Shown(sec.attendance, date, sid)), now)
  {
    var created := sec.(attendance := sec.attendance[date := DayOf(sec.attendance, date)]);
    assert Shown(created.attendance, date, sid) == Shown(sec.attendance, date, sid);
    ApplyAfterCreate(sec, sid, date, NextStatus(Shown(sec.attendance, date, sid)), now);
  }

  /** Setting a status on a section whose date record was first created
      empty when missing gives the same section as setting it directly. */
  lemma ApplyAfterCreate(sec: Section, sid: string, date: string, st: string, now: Clock)
    ensures ApplyStatus(sec.(attendance := sec.attendance[date := DayOf(sec.attendance, date)]), sid, date, st, now)
         == ApplyStatus(sec, sid, date, st, now)
  {
    var created := sec.attendance[date := DayOf(sec.attendance, date)];
    assert DayOf(created, date) == DayOf(sec.attendance, date);
    if st == "U" {
      var day := DayOf(sec.attendance, date) - {sid};
      if day == map[] {
        assert created - {date} == sec.attendance - {date};
      } else {
        assert created[date := day] == sec.attendance[date := day];
      }
    } else {
      assert created[date := DayOf(created, date)[sid := st]]
          == sec.attendance[date := DayOf(sec.attendance, date)[sid := st]];
    }
  }

  /** What one click does to a stored value. */
  function Click(e: Option<string>): Option<string> {
    Written(NextStatus(ReadAs(e)))
  }

  /** One toggle, as seen from the cell: the stored value becomes what the
      next status writes. */
  lemma ToggleEntry(sec: Section, sid: string, date: string, now: Clock)
    ensures Entry(Toggle(sec, sid, date, now).attendance, date, sid)
         == Click(Entry(sec.attendance, date, sid))
  {
    ToggleIsNextStatus(sec, sid, date, now);
    NextIsStatus(Shown(sec.attendance, date, sid));
    ApplyStatusCell(sec, sid, date, NextStatus(Shown(sec.attendance, date, sid)), now);
  }

  /** Four clicks from a status code or nothing come back to the same
      stored value; an empty or `U` value comes back as nothing. */
  lemma ClickFourTimes(e: Option<string>)
    requires e == None || e == Some("") || (e.Some? && IsStatus(e.value))
    ensures Click(Click(Click(Click(e)))) == Written(ReadAs(e))
  {
    var st := ReadAs(e);
    var n1 := NextStatus(st);
    var n2 := NextStatus(n1);
    var n3 := NextStatus(n2);
    NextStatusCycle(st);
    NextStatusCycle(n1);
    NextStatusCycle(n2);
    ClickWritten(n1);
    ClickWritten(n2);
    ClickWritten(n3);
    NextStatusFourTimes(st);
  }

  /** Clicking a written status writes the next one. */
  lemma ClickWritten(st: string)
    requires IsStatus(st)
    ensures Click(Written(st)) == Written(NextStatus(st))
  {
  }

  /** Going round the cycle four times returns to the start. */
  lemma NextStatusFourTimes(st: string)
    requires IsStatus(st)
    ensures NextStatus(NextStatus(NextStatus(NextStatus(st)))) == st
  {
    NextStatusCycle(st);
  }

  /** Four clicks on a cell bring back what it held when it held a status
      code or nothing; an empty or `U` value comes back as no entry. The
      clock may differ between clicks. */
  lemma FourTogglesRestore(sec: Section, sid: string, date: string, t1: Clock, t2: Clock, t3: Clock, t4: Clock)
    requires var e := Entry(sec.attendance, date, sid);
             e == None || e == Some("") || (e.Some? && IsStatus(e.value))
    ensures var s1 := Toggle(sec, sid, date, t1);
            var s2 := Toggle(s1, sid, date, t2);
            var s3 := Toggle(s2, sid, date, t3);
            var s4 := Toggle(s3, sid, date, t4);
            Entry(s4.attendance, date, sid) == Written(Shown(sec.attendance, date, sid))
  {
    var s1 := Toggle(sec, sid, date, t1);
    var s2 := Toggle(s1, sid, date, t2);
    var s3 := Toggle(s2, sid, date, t3);
    ToggleEntry(sec, sid, date, t1);
    ToggleEntry(s1, sid, date, t2);
    ToggleEntry(s2, sid, date, t3);
    ToggleEntry(s3, sid, date, t4);
    ClickFourTimes(Entry(sec.attendance, date, sid));
  }

  /** A cell holding a value that is not a status code is cleared by the
      first click. */
  lemma ToggleForeignValue(sec: Section, sid: string, date: string, now: Clock)
    requires !IsStatus(Shown(sec.attendance, date, sid))
    ensures Entry(Toggle(sec, sid, date, now).attendance, date, sid) == None
  {
    NextStatusCycle(Shown(sec.attendance, date, sid));
    ToggleEntry(sec, sid, date, now);
  }

  // ---------------------------------------------------------------------
  // Deleting a student's records
  // ---------------------------------------------------------------------

  /** The record clean-up of `deleteStudent` on one date: a truthy entry
      is deleted. */
  function DropFromDay(day: DayMap, sid: string): DayMap {
    if sid in day && day[sid] != "" then day - {sid} else day
  }

  /** `deleteStudent`'s loop over the dates: the student's truthy entries
      go; the date records stay, even when left empty. */
  function DropStudentRecords(att: DateMap, sid: string): DateMap {
    map date | date in att :: DropFromDay(att[date], sid)
  }

  /** After the clean-up the student shows as unmarked on every date,
      every other student's entries are as before, and no date record is
      added or removed. */
  lemma DropStudentRecordsSpec(att: DateMap, sid: string, date: string, s: string)
    ensures var r := DropStudentRecords(att, sid);
            && r.Keys == att.Keys
            && Shown(r, date, sid) == "U"
            && (s != sid ==> Entry(r, date, s) == Entry(att, date, s))
  {
    var r := DropStudentRecords(att, sid);
    assert r.Keys == att.Keys;
  }
}
