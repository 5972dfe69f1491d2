/** The app.js event handlers that change the stored data: adding many
    students from a pasted list, switching a weekday of the attendance map
    on or off, and clicking an attendance cell. */
module Handlers {
  import opened Collections
  import opened Text
  import opened Calendar
  import opened Schema
  import opened Attendance
  import opened DataManager

  // ---------------------------------------------------------------------
  // Pasted student lists
  // ---------------------------------------------------------------------

  datatype Name = Name(lastName: string, firstName: string)

  /** `parts.map(p => p.trim())`: each piece without its surrounding white
      space. */
  function Trimmed(parts: seq<string>): (r: seq<string>)
    ensures |r| == |parts|
    ensures forall i :: 0 <= i < |parts| ==> IsTrimOf(r[i], parts[i])
  {
    seq(|parts|, i requires 0 <= i < |parts| => Trim(parts[i]))
  }

  /** `parts.filter(p => p)`: the non-empty pieces, in their order, each as
      often as it occurs. */
  function NonEmpty(parts: seq<string>): (r: seq<string>)
    ensures forall i :: 0 <= i < |r| ==> |r[i]| > 0
    ensures forall p :: p in r <==> p in parts && |p| > 0
    ensures IsSubsequence(r, parts)
    ensures forall p :: |p| > 0 ==> multiset(r)[p] == multiset(parts)[p]
  {
    var r := Filter(parts, (p: string) => |p| > 0);
    FilterIsOrderedSelection(parts, (p: string) => |p| > 0);
    assert forall i :: 0 <= i < |r| ==> r[i] in r;
    r
  }

  /** `line.split(',', 2)`: the pieces before the second comma at most. */
  function SplitTwo(line: string): (r: seq<string>) {
    var parts := Split(line, ',');
    if |parts| <= 2 then parts else parts[..2]
  }

  lemma JoinStartsWithFirst(parts: seq<string>, sep: string)
    requires |parts| > 0
    ensures |Join(parts, sep)| >= |parts[0]|
  {
  }

  /** One line of the list: `Last, First` when it has a comma, otherwise
      its words cut in two, the first half (rounded up) being the surnames;
      nothing when the line does not yield both names. */
  function ParseLine(line: string): (r: Option<Name>)
    ensures r.Some? ==> r.value.lastName != "" && r.value.firstName != ""
  {
    if Contains(line, ",") then
      var parts := NonEmpty(Trimmed(SplitTwo(line)));
      if |parts| == 2 then Some(Name(parts[0], parts[1])) else None
    else
      var words := Words(line);
      if |words| >= 2 then
        var mid := (|words| + 1) / 2;
        JoinStartsWithFirst(words[..mid], " ");
        JoinStartsWithFirst(words[mid..], " ");
        Some(Name(Join(words[..mid], " "), Join(words[mid..], " ")))
      else None
  }

  /** The non-blank lines of the trimmed text, each trimmed. */
  function Lines(text: string): seq<string> {
    NonEmpty(Trimmed(Split(Trim(text), '\n')))
  }

  /** The names of the lines that parse, in order. */
  function ParseLines(lines: seq<string>): seq<Name>
    decreases |lines|
  {
    if |lines| == 0 then []
    else
      var last := ParseLine(lines[|lines| - 1]);
      ParseLines(lines[..|lines| - 1]) + (if last.Some? then [last.value] else [])
  }

  predicate PlainName(s: string) {
    |s| > 0 && !IsSpace(s[0]) && !IsSpace(s[|s| - 1]) && NoneOf(s, (c: char) => c == ',')
  }

  /** A line cut at its first comma: the piece before it, and the first
      piece after it. */
  lemma CommaSplit(a: string, b: string)
    requires NoneOf(a, (c: char) => c == ',')
    ensures Contains(a + [','] + b, ",")
    ensures SplitTwo(a + [','] + b) == [a, Split(b, ',')[0]]
  {
    var line := a + [','] + b;
    assert line[|a|..][..1] == ",";
    ContainsSuffix(line, ",", |a|);
    SplitWhereAt(a, ',', b, (c: char) => c == ',');
  }

  lemma ParsePieces(line: string, last: string, first: string)
    requires Contains(line, ",") && SplitTwo(line) == [last, " " + first]
    requires PlainName(last) && PlainName(first)
    ensures ParseLine(line) == Some(Name(last, first))
  {
    TrimOfTrimmed(last);
    TrimSpacePrefix(first);
    assert Trimmed(SplitTwo(line)) == [last, first];
    FilterAll([last, first], (p: string) => |p| > 0);
  }

  lemma SpaceThenPlain(first: string)
    requires PlainName(first)
    ensures NoneOf(" " + first, (c: char) => c == ',')
  {
    assert forall i :: 1 <= i < |" " + first| ==> (" " + first)[i] == first[i - 1];
  }

  /** A `Last, First` line gives back the two names, however many words
      each has. */
  lemma ParseCommaLine(last: string, first: string)
    requires PlainName(last) && PlainName(first)
    ensures ParseLine(last + ", " + first) == Some(Name(last, first))
  {
    assert last + ", " + first == last + [','] + (" " + first);
    CommaSplit(last, " " + first);
    SpaceThenPlain(first);
    SplitWhereNone(" " + first, (c: char) => c == ',');
    ParsePieces(last + ", " + first, last, first);
  }

  /** Only the first two comma-separated pieces are read: whatever follows
      a second comma is dropped. */
  lemma ParseCommaLineDropsRest(last: string, first: string, rest: string)
    requires PlainName(last) && PlainName(first)
    ensures ParseLine(last + ", " + first + "," + rest) == Some(Name(last, first))
  {
    var tail := " " + first + [','] + rest;
    assert last + ", " + first + "," + rest == last + [','] + tail;
    CommaSplit(last, tail);
    SpaceThenPlain(first);
    SplitWhereAt(" " + first, ',', rest, (c: char) => c == ',');
    ParsePieces(last + ", " + first + "," + rest, last, first);
  }

  lemma ContainsSuffix(s: string, p: string, i: nat)
    requires i <= |s| && StartsWith(s[i..], p)
    ensures Contains(s, p)
  {
    ContainsIffOccurs(s, p);
    assert s[i..][..|p|] == s[i..i + |p|];
    assert OccursAt(s, p, i);
  }

  /** A line of words without a comma: the first half of the words, rounded
      up, are the surnames and the rest the given names. */
  lemma ParseWordsLine(ws: seq<string>)
    requires |ws| >= 2
    requires forall k :: 0 <= k < |ws| ==> |ws[k]| > 0 && NoneOf(ws[k], IsSpace) && NoneOf(ws[k], (c: char) => c == ',')
    ensures var mid := (|ws| + 1) / 2;
            ParseLine(Join(ws, " ")) == Some(Name(Join(ws[..mid], " "), Join(ws[mid..], " ")))
  {
    WordsOfJoin(ws);
    JoinHasNoComma(ws);
  }

  lemma {:induction false} JoinHasNoComma(ws: seq<string>)
    requires forall k :: 0 <= k < |ws| ==> NoneOf(ws[k], (c: char) => c == ',')
    ensures !Contains(Join(ws, " "), ",")
    decreases |ws|
  {
    var s := Join(ws, " ");
    assert NoneOf(s, (c: char) => c == ',') by {
      JoinNoneOf(ws);
    }
    ContainsIffOccurs(s, ",");
    forall i ensures !OccursAt(s, ",", i) {
      if 0 <= i < |s| {
        assert s[i..i + 1] == [s[i]];
      }
    }
  }

  lemma {:induction false} JoinNoneOf(ws: seq<string>)
    requires forall k :: 0 <= k < |ws| ==> NoneOf(ws[k], (c: char) => c == ',')
    ensures NoneOf(Join(ws, " "), (c: char) => c == ',')
    decreases |ws|
  {
    if |ws| > 1 {
      JoinNoneOf(ws[1..]);
      var t := Join(ws[1..], " ");
      assert Join(ws, " ") == ws[0] + " " + t;
      forall i | 0 <= i < |ws[0] + " " + t| ensures (ws[0] + " " + t)[i] != ',' {
        if i < |ws[0]| {
        } else if i == |ws[0]| {
        } else {
          assert (ws[0] + " " + t)[i] == t[i - |ws[0]| - 1];
        }
      }
    }
  }

  /** The students the list adds, numbered as they are added: the k-th
      parsed name comes back as the k-th student's names, with the k-th fresh
      id, gender `U` and no birthday; fresh ids that never repeat give
      students with distinct ids. */
  function NewStudents(names: seq<Name>, freshId: nat -> string): (r: seq<Student>)
    ensures |r| == |names|
    ensures forall k :: 0 <= k < |names| ==> Name(r[k].lastName, r[k].firstName) == names[k]
    ensures forall k :: 0 <= k < |names| ==> r[k].id == freshId(k) && r[k].gender == "U" && r[k].birthday == None
    ensures (forall a: nat, b: nat :: a != b ==> freshId(a) != freshId(b)) ==>
              forall k, l :: 0 <= k < l < |r| ==> r[k].id != r[l].id
  {
    seq(|names|, k requires 0 <= k < |names| => Student(freshId(k), names[k].firstName, names[k].lastName, "U", None))
  }

  function NewStudent(freshId: nat -> string, k: nat, name: Name): Student {
    Student(freshId(k), name.firstName, name.lastName, "U", None)
  }

  lemma NewStudentsSnoc(names: seq<Name>, name: Name, freshId: nat -> string)
    ensures NewStudents(names + [name], freshId) == NewStudents(names, freshId) + [NewStudent(freshId, |names|, name)]
  {
  }

  /** The sections `now` are the sections `orig` with the roster of the
      section `sectionId` grown by the students `added` (in the order the
      roster sorts them), and nothing else changed; with no such section,
      nothing changed at all. */
  predicate Grown(orig: seq<Section>, now: seq<Section>, sectionId: string, added: seq<Student>) {
    && |now| == |orig|
    && SectionIndex(now, sectionId) == SectionIndex(orig, sectionId)
    && match SectionIndex(orig, sectionId)
       case None => now == orig
       case Some(i) =>
         && now == orig[i := orig[i].(students := now[i].students)]
         && multiset(now[i].students) == multiset(orig[i].students) + multiset(added)
  }

  /** One `addStudent` call grows the roster by one more student. */
  lemma GrownStep(orig: seq<Section>, before: seq<Section>, after: seq<Section>, sectionId: string,
                  added: seq<Student>, st: Student)
    requires Grown(orig, before, sectionId, added)
    requires match SectionIndex(before, sectionId)
             case None => after == before
             case Some(i) => after == before[i := before[i].(students := SortStudents(before[i].students + [st]))]
    ensures Grown(orig, after, sectionId, added + [st])
  {
    var idx := SectionIndex(before, sectionId);
    if idx.Some? {
      var i := idx.value;
      SectionIndexAfterReplace(before, i, after[i], sectionId);
      assert multiset(after[i].students) == multiset(before[i].students) + multiset{st};
      assert after == orig[i := orig[i].(students := after[i].students)];
    }
  }

  /** `handleBulkAddStudents`: adds one student, gender `U` and no
      birthday, for every line of the list that parses, and returns how
      many it added. The `uuid` of the k-th is `freshId(k)`. Nothing happens
      without a selected section or with a blank list; for a section that
      no longer exists the lines are still counted. */
  method BulkAddStudents(store: Store, sectionId: string, text: string, freshId: nat -> string)
    returns (added: nat)
    requires store.Valid()
    modifies store
    ensures store.Valid() && store.subjects == old(store.subjects)
    ensures added == if sectionId == "" || Trim(text) == "" then 0 else |ParseLines(Lines(text))|
    ensures Grown(old(store.sections), store.sections, sectionId,
                  NewStudents(if sectionId == "" || Trim(text) == "" then [] else ParseLines(Lines(text)), freshId))
    ensures if SectionIndex(old(store.sections), sectionId).Some? && added > 0
            then store.saved == ToRaw(store.State())
            else store.saved == old(store.saved)
  {
    if sectionId == "" || Trim(text) == "" {
      assert NewStudents([], freshId) == [];
      assert Grown(old(store.sections), store.sections, sectionId, []);
      return 0;
    }
    added := AddLines(store, sectionId, Lines(text), freshId);
  }

  lemma ParseLinesSnoc(lines: seq<string>, k: nat)
    requires k < |lines|
    ensures var name := ParseLine(lines[k]);
            ParseLines(lines[..k + 1]) == ParseLines(lines[..k]) + (if name.Some? then [name.value] else [])
  {
    assert lines[..k + 1][..k] == lines[..k];
  }

  /** The loop of `handleBulkAddStudents` over the lines of the list. */
  method AddLines(store: Store, sectionId: string, lines: seq<string>, freshId: nat -> string)
    returns (added: nat)
    requires store.Valid()
    modifies store
    ensures store.Valid() && store.subjects == old(store.subjects)
    ensures added == |ParseLines(lines)|
    ensures Grown(old(store.sections), store.sections, sectionId, NewStudents(ParseLines(lines), freshId))
    ensures if SectionIndex(old(store.sections), sectionId).Some? && added > 0
            then store.saved == ToRaw(store.State())
            else store.saved == old(store.saved)
  {
    added := 0;
    var k := 0;
    assert NewStudents(ParseLines(lines[..0]), freshId) == [];
    while k < |lines|
      invariant 0 <= k <= |lines|
      invariant store.Valid() && store.subjects == old(store.subjects)
      invariant added == |ParseLines(lines[..k])|
      invariant Grown(old(store.sections), store.sections, sectionId, NewStudents(ParseLines(lines[..k]), freshId))
      invariant if SectionIndex(old(store.sections), sectionId).Some? && added > 0
                then store.saved == ToRaw(store.State())
                else store.saved == old(store.saved)
    {
      ghost var names := ParseLines(lines[..k]);
      ghost var next := ParseLines(lines[..k + 1]);
      ParseLinesSnoc(lines, k);
      var name := ParseLine(lines[k]);
      if name.Some? {
        assert next == names + [name.value];
        ghost var before := store.sections;
        ghost var st := NewStudent(freshId, |names|, name.value);
        assert OrNull(None) == None;
        var res := store.AddStudent(sectionId, name.value.firstName, name.value.lastName, "U", None, freshId(added));
        GrownStep(old(store.sections), before, store.sections, sectionId, NewStudents(names, freshId), st);
        NewStudentsSnoc(names, name.value, freshId);
        added := added + 1;
        assert Grown(old(store.sections), store.sections, sectionId, NewStudents(next, freshId));
      } else {
        assert next == names;
      }
      assert added == |next|;
      k := k + 1;
    }
    assert lines[..k] == lines;
  }

  // ---------------------------------------------------------------------
  // Start date
  // ---------------------------------------------------------------------

  /** `handleStartDateChange`: the date field's text becomes the section's
      start date, and clearing the field removes it. */
  method StartDateChange(store: Store, sectionId: string, value: string)
    requires store.Valid()
    modifies store
    ensures store.Valid() && store.subjects == old(store.subjects)
    ensures match SectionIndex(old(store.sections), sectionId)
            case None => store.sections == old(store.sections) && store.saved == old(store.saved)
            case Some(i) =>
              && store.sections == old(store.sections)[i := old(store.sections)[i].(
                   startDate := if value == "" then None else Some(value))]
              && store.saved == ToRaw(store.State())
  {
    store.SetSectionStartDate(sectionId, Some(value));
  }

  // ---------------------------------------------------------------------
  // Weekday switches
  // ---------------------------------------------------------------------

  /** `current.splice(current.indexOf(x), 1)` for an `x` that is present. */
  function RemoveFirst(s: seq<int>, x: int): (r: seq<int>)
    ensures multiset(r) == multiset(s) - multiset{x}
    decreases |s|
  {
    if |s| == 0 then []
    else if s[0] == x then (assert s == [s[0]] + s[1..]; s[1..])
    else (assert s == [s[0]] + s[1..]; [s[0]] + RemoveFirst(s[1..], x))
  }

  /** The list `handleWeekdayToggle` hands to `setSectionVisibleWeekdays`:
      the visible days (all five when none are stored) without the day
      when it is among them, with it appended otherwise. */
  function ToggledWeekdays(current: seq<int>, weekday: int): seq<int> {
    var base := if |current| > 0 then current else AllWeekdays;
    if weekday in base then RemoveFirst(base, weekday) else base + [weekday]
  }

  predicate Distinct(s: seq<int>) {
    forall i, j :: 0 <= i < j < |s| ==> s[i] != s[j]
  }

  lemma {:induction false} RemoveFirstDistinct(s: seq<int>, x: int, d: int)
    requires Distinct(s)
    ensures d in RemoveFirst(s, x) <==> d in s && d != x
    decreases |s|
  {
    if |s| > 0 {
      assert Distinct(s[1..]);
      assert s[0] !in s[1..];
      assert s == [s[0]] + s[1..];
      if s[0] != x {
        RemoveFirstDistinct(s[1..], x, d);
      }
    }
  }

  /** On a list without repeats, the switch flips exactly the one day. */
  lemma ToggledFlips(current: seq<int>, weekday: int, d: int)
    requires Distinct(current)
    ensures d in ToggledWeekdays(current, weekday) <==>
              ((d in (if |current| > 0 then current else AllWeekdays)) != (d == weekday))
  {
    var base := if |current| > 0 then current else AllWeekdays;
    assert Distinct(base);
    RemoveFirstDistinct(base, weekday, d);
  }

  /** The effect on a section whose visible days have no repeats: a weekday
      `w` switches on or off and the others stay, unless that would leave no
      weekday, in which case all five are shown again. */
  lemma WeekdayToggleEffect(current: seq<int>, w: int, d: int)
    requires Distinct(current) && IsWeekday(d)
    ensures var base := if |current| > 0 then current else AllWeekdays;
            var wanted := (e: int) => IsWeekday(e) && ((e in base) != (e == w));
            d in NormalizeWeekdays(Some(ToggledWeekdays(current, w))) <==>
              (if exists e :: e in AllWeekdays && wanted(e) then wanted(d) else true)
  {
    var base := if |current| > 0 then current else AllWeekdays;
    var t := ToggledWeekdays(current, w);
    NormalizeWeekdaysSelects(Some(t), d);
    forall e ensures e in t <==> ((e in base) != (e == w)) {
      ToggledFlips(current, w, e);
    }
    forall e | IsWeekday(e) ensures e in AllWeekdays {
      AllWeekdaysMembers(e);
    }
  }

  /** `handleWeekdayToggle`: nothing for an unknown section, otherwise the
      section's visible days become the normalised toggled list. */
  method WeekdayToggle(store: Store, sectionId: string, weekday: int)
    requires store.Valid()
    modifies store
    ensures store.Valid() && store.subjects == old(store.subjects)
    ensures match SectionIndex(old(store.sections), sectionId)
            case None => store.sections == old(store.sections) && store.saved == old(store.saved)
            case Some(i) =>
              && store.sections == old(store.sections)[i := old(store.sections)[i].(
                   visibleWeekdays := NormalizeWeekdays(Some(ToggledWeekdays(old(store.sections)[i].visibleWeekdays, weekday))))]
              && store.saved == ToRaw(store.State())
  {
    var section := store.GetSection(sectionId);
    if section.None? {
      return;
    }
    var current := if |section.value.visibleWeekdays| > 0 then section.value.visibleWeekdays else AllWeekdays;
    var next: seq<int>;
    var idx := IndexOf(current, weekday);
    if idx >= 0 {
      next := current[..idx] + current[idx + 1..];
      RemoveAt(current, weekday, idx);
    } else {
      next := current + [weekday];
    }
    store.SetSectionVisibleWeekdays(sectionId, Some(next));
  }

  lemma {:induction false} RemoveAt(s: seq<int>, x: int, i: nat)
    requires i < |s| && s[i] == x && forall j :: 0 <= j < i ==> s[j] != x
    ensures s[..i] + s[i + 1..] == RemoveFirst(s, x)
    decreases i
  {
    if i == 0 {
      assert s[..0] + s[1..] == s[1..];
    } else {
      RemoveAt(s[1..], x, i - 1);
      SpliceCons(s, i);
      RemoveFirstCons(s, x);
    }
  }

  lemma SpliceCons(s: seq<int>, i: nat)
    requires 0 < i < |s|
    ensures s[..i] + s[i + 1..] == [s[0]] + (s[1..][..i - 1] + s[1..][i..])
  {
    assert s[..i] == [s[0]] + s[1..][..i - 1];
    assert s[i + 1..] == s[1..][i..];
  }

  lemma RemoveFirstCons(s: seq<int>, x: int)
    requires |s| > 0 && s[0] != x
    ensures RemoveFirst(s, x) == [s[0]] + RemoveFirst(s[1..], x)
  {
  }

  // ---------------------------------------------------------------------
  // Attendance cells
  // ---------------------------------------------------------------------

  const TodayCycle: seq<string> := ["P", "A", "L"]

  /** The click on today's cell: an unmarked student counts as present, and
      the status moves along present, absent, late; an unknown value
      becomes present. */
  function TodayNext(status: string): string {
    var current := if status == "U" then "P" else status;
    TodayCycle[(IndexOf(TodayCycle, current) + 1) % |TodayCycle|]
  }

  /** Today's cycle never unmarks a student, and three clicks bring a marked
      status back. */
  lemma TodayNextCycle(s: string)
    ensures TodayNext("U") == "A" && TodayNext("P") == "A"
    ensures TodayNext("A") == "L" && TodayNext("L") == "P"
    ensures !IsStatus(s) ==> TodayNext(s) == "P"
    ensures IsStatus(TodayNext(s)) && TodayNext(s) != "U"
    ensures s in TodayCycle ==> TodayNext(TodayNext(TodayNext(s))) == s
  {
    assert TodayCycle[0] == "P" && TodayCycle[1] == "A" && TodayCycle[2] == "L";
  }

  /** `attendanceCell`'s click handler, with today's date as a parameter:
      today's cell follows `TodayNext`, any other date the full cycle of
      `toggleAttendance`. The status is read from the stored records. */
  method ClickCell(store: Store, sectionId: string, studentId: string, date: string, todayStr: string, now: Clock)
    returns (result: Option<string>)
    requires store.Valid()
    modifies store
    ensures store.Valid() && store.subjects == old(store.subjects)
    ensures match SectionIndex(old(store.sections), sectionId)
            case None => result == None && store.sections == old(store.sections) && store.saved == old(store.saved)
            case Some(i) =>
              var sec := old(store.sections)[i];
              var shown := Shown(sec.attendance, date, studentId);
              && store.saved == ToRaw(store.State())
              && if date == todayStr then
                   && result == Some(TodayNext(shown))
                   && store.sections == old(store.sections)[i := ApplyStatus(sec, studentId, date, TodayNext(shown), now)]
                 else
                   && result == Some(NextStatus(shown))
                   && store.sections == old(store.sections)[i := Toggle(sec, studentId, date, now)]
  {
    if date == todayStr {
      var records := store.GetAttendanceRecords(sectionId);
      var status := if date in records && studentId in records[date] && records[date][studentId] != "" then records[date][studentId] else "U";
      TodayNextCycle(status);
      var next := TodayNext(status);
      result := store.SetAttendanceStatus(sectionId, studentId, date, next, now);
    } else {
      result := store.ToggleAttendance(sectionId, studentId, date, now);
    }
  }

  /** A click on today's cell always leaves a written status for the
      student, never an unmarked one. */
  lemma TodayClickMarks(sec: Section, sid: string, date: string, now: Clock)
    ensures var next := TodayNext(Shown(sec.attendance, date, sid));
            var att := ApplyStatus(sec, sid, date, next, now).attendance;
            && Entry(att, date, sid) == Some(next)
            && next != "U"
  {
    var next := TodayNext(Shown(sec.attendance, date, sid));
    TodayNextCycle(Shown(sec.attendance, date, sid));
    ApplyStatusCell(sec, sid, date, next, now);
  }
}
