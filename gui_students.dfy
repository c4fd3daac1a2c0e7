/**
 * gui_main.py helpers: `load_students` turns students.csv into a dict from
 * id to record, and `mark_attendance` appends one six-column row to the GUI
 * attendance file.
 */
module GuiStudents {
  import opened Wrappers
  import opened Text
  import opened CsvStore
  import opened Camera

  datatype Student = Student(name: string, course: string, email: string)

  /** What one `DictReader` row does to the dict being filled. */
  datatype RowEffect = Skip | Crash | Put(id: string, student: Student)

  /** One pass of the loop body: rows whose `student_id` or `name` is missing,
      `None` or "" are skipped; a kept row whose `course` or `email` column
      exists but is cut off holds `None`, and `None.strip()` raises. */
  function RowEffectOf(header: seq<string>, line: seq<string>): (e: RowEffect) {
    var sid := Field(header, line, "student_id");
    var nm := Field(header, line, "name");
    if !(Truthy(sid) && Truthy(nm)) then Skip
    else
      var course := Field(header, line, "course");
      var email := Field(header, line, "email");
      if course.NoneValue? || email.NoneValue? then Crash
      else Put(Strip(sid.text), Student(Strip(nm.text), Strip(TextOr(course, "")), Strip(TextOr(email, ""))))
  }

  /** A stored row had a non-empty id and name; what it stores is stripped,
      and a column the header lacks is stored as "". */
  lemma RowEffectFacts(header: seq<string>, line: seq<string>)
    ensures var e := RowEffectOf(header, line);
      e.Put? ==>
        && Truthy(Field(header, line, "student_id")) && Truthy(Field(header, line, "name"))
        && IsStripped(e.id) && IsStripped(e.student.name)
        && IsStripped(e.student.course) && IsStripped(e.student.email)
        && ("course" !in header ==> e.student.course == "")
        && ("email" !in header ==> e.student.email == "")
  {
  }

  /** The dict after the loop has seen `recs`, or None once a row raised. */
  function Collect(header: seq<string>, recs: seq<seq<string>>): Option<map<string, Student>> {
    if recs == [] then Some(map[])
    else Apply(Collect(header, recs[..|recs| - 1]), RowEffectOf(header, recs[|recs| - 1]))
  }

  function Apply(acc: Option<map<string, Student>>, e: RowEffect): Option<map<string, Student>> {
    match acc
    case None => None
    case Some(m) =>
      match e
      case Skip => Some(m)
      case Crash => None
      case Put(k, s) => Some(m[k := s])
  }

  /** Reference reading of "a later row overwrites an earlier one": the
      record of the last row that stores `id`. */
  function LastPut(header: seq<string>, recs: seq<seq<string>>, id: string): Option<Student> {
    if recs == [] then None
    else
      var e := RowEffectOf(header, recs[|recs| - 1]);
      if e.Put? && e.id == id then Some(e.student) else LastPut(header, recs[..|recs| - 1], id)
  }

  /** The whole of `load_students` on a file. */
  function StudentTable(v: FileView): (m: map<string, Student>)
    ensures v.Absent? || v.Unreadable? ==> m == map[]
    ensures v.Readable? && (v.lines == [] || "student_id" !in v.lines[0] || "name" !in v.lines[0]) ==> m == map[]
  {
    match v
    case Absent => map[]
    case Unreadable => map[]
    case Readable(lines) =>
      if lines == [] || "student_id" !in lines[0] || "name" !in lines[0] then map[]
      else Collect(lines[0], Records(lines)).GetOr(map[])
  }

  /** A key is in the dict iff some row stores it, and it maps to the record
      of the last such row. */
  lemma {:induction false} CollectLastWins(header: seq<string>, recs: seq<seq<string>>, m: map<string, Student>)
    requires Collect(header, recs) == Some(m)
    ensures forall id :: (id in m <==> LastPut(header, recs, id).Some?)
    ensures forall id :: id in m ==> m[id] == LastPut(header, recs, id).value
  {
    if recs != [] {
      var p := recs[..|recs| - 1];
      var pm := Collect(header, p).value;
      CollectLastWins(header, p, pm);
    }
  }

  /** A row that raises aborts the whole loop, whatever follows it. */
  lemma {:induction false} CrashAborts(header: seq<string>, recs: seq<seq<string>>, i: nat)
    requires i < |recs| && RowEffectOf(header, recs[i]).Crash?
    ensures Collect(header, recs).None?
  {
    if i < |recs| - 1 {
      var p := recs[..|recs| - 1];
      assert p[i] == recs[i];
      CrashAborts(header, p, i);
    }
  }

  /** Conversely, the loop only gives up at a row that raises. */
  lemma {:induction false} CrashWitness(header: seq<string>, recs: seq<seq<string>>) returns (i: nat)
    requires Collect(header, recs).None?
    ensures i < |recs| && RowEffectOf(header, recs[i]).Crash?
  {
    var p := recs[..|recs| - 1];
    if Collect(header, p).None? {
      i := CrashWitness(header, p);
      assert p[i] == recs[i];
    } else {
      i := |recs| - 1;
    }
  }

  /** `LastPut` only finds records `RowEffectOf` produced, which are stripped. */
  lemma {:induction false} LastPutStripped(header: seq<string>, recs: seq<seq<string>>, id: string)
    requires LastPut(header, recs, id).Some?
    ensures IsStripped(id)
    ensures var s := LastPut(header, recs, id).value;
            IsStripped(s.name) && IsStripped(s.course) && IsStripped(s.email)
  {
    var e := RowEffectOf(header, recs[|recs| - 1]);
    RowEffectFacts(header, recs[|recs| - 1]);
    if !(e.Put? && e.id == id) {
      LastPutStripped(header, recs[..|recs| - 1], id);
    }
  }

  /** Keys and all three fields of every loaded record are stripped. */
  lemma TableStripped(v: FileView)
    ensures forall id :: id in StudentTable(v) ==>
              IsStripped(id) && IsStripped(StudentTable(v)[id].name)
              && IsStripped(StudentTable(v)[id].course) && IsStripped(StudentTable(v)[id].email)
  {
    if v.Readable? && v.lines != [] && "student_id" in v.lines[0] && "name" in v.lines[0] {
      var h, recs := v.lines[0], Records(v.lines);
      if Collect(h, recs).Some? {
        var m := Collect(h, recs).value;
        CollectLastWins(h, recs, m);
        forall id | id in m
          ensures IsStripped(id) && IsStripped(m[id].name) && IsStripped(m[id].course) && IsStripped(m[id].email)
        {
          LastPutStripped(h, recs, id);
        }
      }
    }
  }

  lemma CollectStep(header: seq<string>, recs: seq<seq<string>>, i: nat)
    requires i < |recs|
    ensures Collect(header, recs[..i + 1]) == Apply(Collect(header, recs[..i]), RowEffectOf(header, recs[i]))
  {
    assert recs[..i + 1][..i] == recs[..i];
  }

  /** `load_students()` on what opening students.csv yields. */
  method LoadStudents(v: FileView) returns (students: map<string, Student>)
    ensures students == StudentTable(v)
  {
    if !v.Readable? || v.lines == [] || "student_id" !in v.lines[0] || "name" !in v.lines[0] {
      return map[];
    }
    var filled := FillStudents(v.lines[0], Records(v.lines));
    students := filled.GetOr(map[]);
  }

  /** The `for row in reader` loop: None when a row raises, which the
      caller's `except` turns into {}. */
  method FillStudents(header: seq<string>, recs: seq<seq<string>>) returns (filled: Option<map<string, Student>>)
    ensures filled == Collect(header, recs)
  {
    var students := map[];
    var i := 0;
    while i < |recs|
      invariant 0 <= i <= |recs|
      invariant Collect(header, recs[..i]) == Some(students)
    {
      var e := RowEffectOf(header, recs[i]);
      CollectStep(header, recs, i);
      if e.Crash? {
        CrashAborts(header, recs, i);
        return None;
      } else if e.Put? {
        students := students[e.id := e.student];
      }
      i := i + 1;
    }
    assert recs[..i] == recs;
    return Some(students);
  }

  /** The record `mark_attendance` receives: a dict (what `load_students`
      builds) or a bare value taken as the name. */
  datatype StudentInfo = Record(student: Student) | Plain(value: string)

  const AttendanceHeader: seq<string> := ["student_id", "name", "course", "email", "date", "time"]

  function AttendanceRow(id: string, info: StudentInfo, now: Stamp): (r: seq<string>)
    ensures |r| == |AttendanceHeader| && r[0] == id && r[4] == now.date && r[5] == now.time
    ensures info.Record? ==> r[1..4] == [info.student.name, info.student.course, info.student.email]
    ensures info.Plain? ==> r[1..4] == [info.value, "", ""]
  {
    match info
    case Record(s) => [id, s.name, s.course, s.email, now.date, now.time]
    case Plain(v) => [id, v, "", "", now.date, now.time]
  }

  /** `mark_attendance(student_id, student_data)`: the header only when the
      file did not exist, then exactly one row; no check for an earlier mark. */
  method MarkAttendance(ledger: CsvFile, id: string, info: StudentInfo, now: Stamp)
    requires ledger.Valid()
    modifies ledger
    ensures ledger.Valid() && ledger.present
    ensures ledger.readable == (old(ledger.readable) || !old(ledger.present))
    ensures ledger.rows == old(ledger.Base(AttendanceHeader)) + [AttendanceRow(id, info, now)]
  {
    ledger.AppendWithHeader(AttendanceHeader, AttendanceRow(id, info, now));
  }
}
