/**
 * gui_main.py, the attendance sessions: the `camera_active` gate of the GUI
 * and the per-frame rules of `run_qr_attendance` and `run_face_attendance`,
 * which mark each registered student at most once per session in the
 * in-memory `marked` set and append a row to attendance.csv for each.
 */
module GuiSessions {
  import opened Wrappers
  import opened Text
  import opened CsvStore
  import opened Camera
  import opened LabelMap
  import opened GuiStudents

  /** A row a session writes: the id, the record passed to
      `mark_attendance`, and the clock reading at that call. */
  datatype Entry = Entry(id: string, student: Student, now: Stamp)

  /** The `marked` set a session keeps beside its entries. */
  function Ids(es: seq<Entry>): set<string> {
    set j | 0 <= j < |es| :: es[j].id
  }

  /** The attendance rows for the entries, in order. */
  function Rows(es: seq<Entry>): (r: seq<seq<string>>)
    ensures |r| == |es|
    ensures forall j :: 0 <= j < |es| ==> r[j] == AttendanceRow(es[j].id, Record(es[j].student), es[j].now)
  {
    seq(|es|, j requires 0 <= j < |es| => AttendanceRow(es[j].id, Record(es[j].student), es[j].now))
  }

  /** What one QR payload or one face amounts to: nothing to act on, an id
      that is not registered, or a registered id with its record. */
  datatype Reading = Nothing | Unknown | Known(id: string, student: Student)

  /** A reading and the clock reading at which it is handled. */
  datatype Sighting = Sighting(reading: Reading, now: Stamp)

  /** What the session does with a reading. */
  datatype Decision = Ignore | Unregistered | AlreadyMarked | Mark(id: string, student: Student)

  /** The inner branches: an unknown id and an id already in `marked` write
      nothing; a new registered id is marked with its record. */
  function Admit(marked: set<string>, r: Reading): Decision {
    match r
    case Nothing => Ignore
    case Unknown => Unregistered
    case Known(id, student) => if id in marked then AlreadyMarked else Mark(id, student)
  }

  /** The entries a session has written after handling `xs` in order,
      starting from an empty `marked`. */
  function Marks(xs: seq<Sighting>): seq<Entry> {
    if xs == [] then []
    else
      var p := Marks(xs[..|xs| - 1]);
      var x := xs[|xs| - 1];
      var d := Admit(Ids(p), x.reading);
      if d.Mark? then p + [Entry(d.id, d.student, x.now)] else p
  }

  /** The registered ids the readings name. */
  function KnownIds(xs: seq<Sighting>): set<string> {
    set j | 0 <= j < |xs| && xs[j].reading.Known? :: xs[j].reading.id
  }

  /** Every reading that names an id names a registered one with its own
      record. */
  predicate Registered(students: map<string, Student>, xs: seq<Sighting>) {
    forall j :: 0 <= j < |xs| && xs[j].reading.Known? ==>
      xs[j].reading.id in students && xs[j].reading.student == students[xs[j].reading.id]
  }

  // ---------------------------------------------------------------- QR

  /** `if data:` then `data.strip()` looked up in `students`. */
  function QrReading(students: map<string, Student>, payload: string): Reading {
    if payload == "" then Nothing
    else if Strip(payload) in students then Known(Strip(payload), students[Strip(payload)])
    else Unknown
  }

  function QrSightings(students: map<string, Student>, frames: seq<Frame<QrScan>>): (xs: seq<Sighting>)
    ensures |xs| == |frames|
  {
    if frames == [] then []
    else
      var s := frames[|frames| - 1].content;
      QrSightings(students, frames[..|frames| - 1]) + [Sighting(QrReading(students, s.payload), s.now)]
  }

  /** The entries a QR session writes over the frames it processes. */
  function QrRun(students: map<string, Student>, frames: seq<Frame<QrScan>>): seq<Entry> {
    Marks(QrSightings(students, frames))
  }

  // -------------------------------------------------------------- faces

  /** Python truthiness of a label-map value. */
  predicate PyTruthy(k: PyKey) {
    match k
    case IntKey(i) => i != 0
    case StrKey(s) => s != ""
  }

  /** `confidence < 70`, then `label_map.get(label, None)`, then
      `student_id and student_id in students`. The GUI's label map is the
      pickled label-to-id dict, so the integer label is the right key. */
  function FaceReading(students: map<string, Student>, labelMap: PyDict, f: Face): Reading {
    if !(f.confidence < 70.0) then Nothing
    else match DictGet(labelMap, IntKey(f.predicted))
      case None => Nothing
      case Some(v) =>
        if !PyTruthy(v) then Nothing
        else if v.StrKey? && v.s in students then Known(v.s, students[v.s])
        else Unknown
  }

  /** The faces of one frame, in detection order. */
  function FaceSightings(students: map<string, Student>, labelMap: PyDict, faces: seq<Face>): (xs: seq<Sighting>)
    ensures |xs| == |faces|
  {
    if faces == [] then []
    else
      var f := faces[|faces| - 1];
      FaceSightings(students, labelMap, faces[..|faces| - 1]) + [Sighting(FaceReading(students, labelMap, f), f.now)]
  }

  /** All faces of all frames, frame by frame. */
  function FrameSightings(students: map<string, Student>, labelMap: PyDict, frames: seq<Frame<seq<Face>>>): seq<Sighting> {
    if frames == [] then []
    else FrameSightings(students, labelMap, frames[..|frames| - 1])
         + FaceSightings(students, labelMap, frames[|frames| - 1].content)
  }

  /** The entries a face session writes over the frames it processes. */
  function FaceRun(students: map<string, Student>, labelMap: PyDict, frames: seq<Frame<seq<Face>>>): seq<Entry> {
    Marks(FrameSightings(students, labelMap, frames))
  }

  // ------------------------------------------------------ session facts

  /** What a session's entries always satisfy: each id at most once, so the
      number of rows equals `len(marked)`, and each is a registered student
      written with its own record. */
  predicate Wellformed(students: map<string, Student>, es: seq<Entry>) {
    && (forall j, k :: 0 <= j < k < |es| ==> es[j].id != es[k].id)
    && (forall j :: 0 <= j < |es| ==> es[j].id in students && es[j].student == students[es[j].id])
    && |Ids(es)| == |es|
  }

  lemma IdsSnoc(es: seq<Entry>, e: Entry)
    ensures Ids(es + [e]) == Ids(es) + {e.id}
  {
    var l := es + [e];
    forall x | x in Ids(l) ensures x in Ids(es) + {e.id} {
      var j :| 0 <= j < |l| && l[j].id == x;
      if j < |es| { assert es[j] == l[j]; }
    }
    forall x | x in Ids(es) ensures x in Ids(l) {
      var j :| 0 <= j < |es| && es[j].id == x;
      assert l[j] == es[j];
    }
    assert l[|es|] == e;
  }

  lemma KnownIdsSnoc(xs: seq<Sighting>, x: Sighting)
    ensures KnownIds(xs + [x]) == KnownIds(xs) + (if x.reading.Known? then {x.reading.id} else {})
  {
    var l := xs + [x];
    forall y | y in KnownIds(l) ensures y in KnownIds(xs) + (if x.reading.Known? then {x.reading.id} else {}) {
      var j :| 0 <= j < |l| && l[j].reading.Known? && l[j].reading.id == y;
      if j < |xs| { assert xs[j] == l[j]; }
    }
    forall y | y in KnownIds(xs) ensures y in KnownIds(l) {
      var j :| 0 <= j < |xs| && xs[j].reading.Known? && xs[j].reading.id == y;
      assert l[j] == xs[j];
    }
    assert l[|xs|] == x;
  }

  /** Handling one more sighting. */
  lemma MarksSnoc(xs: seq<Sighting>, x: Sighting)
    ensures var p := Marks(xs); var d := Admit(Ids(p), x.reading);
      Marks(xs + [x]) == (if d.Mark? then p + [Entry(d.id, d.student, x.now)] else p)
  {
    assert (xs + [x])[..|xs|] == xs;
  }

  /** Marking one more sighting keeps the session facts. */
  lemma StepFacts(students: map<string, Student>, es: seq<Entry>, x: Sighting)
    requires Wellformed(students, es)
    requires x.reading.Known? ==> x.reading.id in students && x.reading.student == students[x.reading.id]
    ensures var d := Admit(Ids(es), x.reading);
      var es' := if d.Mark? then es + [Entry(d.id, d.student, x.now)] else es;
      && Wellformed(students, es')
      && Ids(es') == Ids(es) + (if x.reading.Known? then {x.reading.id} else {})
  {
    var d := Admit(Ids(es), x.reading);
    if d.Mark? {
      var e := Entry(d.id, d.student, x.now);
      IdsSnoc(es, e);
      var l := es + [e];
      forall j, k | 0 <= j < k < |l| ensures l[j].id != l[k].id {
        if k == |es| {
          assert l[j] == es[j];
          assert es[j].id in Ids(es);
        } else {
          assert l[j] == es[j] && l[k] == es[k];
        }
      }
      forall j | 0 <= j < |l| ensures l[j].id in students && l[j].student == students[l[j].id] {
        if j < |es| { assert l[j] == es[j]; }
      }
    }
  }

  /** Over readings of registered students, the session writes every id
      named exactly once, with its own record, and nothing else. */
  lemma {:induction false} MarksFacts(students: map<string, Student>, xs: seq<Sighting>)
    requires Registered(students, xs)
    ensures Wellformed(students, Marks(xs))
    ensures Ids(Marks(xs)) == KnownIds(xs)
  {
    if xs != [] {
      var p := xs[..|xs| - 1];
      var x := xs[|xs| - 1];
      assert xs == p + [x];
      assert Registered(students, p) by {
        forall j | 0 <= j < |p| ensures p[j] == xs[j] { }
      }
      MarksFacts(students, p);
      StepFacts(students, Marks(p), x);
      KnownIdsSnoc(p, x);
    }
  }

  lemma {:induction false} QrSightingsRegistered(students: map<string, Student>, frames: seq<Frame<QrScan>>)
    ensures Registered(students, QrSightings(students, frames))
  {
    if frames != [] {
      QrSightingsRegistered(students, frames[..|frames| - 1]);
    }
  }

  lemma {:induction false} FaceSightingsRegistered(students: map<string, Student>, labelMap: PyDict, faces: seq<Face>)
    ensures Registered(students, FaceSightings(students, labelMap, faces))
  {
    if faces != [] {
      FaceSightingsRegistered(students, labelMap, faces[..|faces| - 1]);
    }
  }

  lemma {:induction false} FrameSightingsRegistered(students: map<string, Student>, labelMap: PyDict, frames: seq<Frame<seq<Face>>>)
    ensures Registered(students, FrameSightings(students, labelMap, frames))
  {
    if frames != [] {
      FrameSightingsRegistered(students, labelMap, frames[..|frames| - 1]);
      FaceSightingsRegistered(students, labelMap, frames[|frames| - 1].content);
    }
  }

  lemma FaceSightingsSnoc(students: map<string, Student>, labelMap: PyDict, base: seq<Sighting>, faces: seq<Face>, k: nat)
    requires k < |faces|
    ensures base + FaceSightings(students, labelMap, faces[..k + 1]) ==
      (base + FaceSightings(students, labelMap, faces[..k])) + [Sighting(FaceReading(students, labelMap, faces[k]), faces[k].now)]
  {
    assert faces[..k + 1][..k] == faces[..k];
  }

  lemma FrameSightingsSnoc(students: map<string, Student>, labelMap: PyDict, frames: seq<Frame<seq<Face>>>, i: nat)
    requires i < |frames|
    ensures FrameSightings(students, labelMap, frames[..i + 1]) ==
      FrameSightings(students, labelMap, frames[..i]) + FaceSightings(students, labelMap, frames[i].content)
  {
    assert frames[..i + 1][..i] == frames[..i];
  }

  /** The QR readings, frame by frame. */
  lemma {:induction false} QrSightingsAt(students: map<string, Student>, frames: seq<Frame<QrScan>>, j: nat)
    requires j < |frames|
    ensures QrSightings(students, frames)[j].reading == QrReading(students, frames[j].content.payload)
  {
    if j < |frames| - 1 {
      var p := frames[..|frames| - 1];
      assert p[j] == frames[j];
      QrSightingsAt(students, p, j);
    }
  }

  /** Over any frames, a QR session writes one row for each registered id
      that some frame decodes to (after stripping), with that student's
      record, and no other row; so `len(marked)` rows in all. */
  lemma QrRunFacts(students: map<string, Student>, frames: seq<Frame<QrScan>>, id: string)
    ensures Wellformed(students, QrRun(students, frames))
    ensures id in Ids(QrRun(students, frames)) <==>
      id in students && exists j :: 0 <= j < |frames| && frames[j].content.payload != "" && Strip(frames[j].content.payload) == id
  {
    QrSightingsRegistered(students, frames);
    MarksFacts(students, QrSightings(students, frames));
    QrKnownIds(students, frames, id);
  }

  /** The ids the QR readings name are the registered stripped payloads. */
  lemma QrKnownIds(students: map<string, Student>, frames: seq<Frame<QrScan>>, id: string)
    ensures id in KnownIds(QrSightings(students, frames)) <==>
      id in students && exists j :: 0 <= j < |frames| && frames[j].content.payload != "" && Strip(frames[j].content.payload) == id
  {
    if id in KnownIds(QrSightings(students, frames)) {
      QrKnownFrom(students, frames, id);
    }
    if id in students && exists j :: 0 <= j < |frames| && frames[j].content.payload != "" && Strip(frames[j].content.payload) == id {
      var j :| 0 <= j < |frames| && frames[j].content.payload != "" && Strip(frames[j].content.payload) == id;
      QrKnownOf(students, frames, j);
    }
  }

  lemma QrKnownFrom(students: map<string, Student>, frames: seq<Frame<QrScan>>, id: string)
    requires id in KnownIds(QrSightings(students, frames))
    ensures id in students
    ensures exists j :: 0 <= j < |frames| && frames[j].content.payload != "" && Strip(frames[j].content.payload) == id
  {
    var xs := QrSightings(students, frames);
    var j :| 0 <= j < |xs| && xs[j].reading.Known? && xs[j].reading.id == id;
    QrSightingsAt(students, frames, j);
    var t := frames[j].content.payload;
    assert t != "" && Strip(t) in students && Strip(t) == id;
  }

  lemma QrKnownOf(students: map<string, Student>, frames: seq<Frame<QrScan>>, j: nat)
    requires j < |frames| && frames[j].content.payload != "" && Strip(frames[j].content.payload) in students
    ensures Strip(frames[j].content.payload) in KnownIds(QrSightings(students, frames))
  {
    var xs := QrSightings(students, frames);
    QrSightingsAt(students, frames, j);
    assert xs[j].reading.Known? && xs[j].reading.id == Strip(frames[j].content.payload);
  }

  /** Over any frames, a face session writes each registered id it
      recognises exactly once, with that student's record, and nothing
      else. */
  lemma FaceRunFacts(students: map<string, Student>, labelMap: PyDict, frames: seq<Frame<seq<Face>>>)
    ensures Wellformed(students, FaceRun(students, labelMap, frames))
    ensures Ids(FaceRun(students, labelMap, frames)) == KnownIds(FrameSightings(students, labelMap, frames))
  {
    FrameSightingsRegistered(students, labelMap, frames);
    MarksFacts(students, FrameSightings(students, labelMap, frames));
  }

  predicate Unsure(faces: seq<Face>) {
    forall j :: 0 <= j < |faces| ==> faces[j].confidence >= 70.0
  }

  predicate Blank(xs: seq<Sighting>) {
    forall j :: 0 <= j < |xs| ==> xs[j].reading.Nothing?
  }

  lemma {:induction false} MarksOfBlank(xs: seq<Sighting>)
    requires Blank(xs)
    ensures Marks(xs) == []
  {
    if xs != [] {
      var p := xs[..|xs| - 1];
      assert forall j :: 0 <= j < |p| ==> p[j] == xs[j];
      MarksOfBlank(p);
    }
  }

  lemma {:induction false} UnsureFacesBlank(students: map<string, Student>, labelMap: PyDict, faces: seq<Face>)
    requires Unsure(faces)
    ensures Blank(FaceSightings(students, labelMap, faces))
  {
    if faces != [] {
      var p := faces[..|faces| - 1];
      assert forall j :: 0 <= j < |p| ==> p[j] == faces[j];
      UnsureFacesBlank(students, labelMap, p);
    }
  }

  lemma {:induction false} UnsureFramesBlank(students: map<string, Student>, labelMap: PyDict, frames: seq<Frame<seq<Face>>>)
    requires forall i :: 0 <= i < |frames| ==> Unsure(frames[i].content)
    ensures Blank(FrameSightings(students, labelMap, frames))
  {
    if frames != [] {
      var p := frames[..|frames| - 1];
      assert forall i :: 0 <= i < |p| ==> p[i] == frames[i];
      UnsureFramesBlank(students, labelMap, p);
      UnsureFacesBlank(students, labelMap, frames[|frames| - 1].content);
    }
  }

  /** Faces recognised with confidence 70 or more never cause a row. */
  lemma UnsureSessionWritesNothing(students: map<string, Student>, labelMap: PyDict, frames: seq<Frame<seq<Face>>>)
    requires forall i :: 0 <= i < |frames| ==> Unsure(frames[i].content)
    ensures FaceRun(students, labelMap, frames) == []
  {
    UnsureFramesBlank(students, labelMap, frames);
    MarksOfBlank(FrameSightings(students, labelMap, frames));
  }

  // --------------------------------------------------------- the ledger

  /** Appending one more lazy-header row to the ledger. */
  lemma AfterAppendsSnoc(p0: bool, r0: seq<seq<string>>, header: seq<string>, added: seq<seq<string>>, row: seq<string>)
    ensures AfterAppends(p0, r0, header, added + [row]) ==
      (if p0 || added != [] then AfterAppends(p0, r0, header, added) else [header]) + [row]
  {
    if added != [] {
      assert (if p0 then r0 else [header]) + (added + [row]) == ((if p0 then r0 else [header]) + added) + [row];
    }
  }

  lemma RowsSnoc(es: seq<Entry>, e: Entry)
    ensures Rows(es + [e]) == Rows(es) + [AttendanceRow(e.id, Record(e.student), e.now)]
  {
    var l := es + [e];
    assert forall j :: 0 <= j < |es| ==> l[j] == es[j];
  }

  /** The ledger holds what it held at the start of the session plus the
      rows of `es`; it is readable if it was, or if the session created it. */
  ghost predicate Ledger(ledger: CsvFile, p0: bool, r0: seq<seq<string>>, es: seq<Entry>)
    reads ledger
  {
    && ledger.Valid()
    && ledger.present == (p0 || es != [])
    && ledger.rows == AfterAppends(p0, r0, AttendanceHeader, Rows(es))
  }

  /** One reading: `mark_attendance` and `marked.add` when it names a
      registered student not yet marked, nothing otherwise. */
  method Handle(ledger: CsvFile, ghost p0: bool, ghost r0: seq<seq<string>>, ghost xs: seq<Sighting>,
                es: seq<Entry>, marked: set<string>, x: Sighting) returns (es': seq<Entry>, marked': set<string>)
    requires es == Marks(xs) && Ledger(ledger, p0, r0, es) && marked == Ids(es)
    modifies ledger
    ensures es' == Marks(xs + [x]) && marked' == Ids(es')
    ensures Ledger(ledger, p0, r0, es')
    ensures old(ledger.present) ==> ledger.present
    ensures ledger.readable == (old(ledger.readable) || (ledger.present && !old(ledger.present)))
  {
    MarksSnoc(xs, x);
    var d := Admit(marked, x.reading);
    if d.Mark? {
      var e := Entry(d.id, d.student, x.now);
      MarkAttendance(ledger, d.id, Record(d.student), x.now);
      RowsSnoc(es, e);
      AfterAppendsSnoc(p0, r0, AttendanceHeader, Rows(es), AttendanceRow(e.id, Record(e.student), x.now));
      IdsSnoc(es, e);
      es', marked' := es + [e], marked + {d.id};
    } else {
      es', marked' := es, marked;
    }
  }

  // ------------------------------------------------------------ the gate

  /** How a button press ends. */
  datatype Start = Refused | NoCascade | NoModel | NoStudents | Cancelled | Started

  /** `qr_attendance()` up to starting the thread. */
  function QrStart(active: bool, students: map<string, Student>, confirmed: bool): Start {
    if active then Refused
    else if students == map[] then NoStudents
    else if !confirmed then Cancelled
    else Started
  }

  /** `face_attendance()` up to starting the thread. */
  function FaceStart(active: bool, haarFound: bool, modelFound: bool, students: map<string, Student>): Start {
    if active then Refused
    else if !haarFound then NoCascade
    else if !modelFound then NoModel
    else if students == map[] then NoStudents
    else Started
  }

  /** A session starts only when no camera session is active, students are
      registered, and (for QR) the instructions are confirmed. */
  lemma QrStartIff(active: bool, students: map<string, Student>, confirmed: bool)
    ensures QrStart(active, students, confirmed) == Started <==> !active && students != map[] && confirmed
    ensures active ==> QrStart(active, students, confirmed) == Refused
  {
  }

  /** A face session also needs the cascade file and both model files. */
  lemma FaceStartIff(active: bool, haarFound: bool, modelFound: bool, students: map<string, Student>)
    ensures FaceStart(active, haarFound, modelFound, students) == Started <==>
      !active && haarFound && modelFound && students != map[]
    ensures active ==> FaceStart(active, haarFound, modelFound, students) == Refused
  {
  }

  /** The part of `SmartAttendanceGUI` the attendance logic depends on. */
  class AttendanceApp {
    var cameraActive: bool

    constructor ()
      ensures !cameraActive
    {
      cameraActive := false;
    }

    /** The guard of `register_student`: the window opens only while no
        camera session runs. */
    method RegisterStudent() returns (shown: bool)
      ensures shown <==> !cameraActive
    {
      shown := !cameraActive;
    }

    /** The guard of `exit_app`. */
    method ExitApp() returns (quits: bool)
      ensures quits <==> !cameraActive
    {
      quits := !cameraActive;
    }

    /** `qr_attendance()`: the gate, then the flag is set for the thread. */
    method QrAttendance(v: FileView, confirmed: bool) returns (r: Start, students: map<string, Student>)
      modifies this
      ensures students == StudentTable(v) || old(cameraActive)
      ensures r == QrStart(old(cameraActive), StudentTable(v), confirmed)
      ensures cameraActive == (old(cameraActive) || r == Started)
    {
      if cameraActive {
        return Refused, map[];
      }
      students := LoadStudents(v);
      r := QrStart(false, students, confirmed);
      if r == Started {
        cameraActive := true;
      }
    }

    /** `face_attendance()`: the gate, the cascade and model checks, then the
        flag is set for the thread. */
    method FaceAttendance(haarFound: bool, modelFound: bool, v: FileView) returns (r: Start, students: map<string, Student>)
      modifies this
      ensures r == FaceStart(old(cameraActive), haarFound, modelFound, StudentTable(v))
      ensures r == Started ==> students == StudentTable(v)
      ensures cameraActive == (old(cameraActive) || r == Started)
    {
      if cameraActive {
        return Refused, map[];
      }
      if !haarFound {
        return NoCascade, map[];
      }
      if !modelFound {
        return NoModel, map[];
      }
      students := LoadStudents(v);
      r := FaceStart(false, true, true, students);
      if r == Started {
        cameraActive := true;
      }
    }

    /** `run_qr_attendance`, the thread body: frames are read until the
        camera fails or 'q'; `camera_active` is cleared on every exit. */
    method RunQrAttendance(students: map<string, Student>, cameraOpens: bool,
                           frames: seq<Frame<QrScan>>, ledger: CsvFile) returns (marked: set<string>)
      requires cameraActive && ledger.Valid()
      modifies this, ledger
      ensures !cameraActive
      ensures var es := if cameraOpens then QrRun(students, Consumed(frames)) else [];
        marked == Ids(es) && Ledger(ledger, old(ledger.present), old(ledger.rows), es)
      ensures ledger.readable == (old(ledger.readable) || (ledger.present && !old(ledger.present)))
    {
      if !cameraOpens {
        cameraActive := false;
        return {};
      }
      ghost var p0, r0 := ledger.present, ledger.rows;
      var es: seq<Entry> := [];
      marked := {};
      var i := 0;
      ConsumedStart(frames);
      while cameraActive && i < |frames|
        invariant 0 <= i <= |frames| && cameraActive
        invariant i < |Consumed(frames)| || i == |Consumed(frames)| == |frames|
        invariant es == QrRun(students, frames[..i]) && marked == Ids(es)
        invariant Ledger(ledger, p0, r0, es)
        invariant old(ledger.present) ==> ledger.present
        invariant ledger.readable == (old(ledger.readable) || (ledger.present && !old(ledger.present)))
      {
        var stop;
        es, marked, stop := MarkScan(ledger, p0, r0, students, es, marked, frames, i);
        if stop {
          cameraActive := false;
          return;
        }
        i := i + 1;
      }
      assert Consumed(frames) == frames[..i];
      cameraActive := false;
    }

    /** `run_face_attendance`, the thread body. A failure to read the model
        or the label map raises; a cascade that does not load or a camera
        that does not open ends the thread early; every exit clears
        `camera_active`. */
    method RunFaceAttendance(students: map<string, Student>, labelMap: Option<PyDict>, cascadeLoads: bool,
                             cameraOpens: bool, frames: seq<Frame<seq<Face>>>, ledger: CsvFile)
      returns (marked: set<string>)
      requires cameraActive && ledger.Valid()
      modifies this, ledger
      ensures !cameraActive
      ensures var es := if labelMap.Some? && cascadeLoads && cameraOpens
                        then FaceRun(students, labelMap.value, Consumed(frames)) else [];
        marked == Ids(es) && Ledger(ledger, old(ledger.present), old(ledger.rows), es)
      ensures ledger.readable == (old(ledger.readable) || (ledger.present && !old(ledger.present)))
    {
      if labelMap.None? || !cascadeLoads || !cameraOpens {
        cameraActive := false;
        return {};
      }
      var lm := labelMap.value;
      ghost var p0, r0 := ledger.present, ledger.rows;
      var es: seq<Entry> := [];
      marked := {};
      var i := 0;
      ConsumedStart(frames);
      while cameraActive && i < |frames|
        invariant 0 <= i <= |frames| && cameraActive
        invariant i < |Consumed(frames)| || i == |Consumed(frames)| == |frames|
        invariant es == FaceRun(students, lm, frames[..i]) && marked == Ids(es)
        invariant Ledger(ledger, p0, r0, es)
        invariant old(ledger.present) ==> ledger.present
        invariant ledger.readable == (old(ledger.readable) || (ledger.present && !old(ledger.present)))
      {
        var stop;
        es, marked, stop := MarkFrame(ledger, p0, r0, students, lm, es, marked, frames, i);
        if stop {
          cameraActive := false;
          return;
        }
        i := i + 1;
      }
      assert Consumed(frames) == frames[..i];
      cameraActive := false;
    }
  }

  /** The body of the QR loop for frame `i`; `stop` is the 'q' key. */
  method MarkScan(ledger: CsvFile, ghost p0: bool, ghost r0: seq<seq<string>>, students: map<string, Student>,
                  es0: seq<Entry>, marked0: set<string>, frames: seq<Frame<QrScan>>, i: nat)
    returns (es: seq<Entry>, marked: set<string>, stop: bool)
    requires i < |Consumed(frames)| && es0 == QrRun(students, frames[..i])
    requires Ledger(ledger, p0, r0, es0) && marked0 == Ids(es0)
    modifies ledger
    ensures es == QrRun(students, frames[..i + 1]) && marked == Ids(es)
    ensures Ledger(ledger, p0, r0, es)
    ensures old(ledger.present) ==> ledger.present
    ensures ledger.readable == (old(ledger.readable) || (ledger.present && !old(ledger.present)))
    ensures stop ==> es == QrRun(students, Consumed(frames))
    ensures !stop ==> i + 1 < |Consumed(frames)| || i + 1 == |Consumed(frames)| == |frames|
  {
    ConsumedStep(frames, i);
    assert frames[..i + 1][..i] == frames[..i];
    var s := frames[i].content;
    es, marked := Handle(ledger, p0, r0, QrSightings(students, frames[..i]), es0, marked0,
                         Sighting(QrReading(students, s.payload), s.now));
    stop := IsQuit(frames[i].key);
  }

  /** The body of the face loop for frame `i`; `stop` is the 'q' key. */
  method MarkFrame(ledger: CsvFile, ghost p0: bool, ghost r0: seq<seq<string>>, students: map<string, Student>,
                   labelMap: PyDict, es0: seq<Entry>, marked0: set<string>, frames: seq<Frame<seq<Face>>>, i: nat)
    returns (es: seq<Entry>, marked: set<string>, stop: bool)
    requires i < |Consumed(frames)| && es0 == FaceRun(students, labelMap, frames[..i])
    requires Ledger(ledger, p0, r0, es0) && marked0 == Ids(es0)
    modifies ledger
    ensures es == FaceRun(students, labelMap, frames[..i + 1]) && marked == Ids(es)
    ensures Ledger(ledger, p0, r0, es)
    ensures old(ledger.present) ==> ledger.present
    ensures ledger.readable == (old(ledger.readable) || (ledger.present && !old(ledger.present)))
    ensures stop ==> es == FaceRun(students, labelMap, Consumed(frames))
    ensures !stop ==> i + 1 < |Consumed(frames)| || i + 1 == |Consumed(frames)| == |frames|
  {
    ConsumedStep(frames, i);
    FrameSightingsSnoc(students, labelMap, frames, i);
    es, marked := MarkFaces(ledger, p0, r0, students, labelMap, FrameSightings(students, labelMap, frames[..i]),
                            es0, marked0, frames[i].content);
    stop := IsQuit(frames[i].key);
  }

  /** `for (x, y, w, h) in faces:` within one frame. */
  method MarkFaces(ledger: CsvFile, ghost p0: bool, ghost r0: seq<seq<string>>, students: map<string, Student>,
                   labelMap: PyDict, ghost base: seq<Sighting>, es0: seq<Entry>, marked0: set<string>, faces: seq<Face>)
    returns (es: seq<Entry>, marked: set<string>)
    requires es0 == Marks(base) && Ledger(ledger, p0, r0, es0) && marked0 == Ids(es0)
    modifies ledger
    ensures es == Marks(base + FaceSightings(students, labelMap, faces)) && marked == Ids(es)
    ensures Ledger(ledger, p0, r0, es)
    ensures old(ledger.present) ==> ledger.present
    ensures ledger.readable == (old(ledger.readable) || (ledger.present && !old(ledger.present)))
  {
    es, marked := es0, marked0;
    var k := 0;
    assert base + FaceSightings(students, labelMap, faces[..0]) == base;
    while k < |faces|
      invariant 0 <= k <= |faces|
      invariant es == Marks(base + FaceSightings(students, labelMap, faces[..k])) && marked == Ids(es)
      invariant Ledger(ledger, p0, r0, es)
      invariant old(ledger.present) ==> ledger.present
      invariant ledger.readable == (old(ledger.readable) || (ledger.present && !old(ledger.present)))
    {
      var f := faces[k];
      var x := Sighting(FaceReading(students, labelMap, f), f.now);
      ghost var xs := base + FaceSightings(students, labelMap, faces[..k]);
      FaceSightingsSnoc(students, labelMap, base, faces, k);
      es, marked := Handle(ledger, p0, r0, xs, es, marked, x);
      k := k + 1;
    }
    assert faces[..k] == faces;
  }
}
