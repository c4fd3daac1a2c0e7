/**
 * The attendance ledger of the two scripts, src/qr_attendance.py and
 * src/face_attendance.py, which carry identical copies of `already_marked`
 * and a `mark_attendance` that differ only in the method column. Rows are
 * `[id, method, date, time]`; no header is written. The ids are Python
 * values: `csv.reader` yields strings, so a row matches an id only when the
 * id is a string. Reading a row that matches the id but has no third cell
 * raises `IndexError`, and so does opening a file that cannot be read; a
 * raise ends the script, which the model records as a crash.
 */
module ScriptLedger {
  import opened Wrappers
  import opened CsvStore
  import opened LabelMap
  import opened Camera

  /** `row[0] == student_id` with `row[0]` a string. */
  predicate SameId(cell: string, id: PyKey) {
    id == StrKey(cell)
  }

  /** One row that `already_marked` stops at. */
  predicate MarksDay(row: seq<string>, id: PyKey, today: string) {
    row != [] && |row| >= 3 && SameId(row[0], id) && row[2] == today
  }

  /** Some row records `id` on `today`, whatever its method column. */
  predicate MarkedIn(rows: seq<seq<string>>, id: PyKey, today: string) {
    exists j :: 0 <= j < |rows| && MarksDay(rows[j], id, today)
  }

  /** Every non-blank row whose first cell is the id has a third cell, so
      the scan for that id cannot raise. */
  predicate Scannable(rows: seq<seq<string>>, id: PyKey) {
    forall j :: 0 <= j < |rows| && rows[j] != [] && SameId(rows[j][0], id) ==> |rows[j]| >= 3
  }

  /** The loop of `already_marked` over the parsed rows: `Some(found)`, or
      `None` when it reaches a short row with the id first. */
  function Scan(rows: seq<seq<string>>, id: PyKey, today: string): Option<bool> {
    if rows == [] then Some(false)
    else
      var row := rows[0];
      if row != [] && SameId(row[0], id) then
        if |row| < 3 then None
        else if row[2] == today then Some(true)
        else Scan(rows[1..], id, today)
      else Scan(rows[1..], id, today)
  }

  /** What the scan finds: "marked" only when some row marks the id today,
      "not marked" exactly when no row does and no row with the id is short,
      and it raises only at a short row with the id. */
  lemma {:induction false} ScanMeaning(rows: seq<seq<string>>, id: PyKey, today: string)
    ensures Scan(rows, id, today) == Some(true) ==> MarkedIn(rows, id, today)
    ensures Scan(rows, id, today) == Some(false) <==> Scannable(rows, id) && !MarkedIn(rows, id, today)
    ensures Scannable(rows, id) ==> Scan(rows, id, today).Some?
  {
    if rows != [] {
      ScanMeaning(rows[1..], id, today);
      assert forall j :: 1 <= j < |rows| ==> rows[j] == rows[1..][j - 1];
    }
  }

  /** `already_marked(student_id)` on the file as it is. */
  function Check(v: FileView, id: PyKey, today: string): (r: Option<bool>)
    ensures v.Absent? ==> r == Some(false)
    ensures v.Unreadable? ==> r.None?
    ensures v.Readable? ==> r == Scan(v.lines, id, today)
  {
    match v
    case Absent => Some(false)
    case Unreadable => None
    case Readable(lines) => Scan(lines, id, today)
  }

  /** The loop of `already_marked`. */
  method AlreadyMarked(ledger: CsvFile, id: PyKey, today: string) returns (found: Option<bool>)
    ensures found == Check(ledger.View(), id, today)
  {
    if !ledger.present {
      return Some(false);
    }
    if !ledger.readable {
      return None;
    }
    var rows := ledger.rows;
    var i := 0;
    while i < |rows|
      invariant 0 <= i <= |rows|
      invariant Scan(rows, id, today) == Scan(rows[i..], id, today)
    {
      assert rows[i..][1..] == rows[i + 1..];
      if rows[i] != [] && SameId(rows[i][0], id) {
        if |rows[i]| < 3 {
          return None;
        }
        if rows[i][2] == today {
          return Some(true);
        }
      }
      i := i + 1;
    }
    return Some(false);
  }

  /** One call of `mark_attendance`: who, with which method column, and the
      clock reading for both `get_today()` calls and `get_timestamp()`. */
  datatype Attempt = Attempt(id: PyKey, via: string, now: Stamp)

  /** The row `mark_attendance` writes, with `str()` of the id. */
  function LedgerRow(a: Attempt): (r: seq<string>)
    ensures |r| == 4 && r[0] == PyStr(a.id) && r[1] == a.via && r[2] == a.now.date && r[3] == a.now.time
  {
    [PyStr(a.id), a.via, a.now.date, a.now.time]
  }

  function Lines(v: FileView): seq<seq<string>> {
    if v.Readable? then v.lines else []
  }

  /** The file after `mark_attendance`, or `None` when it raises. */
  function Mark(v: FileView, a: Attempt): (r: Option<FileView>)
    ensures r.None? <==> Check(v, a.id, a.now.date).None?
    ensures r.Some? ==> r.value.Readable? || r.value == v
    ensures Check(v, a.id, a.now.date) == Some(true) ==> r == Some(v)
    ensures Check(v, a.id, a.now.date) == Some(false) ==> r == Some(Readable(Lines(v) + [LedgerRow(a)]))
  {
    match Check(v, a.id, a.now.date)
    case None => None
    case Some(found) => if found then Some(v) else Some(Readable(Lines(v) + [LedgerRow(a)]))
  }

  /** `mark_attendance(student_id, method)`: `None` when it raises,
      otherwise whether it wrote. */
  method MarkAttendance(ledger: CsvFile, a: Attempt) returns (written: Option<bool>)
    requires ledger.Valid()
    modifies ledger
    ensures ledger.Valid()
    ensures written.None? <==> Mark(old(ledger.View()), a).None?
    ensures written == Some(true) ==> ledger.View() == Mark(old(ledger.View()), a).value
    ensures written != Some(true) ==>
      ledger.present == old(ledger.present) && ledger.readable == old(ledger.readable) && ledger.rows == old(ledger.rows)
    ensures written.Some? ==> written.value == (Mark(old(ledger.View()), a).value != old(ledger.View()))
  {
    var found := AlreadyMarked(ledger, a.id, a.now.date);
    if found.None? {
      return None;
    }
    if found.value {
      return Some(false);
    }
    ledger.Append(LedgerRow(a));
    return Some(true);
  }

  /** One `mark_attendance` call in a run that has not raised so far: the
      file and the raise are those of the run extended by the attempt. */
  method Attend(ledger: CsvFile, ghost v0: FileView, ghost xs: seq<Attempt>, a: Attempt) returns (crashed: bool)
    requires ledger.Valid()
    requires !Replay(v0, xs).crashed && ledger.View() == Replay(v0, xs).view
    modifies ledger
    ensures ledger.Valid()
    ensures Replay(v0, xs + [a]).crashed == crashed && ledger.View() == Replay(v0, xs + [a]).view
  {
    ReplaySnoc(v0, xs, a);
    var written := MarkAttendance(ledger, a);
    crashed := written.None?;
  }

  /** What a run of the script has done to the file so far. */
  datatype Outcome = Outcome(view: FileView, crashed: bool)

  function Step(o: Outcome, a: Attempt): Outcome {
    if o.crashed then o
    else match Mark(o.view, a)
      case None => Outcome(o.view, true)
      case Some(v) => Outcome(v, false)
  }

  /** The attempts of a run in order, from the file as it was; the first
      raise ends the run. */
  function Replay(v: FileView, xs: seq<Attempt>): Outcome {
    if xs == [] then Outcome(v, false)
    else Step(Replay(v, xs[..|xs| - 1]), xs[|xs| - 1])
  }

  lemma ReplaySnoc(v: FileView, xs: seq<Attempt>, a: Attempt)
    ensures Replay(v, xs + [a]) == Step(Replay(v, xs), a)
  {
    assert (xs + [a])[..|xs|] == xs;
  }

  /** Nothing runs after a raise. */
  lemma {:induction false} ReplayAfterCrash(v: FileView, xs: seq<Attempt>, ys: seq<Attempt>)
    requires Replay(v, xs).crashed
    ensures Replay(v, xs + ys) == Replay(v, xs)
  {
    if ys == [] {
      assert xs + ys == xs;
    } else {
      var n := |ys| - 1;
      assert xs + ys == (xs + ys[..n]) + [ys[n]];
      ReplayAfterCrash(v, xs, ys[..n]);
      ReplaySnoc(v, xs + ys[..n], ys[n]);
    }
  }

  /** `mark_attendance` only ever appends a row. */
  lemma MarkAppends(v: FileView, a: Attempt)
    requires Mark(v, a).Some?
    ensures Lines(v) <= Lines(Mark(v, a).value)
  {
  }

  /** A run only appends rows. */
  lemma {:induction false} ReplayAppends(v: FileView, xs: seq<Attempt>)
    ensures Lines(v) <= Lines(Replay(v, xs).view)
  {
    if xs != [] {
      var n := |xs| - 1;
      ReplayAppends(v, xs[..n]);
      var o := Replay(v, xs[..n]);
      if !o.crashed && Mark(o.view, xs[n]).Some? {
        MarkAppends(o.view, xs[n]);
      }
    }
  }

  /** Scanning past rows that neither match nor raise. */
  lemma {:induction false} ScanAppend(rows: seq<seq<string>>, more: seq<seq<string>>, id: PyKey, today: string)
    requires Scan(rows, id, today) == Some(false)
    ensures Scan(rows + more, id, today) == Scan(more, id, today)
  {
    if rows == [] {
      assert rows + more == more;
    } else {
      assert (rows + more)[1..] == rows[1..] + more;
      if rows[0] != [] && SameId(rows[0][0], id) {
        assert |rows[0]| >= 3 && rows[0][2] != today by {
          assert !MarksDay(rows[0], id, today);
        }
      }
      ScanAppend(rows[1..], more, id, today);
    }
  }

  /** The row `mark_attendance` appends is the one `already_marked` stops at
      on the same day exactly when the id is a string. */
  lemma LedgerRowFound(a: Attempt, rows: seq<seq<string>>)
    requires Scan(rows, a.id, a.now.date) == Some(false)
    ensures MarksDay(LedgerRow(a), a.id, a.now.date) <==> a.id.StrKey?
    ensures Scan(rows + [LedgerRow(a)], a.id, a.now.date) == Some(a.id.StrKey?)
  {
    ScanAppend(rows, [LedgerRow(a)], a.id, a.now.date);
    assert [LedgerRow(a)][1..] == [];
  }

  /** Once a string id has been marked for a day, marking it again on that
      day, by either method, changes nothing. */
  lemma MarkTwice(v: FileView, s: string, via1: string, via2: string, now1: Stamp, now2: Stamp)
    requires now1.date == now2.date && Mark(v, Attempt(StrKey(s), via1, now1)).Some?
    ensures var w := Mark(v, Attempt(StrKey(s), via1, now1)).value;
      Mark(w, Attempt(StrKey(s), via2, now2)) == Some(w)
  {
    var a := Attempt(StrKey(s), via1, now1);
    var today := now1.date;
    if Check(v, a.id, today) == Some(false) {
      var row := LedgerRow(a);
      assert Scan([row], a.id, today) == Some(true);
      ScanAppend(Lines(v), [row], a.id, today);
    }
  }

  /** Any run that did not crash has marked each string id it attempted on
      that attempt's day. */
  lemma {:induction false} ReplayMarksStrings(v: FileView, xs: seq<Attempt>, k: nat)
    requires k < |xs| && xs[k].id.StrKey? && !Replay(v, xs).crashed
    ensures Check(Replay(v, xs).view, xs[k].id, xs[k].now.date) == Some(true)
  {
    var n := |xs| - 1;
    var o := Replay(v, xs[..n]);
    var a := xs[n];
    assert !o.crashed;
    if k == n {
      MarkTwice(o.view, a.id.s, a.via, a.via, a.now, a.now);
    } else {
      ReplayMarksStrings(v, xs[..n], k);
      var b := xs[k];
      assert Check(o.view, b.id, b.now.date) == Some(true);
      if Check(o.view, a.id, a.now.date) == Some(false) {
        MarkedStays(o.view, b.id, b.now.date, LedgerRow(a));
      }
    }
  }

  /** Appending a row does not undo an earlier find. */
  lemma {:induction false} ScanStays(rows: seq<seq<string>>, more: seq<seq<string>>, id: PyKey, today: string)
    requires Scan(rows, id, today) == Some(true)
    ensures Scan(rows + more, id, today) == Some(true)
  {
    assert (rows + more)[1..] == rows[1..] + more;
    if !(rows[0] != [] && SameId(rows[0][0], id) && |rows[0]| >= 3 && rows[0][2] == today) {
      ScanStays(rows[1..], more, id, today);
    }
  }

  lemma MarkedStays(v: FileView, id: PyKey, today: string, row: seq<string>)
    requires Check(v, id, today) == Some(true)
    ensures Check(Readable(Lines(v) + [row]), id, today) == Some(true)
  {
    ScanStays(Lines(v), [row], id, today);
  }

  /** An int id is never found, since the cells read back are strings: the
      id is written again on every call. */
  lemma IntIdNeverFound(rows: seq<seq<string>>, i: int, today: string)
    ensures Scan(rows, IntKey(i), today) == Some(false)
  {
    assert Scannable(rows, IntKey(i)) && !MarkedIn(rows, IntKey(i), today);
    ScanMeaning(rows, IntKey(i), today);
  }

  /** No two rows record the same id on the same day. */
  predicate OncePerDay(rows: seq<seq<string>>) {
    forall j, k :: 0 <= j < k < |rows| && |rows[j]| >= 3 && |rows[k]| >= 3 ==>
      rows[j][0] != rows[k][0] || rows[j][2] != rows[k][2]
  }

  /** Marks with string ids keep the ledger free of same-day duplicates. */
  lemma MarkKeepsOncePerDay(v: FileView, a: Attempt)
    requires a.id.StrKey? && OncePerDay(Lines(v)) && Mark(v, a).Some?
    ensures OncePerDay(Lines(Mark(v, a).value))
  {
    var rows := Lines(v);
    if Check(v, a.id, a.now.date) == Some(false) {
      var r := rows + [LedgerRow(a)];
      ScanMeaning(rows, a.id, a.now.date);
      assert !MarkedIn(rows, a.id, a.now.date);
      forall j, k | 0 <= j < k < |r| && |r[j]| >= 3 && |r[k]| >= 3
        ensures r[j][0] != r[k][0] || r[j][2] != r[k][2]
      {
        if k == |rows| {
          assert r[j] == rows[j];
          assert !MarksDay(rows[j], a.id, a.now.date);
        } else {
          assert r[j] == rows[j] && r[k] == rows[k];
        }
      }
    }
  }

  /** A run whose attempts all carry string ids keeps the ledger free of
      same-day duplicates. */
  lemma {:induction false} ReplayKeepsOncePerDay(v: FileView, xs: seq<Attempt>)
    requires OncePerDay(Lines(v))
    requires forall k :: 0 <= k < |xs| ==> xs[k].id.StrKey?
    ensures OncePerDay(Lines(Replay(v, xs).view))
  {
    if xs != [] {
      var n := |xs| - 1;
      ReplayKeepsOncePerDay(v, xs[..n]);
      var o := Replay(v, xs[..n]);
      if !o.crashed && Mark(o.view, xs[n]).Some? {
        MarkKeepsOncePerDay(o.view, xs[n]);
      }
    }
  }
}
