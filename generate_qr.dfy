/**
 * src/generate_qr.py: one QR image `<id>.png` per student id in the QR
 * folder. The image itself is not modelled; the folder is the set of ids
 * that have one.
 */
module GenerateQr {
  import opened Wrappers
  import opened Text
  import opened CsvStore
  import opened Validation

  /** The QR folder: the ids `i` for which `<i>.png` exists. */
  class QrFolder {
    var images: set<string>

    constructor (images: set<string>)
      ensures this.images == images
    {
      this.images := images;
    }

    /** `img.save(img_path)` */
    method Save(id: string)
      modifies this
      ensures images == old(images) + {id}
    {
      images := images + {id};
    }
  }

  /** The three results of `generate_qr_for_student`: False, "exists", True. */
  datatype QrResult = Invalid | Exists | Created

  /** What `generate_qr_for_student(rawId)` answers against the folder
      `images`: validate the stripped id, then look for its image. */
  function QrOutcome(images: set<string>, rawId: string): QrResult {
    var id := Strip(rawId);
    if !IsStudentId(id) then Invalid
    else if id in images then Exists
    else Created
  }

  /** The folder after the call: only a created image is added. */
  function QrImagesAfter(images: set<string>, rawId: string): set<string> {
    if QrOutcome(images, rawId).Created? then images + {Strip(rawId)} else images
  }

  /** Validation comes first: the answer is False exactly for ids that are
      not 8 digits once stripped, whatever images exist, and then no
      file changes. */
  lemma InvalidIgnoresFolder(images: set<string>, rawId: string)
    ensures QrOutcome(images, rawId) == Invalid <==> !IsStudentId(Strip(rawId))
    ensures QrOutcome(images, rawId) == Invalid ==> QrImagesAfter(images, rawId) == images
  {
  }

  /** "exists" exactly when the stripped valid id already has an image,
      and then no file changes. */
  lemma ExistsLeavesFolder(images: set<string>, rawId: string)
    ensures QrOutcome(images, rawId) == Exists <==> IsStudentId(Strip(rawId)) && Strip(rawId) in images
    ensures QrOutcome(images, rawId) == Exists ==> QrImagesAfter(images, rawId) == images
  {
  }

  /** A created image is exactly `<id>.png` for the stripped id, and asking
      again at once reports "exists". */
  lemma CreateThenExists(images: set<string>, rawId: string)
    requires QrOutcome(images, rawId) == Created
    ensures QrImagesAfter(images, rawId) - images == {Strip(rawId)}
    ensures QrOutcome(QrImagesAfter(images, rawId), rawId) == Exists
  {
  }

  /** Calling twice gives the same folder as calling once. */
  lemma GenerateIdempotent(images: set<string>, rawId: string)
    ensures QrImagesAfter(QrImagesAfter(images, rawId), rawId) == QrImagesAfter(images, rawId)
  {
  }

  /** `generate_qr_for_student(student_id)`. */
  method GenerateQrForStudent(folder: QrFolder, rawId: string) returns (result: QrResult)
    modifies folder
    ensures result == QrOutcome(old(folder.images), rawId)
    ensures folder.images == QrImagesAfter(old(folder.images), rawId)
  {
    var id := Strip(rawId);
    if !IsStudentId(id) {
      return Invalid;
    }
    if id in folder.images {
      return Exists;
    }
    folder.Save(id);
    return Created;
  }

  /** How `generate_qr_for_all` ends: the file is missing, the rows ran out,
      or reading raised (the file could not be read, or a row cut short
      before its `student_id` column made `.strip()` fail on None). */
  datatype BatchEnd = NoFile | Done | Crashed

  /** `row.get("student_id", "")`, or None when that cell would raise. */
  function RowId(header: seq<string>, line: seq<string>): (r: Option<string>)
    ensures r.Some? ==> IsStripped(r.value)
  {
    match Field(header, line, "student_id")
    case Missing => Some("")
    case NoneValue => None
    case Text(t) => Some(Strip(t))
  }

  /** The ids the batch hands to `generate_qr_for_student`, in row order,
      and whether a row raised before the end. */
  datatype Batch = Batch(ids: seq<string>, crashed: bool)

  /** The batch over the first rows of `recs`; empty ids are skipped and
      nothing after a raising row is looked at. */
  function BatchOf(header: seq<string>, recs: seq<seq<string>>): Batch {
    if recs == [] then Batch([], false)
    else BatchStep(BatchOf(header, recs[..|recs| - 1]), RowId(header, recs[|recs| - 1]))
  }

  /** One row of the batch. */
  function BatchStep(prev: Batch, id: Option<string>): Batch {
    if prev.crashed then prev
    else match id
      case None => Batch(prev.ids, true)
      case Some(x) => if x == "" then prev else Batch(prev.ids + [x], false)
  }

  lemma BatchOfStep(header: seq<string>, recs: seq<seq<string>>, i: nat)
    requires i < |recs|
    ensures BatchOf(header, recs[..i + 1]) == BatchStep(BatchOf(header, recs[..i]), RowId(header, recs[i]))
  {
    assert recs[..i + 1][..i] == recs[..i];
  }

  /** The ids that receive an image: the valid ones among those handed on
      (with the retry menu answered "skip", each id is tried once). */
  function ValidIds(ids: seq<string>): set<string> {
    set i | 0 <= i < |ids| && IsStudentId(ids[i]) :: ids[i]
  }

  /** Every id handed on came from a row with a non-empty stripped
      `student_id`, in order. */
  lemma {:induction false} BatchIdsNonEmpty(header: seq<string>, recs: seq<seq<string>>)
    ensures forall k :: 0 <= k < |BatchOf(header, recs).ids| ==> BatchOf(header, recs).ids[k] != ""
    ensures |BatchOf(header, recs).ids| <= |recs|
  {
    if recs != [] {
      var p := recs[..|recs| - 1];
      BatchIdsNonEmpty(header, p);
      var b0, b := BatchOf(header, p), BatchOf(header, recs);
      assert b == BatchStep(b0, RowId(header, recs[|recs| - 1]));
      if b.ids != b0.ids {
        assert b.ids == b0.ids + [RowId(header, recs[|recs| - 1]).value];
      }
    }
  }

  /** A row that raises stops the batch. */
  lemma RaisingRowStops(header: seq<string>, recs: seq<seq<string>>, k: nat)
    requires k < |recs| && RowId(header, recs[k]).None?
    ensures BatchOf(header, recs).crashed
  {
    BatchOfStep(header, recs, k);
    BatchStopsAfter(header, recs, k + 1);
  }

  /** The batch only stops at a row that raises. */
  lemma {:induction false} StopWitness(header: seq<string>, recs: seq<seq<string>>) returns (k: nat)
    requires BatchOf(header, recs).crashed
    ensures k < |recs| && RowId(header, recs[k]).None?
  {
    var p := recs[..|recs| - 1];
    if BatchOf(header, p).crashed {
      k := StopWitness(header, p);
      assert p[k] == recs[k];
    } else {
      k := |recs| - 1;
    }
  }

  lemma ValidIdsAppend(ids: seq<string>, x: string)
    ensures ValidIds(ids + [x]) == ValidIds(ids) + (if IsStudentId(x) then {x} else {})
  {
    var l := ids + [x];
    forall y | y in ValidIds(l) ensures y in ValidIds(ids) + (if IsStudentId(x) then {x} else {}) {
      var i :| 0 <= i < |l| && IsStudentId(l[i]) && l[i] == y;
      if i < |ids| { assert ids[i] == l[i]; }
    }
    forall y | y in ValidIds(ids) ensures y in ValidIds(l) {
      var i :| 0 <= i < |ids| && IsStudentId(ids[i]) && ids[i] == y;
      assert l[i] == ids[i];
    }
    if IsStudentId(x) {
      assert l[|ids|] == x;
    }
  }

  /** `generate_qr_for_all()`, with each menu answered "skip": the rows are
      read in order and each non-empty stripped id goes through
      `generate_qr_for_student` once. */
  method GenerateQrForAll(v: FileView, folder: QrFolder) returns (done: BatchEnd)
    modifies folder
    ensures v.Absent? ==> done == NoFile && folder.images == old(folder.images)
    ensures v.Unreadable? ==> done == Crashed && folder.images == old(folder.images)
    ensures v.Readable? && v.lines == [] ==> done == Done && folder.images == old(folder.images)
    ensures v.Readable? && v.lines != [] ==>
      var b := BatchOf(v.lines[0], Records(v.lines));
      && done == (if b.crashed then Crashed else Done)
      && folder.images == old(folder.images) + ValidIds(b.ids)
  {
    match v
    case Absent => return NoFile;
    case Unreadable => return Crashed;
    case Readable(lines) =>
      if lines == [] {
        return Done;
      }
      done := RunBatch(folder, lines[0], Records(lines));
  }

  /** The row loop of `generate_qr_for_all`. */
  method RunBatch(folder: QrFolder, header: seq<string>, recs: seq<seq<string>>) returns (done: BatchEnd)
    modifies folder
    ensures var b := BatchOf(header, recs);
      && done == (if b.crashed then Crashed else Done)
      && folder.images == old(folder.images) + ValidIds(b.ids)
  {
    ghost var start := folder.images;
    var ids: seq<string> := [];
    var i := 0;
    while i < |recs|
      invariant 0 <= i <= |recs|
      invariant BatchOf(header, recs[..i]) == Batch(ids, false)
      invariant folder.images == start + ValidIds(ids)
    {
      var stop;
      ids, stop := BatchRow(folder, start, header, recs, i, ids);
      if stop {
        return Crashed;
      }
      i := i + 1;
    }
    assert recs[..i] == recs;
    return Done;
  }

  /** One pass of the row loop; `stop` says the row raised. */
  method BatchRow(folder: QrFolder, ghost start: set<string>, header: seq<string>, recs: seq<seq<string>>,
                  i: nat, ids0: seq<string>) returns (ids: seq<string>, stop: bool)
    requires i < |recs| && BatchOf(header, recs[..i]) == Batch(ids0, false)
    requires folder.images == start + ValidIds(ids0)
    modifies folder
    ensures stop ==> BatchOf(header, recs).crashed && folder.images == start + ValidIds(BatchOf(header, recs).ids)
    ensures !stop ==> BatchOf(header, recs[..i + 1]) == Batch(ids, false) && folder.images == start + ValidIds(ids)
  {
    BatchOfStep(header, recs, i);
    ids, stop := ids0, false;
    var id := RowId(header, recs[i]);
    if id == None {
      BatchStopsAfter(header, recs, i + 1);
      return ids, true;
    }
    if id.value != "" {
      TryStudent(folder, id.value);
      ValidIdsAppend(ids, id.value);
      ids := ids + [id.value];
    }
  }

  /** One call of `generate_qr_for_student` from the batch: the id is
      already stripped, so the folder gains it iff it is valid. */
  method TryStudent(folder: QrFolder, id: string)
    requires IsStripped(id)
    modifies folder
    ensures folder.images == old(folder.images) + (if IsStudentId(id) then {id} else {})
  {
    var _ := GenerateQrForStudent(folder, id);
  }

  /** Once the batch has stopped, later rows change nothing. */
  lemma {:induction false} BatchStopsAfter(header: seq<string>, recs: seq<seq<string>>, i: nat)
    requires 0 < i <= |recs| && BatchOf(header, recs[..i]).crashed
    ensures BatchOf(header, recs) == BatchOf(header, recs[..i])
  {
    if i < |recs| {
      assert recs[..|recs| - 1][..i] == recs[..i];
      BatchStopsAfter(header, recs[..|recs| - 1], i);
    } else {
      assert recs[..i] == recs;
    }
  }
}
