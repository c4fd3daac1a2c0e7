/**
 * The enrolment script, src/register_student.py: the id and the name are
 * checked first; then the camera runs until a key decides. On 's' the frame
 * is saved as `<id>.jpg` and the student appended to the student file
 * (header first when the file is new); on 'q' or a failed read nothing is
 * written.
 */
module RegisterScript {
  import opened Wrappers
  import opened Text
  import opened Validation
  import opened CsvStore
  import opened Camera
  import GuiRegistration

  /** A camera frame as `cap.read()` returns it: rows of pixels, each a
      list of channel values. */
  type Picture = seq<seq<seq<int>>>

  /** The face images directory, by file name. */
  class PhotoStore {
    var photos: map<string, Picture>

    constructor(photos: map<string, Picture>)
      ensures this.photos == photos
    {
      this.photos := photos;
    }
  }

  /** The header `save_student_to_csv` writes to a new file. */
  const ScriptHeader: seq<string> := ["student_id", "name"]

  /** The id and name checks of `register_student`, on stripped input. */
  predicate Admissible(id: string, name: string) {
    IsStudentId(id) && IsNameText(name)
  }

  /** The id must be eight digits; the name must be letters, spaces and
      hyphens with at least one letter, so an empty name fails. */
  lemma AdmissibleIff(id: string, name: string)
    ensures Admissible(id, name) <==> |id| == 8 && IsDigits(id) && OnlyNameChars(name) && HasLetter(name)
    ensures !Admissible(id, "")
  {
    NameTextIff(name);
    NameTextIff("");
  }

  /** A student the GUI form accepts also passes the script's checks. */
  lemma GuiStricter(id: string, name: string, course: string, email: string, registered: set<string>)
    ensures GuiRegistration.CheckStudent(id, name, course, email, registered).None? ==> Admissible(id, name)
  {
    GuiRegistration.CheckPasses(id, name, course, email, registered);
  }

  /** The converse fails: the script takes a one-letter name the form
      rejects as too short. */
  lemma OneLetterName(course: string, email: string)
    ensures Admissible("12345678", "A")
    ensures GuiRegistration.CheckStudent("12345678", "A", course, email, {}) == Some(GuiRegistration.NameTooShort)
  {
    var id := "12345678";
    assert IsDigits(id) by {
      forall i | 0 <= i < |id| ensures IsDigit(id[i]) {
        assert id[i] in "0123456789";
      }
    }
    assert IsAlpha(CleanName("A")) by {
      assert Remove("A", ' ') == "A" by {
        assert Remove("", ' ') == "";
      }
      assert Remove("A", '-') == "A" by {
        assert Remove("", '-') == "";
      }
    }
  }

  /** `key == ord('s')` or `key == ord('q')` for `key = cv2.waitKey(1) & 0xFF`. */
  predicate Decisive(key: int) {
    Pressed(key, 's') || Pressed(key, 'q')
  }

  /** The index of the frame at which the loop breaks on a key, or the
      number of frames when the camera stops first. */
  function Decide(frames: seq<Frame<Picture>>): (r: nat)
    ensures r <= |frames|
    ensures forall j :: 0 <= j < r ==> !Decisive(frames[j].key)
    ensures r < |frames| ==> Decisive(frames[r].key)
  {
    if frames == [] then 0
    else if Decisive(frames[0].key) then 0
    else
      var r := Decide(frames[1..]);
      assert forall j :: 1 <= j < r + 1 ==> frames[j] == frames[1..][j - 1];
      r + 1
  }

  datatype RegisterEnd = BadId | BadName | Saved | Cancelled | CameraFailed

  /** How a run ends, from the stripped input and the frames. */
  function RegisterOutcome(id: string, name: string, frames: seq<Frame<Picture>>): RegisterEnd {
    if !IsStudentId(id) then BadId
    else if !IsNameText(name) then BadName
    else KeyOutcome(frames)
  }

  /** Frame `i` reads 's' and no earlier frame reads 's' or 'q'. */
  predicate SaveKeyAt(frames: seq<Frame<Picture>>, i: int) {
    0 <= i < |frames| && Pressed(frames[i].key, 's') && forall j :: 0 <= j < i ==> !Decisive(frames[j].key)
  }

  /** The student is saved exactly when both checks pass and an 's' comes
      before any 'q' and before the camera stops. */
  lemma SavedIff(id: string, name: string, frames: seq<Frame<Picture>>)
    ensures RegisterOutcome(id, name, frames) == Saved <==> Admissible(id, name) && exists i :: SaveKeyAt(frames, i)
  {
    var d := Decide(frames);
    if Admissible(id, name) && exists i :: SaveKeyAt(frames, i) {
      var i :| SaveKeyAt(frames, i);
      assert Decisive(frames[i].key);
      assert i <= d;
      assert d <= i;
    }
    if RegisterOutcome(id, name, frames) == Saved {
      assert SaveKeyAt(frames, d);
    }
  }

  /** `save_student_to_csv(student_id, name)`. */
  method SaveStudentToCsv(students: CsvFile, id: string, name: string)
    requires students.Valid()
    modifies students
    ensures students.Valid() && students.present
    ensures students.readable == (old(students.readable) || !old(students.present))
    ensures students.rows == old(students.Base(ScriptHeader)) + [[id, name]]
  {
    students.AppendWithHeader(ScriptHeader, [id, name]);
  }

  /** `register_student()`, with the two typed lines and the frames the
      camera yields. */
  method RegisterStudent(rawId: string, rawName: string, frames: seq<Frame<Picture>>,
                         photos: PhotoStore, students: CsvFile) returns (end: RegisterEnd)
    requires students.Valid()
    modifies photos, students
    ensures var id, name := Strip(rawId), Strip(rawName);
      && end == RegisterOutcome(id, name, frames)
      && (end == Saved ==>
            && photos.photos == old(photos.photos)[id + ".jpg" := frames[Decide(frames)].content]
            && students.Valid() && students.present
            && students.readable == (old(students.readable) || !old(students.present))
            && students.rows == old(students.Base(ScriptHeader)) + [[id, name]])
      && (end != Saved ==>
            && photos.photos == old(photos.photos)
            && students.present == old(students.present)
            && students.readable == old(students.readable)
            && students.rows == old(students.rows))
  {
    var id := Strip(rawId);
    var name := Strip(rawName);
    if !IsDigits(id) || |id| != 8 {
      return BadId;
    }
    var clean := Remove(Remove(name, ' '), '-');
    if !IsAlpha(clean) {
      return BadName;
    }
    end := CameraLoop(id, name, frames, photos, students);
  }

  /** How the camera loop of `register_student` ends, once both checks have
      passed. */
  function KeyOutcome(frames: seq<Frame<Picture>>): RegisterEnd {
    var d := Decide(frames);
    if d == |frames| then CameraFailed
    else if Pressed(frames[d].key, 's') then Saved
    else Cancelled
  }

  /** The camera loop: read frames until 's' saves or 'q' cancels. */
  method CameraLoop(id: string, name: string, frames: seq<Frame<Picture>>,
                    photos: PhotoStore, students: CsvFile) returns (end: RegisterEnd)
    requires students.Valid()
    modifies photos, students
    ensures end == KeyOutcome(frames)
    ensures end == Saved ==>
      && photos.photos == old(photos.photos)[id + ".jpg" := frames[Decide(frames)].content]
      && students.Valid() && students.present
      && students.readable == (old(students.readable) || !old(students.present))
      && students.rows == old(students.Base(ScriptHeader)) + [[id, name]]
    ensures end != Saved ==>
      && photos.photos == old(photos.photos)
      && students.present == old(students.present)
      && students.readable == old(students.readable)
      && students.rows == old(students.rows)
  {
    var i := 0;
    while i < |frames|
      invariant 0 <= i <= Decide(frames)
      invariant photos.photos == old(photos.photos)
      invariant students.present == old(students.present) && students.readable == old(students.readable)
      invariant students.rows == old(students.rows)
    {
      var key := KeyByte(frames[i].key);
      if key == 's' as int {
        photos.photos := photos.photos[id + ".jpg" := frames[i].content];
        SaveStudentToCsv(students, id, name);
        return Saved;
      } else if key == 'q' as int {
        return Cancelled;
      }
      i := i + 1;
    }
    return CameraFailed;
  }
}
