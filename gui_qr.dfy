/**
 * gui_main.py, `SmartAttendanceGUI.generate_qr`: one QR image for every
 * loaded student that lacks one, counting the images it creates. Unlike
 * the script, the GUI does not re-validate the ids it reads.
 */
module GuiQr {
  import opened CsvStore
  import opened GuiStudents
  import opened GenerateQr

  datatype GuiQrOutcome = NoStudents | Generated(count: nat)

  /** The images a run creates for the ids `ids` against the folder `images`. */
  function NewImages(ids: set<string>, images: set<string>): set<string> {
    ids - images
  }

  /** A rerun right after a run creates nothing and reports a count of 0. */
  lemma RerunCreatesNothing(ids: set<string>, images: set<string>)
    ensures |NewImages(ids, images + NewImages(ids, images))| == 0
  {
    assert NewImages(ids, images + NewImages(ids, images)) == {};
  }

  /** An id gets a new image exactly when it is a student and had none. */
  lemma NewImagesExactly(ids: set<string>, images: set<string>, id: string)
    ensures id in NewImages(ids, images) <==> id in ids && id !in images
  {
  }

  /** `generate_qr()`: nothing happens when no student loads; otherwise
      every student id ends up with an image and `count` is the number of
      images that did not exist before. */
  method GenerateQrImages(v: FileView, folder: QrFolder) returns (outcome: GuiQrOutcome)
    modifies folder
    ensures var ids := StudentTable(v).Keys;
      && (ids == {} ==> outcome == NoStudents && folder.images == old(folder.images))
      && (ids != {} ==> outcome == Generated(|NewImages(ids, old(folder.images))|)
                        && folder.images == old(folder.images) + ids)
  {
    var students := LoadStudents(v);
    if students == map[] {
      return NoStudents;
    }
    var count := MakeMissing(folder, students.Keys);
    return Generated(count);
  }

  /** The loop over `students.keys()`, in any order. */
  method MakeMissing(folder: QrFolder, ids: set<string>) returns (count: nat)
    modifies folder
    ensures count == |NewImages(ids, old(folder.images))|
    ensures folder.images == old(folder.images) + ids
  {
    ghost var start := folder.images;
    ghost var visited: set<string> := {};
    var remaining := ids;
    count := 0;
    while remaining != {}
      invariant remaining !! visited && remaining + visited == ids
      invariant folder.images == start + visited
      invariant count == |visited - start|
      decreases |remaining|
    {
      var id :| id in remaining;
      CountStep(visited, start, id);
      SplitStep(remaining, visited, ids, id);
      ImagesStep(folder.images, start, visited, id);
      if id !in folder.images {
        folder.Save(id);
        count := count + 1;
      }
      visited := visited + {id};
      remaining := remaining - {id};
    }
  }

  /** Creating the image of a visited id when it is missing keeps the
      folder equal to the start plus the visited ids. */
  lemma ImagesStep(images: set<string>, start: set<string>, visited: set<string>, id: string)
    requires images == start + visited
    ensures id in images ==> images == start + (visited + {id})
    ensures id !in images ==> images + {id} == start + (visited + {id})
  {
  }

  /** Moving one id from `remaining` to `visited` keeps the two a partition
      of `ids`. */
  lemma SplitStep(remaining: set<string>, visited: set<string>, ids: set<string>, id: string)
    requires remaining !! visited && remaining + visited == ids && id in remaining
    ensures (remaining - {id}) !! (visited + {id}) && (remaining - {id}) + (visited + {id}) == ids
    ensures |remaining - {id}| < |remaining|
  {
  }

  lemma CountStep(visited: set<string>, start: set<string>, id: string)
    requires id !in visited
    ensures |(visited + {id}) - start| == |visited - start| + (if id in start then 0 else 1)
  {
    if id in start {
      assert (visited + {id}) - start == visited - start;
    } else {
      assert (visited + {id}) - start == (visited - start) + {id};
    }
  }
}
