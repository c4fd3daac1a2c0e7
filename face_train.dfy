/**
 * The training script, src/face_train.py: every directory of the dataset
 * listing gets the next label, from 0; every image in it that loads becomes
 * one training face with that label; the model and the label map are
 * written only when at least one face loaded.
 */
module FaceTrain {
  import opened Wrappers
  import opened LabelMap

  /** A grayscale image as `cv2.imread(..., IMREAD_GRAYSCALE)` returns it:
      rows of pixel values. */
  type Image = seq<seq<int>>

  /** One name of `os.listdir(DATASET_DIR)`: a plain file, or a directory
      with what `cv2.imread` returns for each of its entries in listing
      order (`None` when the file does not load as an image). */
  datatype Entry = FileEntry(name: string) | DirEntry(name: string, images: seq<Option<Image>>)

  /** The images of a directory that load, in order. */
  function Loaded(images: seq<Option<Image>>): (r: seq<Image>)
    ensures |r| <= |images|
  {
    if images == [] then []
    else
      var p := images[..|images| - 1];
      assert images == p + [images[|images| - 1]];
      Loaded(p) + (match images[|images| - 1] case None => [] case Some(x) => [x])
  }

  /** Exactly the images that load are kept: a `None` from `cv2.imread` is
      skipped. */
  lemma {:induction false} LoadedMembers(images: seq<Option<Image>>)
    ensures forall x :: x in Loaded(images) <==> Some(x) in images
  {
    if images != [] {
      var n := |images| - 1;
      LoadedMembers(images[..n]);
      LoadedSnoc(images, n);
      assert images[..n + 1] == images;
      assert images == images[..n] + [images[n]];
    }
  }

  lemma LoadedSnoc(images: seq<Option<Image>>, k: nat)
    requires k < |images|
    ensures Loaded(images[..k + 1]) == Loaded(images[..k]) + (if images[k].Some? then [images[k].value] else [])
  {
    assert images[..k + 1][..k] == images[..k];
  }

  /** The directories of a listing, in order. */
  function Dirs(listing: seq<Entry>): (r: seq<Entry>)
    ensures |r| <= |listing|
    ensures forall j :: 0 <= j < |r| ==> r[j].DirEntry? && r[j] in listing
  {
    if listing == [] then []
    else
      var p := listing[..|listing| - 1];
      var e := listing[|listing| - 1];
      assert listing == p + [e];
      Dirs(p) + (if e.DirEntry? then [e] else [])
  }

  function Repeat(c: int, n: nat): (r: seq<int>)
    ensures |r| == n && forall k :: 0 <= k < n ==> r[k] == c
  {
    seq(n, _ => c)
  }

  lemma RepeatSnoc(c: int, n: nat)
    ensures Repeat(c, n + 1) == Repeat(c, n) + [c]
  {
  }

  /** The three accumulators of the script: `faces`, `labels` and
      `label_map` as its items in insertion order. */
  datatype Training = Training(faces: seq<Image>, labels: seq<int>, labelMap: seq<(int, string)>)

  /** One pass of `for student_id in os.listdir(DATASET_DIR)`; the next
      label is the number of labels given so far. */
  function Learn(t: Training, e: Entry): Training {
    match e
    case FileEntry(_) => t
    case DirEntry(name, images) =>
      var c := |t.labelMap|;
      var ls := Loaded(images);
      Training(t.faces + ls, t.labels + Repeat(c, |ls|), t.labelMap + [(c, name)])
  }

  /** The accumulators once the listing has been walked. */
  function TrainData(listing: seq<Entry>): Training {
    if listing == [] then Training([], [], [])
    else Learn(TrainData(listing[..|listing| - 1]), listing[|listing| - 1])
  }

  lemma TrainDataSnoc(listing: seq<Entry>, i: nat)
    requires i < |listing|
    ensures TrainData(listing[..i + 1]) == Learn(TrainData(listing[..i]), listing[i])
  {
    assert listing[..i + 1][..i] == listing[..i];
  }

  lemma DirsSnoc(listing: seq<Entry>, n: nat)
    requires n < |listing|
    ensures Dirs(listing[..n + 1]) == Dirs(listing[..n]) + (if listing[n].DirEntry? then [listing[n]] else [])
  {
    assert listing[..n + 1][..n] == listing[..n];
  }

  /** The label map holds exactly the labels `0 .. k - 1` for the `k`
      directories, in listing order, whether or not any of their images
      loads; faces and labels stay parallel, and each face is a loaded image
      of the directory its label names. */
  lemma {:induction false} TrainFacts(listing: seq<Entry>)
    ensures var t, ds := TrainData(listing), Dirs(listing);
      && |t.labelMap| == |ds|
      && (forall j :: 0 <= j < |ds| ==> t.labelMap[j] == (j, ds[j].name))
      && |t.faces| == |t.labels|
      && (forall k :: 0 <= k < |t.labels| ==> 0 <= t.labels[k] < |ds| && t.faces[k] in Loaded(ds[t.labels[k]].images))
  {
    if listing != [] {
      var n := |listing| - 1;
      TrainFacts(listing[..n]);
      TrainDataSnoc(listing, n);
      DirsSnoc(listing, n);
      assert listing[..n + 1] == listing;
      var t0, ds0 := TrainData(listing[..n]), Dirs(listing[..n]);
      var t, ds := TrainData(listing), Dirs(listing);
      if listing[n].DirEntry? {
        var ls := Loaded(listing[n].images);
        assert ds[|ds0|] == listing[n];
        forall k | 0 <= k < |t.labels|
          ensures 0 <= t.labels[k] < |ds| && t.faces[k] in Loaded(ds[t.labels[k]].images)
        {
          if k < |t0.labels| {
            assert t.labels[k] == t0.labels[k] && t.faces[k] == t0.faces[k];
            assert ds[t0.labels[k]] == ds0[t0.labels[k]];
          } else {
            assert t.labels[k] == |ds0|;
            assert t.faces[k] == ls[k - |t0.faces|];
          }
        }
      }
    }
  }

  /** No face loads exactly when no directory holds an image that loads. */
  lemma {:induction false} NoFacesIff(listing: seq<Entry>)
    ensures TrainData(listing).faces == [] <==>
      forall j :: 0 <= j < |Dirs(listing)| ==> Loaded(Dirs(listing)[j].images) == []
  {
    if listing != [] {
      var n := |listing| - 1;
      NoFacesIff(listing[..n]);
      TrainDataSnoc(listing, n);
      DirsSnoc(listing, n);
      assert listing[..n + 1] == listing;
      var ds0, ds := Dirs(listing[..n]), Dirs(listing);
      assert forall j :: 0 <= j < |ds0| ==> ds[j] == ds0[j];
      if listing[n].DirEntry? {
        assert ds[|ds0|] == listing[n];
        assert TrainData(listing).faces == TrainData(listing[..n]).faces + Loaded(listing[n].images);
      } else {
        assert ds == ds0;
      }
    }
  }

  /** The dict `pickle.dump` writes has distinct keys, and looking up label
      `j` in it gives the `j`-th directory's name. */
  lemma TrainedLookup(listing: seq<Entry>, j: nat)
    requires j < |Dirs(listing)|
    ensures DistinctKeys(Pickled(TrainData(listing).labelMap))
    ensures DictGet(Pickled(TrainData(listing).labelMap), IntKey(j)) == Some(StrKey(Dirs(listing)[j].name))
  {
    TrainFacts(listing);
    var d := Pickled(TrainData(listing).labelMap);
    assert forall i :: 0 <= i < |d| ==> d[i].0 == IntKey(i);
    DictGetAt(d, j);
  }

  /** Where `recognizer.save` and `pickle.dump` write. */
  class ModelStore {
    /** The faces and labels the saved model was trained on. */
    var model: Option<(seq<Image>, seq<int>)>
    var labelMap: Option<PyDict>

    constructor Empty()
      ensures model.None? && labelMap.None?
    {
      model, labelMap := None, None;
    }
  }

  datatype TrainEnd = NoFaces | NoContrib | Trained

  /** `for img_name in os.listdir(student_path)`. */
  method LoadImages(images: seq<Option<Image>>, c: int, faces: seq<Image>, labels: seq<int>)
    returns (faces': seq<Image>, labels': seq<int>)
    ensures faces' == faces + Loaded(images)
    ensures labels' == labels + Repeat(c, |Loaded(images)|)
  {
    faces', labels' := faces, labels;
    var k := 0;
    while k < |images|
      invariant 0 <= k <= |images|
      invariant faces' == faces + Loaded(images[..k])
      invariant labels' == labels + Repeat(c, |Loaded(images[..k])|)
    {
      LoadedSnoc(images, k);
      if images[k].Some? {
        RepeatSnoc(c, |Loaded(images[..k])|);
        faces' := faces' + [images[k].value];
        labels' := labels' + [c];
      }
      k := k + 1;
    }
    assert images[..k] == images;
  }

  /** The script: walk the listing, then train and save unless no face
      loaded or `cv2.face` is missing (`contrib` false). */
  method Train(listing: seq<Entry>, contrib: bool, store: ModelStore) returns (end: TrainEnd)
    modifies store
    ensures var t := TrainData(listing);
      && end == (if t.faces == [] then NoFaces else if !contrib then NoContrib else Trained)
      && (end == Trained ==> store.model == Some((t.faces, t.labels)) && store.labelMap == Some(Pickled(t.labelMap)))
      && (end != Trained ==> store.model == old(store.model) && store.labelMap == old(store.labelMap))
  {
    var faces: seq<Image> := [];
    var labels: seq<int> := [];
    var labelMap: seq<(int, string)> := [];
    var currentLabel := 0;
    var i := 0;
    while i < |listing|
      invariant 0 <= i <= |listing|
      invariant Training(faces, labels, labelMap) == TrainData(listing[..i])
      invariant currentLabel == |labelMap|
      invariant store.model == old(store.model) && store.labelMap == old(store.labelMap)
    {
      TrainDataSnoc(listing, i);
      if listing[i].DirEntry? {
        labelMap := labelMap + [(currentLabel, listing[i].name)];
        faces, labels := LoadImages(listing[i].images, currentLabel, faces, labels);
        currentLabel := currentLabel + 1;
      }
      i := i + 1;
    }
    assert listing[..i] == listing;
    if faces == [] {
      return NoFaces;
    }
    if !contrib {
      return NoContrib;
    }
    store.model := Some((faces, labels));
    store.labelMap := Some(Pickled(labelMap));
    return Trained;
  }
}
