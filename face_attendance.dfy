/**
 * The standalone face script, src/face_attendance.py: the pickled label map
 * is inverted into `id_map`, and every face recognised with confidence below
 * 70 whose label is a key of `id_map` is marked in the attendance ledger
 * under `id_map[label]`, with method "FACE", until the camera stops, 'q' is
 * pressed or something raises.
 */
module FaceScript {
  import opened Wrappers
  import opened CsvStore
  import opened LabelMap
  import opened Camera
  import opened ScriptLedger

  /** `confidence < 70 and label in id_map`. */
  predicate Accepted(idMap: map<PyKey, PyKey>, f: Face) {
    f.confidence < 70.0 && IntKey(f.predicted) in idMap
  }

  /** What one face asks of the ledger. */
  function FaceAttempt(idMap: map<PyKey, PyKey>, f: Face): (r: seq<Attempt>)
    ensures r != [] <==> Accepted(idMap, f)
  {
    if Accepted(idMap, f) then [Attempt(idMap[IntKey(f.predicted)], "FACE", f.now)] else []
  }

  /** The marks the faces of one frame ask for, in the order found. */
  function FaceHits(idMap: map<PyKey, PyKey>, faces: seq<Face>): seq<Attempt> {
    if faces == [] then []
    else FaceHits(idMap, faces[..|faces| - 1]) + FaceAttempt(idMap, faces[|faces| - 1])
  }

  /** The marks a sequence of frames asks for, in order. */
  function FaceAttempts(idMap: map<PyKey, PyKey>, frames: seq<Frame<seq<Face>>>): seq<Attempt> {
    if frames == [] then []
    else FaceAttempts(idMap, frames[..|frames| - 1]) + FaceHits(idMap, frames[|frames| - 1].content)
  }

  lemma FaceHitsSnoc(idMap: map<PyKey, PyKey>, faces: seq<Face>, k: nat)
    requires k < |faces|
    ensures FaceHits(idMap, faces[..k + 1]) == FaceHits(idMap, faces[..k]) + FaceAttempt(idMap, faces[k])
  {
    assert faces[..k + 1][..k] == faces[..k];
  }

  lemma FaceAttemptsSnoc(idMap: map<PyKey, PyKey>, frames: seq<Frame<seq<Face>>>, i: nat)
    requires i < |frames|
    ensures FaceAttempts(idMap, frames[..i + 1]) == FaceAttempts(idMap, frames[..i]) + FaceHits(idMap, frames[i].content)
  {
    assert frames[..i + 1][..i] == frames[..i];
  }

  lemma {:induction false} FaceHitsAppend(idMap: map<PyKey, PyKey>, xs: seq<Face>, ys: seq<Face>)
    ensures FaceHits(idMap, xs + ys) == FaceHits(idMap, xs) + FaceHits(idMap, ys)
  {
    if ys == [] {
      assert xs + ys == xs;
    } else {
      var n := |ys| - 1;
      assert (xs + ys)[..|xs + ys| - 1] == xs + ys[..n];
      FaceHitsAppend(idMap, xs, ys[..n]);
    }
  }

  lemma {:induction false} FaceAttemptsAppend(idMap: map<PyKey, PyKey>, xs: seq<Frame<seq<Face>>>, ys: seq<Frame<seq<Face>>>)
    ensures FaceAttempts(idMap, xs + ys) == FaceAttempts(idMap, xs) + FaceAttempts(idMap, ys)
  {
    if ys == [] {
      assert xs + ys == xs;
    } else {
      var n := |ys| - 1;
      assert (xs + ys)[..|xs + ys| - 1] == xs + ys[..n];
      FaceAttemptsAppend(idMap, xs, ys[..n]);
    }
  }

  /** Which parts of the script run: `recognizer.read` and `pickle.load`
      raise when their files are missing; a cascade file that does not load
      leaves an empty classifier, and `detectMultiScale` raises on the first
      frame. */
  function FaceSession(modelLoads: bool, labelMap: Option<PyDict>, cascadeLoads: bool,
                       v: FileView, frames: seq<Frame<seq<Face>>>): Outcome
  {
    if !modelLoads || labelMap.None? then Outcome(v, true)
    else if !cascadeLoads then Outcome(v, frames != [])
    else Replay(v, FaceAttempts(Invert(labelMap.value), Consumed(frames)))
  }

  /** The body of `for (x, y, w, h) in faces` for face `k`. */
  method MarkFace(ledger: CsvFile, ghost v0: FileView, ghost done: seq<Attempt>,
                  idMap: map<PyKey, PyKey>, faces: seq<Face>, k: nat) returns (crashed: bool)
    requires k < |faces| && ledger.Valid()
    requires var o := Replay(v0, done + FaceHits(idMap, faces[..k])); !o.crashed && ledger.View() == o.view
    modifies ledger
    ensures ledger.Valid()
    ensures !crashed ==> var o := Replay(v0, done + FaceHits(idMap, faces[..k + 1])); !o.crashed && ledger.View() == o.view
    ensures crashed ==> var o := Replay(v0, done + FaceHits(idMap, faces)); o.crashed && ledger.View() == o.view
  {
    ghost var xs := done + FaceHits(idMap, faces[..k]);
    MarkFaceStep(done, idMap, faces, k);
    var f := faces[k];
    if !(f.confidence < 70.0 && IntKey(f.predicted) in idMap) {
      return false;
    }
    var a := Attempt(idMap[IntKey(f.predicted)], "FACE", f.now);
    crashed := Attend(ledger, v0, xs, a);
    if crashed {
      CrashEndsFrame(v0, done, idMap, faces, k + 1);
    }
  }

  /** The attempts after face `k`: those before it, and its own when it is
      accepted. */
  lemma MarkFaceStep(done: seq<Attempt>, idMap: map<PyKey, PyKey>, faces: seq<Face>, k: nat)
    requires k < |faces|
    ensures !Accepted(idMap, faces[k]) ==> done + FaceHits(idMap, faces[..k + 1]) == done + FaceHits(idMap, faces[..k])
    ensures Accepted(idMap, faces[k]) ==>
      done + FaceHits(idMap, faces[..k + 1]) ==
      done + FaceHits(idMap, faces[..k]) + [Attempt(idMap[IntKey(faces[k].predicted)], "FACE", faces[k].now)]
  {
    FaceHitsSnoc(idMap, faces, k);
    var xs := FaceHits(idMap, faces[..k]);
    assert done + (xs + FaceAttempt(idMap, faces[k])) == done + xs + FaceAttempt(idMap, faces[k]);
  }

  /** All faces of one frame. */
  method MarkFaces(ledger: CsvFile, ghost v0: FileView, ghost done: seq<Attempt>,
                   idMap: map<PyKey, PyKey>, faces: seq<Face>) returns (crashed: bool)
    requires ledger.Valid()
    requires var o := Replay(v0, done); !o.crashed && ledger.View() == o.view
    modifies ledger
    ensures ledger.Valid()
    ensures var o := Replay(v0, done + FaceHits(idMap, faces)); o.crashed == crashed && ledger.View() == o.view
  {
    assert done + FaceHits(idMap, faces[..0]) == done;
    var k := 0;
    while k < |faces|
      invariant 0 <= k <= |faces| && ledger.Valid()
      invariant var o := Replay(v0, done + FaceHits(idMap, faces[..k])); !o.crashed && ledger.View() == o.view
    {
      crashed := MarkFace(ledger, v0, done, idMap, faces, k);
      if crashed {
        return;
      }
      k := k + 1;
    }
    assert faces[..k] == faces;
    crashed := false;
  }

  /** A raise at a face ends the run: the later faces of the frame are not
      looked at. */
  lemma CrashEndsFrame(v: FileView, done: seq<Attempt>, idMap: map<PyKey, PyKey>, faces: seq<Face>, k: nat)
    requires k <= |faces| && Replay(v, done + FaceHits(idMap, faces[..k])).crashed
    ensures Replay(v, done + FaceHits(idMap, faces)) == Replay(v, done + FaceHits(idMap, faces[..k]))
  {
    var xs := done + FaceHits(idMap, faces[..k]);
    var ys := FaceHits(idMap, faces[k..]);
    assert faces == faces[..k] + faces[k..];
    FaceHitsAppend(idMap, faces[..k], faces[k..]);
    assert done + FaceHits(idMap, faces) == xs + ys;
    ReplayAfterCrash(v, xs, ys);
  }

  /** One pass of the loop body: the faces, then `cv2.waitKey`. `stop` says
      the loop ends here, by a raise or by the 'q' key. */
  method FaceFrame(ledger: CsvFile, ghost v0: FileView, idMap: map<PyKey, PyKey>,
                   frames: seq<Frame<seq<Face>>>, i: nat) returns (crashed: bool, stop: bool)
    requires i < |Consumed(frames)| && ledger.Valid()
    requires var o := Replay(v0, FaceAttempts(idMap, frames[..i])); !o.crashed && ledger.View() == o.view
    modifies ledger
    ensures ledger.Valid()
    ensures stop ==> var o := Replay(v0, FaceAttempts(idMap, Consumed(frames))); crashed == o.crashed && ledger.View() == o.view
    ensures !stop ==> !crashed && (i + 1 < |Consumed(frames)| || i + 1 == |Consumed(frames)| == |frames|)
    ensures !stop ==> var o := Replay(v0, FaceAttempts(idMap, frames[..i + 1])); !o.crashed && ledger.View() == o.view
  {
    ConsumedStep(frames, i);
    FaceAttemptsSnoc(idMap, frames, i);
    crashed := MarkFaces(ledger, v0, FaceAttempts(idMap, frames[..i]), idMap, frames[i].content);
    if crashed {
      CrashEndsSession(v0, idMap, frames, i + 1);
      return true, true;
    }
    stop := IsQuit(frames[i].key);
  }

  /** A raise in frame `i - 1` of the frames the loop reads is where the run
      ends. */
  lemma CrashEndsSession(v: FileView, idMap: map<PyKey, PyKey>, frames: seq<Frame<seq<Face>>>, i: nat)
    requires 0 < i <= |Consumed(frames)|
    requires Replay(v, FaceAttempts(idMap, frames[..i])).crashed
    ensures Replay(v, FaceAttempts(idMap, Consumed(frames))) == Replay(v, FaceAttempts(idMap, frames[..i]))
  {
    var c := Consumed(frames);
    ConsumedSplit(frames, i);
    var xs, ys := FaceAttempts(idMap, frames[..i]), FaceAttempts(idMap, c[i..]);
    FaceAttemptsAppend(idMap, frames[..i], c[i..]);
    assert FaceAttempts(idMap, c) == xs + ys;
    ReplayAfterCrash(v, xs, ys);
  }

  /** The frame loop once the model, the label map and the cascade are
      loaded; it reads `Consumed(frames)`. */
  method RunFrames(ledger: CsvFile, idMap: map<PyKey, PyKey>, frames: seq<Frame<seq<Face>>>) returns (crashed: bool)
    requires ledger.Valid()
    modifies ledger
    ensures ledger.Valid()
    ensures var o := Replay(old(ledger.View()), FaceAttempts(idMap, Consumed(frames)));
      crashed == o.crashed && ledger.View() == o.view
  {
    ghost var v0 := ledger.View();
    var i := 0;
    ConsumedStart(frames);
    while i < |frames|
      invariant 0 <= i <= |frames|
      invariant i < |Consumed(frames)| || i == |Consumed(frames)| == |frames|
      invariant ledger.Valid()
      invariant var o := Replay(v0, FaceAttempts(idMap, frames[..i])); !o.crashed && ledger.View() == o.view
    {
      var stop;
      crashed, stop := FaceFrame(ledger, v0, idMap, frames, i);
      if stop {
        return;
      }
      i := i + 1;
    }
    assert Consumed(frames) == frames[..i];
    crashed := false;
  }

  /** The whole script; `crashed` is true when it ended by a raise. */
  method RunFaceScript(modelLoads: bool, labelMap: Option<PyDict>, cascadeLoads: bool,
                       ledger: CsvFile, frames: seq<Frame<seq<Face>>>) returns (crashed: bool)
    requires ledger.Valid()
    modifies ledger
    ensures ledger.Valid()
    ensures var o := FaceSession(modelLoads, labelMap, cascadeLoads, old(ledger.View()), frames);
      crashed == o.crashed && ledger.View() == o.view
  {
    if !modelLoads || labelMap.None? {
      return true;
    }
    var idMap := Invert(labelMap.value);
    if !cascadeLoads {
      return frames != [];
    }
    crashed := RunFrames(ledger, idMap, frames);
  }

  /** Every attempt is a "FACE" mark under a value of `id_map`. */
  predicate FromMap(idMap: map<PyKey, PyKey>, xs: seq<Attempt>) {
    forall k :: 0 <= k < |xs| ==> xs[k].via == "FACE" && xs[k].id in idMap.Values
  }

  lemma FromMapAppend(idMap: map<PyKey, PyKey>, xs: seq<Attempt>, ys: seq<Attempt>)
    requires FromMap(idMap, xs) && FromMap(idMap, ys)
    ensures FromMap(idMap, xs + ys)
  {
    forall k | 0 <= k < |xs + ys| ensures (xs + ys)[k].via == "FACE" && (xs + ys)[k].id in idMap.Values {
      if k < |xs| {
        assert (xs + ys)[k] == xs[k];
      } else {
        assert (xs + ys)[k] == ys[k - |xs|];
      }
    }
  }

  lemma FaceAttemptFrom(idMap: map<PyKey, PyKey>, f: Face)
    ensures FromMap(idMap, FaceAttempt(idMap, f))
  {
    if Accepted(idMap, f) {
      var key := IntKey(f.predicted);
      assert idMap[key] in idMap.Values;
    }
  }

  /** Only confident faces whose label is a key of `id_map` are marked, each
      under `id_map[label]` with method "FACE". */
  lemma {:induction false} FaceHitsFrom(idMap: map<PyKey, PyKey>, faces: seq<Face>)
    ensures FromMap(idMap, FaceHits(idMap, faces))
  {
    if faces != [] {
      var n := |faces| - 1;
      FaceHitsFrom(idMap, faces[..n]);
      FaceAttemptFrom(idMap, faces[n]);
      FromMapAppend(idMap, FaceHits(idMap, faces[..n]), FaceAttempt(idMap, faces[n]));
    }
  }

  /** A frame without an accepted face asks for no mark. */
  lemma {:induction false} FaceHitsNone(idMap: map<PyKey, PyKey>, faces: seq<Face>)
    requires forall j :: 0 <= j < |faces| ==> !Accepted(idMap, faces[j])
    ensures FaceHits(idMap, faces) == []
  {
    if faces != [] {
      var n := |faces| - 1;
      var front := faces[..n];
      assert forall j :: 0 <= j < n ==> front[j] == faces[j];
      FaceHitsNone(idMap, front);
      assert !Accepted(idMap, faces[n]);
    }
  }

  /** Every confident face whose label is a key of `id_map` is marked. */
  lemma {:induction false} FaceHitsCover(idMap: map<PyKey, PyKey>, faces: seq<Face>, j: nat)
    requires j < |faces| && Accepted(idMap, faces[j])
    ensures Attempt(idMap[IntKey(faces[j].predicted)], "FACE", faces[j].now) in FaceHits(idMap, faces)
  {
    var n := |faces| - 1;
    FaceHitsSnoc(idMap, faces, n);
    assert faces[..n + 1] == faces;
    if j < n {
      assert faces[..n][j] == faces[j];
      FaceHitsCover(idMap, faces[..n], j);
    }
  }

  /** The same, over a sequence of frames. */
  lemma {:induction false} FaceAttemptsFrom(idMap: map<PyKey, PyKey>, frames: seq<Frame<seq<Face>>>)
    ensures FromMap(idMap, FaceAttempts(idMap, frames))
  {
    if frames != [] {
      var n := |frames| - 1;
      FaceAttemptsFrom(idMap, frames[..n]);
      FaceHitsFrom(idMap, frames[n].content);
      FromMapAppend(idMap, FaceAttempts(idMap, frames[..n]), FaceHits(idMap, frames[n].content));
    }
  }

  /** A session without an accepted face asks for no mark. */
  lemma {:induction false} FaceAttemptsNone(idMap: map<PyKey, PyKey>, frames: seq<Frame<seq<Face>>>)
    requires forall j, f :: 0 <= j < |frames| && f in frames[j].content ==> !Accepted(idMap, f)
    ensures FaceAttempts(idMap, frames) == []
  {
    if frames != [] {
      var n := |frames| - 1;
      var front := frames[..n];
      assert forall j :: 0 <= j < n ==> front[j] == frames[j];
      FaceAttemptsNone(idMap, front);
      var c := frames[n].content;
      assert forall j :: 0 <= j < |c| ==> c[j] in frames[n].content;
      FaceHitsNone(idMap, c);
    }
  }

  /** Every accepted face of every frame is attempted. */
  lemma {:induction false} FaceAttemptsCover(idMap: map<PyKey, PyKey>, frames: seq<Frame<seq<Face>>>, j: nat, f: Face)
    requires j < |frames| && f in frames[j].content && Accepted(idMap, f)
    ensures Attempt(idMap[IntKey(f.predicted)], "FACE", f.now) in FaceAttempts(idMap, frames)
  {
    var n := |frames| - 1;
    FaceAttemptsSnoc(idMap, frames, n);
    assert frames[..n + 1] == frames;
    if j < n {
      assert frames[..n][j] == frames[j];
      FaceAttemptsCover(idMap, frames[..n], j, f);
    } else {
      var k :| 0 <= k < |frames[j].content| && frames[j].content[k] == f;
      FaceHitsCover(idMap, frames[j].content, k);
    }
  }

  /** `face_train.py` pickles a dict from int labels to folder names, so
      `id_map` has only string keys and `label in id_map` never holds for
      the int label `predict` returns: the script marks nobody. */
  lemma TrainedMapMarksNobody(labels: seq<(int, string)>, v: FileView, frames: seq<Frame<seq<Face>>>)
    ensures FaceAttempts(Invert(Pickled(labels)), frames) == []
    ensures FaceSession(true, Some(Pickled(labels)), true, v, frames) == Outcome(v, false)
  {
    var idMap := Invert(Pickled(labels));
    InvertedPickleKeys(labels);
    assert forall f :: !Accepted(idMap, f);
    FaceAttemptsNone(idMap, frames);
    FaceAttemptsNone(idMap, Consumed(frames));
  }

  /** With no face below the confidence threshold nothing is written. */
  lemma UnsureFacesMarkNobody(idMap: map<PyKey, PyKey>, frames: seq<Frame<seq<Face>>>)
    requires forall j, f :: 0 <= j < |frames| && f in frames[j].content ==> !(f.confidence < 70.0)
    ensures FaceAttempts(idMap, frames) == []
  {
    FaceAttemptsNone(idMap, frames);
  }

  /** For a label map whose keys are all strings (one from student id to
      label), every attempt is for a string id. */
  lemma StringKeyedAttempts(d: PyDict, frames: seq<Frame<seq<Face>>>)
    requires forall i :: 0 <= i < |d| ==> d[i].0.StrKey?
    ensures forall k :: 0 <= k < |FaceAttempts(Invert(d), frames)| ==> FaceAttempts(Invert(d), frames)[k].id.StrKey?
  {
    var idMap := Invert(d);
    var xs := FaceAttempts(idMap, frames);
    FaceAttemptsFrom(idMap, frames);
    forall k | 0 <= k < |xs| ensures xs[k].id.StrKey? {
      var key :| key in idMap && idMap[key] == xs[k].id;
      var i := InvertFrom(d, key);
    }
  }

  /** With such a map a run never writes an id twice on one day. */
  lemma StringKeyedOncePerDay(d: PyDict, v: FileView, frames: seq<Frame<seq<Face>>>)
    requires forall i :: 0 <= i < |d| ==> d[i].0.StrKey?
    requires OncePerDay(Lines(v))
    ensures OncePerDay(Lines(FaceSession(true, Some(d), true, v, frames).view))
  {
    StringKeyedAttempts(d, Consumed(frames));
    ReplayKeepsOncePerDay(v, FaceAttempts(Invert(d), Consumed(frames)));
  }

  /** With such a map a run that did not crash leaves every face it accepted
      marked for the day it was seen. */
  lemma StringKeyedMarks(d: PyDict, v: FileView, frames: seq<Frame<seq<Face>>>, j: nat, f: Face)
    requires forall i :: 0 <= i < |d| ==> d[i].0.StrKey?
    requires j < |Consumed(frames)| && f in frames[j].content && Accepted(Invert(d), f)
    requires !FaceSession(true, Some(d), true, v, frames).crashed
    ensures Check(FaceSession(true, Some(d), true, v, frames).view, Invert(d)[IntKey(f.predicted)], f.now.date) == Some(true)
  {
    var idMap := Invert(d);
    var c := Consumed(frames);
    var xs := FaceAttempts(idMap, c);
    assert c[j] == frames[j];
    FaceAttemptsCover(idMap, c, j, f);
    StringKeyedAttempts(d, c);
    var k :| 0 <= k < |xs| && xs[k] == Attempt(idMap[IntKey(f.predicted)], "FACE", f.now);
    ReplayMarksStrings(v, xs, k);
  }

  /** The script only appends rows. */
  lemma FaceSessionAppends(modelLoads: bool, labelMap: Option<PyDict>, cascadeLoads: bool,
                           v: FileView, frames: seq<Frame<seq<Face>>>)
    ensures Lines(v) <= Lines(FaceSession(modelLoads, labelMap, cascadeLoads, v, frames).view)
  {
    if modelLoads && labelMap.Some? && cascadeLoads {
      ReplayAppends(v, FaceAttempts(Invert(labelMap.value), Consumed(frames)));
    }
  }
}
