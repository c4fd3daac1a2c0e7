/**
 * The face capture script, src/face_register.py: after the id check it
 * creates the student's folder and saves every detected face of every
 * frame as `<count>.jpg`, counting faces from 1, until a frame read fails,
 * 'q' is pressed, or a frame leaves the count at 30 or more.
 */
module FaceRegister {
  import opened Text
  import opened Validation
  import opened Camera

  /** The folders under the dataset directory, by name, with the names of
      the files in each. */
  class FaceStore {
    var dirs: map<string, set<string>>

    constructor(dirs: map<string, set<string>>)
      ensures this.dirs == dirs
    {
      this.dirs := dirs;
    }
  }

  /** `f"{count}.jpg"`. */
  function FileName(n: nat): string {
    NatString(n) + ".jpg"
  }

  /** The files a capture of `count` faces writes. */
  function Names(count: nat): set<string> {
    set n | 1 <= n <= count :: FileName(n)
  }

  lemma FileNameInjective(a: nat, b: nat)
    requires FileName(a) == FileName(b)
    ensures a == b
  {
    var sa, sb := NatString(a), NatString(b);
    assert |sa| == |sb| by {
      assert |FileName(a)| == |sa| + 4 && |FileName(b)| == |sb| + 4;
    }
    assert sa == FileName(a)[..|sa|] && sb == FileName(b)[..|sb|];
    NatStringInjective(a, b);
  }

  lemma NamesSnoc(count: nat)
    ensures Names(count + 1) == Names(count) + {FileName(count + 1)}
    ensures FileName(count + 1) !in Names(count)
  {
    if FileName(count + 1) in Names(count) {
      var n :| 1 <= n <= count && FileName(n) == FileName(count + 1);
      FileNameInjective(n, count + 1);
    }
  }

  /** The saved names run from 1 to `count` with no gaps and no repeats:
      `count` faces make `count` distinct files. */
  lemma {:induction false} NamesCount(count: nat)
    ensures |Names(count)| == count
  {
    if count == 0 {
      NamesEmpty();
    } else {
      var c := count - 1;
      NamesCount(c);
      NamesSnoc(c);
      AddFresh(Names(c), FileName(c + 1));
    }
  }

  lemma NamesEmpty()
    ensures Names(0) == {}
  {
    assert forall x :: x !in Names(0);
  }

  lemma AddFresh<T>(s: set<T>, x: T)
    requires x !in s
    ensures |s + {x}| == |s| + 1
  {
  }

  /** The faces `detectMultiScale` finds in frames `i` up to `j`. */
  function Faces(frames: seq<Frame<nat>>, i: nat, j: nat): nat
    requires i <= j <= |frames|
    decreases j - i
  {
    if i == j then 0 else frames[i].content + Faces(frames, i + 1, j)
  }

  /** Where a capture ends: the final count and the index just past the
      last frame read (from frame 0, the number of frames read). The stop
      test runs once per frame, after its faces. */
  datatype Capture = Capture(count: nat, used: nat)

  /** The capture from frame `i` on, with `count` faces saved before it. */
  function CaptureFrom(count: nat, frames: seq<Frame<nat>>, i: nat): (r: Capture)
    requires i <= |frames|
    ensures count <= r.count && i <= r.used <= |frames|
    ensures r.used == i <==> i == |frames|
    decreases |frames| - i
  {
    if i == |frames| then Capture(count, i)
    else
      var c := count + frames[i].content;
      if IsQuit(frames[i].key) || c >= 30 then Capture(c, i + 1)
      else CaptureFrom(c, frames, i + 1)
  }

  /** Each detected face in the frames read adds exactly one to the count;
      the capture stops only when the frames run out, on 'q', or at a count
      of 30 or more; and a capture started below 30 overshoots 30 by less
      than the faces of its last frame. */
  lemma {:induction false} CaptureFacts(count: nat, frames: seq<Frame<nat>>, i: nat)
    requires i <= |frames|
    ensures var r := CaptureFrom(count, frames, i);
      && r.count == count + Faces(frames, i, r.used)
      && (r.used == |frames| || IsQuit(frames[r.used - 1].key) || r.count >= 30)
      && (forall j :: i <= j < r.used - 1 ==> !IsQuit(frames[j].key))
      && (count < 30 && i < |frames| ==> r.count < 30 + frames[r.used - 1].content)
    decreases |frames| - i
  {
    if i < |frames| {
      var c := count + frames[i].content;
      if !(IsQuit(frames[i].key) || c >= 30) {
        CaptureFacts(c, frames, i + 1);
      }
    }
  }

  datatype RegisterEnd = InvalidId | NoCascade | Captured(count: nat)

  /** A folder's files before the run, `{}` when `os.makedirs` creates it. */
  function Prior(dirs: map<string, set<string>>, id: string): set<string> {
    if id in dirs then dirs[id] else {}
  }

  /** `for (x, y, w, h) in faces`: one file per face. */
  method SaveFaces(store: FaceStore, id: string, ghost prior: set<string>, count: nat, faces: nat) returns (count': nat)
    requires id in store.dirs && store.dirs[id] == prior + Names(count)
    modifies store
    ensures count' == count + faces
    ensures store.dirs == old(store.dirs)[id := prior + Names(count')]
  {
    count' := count;
    var k := 0;
    while k < faces
      invariant 0 <= k <= faces && count' == count + k
      invariant store.dirs == old(store.dirs)[id := prior + Names(count')]
    {
      NamesUnion(prior, count');
      store.dirs := store.dirs[id := store.dirs[id] + {FileName(count' + 1)}];
      count' := count' + 1;
      k := k + 1;
    }
  }

  lemma NamesUnion(prior: set<string>, count: nat)
    ensures prior + Names(count) + {FileName(count + 1)} == prior + Names(count + 1)
  {
    NamesSnoc(count);
  }

  /** The `while True` loop. */
  method CaptureLoop(store: FaceStore, id: string, ghost prior: set<string>, frames: seq<Frame<nat>>) returns (count: nat)
    requires id in store.dirs && store.dirs[id] == prior
    modifies store
    ensures count == CaptureFrom(0, frames, 0).count
    ensures store.dirs == old(store.dirs)[id := prior + Names(count)]
  {
    ghost var d0 := store.dirs;
    count := 0;
    var i := 0;
    assert prior + Names(0) == prior by {
      NamesEmpty();
    }
    assert d0[id := prior] == d0;
    while i < |frames|
      invariant 0 <= i <= |frames|
      invariant CaptureFrom(0, frames, 0) == CaptureFrom(count, frames, i)
      invariant store.dirs == d0[id := prior + Names(count)]
    {
      count := SaveFaces(store, id, prior, count, frames[i].content);
      if IsQuit(frames[i].key) || count >= 30 {
        return;
      }
      i := i + 1;
    }
  }

  /** The script: `rawId` is the line typed at the prompt and
      `cascadeFound` whether the Haar cascade file exists. */
  method RegisterFaces(rawId: string, cascadeFound: bool, frames: seq<Frame<nat>>, store: FaceStore)
    returns (end: RegisterEnd)
    modifies store
    ensures var id := Strip(rawId);
      && (!IsStudentId(id) ==> end == InvalidId && store.dirs == old(store.dirs))
      && (IsStudentId(id) && !cascadeFound ==>
            end == NoCascade && store.dirs == old(store.dirs)[id := Prior(old(store.dirs), id)])
      && (IsStudentId(id) && cascadeFound ==>
            end == Captured(CaptureFrom(0, frames, 0).count)
            && store.dirs == old(store.dirs)[id := Prior(old(store.dirs), id) + Names(end.count)])
  {
    var id := Strip(rawId);
    if !(IsDigits(id) && |id| == 8) {
      return InvalidId;
    }
    var prior := Prior(store.dirs, id);
    store.dirs := store.dirs[id := prior];
    if !cascadeFound {
      return NoCascade;
    }
    var count := CaptureLoop(store, id, prior, frames);
    return Captured(count);
  }
}
