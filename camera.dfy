/**
 * Camera input as a finite sequence of frames. A failed `cap.read()` is the
 * end of the sequence; what was detected in a frame is its content and the
 * key read by `cv2.waitKey(1)` after showing it is its key.
 */
module Camera {

  /** The clock reading used when a record is written (`%Y-%m-%d`, `%H:%M:%S`). */
  datatype Stamp = Stamp(date: string, time: string)

  datatype Frame<C> = Frame(content: C, key: int)

  /** What `QRCodeDetector.detectAndDecode` gives for a frame: the decoded
      text ("" when nothing decodes), with the clock reading at which the
      frame is handled. */
  datatype QrScan = QrScan(payload: string, now: Stamp)

  /** One face `detectMultiScale` finds, with what `recognizer.predict`
      returns for it (label and confidence) and the clock reading at which
      it is handled. */
  datatype Face = Face(predicted: int, confidence: real, now: Stamp)

  /** `key & 0xFF`: Python's `&` on a negative int acts on the infinite two's
      complement, which is the Euclidean remainder modulo 256. */
  function KeyByte(key: int): (b: int)
    ensures 0 <= b < 256
    ensures 0 <= key < 256 ==> b == key
  {
    key % 256
  }

  /** `cv2.waitKey(1) & 0xFF == ord(c)`. */
  predicate Pressed(key: int, c: char) {
    KeyByte(key) == c as int
  }

  predicate IsQuit(key: int) {
    Pressed(key, 'q')
  }

  /** The frames a loop that stops after the first 'q' processes. */
  function Consumed<C>(frames: seq<Frame<C>>): (r: seq<Frame<C>>)
    ensures |r| <= |frames| && r == frames[..|r|]
    ensures forall j :: 0 <= j < |r| - 1 ==> !IsQuit(r[j].key)
    ensures |r| < |frames| ==> |r| > 0 && IsQuit(r[|r| - 1].key)
    ensures (forall j :: 0 <= j < |frames| ==> !IsQuit(frames[j].key)) ==> r == frames
  {
    if frames == [] then []
    else if IsQuit(frames[0].key) then [frames[0]]
    else [frames[0]] + Consumed(frames[1..])
  }

  /** A loop that has seen no 'q' before position `i` and a 'q' at `i` has
      consumed exactly `frames[..i + 1]`. */
  lemma {:induction false} ConsumedAtQuit<C>(frames: seq<Frame<C>>, i: nat)
    requires i < |frames| && IsQuit(frames[i].key)
    requires forall j :: 0 <= j < i ==> !IsQuit(frames[j].key)
    ensures Consumed(frames) == frames[..i + 1]
  {
    if i > 0 {
      ConsumedAtQuit(frames[1..], i - 1);
      assert frames[..i + 1] == [frames[0]] + frames[1..][..i];
    }
  }

  /** Frame `i` of the consumed prefix: the loop stops after it iff its key
      is 'q', or else when the input ends there. */
  lemma ConsumedStep<C>(frames: seq<Frame<C>>, i: nat)
    requires i < |Consumed(frames)|
    ensures IsQuit(frames[i].key) ==> Consumed(frames) == frames[..i + 1]
    ensures !IsQuit(frames[i].key) ==> i + 1 < |Consumed(frames)| || (i + 1 == |frames| && Consumed(frames) == frames)
  {
    var r := Consumed(frames);
    if IsQuit(frames[i].key) {
      assert r[i] == frames[i];
      assert i + 1 == |r|;
    } else if i + 1 == |r| {
      assert r[|r| - 1] == frames[i];
    }
  }

  /** Before the first frame: the loop reads some frame iff there is one. */
  lemma ConsumedStart<C>(frames: seq<Frame<C>>)
    ensures 0 < |Consumed(frames)| || Consumed(frames) == frames == []
  {
  }

  /** The consumed frames split at any point inside them. */
  lemma ConsumedSplit<C>(frames: seq<Frame<C>>, i: nat)
    requires i <= |Consumed(frames)|
    ensures Consumed(frames) == frames[..i] + Consumed(frames)[i..]
  {
    var c := Consumed(frames);
    assert c == frames[..|c|];
    assert c[..i] == frames[..i];
    assert c == c[..i] + c[i..];
  }
}
