/**
 * The standalone QR script, src/qr_attendance.py: every frame whose code
 * decodes to non-empty text is marked in the attendance ledger under that
 * text exactly as decoded, with method "QR", until the camera stops, 'q' is
 * pressed or a read of the ledger raises.
 */
module QrScript {
  import opened Wrappers
  import opened CsvStore
  import opened LabelMap
  import opened Camera
  import opened ScriptLedger

  /** What one frame asks of the ledger: `mark_attendance(data, "QR")` when
      `data` is non-empty. */
  function ScanAttempts(f: Frame<QrScan>): (r: seq<Attempt>)
    ensures f.content.payload == "" <==> r == []
  {
    if f.content.payload == "" then []
    else [Attempt(StrKey(f.content.payload), "QR", f.content.now)]
  }

  /** The marks a sequence of frames asks for, in order. */
  function QrAttempts(frames: seq<Frame<QrScan>>): seq<Attempt> {
    if frames == [] then []
    else QrAttempts(frames[..|frames| - 1]) + ScanAttempts(frames[|frames| - 1])
  }

  lemma QrAttemptsSnoc(frames: seq<Frame<QrScan>>, i: nat)
    requires i < |frames|
    ensures QrAttempts(frames[..i + 1]) == QrAttempts(frames[..i]) + ScanAttempts(frames[i])
  {
    assert frames[..i + 1][..i] == frames[..i];
  }

  lemma {:induction false} QrAttemptsAppend(xs: seq<Frame<QrScan>>, ys: seq<Frame<QrScan>>)
    ensures QrAttempts(xs + ys) == QrAttempts(xs) + QrAttempts(ys)
  {
    if ys == [] {
      assert xs + ys == xs;
    } else {
      var n := |ys| - 1;
      assert (xs + ys)[..|xs + ys| - 1] == xs + ys[..n];
      QrAttemptsAppend(xs, ys[..n]);
    }
  }

  /** Every attempt is for the decoded text as a string, with method "QR",
      and every non-empty decoded text is attempted. */
  lemma {:induction false} QrAttemptsFacts(frames: seq<Frame<QrScan>>)
    ensures forall k :: 0 <= k < |QrAttempts(frames)| ==>
      QrAttempts(frames)[k].id.StrKey? && QrAttempts(frames)[k].via == "QR"
    ensures forall j :: 0 <= j < |frames| && frames[j].content.payload != "" ==>
      Attempt(StrKey(frames[j].content.payload), "QR", frames[j].content.now) in QrAttempts(frames)
  {
    if frames != [] {
      var n := |frames| - 1;
      QrAttemptsFacts(frames[..n]);
      assert frames[..n + 1] == frames;
      QrAttemptsSnoc(frames, n);
      forall j | 0 <= j < n ensures frames[j] == frames[..n][j] {
      }
    }
  }

  /** A whole run of the script on the ledger as it was. */
  function QrSession(v: FileView, frames: seq<Frame<QrScan>>): Outcome {
    Replay(v, QrAttempts(Consumed(frames)))
  }

  /** One pass of the loop body: the mark, then `cv2.waitKey`. `stop` says
      the loop ends here, by a raise or by the 'q' key. */
  method ScanFrame(ledger: CsvFile, ghost v0: FileView, frames: seq<Frame<QrScan>>, i: nat)
    returns (crashed: bool, stop: bool)
    requires i < |Consumed(frames)| && ledger.Valid()
    requires var o := Replay(v0, QrAttempts(frames[..i])); !o.crashed && ledger.View() == o.view
    modifies ledger
    ensures ledger.Valid()
    ensures stop ==> var o := QrSession(v0, frames); crashed == o.crashed && ledger.View() == o.view
    ensures !stop ==> !crashed && (i + 1 < |Consumed(frames)| || i + 1 == |Consumed(frames)| == |frames|)
    ensures !stop ==> var o := Replay(v0, QrAttempts(frames[..i + 1])); !o.crashed && ledger.View() == o.view
  {
    ConsumedStep(frames, i);
    QrAttemptsSnoc(frames, i);
    var xs := QrAttempts(frames[..i]);
    var data := frames[i].content.payload;
    crashed := false;
    if data == "" {
      assert xs + ScanAttempts(frames[i]) == xs;
    } else {
      var a := Attempt(StrKey(data), "QR", frames[i].content.now);
      crashed := Attend(ledger, v0, xs, a);
    }
    if crashed {
      CrashEndsSession(v0, frames, i + 1);
      return true, true;
    }
    stop := IsQuit(frames[i].key);
  }

  /** The main loop of the script; `crashed` is true when it ended by a
      raise. */
  method RunQrScript(ledger: CsvFile, frames: seq<Frame<QrScan>>) returns (crashed: bool)
    requires ledger.Valid()
    modifies ledger
    ensures ledger.Valid()
    ensures var o := QrSession(old(ledger.View()), frames); crashed == o.crashed && ledger.View() == o.view
  {
    ghost var v0 := ledger.View();
    var i := 0;
    ConsumedStart(frames);
    while i < |frames|
      invariant 0 <= i <= |frames|
      invariant i < |Consumed(frames)| || i == |Consumed(frames)| == |frames|
      invariant ledger.Valid()
      invariant var o := Replay(v0, QrAttempts(frames[..i])); !o.crashed && ledger.View() == o.view
    {
      var stop;
      crashed, stop := ScanFrame(ledger, v0, frames, i);
      if stop {
        return;
      }
      i := i + 1;
    }
    assert Consumed(frames) == frames[..i];
    crashed := false;
  }

  /** A raise in frame `i - 1` of the frames the loop reads is where the run
      ends. */
  lemma CrashEndsSession(v: FileView, frames: seq<Frame<QrScan>>, i: nat)
    requires 0 < i <= |Consumed(frames)|
    requires Replay(v, QrAttempts(frames[..i])).crashed
    ensures QrSession(v, frames) == Replay(v, QrAttempts(frames[..i]))
  {
    var c := Consumed(frames);
    ConsumedSplit(frames, i);
    var xs, ys := QrAttempts(frames[..i]), QrAttempts(c[i..]);
    QrAttemptsAppend(frames[..i], c[i..]);
    assert QrAttempts(c) == xs + ys;
    ReplayAfterCrash(v, xs, ys);
  }

  /** A run that did not crash leaves every non-empty decoded text of the
      frames it consumed marked for the day it was scanned. */
  lemma QrSessionMarks(v: FileView, frames: seq<Frame<QrScan>>, j: nat)
    requires j < |Consumed(frames)| && frames[j].content.payload != ""
    requires !QrSession(v, frames).crashed
    ensures Check(QrSession(v, frames).view, StrKey(frames[j].content.payload), frames[j].content.now.date) == Some(true)
  {
    var c := Consumed(frames);
    QrAttemptsFacts(c);
    var a := Attempt(StrKey(frames[j].content.payload), "QR", frames[j].content.now);
    assert c[j] == frames[j];
    var k :| 0 <= k < |QrAttempts(c)| && QrAttempts(c)[k] == a;
    ReplayMarksStrings(v, QrAttempts(c), k);
  }

  /** The script only appends rows, and never writes an id twice on one day. */
  lemma QrSessionLedger(v: FileView, frames: seq<Frame<QrScan>>)
    ensures Lines(v) <= Lines(QrSession(v, frames).view)
    ensures OncePerDay(Lines(v)) ==> OncePerDay(Lines(QrSession(v, frames).view))
  {
    var xs := QrAttempts(Consumed(frames));
    ReplayAppends(v, xs);
    QrAttemptsFacts(Consumed(frames));
    if OncePerDay(Lines(v)) {
      ReplayKeepsOncePerDay(v, xs);
    }
  }

  /** With no decoded text in any frame nothing is written. */
  lemma {:induction false} NoCodesNoRows(v: FileView, frames: seq<Frame<QrScan>>)
    requires forall j :: 0 <= j < |frames| ==> frames[j].content.payload == ""
    ensures QrAttempts(frames) == []
    ensures Replay(v, QrAttempts(frames)) == Outcome(v, false)
  {
    if frames != [] {
      var n := |frames| - 1;
      NoCodesNoRows(v, frames[..n]);
    }
  }
}
