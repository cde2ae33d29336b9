/**
 * The photo-capture session: up to count times, ask the camera manager for
 * a frame, stop at the first absence, otherwise have the device write the
 * current image to a time-stamped, indexed file and report progress; then
 * report completion. The frames the manager returns on successive calls
 * and the timestamps the clock gives are inputs.
 */
module Capture {
  import opened Wrappers
  import opened Camera
  import Decimal

  /** A progress report (the number of capture_file calls issued so far) or the final one. */
  datatype Event = Progress(taken: nat) | Done

  /** The directory captured images are saved in. */
  const SaveDir: string := "static/captured_images"

  /** The path of the image with index i captured at the given timestamp. */
  function FileName(stamp: string, i: nat): string
  {
    SaveDir + "/image_" + stamp + "_" + Decimal.Show(i) + ".jpg"
  }

  function NamePrefix(stamp: string): string
  {
    SaveDir + "/image_" + stamp + "_"
  }

  /** The index a capture path names for the given timestamp, or None if it is not such a path. */
  function FileIndex(stamp: string, path: string): Option<nat>
  {
    var pre := NamePrefix(stamp);
    if |path| > |pre| + 4 && path[..|pre|] == pre && path[|path| - 4..] == ".jpg"
       && Decimal.AllDigits(path[|pre|..|path| - 4])
    then Some(Decimal.Read(path[|pre|..|path| - 4]))
    else None
  }

  /** The index can be read back from a capture path. */
  lemma FileIndexOfFileName(stamp: string, i: nat)
    ensures FileIndex(stamp, FileName(stamp, i)) == Some(i)
  {
    var pre := NamePrefix(stamp);
    var path := FileName(stamp, i);
    assert path == pre + Decimal.Show(i) + ".jpg";
    assert path[..|pre|] == pre;
    assert path[|path| - 4..] == ".jpg";
    assert path[|pre|..|path| - 4] == Decimal.Show(i);
    Decimal.ReadShow(i);
  }

  /** Captures with the same timestamp and different indices go to different files. */
  lemma FileNameInjective(stamp: string, i: nat, j: nat)
    requires FileName(stamp, i) == FileName(stamp, j)
    ensures i == j
  {
    FileIndexOfFileName(stamp, i);
    FileIndexOfFileName(stamp, j);
  }

  /** Strict lexicographic order on strings (a proper prefix comes first). */
  predicate Below(a: string, b: string)
  {
    if a == [] then b != []
    else b != [] && (a[0] < b[0] || (a[0] == b[0] && Below(a[1..], b[1..])))
  }

  /** A common prefix does not change the order. */
  lemma {:induction false} BelowAfterPrefix(p: string, x: string, y: string)
    ensures Below(p + x, p + y) == Below(x, y)
  {
    if p != [] {
      assert (p + x)[1..] == p[1..] + x;
      assert (p + y)[1..] == p[1..] + y;
      BelowAfterPrefix(p[1..], x, y);
    } else {
      assert p + x == x && p + y == y;
    }
  }

  /** With one timestamp, file names sort in capture order while the indices have one digit. */
  lemma NamesSortedBelowTen(stamp: string, i: nat, j: nat)
    requires i < j < 10
    ensures Below(FileName(stamp, i), FileName(stamp, j))
  {
    var pre := NamePrefix(stamp);
    assert FileName(stamp, i) == pre + ([Decimal.DigitChar(i)] + ".jpg");
    assert FileName(stamp, j) == pre + ([Decimal.DigitChar(j)] + ".jpg");
    BelowAfterPrefix(pre, [Decimal.DigitChar(i)] + ".jpg", [Decimal.DigitChar(j)] + ".jpg");
  }

  /** From index 10 on they do not: image index 10 sorts before image index 2. */
  lemma TenSortsBeforeTwo(stamp: string)
    ensures Below(FileName(stamp, 10), FileName(stamp, 2))
  {
    var pre := NamePrefix(stamp);
    assert Decimal.Show(10) == "10";
    assert Decimal.Show(2) == "2";
    assert FileName(stamp, 10) == pre + "10.jpg";
    assert FileName(stamp, 2) == pre + "2.jpg";
    BelowAfterPrefix(pre, "10.jpg", "2.jpg");
  }

  /** Progress reports 1, 2, ..., k. */
  function Progresses(k: nat): seq<Event>
  {
    seq(k, j requires 0 <= j < k => Progress(j + 1))
  }

  /** The events of a session that captured k files. */
  function SessionEvents(k: nat): seq<Event>
  {
    Progresses(k) + [Done]
  }

  /** The number of loop iterations range(count) allows. */
  function Attempts(count: int): nat
  {
    if count <= 0 then 0 else count
  }

  /** The number of files a session captures: the frames present before the first absence, up to count. */
  function Captured(count: int, frames: seq<Option<Frame>>): nat
    requires count <= |frames|
  {
    AvailableFrames(frames[..Attempts(count)])
  }

  /**
   * The number of files a session captures, characterised: every frame
   * before it is present, it reaches range(count)'s bound exactly when every
   * frame request succeeds, and otherwise the frame at it is the first absence.
   */
  lemma CapturedCount(count: int, frames: seq<Option<Frame>>)
    requires count <= |frames|
    ensures Captured(count, frames) <= Attempts(count)
    ensures forall j :: 0 <= j < Captured(count, frames) ==> frames[j].Some?
    ensures (forall j :: 0 <= j < Attempts(count) ==> frames[j].Some?) <==> Captured(count, frames) == Attempts(count)
    ensures Captured(count, frames) < Attempts(count) ==> frames[Captured(count, frames)].None?
  {
    var s := frames[..Attempts(count)];
    AvailableFramesIsFirstAbsence(s);
    if forall j :: 0 <= j < Attempts(count) ==> frames[j].Some? {
      AvailableFramesExact(s, Attempts(count));
    }
  }

  /** With no iterations (count <= 0) the session reports only Done. */
  lemma NoAttemptsOnlyDone(count: int, frames: seq<Option<Frame>>)
    requires count <= 0
    ensures SessionEvents(Captured(count, frames)) == [Done]
  {
  }

  /** The events of a session: Progress(1), ..., Progress(k), then exactly one Done, which is last. */
  lemma SessionEventsShape(k: nat)
    ensures |SessionEvents(k)| == k + 1
    ensures forall j :: 0 <= j < k ==> SessionEvents(k)[j] == Progress(j + 1)
    ensures forall j :: 0 <= j < k ==> SessionEvents(k)[j] != Done
    ensures SessionEvents(k)[k] == Done
  {
  }

  /** The paths handed to capture_file for the first k indices. */
  function CapturePaths(stamps: seq<string>, k: nat): seq<string>
    requires k <= |stamps|
  {
    seq(k, j requires 0 <= j < k => FileName(stamps[j], j))
  }

  /** One observable step of a session: a capture_file call, or an event yielded to the client. */
  datatype Step = WriteImage(path: string) | Report(event: Event)

  /** The steps of the first k iterations: each writes its image, then reports progress. */
  function Iterations(stamps: seq<string>, k: nat): seq<Step>
    requires k <= |stamps|
  {
    if k == 0 then []
    else Iterations(stamps, k - 1) + [WriteImage(FileName(stamps[k - 1], k - 1)), Report(Progress(k))]
  }

  /** The steps of a session that captured k files, ending with Done. */
  function SessionTrace(stamps: seq<string>, k: nat): seq<Step>
    requires k <= |stamps|
  {
    Iterations(stamps, k) + [Report(Done)]
  }

  /** The events a trace yields, in order. */
  function Reports(t: seq<Step>): seq<Event>
  {
    if t == [] then []
    else (if t[0].Report? then [t[0].event] else []) + Reports(t[1..])
  }

  /** The paths a trace hands to capture_file, in order. */
  function Writes(t: seq<Step>): seq<string>
  {
    if t == [] then []
    else (if t[0].WriteImage? then [t[0].path] else []) + Writes(t[1..])
  }

  /**
   * The session loop over range(count). frames[i] is what the i-th frame
   * request returns and stamps[i] the timestamp read in iteration i.
   * Returns the capture_file calls and the yielded events as one trace, in
   * the order they happen. The break on an absent frame leaves only the
   * loop, so the final Done is reported in either case.
   */
  method RunSession(count: int, frames: seq<Option<Frame>>, stamps: seq<string>)
    returns (trace: seq<Step>)
    requires count <= |frames| && count <= |stamps|
    ensures Captured(count, frames) <= Attempts(count)
    ensures trace == SessionTrace(stamps, Captured(count, frames))
    ensures Reports(trace) == SessionEvents(Captured(count, frames))
    ensures Writes(trace) == CapturePaths(stamps, Captured(count, frames))
    ensures trace[|trace| - 1] == Report(Done)
  {
    trace := [];
    var i := 0;
    while i < count
      invariant 0 <= i <= Attempts(count)
      invariant forall j :: 0 <= j < i ==> frames[j].Some?
      invariant trace == Iterations(stamps, i)
    {
      if frames[i].None? {
        AvailableFramesExact(frames[..Attempts(count)], i);
        break;
      }
      var path := FileName(stamps[i], i);
      trace := trace + [WriteImage(path)];
      trace := trace + [Report(Progress(i + 1))];
      i := i + 1;
    }
    if i == Attempts(count) {
      AvailableFramesExact(frames[..Attempts(count)], i);
    }
    trace := trace + [Report(Done)];
    SessionReports(stamps, i);
    SessionWrites(stamps, i);
  }

  /** Reports distributes over concatenation. */
  lemma {:induction false} ReportsAppend(a: seq<Step>, b: seq<Step>)
    ensures Reports(a + b) == Reports(a) + Reports(b)
  {
    if a == [] {
      assert a + b == b;
    } else {
      assert (a + b)[0] == a[0];
      assert (a + b)[1..] == a[1..] + b;
      ReportsAppend(a[1..], b);
    }
  }

  /** Writes distributes over concatenation. */
  lemma {:induction false} WritesAppend(a: seq<Step>, b: seq<Step>)
    ensures Writes(a + b) == Writes(a) + Writes(b)
  {
    if a == [] {
      assert a + b == b;
    } else {
      assert (a + b)[0] == a[0];
      assert (a + b)[1..] == a[1..] + b;
      WritesAppend(a[1..], b);
    }
  }

  /** The events of the first k iterations are Progress(1), ..., Progress(k). */
  lemma {:induction false} IterationsReports(stamps: seq<string>, k: nat)
    requires k <= |stamps|
    ensures Reports(Iterations(stamps, k)) == Progresses(k)
  {
    if k > 0 {
      var step := [WriteImage(FileName(stamps[k - 1], k - 1)), Report(Progress(k))];
      IterationsReports(stamps, k - 1);
      ReportsAppend(Iterations(stamps, k - 1), step);
      assert Reports(step) == [Progress(k)] by {
        assert step[1..] == [Report(Progress(k))];
        assert step[1..][1..] == [];
        assert Reports(step[1..]) == [Progress(k)];
      }
      assert Progresses(k - 1) + [Progress(k)] == Progresses(k);
    }
  }

  /** The images of the first k iterations go to FileName(stamps[i], i), i < k, in order. */
  lemma {:induction false} IterationsWrites(stamps: seq<string>, k: nat)
    requires k <= |stamps|
    ensures Writes(Iterations(stamps, k)) == CapturePaths(stamps, k)
  {
    if k > 0 {
      var step := [WriteImage(FileName(stamps[k - 1], k - 1)), Report(Progress(k))];
      IterationsWrites(stamps, k - 1);
      WritesAppend(Iterations(stamps, k - 1), step);
      assert Writes(step) == [FileName(stamps[k - 1], k - 1)] by {
        assert step[1..] == [Report(Progress(k))];
        assert step[1..][1..] == [];
        assert Writes(step[1..]) == [];
      }
      assert CapturePaths(stamps, k - 1) + [FileName(stamps[k - 1], k - 1)] == CapturePaths(stamps, k);
    }
  }

  /** The events a session yields are Progress(1), ..., Progress(k), then Done. */
  lemma SessionReports(stamps: seq<string>, k: nat)
    requires k <= |stamps|
    ensures Reports(SessionTrace(stamps, k)) == SessionEvents(k)
  {
    IterationsReports(stamps, k);
    ReportsAppend(Iterations(stamps, k), [Report(Done)]);
    assert Reports([Report(Done)]) == [Done] by {
      assert [Report(Done)][1..] == [];
    }
  }

  /** A session of k captures calls capture_file once per index i < k, with FileName(stamps[i], i). */
  lemma SessionWrites(stamps: seq<string>, k: nat)
    requires k <= |stamps|
    ensures Writes(SessionTrace(stamps, k)) == CapturePaths(stamps, k)
  {
    IterationsWrites(stamps, k);
    WritesAppend(Iterations(stamps, k), [Report(Done)]);
    assert Writes([Report(Done)]) == [] by {
      assert [Report(Done)][1..] == [];
    }
  }

  /**
   * Step by step: iteration j first writes FileName(stamps[j], j), then
   * reports Progress(j + 1); Done comes last.
   */
  lemma {:induction false} SessionTraceLayout(stamps: seq<string>, k: nat)
    requires k <= |stamps|
    ensures |Iterations(stamps, k)| == 2 * k
    ensures forall j :: 0 <= j < k ==>
      Iterations(stamps, k)[2 * j] == WriteImage(FileName(stamps[j], j)) &&
      Iterations(stamps, k)[2 * j + 1] == Report(Progress(j + 1))
    ensures SessionTrace(stamps, k)[2 * k] == Report(Done)
  {
    if k > 0 {
      SessionTraceLayout(stamps, k - 1);
      var prev := Iterations(stamps, k - 1);
      var it := Iterations(stamps, k);
      forall j | 0 <= j < k
        ensures it[2 * j] == WriteImage(FileName(stamps[j], j))
        ensures it[2 * j + 1] == Report(Progress(j + 1))
      {
        if j < k - 1 {
          assert it[2 * j] == prev[2 * j];
          assert it[2 * j + 1] == prev[2 * j + 1];
        }
      }
    }
  }

  /**
   * The report of iteration j is Progress(j + 1), and exactly j + 1
   * capture_file calls come before it: progress counts the capture_file
   * calls issued so far.
   */
  lemma ProgressCountsWrites(stamps: seq<string>, k: nat, j: nat)
    requires j < k <= |stamps|
    ensures 2 * j + 1 < |SessionTrace(stamps, k)|
    ensures SessionTrace(stamps, k)[2 * j + 1] == Report(Progress(j + 1))
    ensures |Writes(SessionTrace(stamps, k)[..2 * j + 1])| == j + 1
  {
    var t := SessionTrace(stamps, k);
    var w := [WriteImage(FileName(stamps[j], j))];
    var before := Iterations(stamps, j);
    var upto := Iterations(stamps, j + 1);
    IterationsPrefix(stamps, j + 1, k);
    assert upto == before + w + [Report(Progress(j + 1))];
    assert |before| == 2 * j;
    assert t[..2 * j + 2] == upto;
    assert t[2 * j + 1] == upto[2 * j + 1];
    assert t[..2 * j + 1] == before + w;
    WritesAppend(before, w);
    IterationsWrites(stamps, j);
    assert Writes(w) == [FileName(stamps[j], j)] by {
      assert w[1..] == [];
    }
  }

  /** The steps of the first i iterations are a prefix of those of the first k. */
  lemma {:induction false} IterationsPrefix(stamps: seq<string>, i: nat, k: nat)
    requires i <= k <= |stamps|
    ensures |Iterations(stamps, i)| == 2 * i <= |Iterations(stamps, k)|
    ensures Iterations(stamps, k)[..2 * i] == Iterations(stamps, i)
  {
    SessionTraceLayout(stamps, i);
    SessionTraceLayout(stamps, k);
    if i < k {
      IterationsPrefix(stamps, i, k - 1);
      assert Iterations(stamps, k)[..2 * (k - 1)] == Iterations(stamps, k - 1);
    } else {
      assert Iterations(stamps, k)[..2 * i] == Iterations(stamps, k);
    }
  }

  /** Five frame requests that all succeed: five progress reports, then Done. */
  lemma FullSessionOfFive(f: Frame)
    ensures SessionEvents(Captured(5, [Some(f), Some(f), Some(f), Some(f), Some(f)])) ==
      [Progress(1), Progress(2), Progress(3), Progress(4), Progress(5), Done]
  {
    var frames := [Some(f), Some(f), Some(f), Some(f), Some(f)];
    AvailableFramesExact(frames[..5], 5);
  }

  /**
   * The camera goes off after the second frame request: two progress
   * reports, and Done is still reported after the loop is left.
   */
  lemma AbortedSessionOfFive(f: Frame)
    ensures SessionEvents(Captured(5, [Some(f), Some(f), None, None, None])) ==
      [Progress(1), Progress(2), Done]
  {
    var frames := [Some(f), Some(f), None, None, None];
    AvailableFramesExact(frames[..5], 2);
  }

  const DoneText: string := "event: done\ndata: Capture complete\n\n"

  /** The server-sent-event text the session yields for an event. */
  function EventText(e: Event): string
  {
    match e
    case Progress(n) => "data: " + Decimal.Show(n) + "\n\n"
    case Done => DoneText
  }

  /** The event a server-sent-event text stands for, or None for any other text. */
  function ParseEvent(t: string): Option<Event>
  {
    if t == DoneText then Some(Done)
    else if |t| > 8 && t[..6] == "data: " && t[|t| - 2..] == "\n\n" && Decimal.AllDigits(t[6..|t| - 2])
    then Some(Progress(Decimal.Read(t[6..|t| - 2])))
    else None
  }

  /** Every event can be read back from its text. */
  lemma ParseEventText(e: Event)
    ensures ParseEvent(EventText(e)) == Some(e)
  {
    if e.Progress? {
      var t := EventText(e);
      var d := Decimal.Show(e.taken);
      assert t != DoneText by {
        assert t[0] == 'd' && DoneText[0] == 'e';
      }
      assert t[..6] == "data: ";
      assert t[|t| - 2..] == "\n\n";
      assert t[6..|t| - 2] == d;
      Decimal.ReadShow(e.taken);
    }
  }
}
