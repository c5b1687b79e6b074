/**
 * The per-frame state machine of `process_frame`: the module-level flags
 * `attendance_marked` and `unrecognized_shown`, the attendance file that
 * `mark_attendance` appends to, and what one camera cycle does to them.
 *
 * `Step` states one cycle as a function on values and `Run` chains cycles;
 * the class `Kiosk` holds the same state in fields and `ProcessFrame` updates
 * it in place, proved to agree with `Step`.
 */
module Kiosk {
  import opened Wrappers
  import opened Matcher
  import opened AttendanceLog

  /** The two flags and the strings written to the attendance file; its text is their concatenation. */
  datatype Session = Session(marked: bool, shown: bool, log: seq<string>)

  /** Whether the cycle raised the "Face not recognized!" dialog and whether it re-armed the 10 ms timer. */
  datatype Outcome = Outcome(notified: bool, rescheduled: bool)

  /**
   * One camera cycle's inputs: whether `video_capture.read()` succeeded, the
   * boxes the detector reported (in its order), whether the Tk window exists,
   * and `clock(i)`, the text `datetime.now()` gives when face `i` is marked.
   */
  datatype Frame = Frame(ok: bool, faces: seq<Box>, gui: bool, clock: nat -> string)

  /** Some detected box resolves to a known person. */
  predicate AnyMatch(table: Table, faces: seq<Box>)
  {
    exists i :: 0 <= i < |faces| && FirstMatch(table, faces[i]).Some?
  }

  /** The lines the face loop appends: one per matching box, in detection order. */
  function FrameLog(table: Table, faces: seq<Box>, clock: nat -> string): seq<string>
    decreases |faces|
  {
    if faces == [] then []
    else
      var last := |faces| - 1;
      FrameLog(table, faces[..last], clock) +
        match FirstMatch(table, faces[last])
        case None => []
        case Some(name) => [FormatLine(name, clock(last))]
  }

  /** One call of `process_frame` on a session. */
  function Step(table: Table, s: Session, f: Frame): (Session, Outcome)
  {
    if !f.ok || s.marked then
      (s, Outcome(false, false))
    else
      var hit := AnyMatch(table, f.faces);
      var notify := !hit && !s.shown && f.gui;
      (Session(hit, !hit && (s.shown || notify), s.log + FrameLog(table, f.faces, f.clock)),
       Outcome(notify, f.gui))
  }

  /** A sequence of cycles: the final session and how many dialogs were raised. */
  function Run(table: Table, s: Session, frames: seq<Frame>): (Session, nat)
    decreases |frames|
  {
    if frames == [] then (s, 0)
    else
      var (next, out) := Step(table, s, frames[0]);
      var (last, count) := Run(table, next, frames[1..]);
      (last, count + if out.notified then 1 else 0)
  }

  /**
   * What every reachable session satisfies, for a file that held `boot` at
   * start-up: lines are only appended, attendance is marked exactly when a
   * line was appended, and a marked session shows no pending dialog flag.
   */
  predicate Consistent(s: Session, boot: seq<string>)
  {
    boot <= s.log && (s.marked <==> |s.log| > |boot|) && (s.marked ==> !s.shown)
  }

  class Kiosk {
    /** `face_coordinates`, loaded once at start-up. */
    const table: Table
    /** The attendance file as it was when the process started. */
    ghost const boot: seq<string>

    var attendanceMarked: bool
    var unrecognizedShown: bool
    /** The attendance file as written: its start-up contents, then one string per mark; its text is their concatenation. */
    var log: seq<string>

    function State(): Session
      reads this
    {
      Session(attendanceMarked, unrecognizedShown, log)
    }

    ghost predicate Valid()
      reads this
    {
      Consistent(State(), boot)
    }

    constructor (table: Table, existing: seq<string>)
      ensures Valid()
      ensures this.table == table && boot == existing
      ensures State() == Session(false, false, existing)
    {
      this.table := table;
      boot := existing;
      attendanceMarked, unrecognizedShown := false, false;
      log := existing;
    }

    /**
     * `mark_attendance`: one line appended to the file. It is only a step
     * inside `ProcessFrame`, which sets `attendanceMarked` right after it; on
     * its own it does not keep `Valid()`.
     */
    method MarkAttendance(name: string, ts: string)
      modifies this`log
      ensures log == old(log) + [FormatLine(name, ts)]
    {
      log := log + [FormatLine(name, ts)];
    }

    /**
     * `process_frame`. A failed read, or a session already marked, returns
     * at once without touching the state or re-arming the timer. Otherwise
     * every detected box is resolved; each match appends a line, sets
     * `attendanceMarked` and clears `unrecognizedShown`, and the face loop
     * carries on with the next box. A frame without any match raises the
     * dialog once, when the window exists and it was not raised before.
     */
    method ProcessFrame(ok: bool, faces: seq<Box>, gui: bool, clock: nat -> string)
      returns (notified: bool, rescheduled: bool)
      requires Valid()
      modifies this
      ensures Valid()
      ensures (State(), Outcome(notified, rescheduled)) == Step(table, old(State()), Frame(ok, faces, gui, clock))
      ensures !ok || old(attendanceMarked) ==> State() == old(State()) && !notified && !rescheduled
      ensures ok && !old(attendanceMarked) ==>
        log == old(log) + FrameLog(table, faces, clock) &&
        attendanceMarked == AnyMatch(table, faces) &&
        notified == (!AnyMatch(table, faces) && !old(unrecognizedShown) && gui) &&
        unrecognizedShown == (!AnyMatch(table, faces) && (old(unrecognizedShown) || gui)) &&
        rescheduled == gui
    {
      notified, rescheduled := false, false;
      if !ok {
        return;
      }
      if attendanceMarked {
        return;
      }
      var detectedAnyFace := false;
      for i := 0 to |faces|
        invariant log == old(log) + FrameLog(table, faces[..i], clock)
        invariant detectedAnyFace == AnyMatch(table, faces[..i])
        invariant attendanceMarked == detectedAnyFace
        invariant unrecognizedShown == (old(unrecognizedShown) && !detectedAnyFace)
      {
        assert faces[..i + 1][..i] == faces[..i] && faces[..i + 1][i] == faces[i];
        var detected, name := Resolve(table, faces[i]);
        if detected {
          MarkAttendance(name, clock(i));
          attendanceMarked := true;
          unrecognizedShown := false;
          detectedAnyFace := true;
        }
        assert detected ==> FirstMatch(table, faces[..i + 1][i]).Some?;
        assert AnyMatch(table, faces[..i]) ==> AnyMatch(table, faces[..i + 1]) by {
          if AnyMatch(table, faces[..i]) {
            var k :| 0 <= k < i && FirstMatch(table, faces[..i][k]).Some?;
            assert faces[..i + 1][k] == faces[..i][k];
          }
        }
      }
      assert faces[..|faces|] == faces;
      if !detectedAnyFace && !unrecognizedShown && gui {
        notified := true;
        unrecognizedShown := true;
      }
      rescheduled := gui;
      FrameLogEmptyIff(table, faces, clock);
    }
  }

  // ---------------------------------------------------------------------------
  // Lemmas

  /** A frame appends nothing exactly when none of its boxes matches. */
  lemma {:induction false} FrameLogEmptyIff(table: Table, faces: seq<Box>, clock: nat -> string)
    ensures FrameLog(table, faces, clock) == [] <==> !AnyMatch(table, faces)
    decreases |faces|
  {
    if faces != [] {
      var init := faces[..|faces| - 1];
      FrameLogEmptyIff(table, init, clock);
      if AnyMatch(table, init) {
        var k :| 0 <= k < |init| && FirstMatch(table, init[k]).Some?;
        assert faces[k] == init[k];
      }
      if AnyMatch(table, faces) {
        var k :| 0 <= k < |faces| && FirstMatch(table, faces[k]).Some?;
        if k < |init| {
          assert init[k] == faces[k];
        }
      }
    }
  }

  /**
   * The lines one frame appends, without the loop: there is an increasing
   * list of box positions `hits`, holding every position whose box matches
   * and only those, and line `j` records the person of box `hits[j]` at the
   * time read for it. So the face loop logs every matching box, in order.
   */
  lemma {:induction false} FrameLogSpec(table: Table, faces: seq<Box>, clock: nat -> string)
    returns (hits: seq<nat>)
    ensures |hits| == |FrameLog(table, faces, clock)|
    ensures forall j :: 0 <= j < |hits| ==>
      hits[j] < |faces| && FirstMatch(table, faces[hits[j]]).Some? &&
      FrameLog(table, faces, clock)[j] == FormatLine(FirstMatch(table, faces[hits[j]]).value, clock(hits[j]))
    ensures forall j, k :: 0 <= j < k < |hits| ==> hits[j] < hits[k]
    ensures forall i :: 0 <= i < |faces| && FirstMatch(table, faces[i]).Some? ==> i in hits
    decreases |faces|
  {
    if faces == [] {
      hits := [];
    } else {
      var last := |faces| - 1;
      var init := faces[..last];
      var before := FrameLogSpec(table, init, clock);
      var lines, earlier := FrameLog(table, faces, clock), FrameLog(table, init, clock);
      assert forall i :: 0 <= i < last ==> init[i] == faces[i];
      match FirstMatch(table, faces[last])
      case None =>
        assert lines == earlier;
        hits := before;
      case Some(name) =>
        assert lines == earlier + [FormatLine(name, clock(last))];
        hits := before + [last];
        assert hits[|before|] == last;
        forall j | 0 <= j < |before|
          ensures hits[j] == before[j] && lines[j] == earlier[j]
        {
        }
    }
  }

  /** Once attendance is marked, no later cycle changes anything or raises a dialog. */
  lemma {:induction false} FrozenOnceMarked(table: Table, s: Session, frames: seq<Frame>)
    requires s.marked
    ensures Run(table, s, frames) == (s, 0)
    decreases |frames|
  {
    if frames != [] {
      FrozenOnceMarked(table, s, frames[1..]);
    }
  }

  /**
   * After a frame with a match nothing else happens: in particular the
   * cleared `unrecognizedShown` never leads to a second dialog, because the
   * same frame marked attendance.
   */
  lemma AfterMatchNothing(table: Table, s: Session, f: Frame, frames: seq<Frame>)
    requires f.ok && !s.marked && AnyMatch(table, f.faces)
    ensures Run(table, Step(table, s, f).0, frames) == (Step(table, s, f).0, 0)
  {
    FrozenOnceMarked(table, Step(table, s, f).0, frames);
  }

  /** A session whose dialog was raised, or that is marked, raises no dialog from then on. */
  lemma {:induction false} QuietAfterDialog(table: Table, s: Session, frames: seq<Frame>)
    requires s.shown || s.marked
    ensures Run(table, s, frames).1 == 0
    decreases |frames|
  {
    if frames != [] {
      var next := Step(table, s, frames[0]).0;
      if next.marked {
        FrozenOnceMarked(table, next, frames[1..]);
      } else {
        QuietAfterDialog(table, next, frames[1..]);
      }
    }
  }

  /** Debouncing: over a whole run, however many frames go unrecognised, the dialog is raised at most once. */
  lemma {:induction false} DialogAtMostOnce(table: Table, s: Session, frames: seq<Frame>)
    ensures Run(table, s, frames).1 <= 1
    decreases |frames|
  {
    if frames != [] {
      var (next, out) := Step(table, s, frames[0]);
      if out.notified || next.marked {
        QuietAfterDialog(table, next, frames[1..]);
      } else {
        DialogAtMostOnce(table, next, frames[1..]);
      }
    }
  }

  /** One cycle keeps a session consistent. */
  lemma StepConsistent(table: Table, s: Session, f: Frame, boot: seq<string>)
    requires Consistent(s, boot)
    ensures Consistent(Step(table, s, f).0, boot)
  {
    FrameLogEmptyIff(table, f.faces, f.clock);
  }

  /** Any run keeps a session consistent: the file only grows, and only by marking. */
  lemma {:induction false} RunConsistent(table: Table, s: Session, frames: seq<Frame>, boot: seq<string>)
    requires Consistent(s, boot)
    ensures Consistent(Run(table, s, frames).0, boot)
    decreases |frames|
  {
    if frames != [] {
      StepConsistent(table, s, frames[0], boot);
      RunConsistent(table, Step(table, s, frames[0]).0, frames[1..], boot);
    }
  }

  /**
   * An example: Alice recorded at (100,100,50,50), one box detected at
   * (105,95,55,52); the first frame marks her and logs one line for her.
   */
  lemma AliceFrame(clock: nat -> string)
    ensures Step([("Alice", [Box(100, 100, 50, 50)])], Session(false, false, []),
                 Frame(true, [Box(105, 95, 55, 52)], true, clock)) ==
      (Session(true, false, [FormatLine("Alice", clock(0))]), Outcome(false, true))
  {
    var table := [("Alice", [Box(100, 100, 50, 50)])];
    var faces := [Box(105, 95, 55, 52)];
    AliceExample();
    assert FirstMatch(table, faces[0]) == Some("Alice");
    assert AnyMatch(table, faces);
    assert faces[..0] == [];
    assert FrameLog(table, faces, clock) == [FormatLine("Alice", clock(0))];
  }

  /** With an empty table a frame records nothing and only raises the dialog. */
  lemma EmptyTableFrame(faces: seq<Box>, clock: nat -> string)
    ensures Step([], Session(false, false, []), Frame(true, faces, true, clock)) ==
      (Session(false, true, []), Outcome(true, true))
  {
    var none: Table := [];
    assert forall i :: 0 <= i < |faces| ==> FirstMatch(none, faces[i]) == None;
    assert !AnyMatch(none, faces);
    FrameLogEmptyIff(none, faces, clock);
    assert FrameLog(none, faces, clock) == [];
    var start: Session := Session(false, false, []);
    var f := Frame(true, faces, true, clock);
    assert Step(none, start, f).0.log == [];
    assert Step(none, start, f).0.shown;
    assert Step(none, start, f).1 == Outcome(true, true);
  }
}
