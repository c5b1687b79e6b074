# Attendance kiosk decision logic, in Dafny

This project models the decision logic of the kiosk script `attendance_system.py`.
The script grabs webcam frames and finds face boxes with a Haar detector. It
compares each box with a fixed table of recorded boxes per known person and
appends a `name, time` line to `attendance.txt` when someone is recognised. A
Flask endpoint, `/get_attendance`, returns that file as JSON records. The
camera, detector, Tk window and HTTP server are left out. The model covers:

- `matcher.dfy` (module `Matcher`): the four-axis tolerance test (strictly less
  than 20 px on `x`, `y`, `w` and `h`) and the first-match scan over the
  coordinate table, in table order. `Resolve` is the nested loop with its two
  `break`s. `FirstMatch` states the same scan as a function.
- `kiosk.dfy` (module `Kiosk`): `process_frame` as a state machine. Class
  `Kiosk` holds `attendanceMarked`, `unrecognizedShown` and the strings written
  to the attendance file.
  `ProcessFrame` updates them in place and is proved equal to the pure `Step`.
  `Run` chains frames, and the multi-frame properties are lemmas about it.
- `person_info.dfy` (module `PersonInfo`): `load_person_info`. The loop method
  `LoadPersonInfo` is proved equal to the fold `InfoOf`.
- `attendance_log.dfy` (module `AttendanceLog`): the line `mark_attendance`
  writes, the parsing loop of `get_attendance`, and the write/read round trip
  with its exact conditions.
- `pytext.dfy` (module `PyText`): the Python `str` behaviour those rely on.
  This is `isspace`, `strip`, `split(",")`, `split(":", 1)`, text-mode newline
  translation and `readlines`.
- `wrappers.dfy`: `Option` and `Result`.

Inputs that the script gets from libraries or the outside world become
parameters:
- the detector's boxes are `faces: seq<Box>`;
- `video_capture.read()` success is `ok`;
- whether the Tk window exists (`root`) is `gui`;
- `datetime.now()` is `clock(i)`, the text read when face `i` is marked;
- the coordinate table is an already-parsed `Table` in key order, and a
  missing file is the empty table;
- the info file is its sequence of lines;
- the attendance file is the strings written to it, one per mark (the file as
  found at start-up is one more), and its text is their concatenation; reading it in text mode turns `"\r\n"` and `'\r'` into
  `'\n'` (`PyText.Newlines`) before it is cut into lines.

Four behaviours of the script that are easy to misread, and that the model
follows:
- The face loop is never left early, so every matching box in one frame
  appends its own line. Only the scan over persons and boxes stops at the first
  match. `FrameLogSpec` states this.
- A failed read returns before `video_label.after(10, ...)`, and so does a
  frame processed after marking. Either one ends the polling loop; it is not
  retried. `ProcessFrame` returns this as `rescheduled == false`.
- A match sets `attendance_marked`, and every later frame then does nothing.
  So clearing `unrecognized_shown` after a match never leads to a second
  dialog: over any run the dialog is raised at most once (`DialogAtMostOnce`,
  `AfterMatchNothing`).
- A malformed log line fails the whole read, as the tuple unpacking does.
  `ParseAll` reports the first such line.

## Model

| member | source | states |
|---|---|---|
| `Matcher.Resolve` | attendance_system.py:133-152 | the nested scan finds a match exactly when `FirstMatch` does, and returns that person's name |
| `Matcher.BoundaryExcluded` | attendance_system.py:136-137 | a difference of 20 or more on any single axis rules a reference box out (the tolerance is exclusive) |
| `Matcher.FirstMatchIsFirst` | attendance_system.py:133-152 | a box resolves to `n` iff some person `i` named `n` owns a box within tolerance and no earlier person owns one (first match, not best match) |
| `Matcher.NoMatchIffNoneNear` | attendance_system.py:133-154 | a box is "Unknown" iff no person in the table owns a box within tolerance of it |
| `Matcher.FirstMatchIgnoresLater` | attendance_system.py:133-152 | once a person matches, appending more persons to the table does not change the result |
| `Matcher.EmptyTableNoMatch` | attendance_system.py:77-79 | with the coordinate file missing (empty table) nobody is recognised |
| `Matcher.AliceExample` | attendance_system.py:133-137 | Alice recorded at (100,100,50,50) is recognised at (105,95,55,52) |
| `Kiosk.Kiosk.constructor` | attendance_system.py:98-99 | the process starts with both flags false and the attendance file as found |
| `Kiosk.Kiosk.MarkAttendance` | attendance_system.py:103-106 | marking appends exactly the line `name + ", " + ts + "\n"` and changes nothing else |
| `Kiosk.Kiosk.ProcessFrame` | attendance_system.py:108-170 | failed read or already marked: state unchanged, no dialog, timer not re-armed; otherwise the log gains `FrameLog`, `attendanceMarked` is set iff some box matched, the dialog fires iff no match, flag clear and window present, the flag is cleared by a match, and the class invariant is kept |
| `Kiosk.FrameLogEmptyIff` | attendance_system.py:129-160 | a frame appends no line iff none of its boxes matches (the `detected_any_face` test) |
| `Kiosk.FrameLogSpec` | attendance_system.py:130-152 | the lines a frame appends are, in detection order, one per matching box, each naming that box's person and its own timestamp; no matching box is skipped |
| `Kiosk.FrozenOnceMarked` | attendance_system.py:117-124 | once attendance is marked, any further frames leave the log and both flags as they are and raise no dialog |
| `Kiosk.AfterMatchNothing` | attendance_system.py:145-147 | after a frame with a match, no later frame logs or raises the dialog, although `unrecognized_shown` was cleared |
| `Kiosk.QuietAfterDialog` | attendance_system.py:160-162 | once the dialog was raised (or attendance is marked) no further dialog is raised in any run |
| `Kiosk.DialogAtMostOnce` | attendance_system.py:160-162 | over any sequence of frames the "Face not recognized!" dialog is raised at most once |
| `Kiosk.StepConsistent` | attendance_system.py:108-162 | one frame keeps the invariant: the file only grows, marked iff lines were appended since start-up, marked implies the dialog flag is clear |
| `Kiosk.RunConsistent` | attendance_system.py:98-162 | the same invariant holds after any sequence of frames from start-up |
| `Kiosk.AliceFrame` | attendance_system.py:133-150 | the Alice frame marks attendance, appends one line starting with `Alice, ` and raises no dialog |
| `Kiosk.EmptyTableFrame` | attendance_system.py:154-162 | with an empty table a frame writes nothing, leaves attendance unmarked and raises the dialog once |
| `PersonInfo.LoadPersonInfo` | attendance_system.py:84-94 | the line loop builds exactly the dictionary `InfoOf(lines)` |
| `PersonInfo.InfoKeys` | attendance_system.py:88-91 | a name is in the dictionary iff some line holding a colon has that trimmed name (colon-less lines contribute nothing) |
| `PersonInfo.InfoLastWins` | attendance_system.py:91 | a line's info is what is stored for its name when no later line repeats the name (last duplicate wins) |
| `PersonInfo.InfoKeepsLaterColons` | attendance_system.py:90-91 | a line is cut at its first colon only; both sides are trimmed and the info keeps any further colons |
| `PersonInfo.NoColonIgnored` | attendance_system.py:89 | a line without a colon leaves the dictionary unchanged |
| `AttendanceLog.GetAttendance` | attendance_system.py:174-187 | a missing file gives the empty list; otherwise the result is the parse of every line of the file, read in text mode, failing at the first bad line |
| `AttendanceLog.FormatLineTerminated` | attendance_system.py:106 | a written record is exactly one file line iff neither name nor time contains a newline |
| `AttendanceLog.ParseAllSpec` | attendance_system.py:182-185 | the read succeeds iff every line splits into exactly two fields, then gives one record per line in file order; otherwise it reports the first bad line |
| `AttendanceLog.FirstBadLineAborts` | attendance_system.py:183-185 | a bad line after good ones aborts the read at that line, whatever follows |
| `AttendanceLog.FormatThenParse` | attendance_system.py:184 | a line written for `(name, ts)` reads back as `{name, " " + ts}` when neither has a comma, newline or carriage return, the name does not start with whitespace, and `ts` is non-empty and does not end with whitespace |
| `AttendanceLog.CommaBreaksLine` | attendance_system.py:184 | a comma in the name or the timestamp makes that line unreadable |
| `AttendanceLog.EmptyStampReadsEmpty` | attendance_system.py:184 | with an empty timestamp the stripped line loses its space, so the time reads as `""` rather than `" "` |
| `AttendanceLog.LogLinesParse` | attendance_system.py:105-106 | every line of a log of well-formed entries is one file line and parses back to its entry |
| `AttendanceLog.LogRoundTrip` | attendance_system.py:179-185 | marking `(A, t1)`, `(B, t2)`, ... and reading the file gives `[{A, " "+t1}, {B, " "+t2}, ...]` in append order |
| `AttendanceLog.NoCommaLineUnreadable` | attendance_system.py:184 | any line without a comma, a blank line included, does not unpack into two fields |
| `AttendanceLog.CarriageReturnBreaksRead` | attendance_system.py:179-185 | a record whose name has no comma but holds a carriage return makes the whole read fail at its first line, so the round trip must exclude `'\r'` |
| `AttendanceLog.EmptyFileNoRecords` | attendance_system.py:179-187 | an existing but empty file reads as the empty list |
| `PyText.LStripShape` | attendance_system.py:184 | `lstrip` drops exactly the leading whitespace: the result is a suffix, everything dropped is whitespace, and the result does not start with whitespace |
| `PyText.RStripShape` | attendance_system.py:184 | `rstrip` drops exactly the trailing whitespace, symmetrically |
| `PyText.StripBounds` | attendance_system.py:91 | `strip` keeps the slice between the leading and the trailing whitespace, and that slice starts and ends with non-whitespace |
| `PyText.StripKeepsCount` | attendance_system.py:184 | stripping never removes a non-whitespace character such as the comma |
| `PyText.StripNoop` | attendance_system.py:184 | text that starts and ends with non-whitespace is unchanged by `strip` |
| `PyText.IndexOf` | attendance_system.py:90 | the position found holds the separator and no earlier position does |
| `PyText.IndexOfAfter` | attendance_system.py:90 | in `a + [c] + b` with no `c` in `a`, the first `c` is at position `|a|` |
| `PyText.SplitOnCount` | attendance_system.py:184 | `split(",")` yields one more piece than there are commas, and no piece contains a comma |
| `PyText.SplitOnPair` | attendance_system.py:184 | `split(",")` of `a + "," + b` with no comma in `a` or `b` is exactly `[a, b]` |
| `PyText.SplitFirstAtFirst` | attendance_system.py:90 | `split(":", 1)` of `a + ":" + b` with no colon in `a` is `(a, b)`, whatever colons `b` holds |
| `PyText.LineLength` | attendance_system.py:180 | the first line of a text ends at its first newline, or at the end of the text |
| `PyText.LineLengthOf` | attendance_system.py:180 | a newline-terminated line followed by anything is read as exactly that line |
| `PyText.NewlinesNoCR` | attendance_system.py:179 | text without a carriage return is read in text mode exactly as written |
| `PyText.NewlinesPrefix` | attendance_system.py:179 | text-mode reading copies a prefix without carriage returns unchanged |
| `PyText.LineLengthAtMost` | attendance_system.py:180 | the first line read ends no later than any newline in the text |
| `PyText.ConcatExcludes` | attendance_system.py:105-106 | a character that no appended line holds is not in the file |
| `PyText.ReadLinesConcat` | attendance_system.py:179-180 | reading back a file written as newline-terminated lines gives those lines |

## Left out

- Webcam capture, `cv2.resize`, grayscale conversion and `detectMultiScale` (lines 66-69, 111, 115, 126-127) are library calls. The detector output is the `faces` input and read success is the `ok` input.
- `video_capture.release()`, `cv2.destroyAllWindows()` and the "already marked" picture (lines 118-123) are device and display effects. The model keeps only the early return.
- The "Unknown" rectangle and label drawn on the frame (lines 155-158) are rendering with no effect on state.
- Tk and PIL are left out (lines 15-63, 139-143, 164-169): window layout, images, label texts and the `person_info.get` lookup at line 138, which only feeds the label text. What remains is `root` as the `gui` input, and the re-arming at line 170 as the `rescheduled` result.
- `datetime.now()` and `strftime` are the wall clock. Timestamps are the opaque strings `clock(i)`.
- `load_face_coordinates` (lines 72-79) is a JSON parse. The table is an input, already parsed, in key order, with every coordinate already an integer. Three behaviours of line 76 are therefore not modelled. A coordinate that `int` cannot convert raises there at start-up, before any frame, because only `FileNotFoundError` is caught (line 77). A float coordinate such as 100.7 is truncated to 100. A box list of the wrong length passes line 76 and only makes the unpacking at line 135 raise during a frame; `Box` always has four integers.
- Detector coordinates are unbounded integers; numpy's fixed-width integer arithmetic in `x - cx` is not modelled. Pixel values are far from any overflow.
- File handling is left out: opening, appending, durability, `FileNotFoundError` and `os.path.exists`. A missing info file is the empty line sequence; a missing attendance file is `fileExists == false`.
- Reading the attendance file decodes bytes into characters; the file's encoding is not modelled, and the text is taken as already-decoded characters.
- The race between an append and a concurrent read of the attendance file is concurrency and is not modelled.
- The Flask app, `jsonify`, the HTTP error an exception would produce, and the daemon thread (lines 9-12, 173, 189-194) are HTTP and threading plumbing.
- `process_frame` runs only when the window exists (lines 170, 195-197), so `gui` is true in every frame the script processes. `gui` stays an input because the body tests `root`. Frames with `gui == false` cannot occur in the script; what `Step` and `ProcessFrame` say about them describes no run of it.
