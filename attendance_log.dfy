/**
 * The attendance file: `mark_attendance` appends one `"{name}, {time}\n"` line
 * per mark, and `get_attendance` reads the file back, strips every line and
 * splits it on `","` into a `{name, time}` record. A missing file reads as no
 * records; a line that does not split into exactly two fields fails the whole
 * read (the tuple unpacking raises).
 */
module AttendanceLog {
  import opened Wrappers
  import opened PyText

  /** One entry of the JSON list `get_attendance` returns. */
  datatype Record = Record(name: string, time: string)

  /** Why a read failed: the (0-based) line whose split did not give two fields. */
  datatype ReadError = BadLine(index: nat)

  /** The line `mark_attendance` appends for `name` at wall-clock text `ts`. */
  function FormatLine(name: string, ts: string): string
  {
    name + ", " + ts + "\n"
  }

  /** `name, time = line.strip().split(",")`: `None` when the unpacking would raise. */
  function ParseLine(line: string): Option<Record>
  {
    var parts := SplitOn(Strip(line), ',');
    if |parts| == 2 then Some(Record(parts[0], parts[1])) else None
  }

  /** The records of the given file lines, or the first line that fails to parse. */
  function ParseAll(lines: seq<string>): Result<seq<Record>, ReadError>
    decreases |lines|
  {
    if lines == [] then Ok([])
    else match ParseAll(lines[..|lines| - 1])
      case Err(e) => Err(e)
      case Ok(records) =>
        match ParseLine(lines[|lines| - 1])
        case None => Err(BadLine(|lines| - 1))
        case Some(rec) => Ok(records + [rec])
  }

  /**
   * `get_attendance`: no file gives the empty list; otherwise each line read
   * from `content` is stripped and split in turn, and the first bad one aborts.
   */
  method GetAttendance(fileExists: bool, content: string) returns (r: Result<seq<Record>, ReadError>)
    ensures !fileExists ==> r == Ok([])
    ensures fileExists ==> r == ParseAll(ReadLines(Newlines(content)))
  {
    if !fileExists {
      return Ok([]);
    }
    var lines := ReadLines(Newlines(content));
    var records := [];
    for k := 0 to |lines|
      invariant ParseAll(lines[..k]) == Ok(records)
    {
      assert lines[..k + 1][..k] == lines[..k];
      var parts := SplitOn(Strip(lines[k]), ',');
      assert ParseLine(lines[k]) == if |parts| == 2 then Some(Record(parts[0], parts[1])) else None;
      if |parts| != 2 {
        FirstBadLineAborts(lines, k);
        return Err(BadLine(k));
      }
      records := records + [Record(parts[0], parts[1])];
    }
    assert lines[..|lines|] == lines;
    return Ok(records);
  }

  /**
   * Which texts come back unchanged: no comma, no newline and no carriage
   * return in either field (text-mode reading would cut the line there),
   * a name that does not start with whitespace, and a time that is not empty
   * and does not end with whitespace (`strip` would eat into them otherwise).
   */
  predicate RoundTrips(name: string, ts: string)
  {
    ',' !in name && '\n' !in name && '\r' !in name &&
    ',' !in ts && '\n' !in ts && '\r' !in ts &&
    (name == [] || !IsSpace(name[0])) && ts != [] && !IsSpace(ts[|ts| - 1])
  }

  /** The lines of a log written by marking each `(name, ts)` entry in order. */
  function LogLines(entries: seq<(string, string)>): seq<string>
  {
    seq(|entries|, i requires 0 <= i < |entries| => FormatLine(entries[i].0, entries[i].1))
  }

  /** The records a reader expects for those entries: each time keeps the space written before it. */
  function ReadBack(entries: seq<(string, string)>): seq<Record>
  {
    seq(|entries|, i requires 0 <= i < |entries| => Record(entries[i].0, " " + entries[i].1))
  }

  // ---------------------------------------------------------------------------
  // Lemmas

  /** A marked line is one file line exactly when neither field holds a newline. */
  lemma FormatLineTerminated(name: string, ts: string)
    ensures Terminated(FormatLine(name, ts)) <==> '\n' !in name && '\n' !in ts
  {
    var line := FormatLine(name, ts);
    assert line[..|line| - 1] == name + ", " + ts;
  }

  /**
   * The whole read succeeds exactly when every line parses; it then yields one
   * record per line in file order, and otherwise reports the first bad line.
   */
  lemma {:induction false} ParseAllSpec(lines: seq<string>)
    ensures ParseAll(lines).Ok? <==> forall i :: 0 <= i < |lines| ==> ParseLine(lines[i]).Some?
    ensures ParseAll(lines).Ok? ==>
      |ParseAll(lines).value| == |lines| &&
      forall i :: 0 <= i < |lines| ==> ParseAll(lines).value[i] == ParseLine(lines[i]).value
    ensures ParseAll(lines).Err? ==>
      ParseAll(lines).error.index < |lines| &&
      ParseLine(lines[ParseAll(lines).error.index]).None? &&
      forall j :: 0 <= j < ParseAll(lines).error.index ==> ParseLine(lines[j]).Some?
    decreases |lines|
  {
    if lines != [] {
      var init, last := lines[..|lines| - 1], lines[|lines| - 1];
      ParseAllSpec(init);
      assert forall i :: 0 <= i < |init| ==> init[i] == lines[i];
      match ParseAll(init)
      case Err(e) =>
        assert ParseAll(lines) == Err(e);
      case Ok(records) =>
        if ParseLine(last).None? {
          assert ParseAll(lines) == Err(BadLine(|init|));
        } else {
          assert ParseAll(lines) == Ok(records + [ParseLine(last).value]);
        }
    }
  }

  /** Once a line fails to parse after good ones, the read fails there, whatever follows. */
  lemma {:induction false} FirstBadLineAborts(lines: seq<string>, k: nat)
    requires k < |lines| && ParseAll(lines[..k]).Ok? && ParseLine(lines[k]).None?
    ensures ParseAll(lines) == Err(BadLine(k))
    decreases |lines|
  {
    var init := lines[..|lines| - 1];
    if k < |init| {
      assert init[..k] == lines[..k] && init[k] == lines[k];
      FirstBadLineAborts(init, k);
    } else {
      assert init == lines[..k];
    }
  }

  /** A line written by `mark_attendance` reads back as the name and `" " + ts`. */
  lemma FormatThenParse(name: string, ts: string)
    requires RoundTrips(name, ts)
    ensures ParseLine(FormatLine(name, ts)) == Some(Record(name, " " + ts))
  {
    var body := name + [','] + (" " + ts);
    var line := FormatLine(name, ts);
    assert line == body + "\n" && line[..|line| - 1] == body;
    assert body[0] == if name == [] then ',' else name[0];
    assert body[|body| - 1] == ts[|ts| - 1];
    StripNoop(body);
    assert LStrip(body) == body;
    assert LStrip(line) == line;
    assert Strip(line) == RStrip(body) == body;
    SplitOnPair(name, " " + ts, ',');
  }

  /** A comma in the name or the timestamp makes its line unreadable. */
  lemma CommaBreaksLine(name: string, ts: string)
    requires ',' in name || ',' in ts
    ensures ParseLine(FormatLine(name, ts)) == None
  {
    var line := FormatLine(name, ts);
    assert line == name + ", " + ts + "\n";
    StripKeepsCount(line, ',');
    SplitOnCount(Strip(line), ',');
    assert multiset(line)[','] == multiset(name)[','] + 1 + multiset(ts)[','];
  }

  /** An empty timestamp loses the separating space to `strip`: the time reads as `""`. */
  lemma EmptyStampReadsEmpty(name: string)
    requires ',' !in name && (name == [] || !IsSpace(name[0]))
    ensures ParseLine(FormatLine(name, "")) == Some(Record(name, ""))
  {
    var line := FormatLine(name, "");
    var spaced, bare := name + [','] + " ", name + [','];
    assert line == spaced + "\n";
    assert LStrip(line) == line;
    assert line[..|line| - 1] == spaced && spaced[..|spaced| - 1] == bare;
    assert RStrip(line) == RStrip(spaced) == RStrip(bare) == bare;
    assert bare == name + [','] + [];
    SplitOnPair(name, "", ',');
  }

  /** Every line of a log of round-tripping entries is one file line and parses back to its entry. */
  lemma LogLinesParse(entries: seq<(string, string)>)
    requires forall i :: 0 <= i < |entries| ==> RoundTrips(entries[i].0, entries[i].1)
    ensures |LogLines(entries)| == |ReadBack(entries)| == |entries|
    ensures forall i :: 0 <= i < |entries| ==>
      Terminated(LogLines(entries)[i]) && '\r' !in LogLines(entries)[i]
    ensures forall i :: 0 <= i < |entries| ==>
      ParseLine(LogLines(entries)[i]) == Some(ReadBack(entries)[i])
  {
    forall i | 0 <= i < |entries|
      ensures Terminated(LogLines(entries)[i]) && '\r' !in LogLines(entries)[i]
      ensures ParseLine(LogLines(entries)[i]) == Some(ReadBack(entries)[i])
    {
      FormatLineTerminated(entries[i].0, entries[i].1);
      FormatThenParse(entries[i].0, entries[i].1);
    }
  }

  /**
   * Log round trip: marking `(A, t1)`, `(B, t2)`, ... and reading the file
   * back gives `[{A, " " + t1}, {B, " " + t2}, ...]` in the same order.
   */
  lemma LogRoundTrip(entries: seq<(string, string)>)
    requires forall i :: 0 <= i < |entries| ==> RoundTrips(entries[i].0, entries[i].1)
    ensures ParseAll(ReadLines(Newlines(Concat(LogLines(entries))))) == Ok(ReadBack(entries))
  {
    var lines := LogLines(entries);
    LogLinesParse(entries);
    ConcatExcludes(lines, '\r');
    NewlinesNoCR(Concat(lines));
    ReadLinesConcat(lines);
    ParseAllSpec(lines);
    assert ParseAll(lines).value == ReadBack(entries);
  }

  /** A line without a comma does not unpack into two fields; a blank line is one such line. */
  lemma NoCommaLineUnreadable(line: string)
    requires ',' !in line
    ensures ParseLine(line) == None
  {
    StripKeepsCount(line, ',');
    SplitOnCount(Strip(line), ',');
  }

  /**
   * A carriage return inside a comma-free name cuts the record in two when
   * the file is read in text mode: the first piece has no comma, so the read
   * fails at that line.
   */
  lemma CarriageReturnBreaksRead(name: string, ts: string)
    requires ',' !in name && '\r' in name
    ensures ParseAll(ReadLines(Newlines(FormatLine(name, ts)))) == Err(BadLine(0))
  {
    var k := IndexOf(name, '\r');
    var head := name[..k];
    var rest := name[k..] + ", " + ts + "\n";
    assert FormatLine(name, ts) == head + rest;
    assert rest[0] == '\r';
    NewlinesPrefix(head, rest);
    var text := Newlines(FormatLine(name, ts));
    assert text == head + Newlines(rest);
    assert text[|head|] == '\n';
    LineLengthAtMost(text, |head|);
    var n := LineLength(text);
    var lines := ReadLines(text);
    assert lines[0] == text[..n];
    forall i | 0 <= i < n ensures text[..n][i] != ',' {
      if i < |head| {
        assert text[i] == name[i];
      }
    }
    NoCommaLineUnreadable(text[..n]);
    assert lines[..0] == [];
    FirstBadLineAborts(lines, 0);
  }

  /** An existing but empty file reads as the empty list, like a missing one. */
  lemma EmptyFileNoRecords()
    ensures ParseAll(ReadLines(Newlines(""))) == Ok([])
  {
  }
}
