/**
 * `load_person_info`: the `name: info` lines of the person-info file folded
 * into a dictionary. A line without a colon is skipped; a line with one is cut
 * at its first colon and both sides are whitespace-trimmed; a later line with
 * the same trimmed name overwrites the earlier entry.
 */
module PersonInfo {
  import opened PyText

  /** The trimmed `(name, info)` pair of a line that holds a colon. */
  function ParseInfoLine(line: string): (string, string)
    requires ':' in line
  {
    var (name, info) := SplitFirst(line, ':');
    (Strip(name), Strip(info))
  }

  /** The dictionary after reading `lines` in order. */
  function InfoOf(lines: seq<string>): map<string, string>
    decreases |lines|
  {
    if lines == [] then map[]
    else
      var before := InfoOf(lines[..|lines| - 1]);
      var line := lines[|lines| - 1];
      if ':' in line then before[ParseInfoLine(line).0 := ParseInfoLine(line).1] else before
  }

  /** The loop of `load_person_info`; a missing file reads as no lines. */
  method LoadPersonInfo(lines: seq<string>) returns (info: map<string, string>)
    ensures info == InfoOf(lines)
  {
    info := map[];
    for k := 0 to |lines|
      invariant info == InfoOf(lines[..k])
    {
      assert lines[..k + 1][..k] == lines[..k];
      var line := lines[k];
      if ':' in line {
        var (name, text) := SplitFirst(line, ':');
        info := info[Strip(name) := Strip(text)];
      }
    }
    assert lines[..|lines|] == lines;
  }

  // ---------------------------------------------------------------------------
  // Lemmas

  /** The names in the dictionary are exactly the trimmed names of the lines that hold a colon. */
  lemma {:induction false} InfoKeys(lines: seq<string>, name: string)
    ensures name in InfoOf(lines) <==>
      exists i :: 0 <= i < |lines| && ':' in lines[i] && ParseInfoLine(lines[i]).0 == name
    decreases |lines|
  {
    if lines != [] {
      var init, last := lines[..|lines| - 1], lines[|lines| - 1];
      InfoKeys(init, name);
      var hit := ':' in last && ParseInfoLine(last).0 == name;
      assert name in InfoOf(lines) <==> hit || name in InfoOf(init);
      if hit {
        assert ':' in lines[|lines| - 1] && ParseInfoLine(lines[|lines| - 1]).0 == name;
      } else if name in InfoOf(init) {
        var i :| 0 <= i < |init| && ':' in init[i] && ParseInfoLine(init[i]).0 == name;
        assert lines[i] == init[i];
      } else {
        forall i | 0 <= i < |lines| && ':' in lines[i]
          ensures ParseInfoLine(lines[i]).0 != name
        {
          if i < |init| {
            assert lines[i] == init[i];
          }
        }
      }
    }
  }

  /**
   * Last line wins: the info stored for a line's name is that line's info
   * when no later line with a colon carries the same name.
   */
  lemma {:induction false} InfoLastWins(lines: seq<string>, i: nat)
    requires i < |lines| && ':' in lines[i]
    requires forall j :: i < j < |lines| && ':' in lines[j] ==>
      ParseInfoLine(lines[j]).0 != ParseInfoLine(lines[i]).0
    ensures ParseInfoLine(lines[i]).0 in InfoOf(lines)
    ensures InfoOf(lines)[ParseInfoLine(lines[i]).0] == ParseInfoLine(lines[i]).1
    decreases |lines|
  {
    var init, last := lines[..|lines| - 1], lines[|lines| - 1];
    var entry := ParseInfoLine(lines[i]);
    if i < |init| {
      assert init[i] == lines[i];
      forall j | i < j < |init| && ':' in init[j]
        ensures ParseInfoLine(init[j]).0 != entry.0
      {
        assert init[j] == lines[j];
      }
      InfoLastWins(init, i);
      assert !(':' in last && ParseInfoLine(last).0 == entry.0);
    }
  }

  /** A line is cut at its first colon only, so the info part may itself contain colons. */
  lemma InfoKeepsLaterColons(name: string, info: string)
    requires ':' !in name
    ensures ParseInfoLine(name + ":" + info) == (Strip(name), Strip(info))
  {
    SplitFirstAtFirst(name, info, ':');
  }

  /** A line without a colon leaves the dictionary as it was. */
  lemma NoColonIgnored(lines: seq<string>, line: string)
    requires ':' !in line
    ensures InfoOf(lines + [line]) == InfoOf(lines)
  {
    assert (lines + [line])[..|lines|] == lines;
  }
}
