/**
 * The few Python `str` operations the attendance script relies on, written
 * out on `seq<char>`: `str.isspace`, `str.strip`, `sep in s`, `str.split(sep)`,
 * `str.split(sep, 1)` and the way a text file breaks into lines.
 */
module PyText {

  /** Python's `str.isspace` for a single character. */
  predicate IsSpace(ch: char)
  {
    ch == ' ' || ('\t' <= ch <= '\r') || ('\U{1C}' <= ch <= '\U{1F}') ||
    ch == '\U{85}' || ch == '\U{A0}' || ch == '\U{1680}' ||
    ('\U{2000}' <= ch <= '\U{200A}') || ch == '\U{2028}' || ch == '\U{2029}' ||
    ch == '\U{202F}' || ch == '\U{205F}' || ch == '\U{3000}'
  }

  /** `s.lstrip()`: leading whitespace removed (characterised by `LStripShape`). */
  function LStrip(s: string): string
    decreases |s|
  {
    if s != [] && IsSpace(s[0]) then LStrip(s[1..]) else s
  }

  /** `s.rstrip()`: trailing whitespace removed (characterised by `RStripShape`). */
  function RStrip(s: string): string
    decreases |s|
  {
    if s != [] && IsSpace(s[|s| - 1]) then RStrip(s[..|s| - 1]) else s
  }

  /** `s.strip()`: whitespace removed from both ends. */
  function Strip(s: string): string
  {
    RStrip(LStrip(s))
  }

  /** Position of the first `c` in `s`. */
  function IndexOf(s: string, c: char): (k: nat)
    requires c in s
    ensures k < |s| && s[k] == c && c !in s[..k]
  {
    if s[0] == c then 0 else IndexOf(s[1..], c) + 1
  }

  /** `s.split(c)`: the pieces between the occurrences of `c`; `""` splits into `[""]`. */
  function SplitOn(s: string, c: char): seq<string>
    decreases |s|
  {
    if c !in s then
      [s]
    else
      var k := IndexOf(s, c);
      [s[..k]] + SplitOn(s[k + 1..], c)
  }

  /** `s.split(c, 1)` for an `s` that holds `c`: the text before and after the first `c`. */
  function SplitFirst(s: string, c: char): (string, string)
    requires c in s
  {
    var k := IndexOf(s, c);
    (s[..k], s[k + 1..])
  }

  /** The text of a file written as the given lines, one after the other. */
  function Concat(lines: seq<string>): string
  {
    if lines == [] then [] else lines[0] + Concat(lines[1..])
  }

  /** Length of the first line of `s`: up to and including the first newline, or all of `s`. */
  function LineLength(s: string): (n: nat)
    requires s != []
    ensures 0 < n <= |s|
    ensures '\n' !in s[..n - 1]
    ensures n < |s| ==> s[n - 1] == '\n'
  {
    if s[0] == '\n' || |s| == 1 then 1 else LineLength(s[1..]) + 1
  }

  /**
   * Text-mode reading with universal newlines: `"\r\n"` and a lone `'\r'`
   * both arrive as `'\n'`.
   */
  function Newlines(s: string): string
    decreases |s|
  {
    if s == [] then []
    else if s[0] == '\r' then
      if |s| > 1 && s[1] == '\n' then "\n" + Newlines(s[2..]) else "\n" + Newlines(s[1..])
    else [s[0]] + Newlines(s[1..])
  }

  /** `file.readlines()` on translated text: cut after every newline, each line keeping its newline. */
  function ReadLines(s: string): seq<string>
    decreases |s|
  {
    if s == [] then [] else
      var n := LineLength(s);
      [s[..n]] + ReadLines(s[n..])
  }

  /** A line as `write` puts it in the file: one newline, at its end. */
  predicate Terminated(line: string)
  {
    line != [] && line[|line| - 1] == '\n' && '\n' !in line[..|line| - 1]
  }

  // ---------------------------------------------------------------------------
  // Lemmas

  /** `lstrip` keeps the longest suffix that does not start with whitespace. */
  lemma {:induction false} LStripShape(s: string)
    ensures |LStrip(s)| <= |s| && LStrip(s) == s[|s| - |LStrip(s)|..]
    ensures forall i :: 0 <= i < |s| - |LStrip(s)| ==> IsSpace(s[i])
    ensures LStrip(s) == [] || !IsSpace(LStrip(s)[0])
    decreases |s|
  {
    if s != [] && IsSpace(s[0]) {
      LStripShape(s[1..]);
      forall i | 1 <= i < |s| - |LStrip(s)| ensures IsSpace(s[i]) {
        assert s[i] == s[1..][i - 1];
      }
    }
  }

  /** `rstrip` keeps the longest prefix that does not end with whitespace. */
  lemma {:induction false} RStripShape(s: string)
    ensures |RStrip(s)| <= |s| && RStrip(s) == s[..|RStrip(s)|]
    ensures forall i :: |RStrip(s)| <= i < |s| ==> IsSpace(s[i])
    ensures RStrip(s) == [] || !IsSpace(RStrip(s)[|RStrip(s)| - 1])
    decreases |s|
  {
    if s != [] && IsSpace(s[|s| - 1]) {
      RStripShape(s[..|s| - 1]);
      forall i | |RStrip(s)| <= i < |s| - 1 ensures IsSpace(s[i]) {
        assert s[i] == s[..|s| - 1][i];
      }
    }
  }

  /** Stripping keeps exactly the part of `s` between its leading and trailing whitespace. */
  lemma StripBounds(s: string) returns (a: nat, b: nat)
    ensures a <= b <= |s| && Strip(s) == s[a..b]
    ensures forall i :: 0 <= i < a ==> IsSpace(s[i])
    ensures forall i :: b <= i < |s| ==> IsSpace(s[i])
    ensures a < b ==> !IsSpace(s[a]) && !IsSpace(s[b - 1])
  {
    var l := LStrip(s);
    LStripShape(s);
    RStripShape(l);
    a := |s| - |l|;
    b := a + |RStrip(l)|;
    assert Strip(s) == l[..b - a];
    forall i | b <= i < |s| ensures IsSpace(s[i]) {
      assert s[i] == l[i - a];
    }
    if a < b {
      assert s[a] == l[0] == RStrip(l)[0];
      assert s[b - 1] == RStrip(l)[b - a - 1];
    }
  }

  /** `s.split(c)` has one piece more than `s` has `c`s, and no piece holds `c`. */
  lemma {:induction false} SplitOnCount(s: string, c: char)
    ensures |SplitOn(s, c)| == multiset(s)[c] + 1
    ensures forall k :: 0 <= k < |SplitOn(s, c)| ==> c !in SplitOn(s, c)[k]
    decreases |s|
  {
    if c in s {
      var k := IndexOf(s, c);
      assert s == s[..k] + [c] + s[k + 1..];
      SplitOnCount(s[k + 1..], c);
    }
  }

  /** Whitespace cannot remove a character that is not whitespace: `c` is counted as often after strip. */
  lemma StripKeepsCount(s: string, c: char)
    requires !IsSpace(c)
    ensures multiset(Strip(s))[c] == multiset(s)[c]
  {
    var a, b := StripBounds(s);
    assert s == s[..a] + s[a..b] + s[b..];
    assert c !in s[..a];
    assert c !in s[b..];
  }

  /** Text without a carriage return reads as written. */
  lemma {:induction false} NewlinesNoCR(s: string)
    requires '\r' !in s
    ensures Newlines(s) == s
    decreases |s|
  {
    if s != [] {
      NewlinesNoCR(s[1..]);
    }
  }

  /** Text-mode reading copies a prefix without carriage returns unchanged. */
  lemma {:induction false} NewlinesPrefix(a: string, s: string)
    requires '\r' !in a
    ensures Newlines(a + s) == a + Newlines(s)
    decreases |a|
  {
    if a != [] {
      assert (a + s)[0] == a[0] && a[0] in a;
      assert (a + s)[1..] == a[1..] + s;
      NewlinesPrefix(a[1..], s);
      assert a == [a[0]] + a[1..];
    } else {
      assert a + s == s;
    }
  }

  /** The first line ends no later than any newline in the text. */
  lemma {:induction false} LineLengthAtMost(s: string, j: nat)
    requires j < |s| && s[j] == '\n'
    ensures LineLength(s) <= j + 1
    decreases j
  {
    if s[0] != '\n' && |s| > 1 {
      LineLengthAtMost(s[1..], j - 1);
    }
  }

  /** A character that no line holds is not in the file made of those lines. */
  lemma {:induction false} ConcatExcludes(lines: seq<string>, c: char)
    requires forall i :: 0 <= i < |lines| ==> c !in lines[i]
    ensures c !in Concat(lines)
  {
    if lines != [] {
      ConcatExcludes(lines[1..], c);
    }
  }

  /** Text that starts and ends with non-whitespace is left alone by strip. */
  lemma StripNoop(s: string)
    requires s == [] || (!IsSpace(s[0]) && !IsSpace(s[|s| - 1]))
    ensures Strip(s) == s
  {
  }

  /** The first `c` of `a + [c] + b` is the one after `a` when `a` holds no `c`. */
  lemma {:induction false} IndexOfAfter(a: string, b: string, c: char)
    requires c !in a
    ensures IndexOf(a + [c] + b, c) == |a|
    decreases |a|
  {
    if a != [] {
      assert (a + [c] + b)[1..] == a[1..] + [c] + b;
      IndexOfAfter(a[1..], b, c);
    }
  }

  /** Splitting `a + [c] + b` with `c` in neither part gives back exactly `a` and `b`. */
  lemma SplitOnPair(a: string, b: string, c: char)
    requires c !in a && c !in b
    ensures SplitOn(a + [c] + b, c) == [a, b]
  {
    var s := a + [c] + b;
    IndexOfAfter(a, b, c);
    assert s[..|a|] == a && s[|a| + 1..] == b;
  }

  /** `split(c, 1)` cuts at the first `c` only: later `c`s stay in the second part. */
  lemma SplitFirstAtFirst(a: string, b: string, c: char)
    requires c !in a
    ensures SplitFirst(a + [c] + b, c) == (a, b)
  {
    var s := a + [c] + b;
    IndexOfAfter(a, b, c);
    assert s[..|a|] == a && s[|a| + 1..] == b;
  }

  /** The first line of a terminated line followed by anything is that line. */
  lemma {:induction false} LineLengthOf(line: string, rest: string)
    requires Terminated(line)
    ensures LineLength(line + rest) == |line|
    decreases |line|
  {
    if |line| > 1 {
      assert line[0] in line[..|line| - 1];
      assert (line + rest)[1..] == line[1..] + rest;
      assert line[1..][..|line[1..]| - 1] == line[..|line| - 1][1..];
      LineLengthOf(line[1..], rest);
    }
  }

  /** Reading back a file written as terminated lines gives those lines. */
  lemma {:induction false} ReadLinesConcat(lines: seq<string>)
    requires forall i :: 0 <= i < |lines| ==> Terminated(lines[i])
    ensures ReadLines(Concat(lines)) == lines
  {
    if lines != [] {
      var rest := Concat(lines[1..]);
      LineLengthOf(lines[0], rest);
      assert (lines[0] + rest)[..|lines[0]|] == lines[0];
      assert (lines[0] + rest)[|lines[0]|..] == rest;
      ReadLinesConcat(lines[1..]);
    }
  }
}
