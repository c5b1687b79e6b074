/**
 * Identity resolution in `process_frame`: a detected face box is compared with
 * the reference boxes of each known person, in table order, under a strict
 * per-axis pixel tolerance; the first person owning a box within tolerance wins.
 */
module Matcher {
  import opened Wrappers

  /** A face rectangle `(x, y, w, h)` in pixels. */
  datatype Box = Box(x: int, y: int, w: int, h: int)

  /** The known persons with their recorded boxes, in the coordinate file's key order. */
  type Table = seq<(string, seq<Box>)>

  /** Smallest per-axis difference that is not tolerated: a match needs every axis strictly below it. */
  const Tolerance: int := 20

  function Abs(n: int): nat
  {
    if n < 0 then -n else n
  }

  /** The four-axis test: every coordinate differs by strictly less than `Tolerance`. */
  predicate Near(d: Box, c: Box)
  {
    Abs(d.x - c.x) < Tolerance && Abs(d.y - c.y) < Tolerance &&
    Abs(d.w - c.w) < Tolerance && Abs(d.h - c.h) < Tolerance
  }

  /** Some box in `boxes` is within tolerance of `d`. */
  predicate OwnsNear(boxes: seq<Box>, d: Box)
  {
    exists k :: 0 <= k < |boxes| && Near(d, boxes[k])
  }

  /** The name the scan settles on for `d`: the first person, in table order, owning a box near `d`. */
  function FirstMatch(table: Table, d: Box): Option<string>
  {
    if table == [] then None
    else if OwnsNear(table[0].1, d) then Some(table[0].0)
    else FirstMatch(table[1..], d)
  }

  /**
   * The nested scan of `process_frame` for one detected box: persons in table
   * order, their boxes in order, leaving both loops at the first box in tolerance.
   */
  method Resolve(table: Table, d: Box) returns (found: bool, name: string)
    ensures found <==> FirstMatch(table, d).Some?
    ensures found ==> FirstMatch(table, d) == Some(name)
  {
    found, name := false, "";
    var i := 0;
    while i < |table|
      invariant 0 <= i <= |table|
      invariant FirstMatch(table, d) == FirstMatch(table[i..], d)
    {
      var (person, boxes) := table[i];
      var j := 0;
      while j < |boxes|
        invariant 0 <= j <= |boxes|
        invariant forall k :: 0 <= k < j ==> !Near(d, boxes[k])
      {
        if Near(d, boxes[j]) {
          found, name := true, person;
          break;
        }
        j := j + 1;
      }
      if found {
        break;
      }
      assert table[i..][1..] == table[i + 1..];
      i := i + 1;
    }
  }

  // ---------------------------------------------------------------------------
  // Lemmas

  /**
   * The tolerance is exclusive: a difference of `Tolerance` or more on any one
   * axis rules the reference box out, whatever the other axes are.
   */
  lemma BoundaryExcluded(d: Box, c: Box)
    requires Abs(d.x - c.x) >= Tolerance || Abs(d.y - c.y) >= Tolerance ||
             Abs(d.w - c.w) >= Tolerance || Abs(d.h - c.h) >= Tolerance
    ensures !Near(d, c)
  {
  }

  /**
   * What the scan returns, stated without the scan: `Some(n)` exactly when
   * some person `i` is called `n` and owns a box near `d`, and no person
   * before `i` owns one.
   */
  lemma {:induction false} FirstMatchIsFirst(table: Table, d: Box, n: string)
    ensures FirstMatch(table, d) == Some(n) <==>
      exists i :: 0 <= i < |table| && table[i].0 == n && OwnsNear(table[i].1, d) &&
        forall p :: 0 <= p < i ==> !OwnsNear(table[p].1, d)
  {
    if table != [] {
      FirstMatchIsFirst(table[1..], d, n);
      if FirstMatch(table, d) == Some(n) && !OwnsNear(table[0].1, d) {
        var i :| 0 <= i < |table[1..]| && table[1..][i].0 == n && OwnsNear(table[1..][i].1, d) &&
          forall p :: 0 <= p < i ==> !OwnsNear(table[1..][p].1, d);
        assert table[i + 1] == table[1..][i];
        forall p | 0 <= p < i + 1 ensures !OwnsNear(table[p].1, d) {
          if p > 0 { assert table[p] == table[1..][p - 1]; }
        }
      }
      if exists i :: 0 <= i < |table| && table[i].0 == n && OwnsNear(table[i].1, d) &&
          forall p :: 0 <= p < i ==> !OwnsNear(table[p].1, d) {
        var i :| 0 <= i < |table| && table[i].0 == n && OwnsNear(table[i].1, d) &&
          forall p :: 0 <= p < i ==> !OwnsNear(table[p].1, d);
        if i > 0 {
          assert table[1..][i - 1] == table[i];
          forall p | 0 <= p < i - 1 ensures !OwnsNear(table[1..][p].1, d) {
            assert table[1..][p] == table[p + 1];
          }
        }
      }
    }
  }

  /** A box resolves to no one exactly when no person owns a box near it. */
  lemma {:induction false} NoMatchIffNoneNear(table: Table, d: Box)
    ensures FirstMatch(table, d) == None <==>
      forall i :: 0 <= i < |table| ==> !OwnsNear(table[i].1, d)
  {
    if table != [] {
      NoMatchIffNoneNear(table[1..], d);
      if forall i :: 0 <= i < |table[1..]| ==> !OwnsNear(table[1..][i].1, d) {
        forall i | 1 <= i < |table| ensures !OwnsNear(table[i].1, d) {
          assert table[i] == table[1..][i - 1];
        }
      }
    }
  }

  /**
   * Persons after the one found are never consulted: extending the table
   * after a match does not change the result.
   */
  lemma {:induction false} FirstMatchIgnoresLater(table: Table, later: Table, d: Box)
    requires FirstMatch(table, d).Some?
    ensures FirstMatch(table + later, d) == FirstMatch(table, d)
  {
    if !OwnsNear(table[0].1, d) {
      assert (table + later)[1..] == table[1..] + later;
      FirstMatchIgnoresLater(table[1..], later, d);
    }
  }

  /** A table with no persons recognises nobody. */
  lemma EmptyTableNoMatch(d: Box)
    ensures FirstMatch([], d) == None
  {
  }

  /** An example: Alice recorded at (100,100,50,50) is recognised at (105,95,55,52). */
  lemma AliceExample()
    ensures FirstMatch([("Alice", [Box(100, 100, 50, 50)])], Box(105, 95, 55, 52)) == Some("Alice")
  {
    var alice := [Box(100, 100, 50, 50)];
    assert Near(Box(105, 95, 55, 52), alice[0]);
    assert OwnsNear(alice, Box(105, 95, 55, 52));
  }
}
