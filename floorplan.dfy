/**
 * The floorplan the DotBots move in. A drawing, given as its lines, keeps
 * its non-empty lines; '#' is an obstacle, '.' is floor and 's' the start.
 * The drawing is valid when a flood from the start over floor cells, eight
 * neighbours at a time, never looks outside the drawing. Indices follow
 * Python: a negative row or column counts from the end.
 *
 * The drawing is given already split into lines; Python's splitlines is not
 * part of this model.
 */
module Floorplan {
  import opened SeqUtil
  import opened Grid

  /** The exceptions the floorplan code lets escape: a failed assert, and max() of an empty list. */
  datatype FloorplanError = AssertionError | ValueError

  /** One '#' of the drawing as the JSON obstacle {x, y, width, height}. */
  datatype Obstacle = Obstacle(x: nat, y: nat, width: nat, height: nat)

  /** What getJSON returns. */
  datatype FloorplanJson = FloorplanJson(width: nat, height: nat, obstacles: seq<Obstacle>)

  /** Dropping empty lines keeps a list of non-empty lines as it is. */
  lemma {:induction false} NonEmptyKeeps(lines: seq<string>)
    requires forall i :: 0 <= i < |lines| ==> lines[i] != []
    ensures NonEmpty(lines) == lines
  {
    if lines != [] {
      NonEmptyKeeps(lines[1..]);
    }
  }

  /** The non-empty lines of a drawing, in order. */
  function NonEmpty(lines: seq<string>): (r: seq<string>)
    ensures forall l :: l in r <==> l in lines && l != []
    ensures |r| <= |lines|
  {
    if lines == [] then []
    else (if lines[0] != [] then [lines[0]] else []) + NonEmpty(lines[1..])
  }

  /** The length of the longest line; a list of lines with no line has none, which is 0 here. */
  function MaxLen(ls: seq<string>): (w: nat)
    ensures forall i :: 0 <= i < |ls| ==> |ls[i]| <= w
    ensures ls != [] ==> exists i :: 0 <= i < |ls| && |ls[i]| == w
  {
    if ls == [] then 0
    else
      var rest := MaxLen(ls[1..]);
      assert forall i :: 1 <= i < |ls| ==> ls[i] == ls[1..][i - 1];
      if |ls[0]| >= rest then |ls[0]| else rest
  }

  /** Obstacles listed in row-major order: by row, and within a row by column. */
  predicate RowMajor(r: seq<Obstacle>)
  {
    forall i, j :: 0 <= i < j < |r| ==> r[i].y < r[j].y || (r[i].y == r[j].y && r[i].x < r[j].x)
  }

  /** The obstacles of row `y` from column `x` on, left to right. */
  function RowObstacles(line: string, y: nat, x: nat): (r: seq<Obstacle>)
    requires x <= |line|
    ensures forall o :: o in r <==> o.y == y && x <= o.x < |line| && line[o.x] == '#' && o.width == 1 && o.height == 1
    ensures RowMajor(r)
    decreases |line| - x
  {
    if x == |line| then []
    else
      var rest := RowObstacles(line, y, x + 1);
      (if line[x] == '#' then [Obstacle(x, y, 1, 1)] else []) + rest
  }

  /** The obstacles of rows `y` onwards, row after row. */
  function ObstaclesFrom(ls: seq<string>, y: nat): (r: seq<Obstacle>)
    requires y <= |ls|
    ensures forall o :: o in r <==> y <= o.y < |ls| && o.x < |ls[o.y]| && ls[o.y][o.x] == '#' && o.width == 1 && o.height == 1
    ensures RowMajor(r)
    decreases |ls| - y
  {
    if y == |ls| then []
    else
      var row, rest := RowObstacles(ls[y], y, 0), ObstaclesFrom(ls, y + 1);
      RowMajorAppend(row, rest, y);
      row + rest
  }

  /** A row of obstacles followed by obstacles of later rows is in row-major order. */
  lemma RowMajorAppend(row: seq<Obstacle>, rest: seq<Obstacle>, y: nat)
    requires RowMajor(row) && RowMajor(rest)
    requires forall o :: o in row ==> o.y == y
    requires forall o :: o in rest ==> o.y > y
    ensures RowMajor(row + rest)
  {
    var r := row + rest;
    forall i, j | 0 <= i < j < |r|
      ensures r[i].y < r[j].y || (r[i].y == r[j].y && r[i].x < r[j].x)
    {
      if j < |row| {
        assert r[i] == row[i] && r[j] == row[j];
      } else if i >= |row| {
        assert r[i] == rest[i - |row|] && r[j] == rest[j - |row|];
      } else {
        assert r[i] == row[i] && r[j] == rest[j - |row|];
        assert row[i] in row && rest[j - |row|] in rest;
      }
    }
  }

  /**
   * _parseDrawing: the width is the longest non-empty line, the height the
   * number of non-empty lines, and there is one unit obstacle per '#' at
   * its (column, row), in row-major order and nothing else. Without a
   * non-empty line, max() raises ValueError.
   */
  function ParseDrawing(lines: seq<string>): (r: Result<FloorplanJson, FloorplanError>)
    ensures r.Err? <==> NonEmpty(lines) == []
    ensures r.Err? ==> r.error == ValueError
    ensures r.Ok? ==> r.value.height == |NonEmpty(lines)|
    ensures r.Ok? ==> (forall l :: l in NonEmpty(lines) ==> |l| <= r.value.width) &&
                      exists l :: l in NonEmpty(lines) && |l| == r.value.width
    ensures r.Ok? ==> RowMajor(r.value.obstacles)
    ensures r.Ok? ==> forall o :: o in r.value.obstacles <==>
      var ls := NonEmpty(lines);
      o.y < |ls| && o.x < |ls[o.y]| && ls[o.y][o.x] == '#' && o.width == 1 && o.height == 1
  {
    var ls := NonEmpty(lines);
    if ls == [] then Err(ValueError)
    else Ok(FloorplanJson(MaxLen(ls), |ls|, ObstaclesFrom(ls, 0)))
  }

  /**
   * Python's m[r][c] on the lines `m`: a negative index counts from the
   * end, and an index outside the line or the list raises IndexError
   * (None here).
   */
  function CharAt(m: seq<string>, p: Cell): Option<char>
  {
    if -|m| <= p.0 < |m| then
      var line := m[if p.0 < 0 then p.0 + |m| else p.0];
      if -|line| <= p.1 < |line| then Some(line[if p.1 < 0 then p.1 + |line| else p.1]) else None
    else None
  }

  /** The characters a drawing may hold. */
  predicate Legal(ch: char)
  {
    ch == '#' || ch == '.' || ch == 's'
  }

  /** A cell the flood enters: it reads '.' or 's'. */
  predicate Floodable(m: seq<string>, p: Cell)
  {
    CharAt(m, p) == Some('.') || CharAt(m, p) == Some('s')
  }

  /** A cell whose character fails the assert. */
  predicate BadAt(m: seq<string>, p: Cell)
  {
    CharAt(m, p).Some? && !Legal(CharAt(m, p).value)
  }

  /** The eight neighbours of (r, c) in the order the flood looks at them. */
  function Around(p: Cell): seq<Cell>
  {
    var (r, c) := p;
    [(r + 1, c), (r - 1, c), (r, c - 1), (r, c + 1),
     (r - 1, c - 1), (r + 1, c + 1), (r - 1, c + 1), (r + 1, c - 1)]
  }

  lemma AroundMembers(p: Cell)
    ensures forall n :: n in Around(p) <==> Adjacent(p, n)
  {
    var a := Around(p);
    forall n | Adjacent(p, n)
      ensures n in a
    {
      var dr, dc := n.0 - p.0, n.1 - p.1;
      if dr == 1 && dc == 0 { assert n == a[0]; }
      else if dr == -1 && dc == 0 { assert n == a[1]; }
      else if dr == 0 && dc == -1 { assert n == a[2]; }
      else if dr == 0 && dc == 1 { assert n == a[3]; }
      else if dr == -1 && dc == -1 { assert n == a[4]; }
      else if dr == 1 && dc == 1 { assert n == a[5]; }
      else if dr == -1 && dc == 1 { assert n == a[6]; }
      else { assert n == a[7]; }
    }
  }

  /** The start cell: the first 's' of the first line, from line `r` on, that has one. */
  function StartOf(m: seq<string>, r: nat): (s: Option<Cell>)
    requires r <= |m|
    ensures s.None? <==> forall i :: r <= i < |m| ==> 's' !in m[i]
    ensures s.Some? ==> r <= s.value.0 < |m| && 0 <= s.value.1 < |m[s.value.0]| && m[s.value.0][s.value.1] == 's'
    ensures s.Some? ==> 's' !in m[s.value.0][..s.value.1] && forall i :: r <= i < s.value.0 ==> 's' !in m[i]
    decreases |m| - r
  {
    if r == |m| then None
    else if 's' in m[r] then Some((r, IndexOf(m[r], 's')))
    else StartOf(m, r + 1)
  }

  /** A flood path: from `s`, each next cell is a floodable neighbour of the one before. */
  ghost predicate FloodPath(m: seq<string>, s: Cell, w: seq<Cell>)
  {
    |w| > 0 && w[0] == s &&
    forall k :: 0 < k < |w| ==> Adjacent(w[k - 1], w[k]) && Floodable(m, w[k])
  }

  /** The flood from `s` reaches `p`. */
  ghost predicate Flooded(m: seq<string>, s: Cell, p: Cell)
  {
    exists w :: FloodPath(m, s, w) && w[|w| - 1] == p
  }

  /** Some flooded cell has a neighbour outside the drawing. */
  ghost predicate Leaks(m: seq<string>, s: Cell)
  {
    exists p, n :: Flooded(m, s, p) && Adjacent(p, n) && CharAt(m, n).None?
  }

  /** Some flooded cell has a neighbour holding a character other than '#', '.' and 's'. */
  ghost predicate MeetsBadChar(m: seq<string>, s: Cell)
  {
    exists p, n :: Flooded(m, s, p) && Adjacent(p, n) && BadAt(m, n)
  }

  /**
   * What _isMapValid decides, stated on the flood: no 's' is invalid; a
   * flood meeting an unknown character fails the assert; otherwise the
   * drawing is valid exactly when the flood never looks outside it.
   */
  ghost function Validity(lines: seq<string>): Result<bool, FloorplanError>
  {
    var m := NonEmpty(lines);
    match StartOf(m, 0)
    case None => Ok(false)
    case Some(s) => if MeetsBadChar(m, s) then Err(AssertionError) else Ok(!Leaks(m, s))
  }

  lemma FloodStep(m: seq<string>, s: Cell, p: Cell, n: Cell)
    requires Flooded(m, s, p) && Adjacent(p, n) && Floodable(m, n)
    ensures Flooded(m, s, n)
  {
    var w :| FloodPath(m, s, w) && w[|w| - 1] == p;
    assert FloodPath(m, s, w + [n]);
  }

  /** A set holding `s` and every floodable neighbour of its members holds the whole flood. */
  lemma FloodWithin(m: seq<string>, s: Cell, area: set<Cell>, p: Cell)
    requires s in area
    requires forall q, n :: q in area && Adjacent(q, n) && Floodable(m, n) ==> n in area
    requires Flooded(m, s, p)
    ensures p in area
  {
    var w :| FloodPath(m, s, w) && w[|w| - 1] == p;
    PathWithin(m, s, area, w);
  }

  lemma {:induction false} PathWithin(m: seq<string>, s: Cell, area: set<Cell>, w: seq<Cell>)
    requires s in area
    requires forall q, n :: q in area && Adjacent(q, n) && Floodable(m, n) ==> n in area
    requires FloodPath(m, s, w)
    ensures w[|w| - 1] in area
  {
    if |w| > 1 {
      var init := w[..|w| - 1];
      assert FloodPath(m, s, init);
      PathWithin(m, s, area, init);
    }
  }

  /** Every position a Python index can reach in `m`. */
  function Box(m: seq<string>): set<Cell>
  {
    var w: int := MaxLen(m);
    set r: int, c: int | -|m| <= r < |m| && -w <= c < w :: (r, c)
  }

  lemma BoxHolds(m: seq<string>, p: Cell)
    requires CharAt(m, p).Some?
    ensures p in Box(m)
  {
    var r := if p.0 < 0 then p.0 + |m| else p.0;
    assert |m[r]| <= MaxLen(m);
    assert p == (p.0, p.1);
  }

  /**
   * The inner loop of _isMapValid for the cell `p` just checked: looks at
   * its eight neighbours, reports a failed assert (`bad`), an IndexError
   * (`leak`), and queues each floodable neighbour not yet queued or
   * checked.
   */
  method ScanAround(m: seq<string>, p: Cell, toCheck: seq<Cell>, checked: seq<Cell>)
    returns (toCheck': seq<Cell>, bad: bool, leak: bool)
    ensures bad ==> exists n :: Adjacent(p, n) && BadAt(m, n)
    ensures !bad ==> forall n :: Adjacent(p, n) ==> !BadAt(m, n)
    ensures !bad ==> (leak <==> exists n :: Adjacent(p, n) && CharAt(m, n).None?)
    ensures |toCheck| <= |toCheck'| && toCheck'[..|toCheck|] == toCheck
    ensures forall k :: |toCheck| <= k < |toCheck'| ==>
      Adjacent(p, toCheck'[k]) && Floodable(m, toCheck'[k]) && toCheck'[k] !in toCheck && toCheck'[k] !in checked
    ensures !bad ==> forall n :: Adjacent(p, n) && Floodable(m, n) ==> n in toCheck' || n in checked
  {
    var around := Around(p);
    AroundMembers(p);
    toCheck', bad, leak := toCheck, false, false;
    for j := 0 to 8
      invariant |toCheck| <= |toCheck'| && toCheck'[..|toCheck|] == toCheck
      invariant forall k :: |toCheck| <= k < |toCheck'| ==>
        Adjacent(p, toCheck'[k]) && Floodable(m, toCheck'[k]) && toCheck'[k] !in toCheck && toCheck'[k] !in checked
      invariant forall n :: n in around[..j] ==> !BadAt(m, n)
      invariant leak <==> exists n :: n in around[..j] && CharAt(m, n).None?
      invariant forall n :: n in around[..j] && Floodable(m, n) ==> n in toCheck' || n in checked
    {
      var n := around[j];
      assert around[..j + 1] == around[..j] + [n];
      assert n in around[..j + 1];
      var ch := CharAt(m, n);
      if ch.None? {
        leak := true;
      } else if !Legal(ch.value) {
        assert Adjacent(p, n) && BadAt(m, n);
        return toCheck', true, leak;
      } else if ch.value != '#' && n !in toCheck' && n !in checked {
        assert n !in toCheck by {
          assert forall x :: x in toCheck ==> x in toCheck'[..|toCheck|];
        }
        toCheck' := toCheck' + [n];
      }
    }
  }

  /** The cells of the box not yet queued or checked: the flood's measure of progress. */
  ghost function Unseen(m: seq<string>, toCheck: seq<Cell>, checked: seq<Cell>): set<Cell>
  {
    Box(m) - (Elems(toCheck) + Elems(checked))
  }

  /** Every queued or checked cell is flooded and lies in the box. */
  ghost predicate Sound(m: seq<string>, s: Cell, toCheck: seq<Cell>, checked: seq<Cell>)
  {
    forall q :: q in toCheck || q in checked ==> Flooded(m, s, q) && q in Box(m)
  }

  /** Every floodable neighbour of a checked cell is queued or checked. */
  ghost predicate Closed(m: seq<string>, toCheck: seq<Cell>, checked: seq<Cell>)
  {
    forall q, n :: q in checked && Adjacent(q, n) && Floodable(m, n) ==> n in toCheck || n in checked
  }

  /** No checked cell has a neighbour with an unknown character. */
  ghost predicate NoBadNear(m: seq<string>, checked: seq<Cell>)
  {
    forall q, n :: q in checked && Adjacent(q, n) ==> !BadAt(m, n)
  }

  /** No checked cell has a neighbour outside the drawing. */
  ghost predicate Enclosed(m: seq<string>, checked: seq<Cell>)
  {
    forall q, n :: q in checked && Adjacent(q, n) ==> CharAt(m, n).Some?
  }

  /** What the flood keeps true between two rounds of _isMapValid's loop. */
  ghost predicate FloodInv(m: seq<string>, s: Cell, toCheck: seq<Cell>, checked: seq<Cell>, returnVal: bool)
  {
    (s in toCheck || s in checked) && Sound(m, s, toCheck, checked) && Closed(m, toCheck, checked) &&
    NoBadNear(m, checked) && (returnVal <==> Enclosed(m, checked))
  }

  /**
   * One round of _isMapValid's loop: pops the first queued cell, records it
   * as checked and scans its neighbours; `bad` reports the failed assert.
   */
  method CheckNext(m: seq<string>, ghost s: Cell, toCheck: seq<Cell>, checked: seq<Cell>, returnVal: bool)
    returns (toCheck': seq<Cell>, checked': seq<Cell>, returnVal': bool, bad: bool)
    requires toCheck != [] && FloodInv(m, s, toCheck, checked, returnVal)
    ensures bad ==> MeetsBadChar(m, s)
    ensures !bad ==> FloodInv(m, s, toCheck', checked', returnVal')
    ensures !bad ==> (|Unseen(m, toCheck', checked')| < |Unseen(m, toCheck, checked)| ||
      (Unseen(m, toCheck', checked') == Unseen(m, toCheck, checked) && |toCheck'| < |toCheck|))
  {
    var p := toCheck[0];
    var rest := toCheck[1..];
    assert toCheck == [p] + rest;
    checked' := checked + [p];
    var leak;
    toCheck', bad, leak := ScanAround(m, p, rest, checked');
    returnVal' := returnVal && !leak;
    assert Flooded(m, s, p);
    if bad {
      return;
    }
    assert forall q :: q in toCheck' ==> q in rest || q in toCheck'[|rest|..] by {
      assert toCheck' == rest + toCheck'[|rest|..];
    }
    assert forall q :: q in rest ==> q in toCheck' by {
      assert forall q :: q in rest ==> q in toCheck'[..|rest|];
    }
    SoundAfter(m, s, p, rest, checked, toCheck');
    ClosedAfter(m, p, rest, checked, toCheck');
    EnclosedAfter(m, p, checked, leak);
    ProgressAfter(m, p, rest, checked, toCheck');
  }

  lemma SoundAfter(m: seq<string>, s: Cell, p: Cell, rest: seq<Cell>, checked: seq<Cell>, toCheck': seq<Cell>)
    requires Sound(m, s, [p] + rest, checked) && |rest| <= |toCheck'|
    requires forall q :: q in toCheck' ==> q in rest || q in toCheck'[|rest|..]
    requires forall k :: |rest| <= k < |toCheck'| ==> Adjacent(p, toCheck'[k]) && Floodable(m, toCheck'[k])
    ensures Sound(m, s, toCheck', checked + [p])
  {
    assert p in [p] + rest;
    NewCellsFlooded(m, s, p, rest, toCheck');
    forall q | q in toCheck' || q in checked + [p]
      ensures Flooded(m, s, q) && q in Box(m)
    {
      if q in rest {
        assert q in [p] + rest;
      } else if q in toCheck'[|rest|..] {
        var k :| 0 <= k < |toCheck'[|rest|..]| && toCheck'[|rest|..][k] == q;
        assert toCheck'[|rest| + k] == q;
      }
    }
  }

  lemma ClosedAfter(m: seq<string>, p: Cell, rest: seq<Cell>, checked: seq<Cell>, toCheck': seq<Cell>)
    requires Closed(m, [p] + rest, checked)
    requires forall q :: q in rest ==> q in toCheck'
    requires forall n :: Adjacent(p, n) && Floodable(m, n) ==> n in toCheck' || n in checked + [p]
    ensures Closed(m, toCheck', checked + [p])
  {
    forall q, n | q in checked + [p] && Adjacent(q, n) && Floodable(m, n)
      ensures n in toCheck' || n in checked + [p]
    {
      if q != p {
        assert q in checked;
        assert n in [p] + rest || n in checked;
      }
    }
  }

  lemma EnclosedAfter(m: seq<string>, p: Cell, checked: seq<Cell>, leak: bool)
    requires leak <==> exists n :: Adjacent(p, n) && CharAt(m, n).None?
    ensures Enclosed(m, checked + [p]) <==> Enclosed(m, checked) && !leak
  {
    if Enclosed(m, checked) && !leak {
      forall q, n | q in checked + [p] && Adjacent(q, n)
        ensures CharAt(m, n).Some?
      {
        if q != p {
          assert q in checked;
        }
      }
    }
    if leak {
      var n :| Adjacent(p, n) && CharAt(m, n).None?;
      assert p in checked + [p];
    }
    if !Enclosed(m, checked) {
      var q, n :| q in checked && Adjacent(q, n) && CharAt(m, n).None?;
      assert q in checked + [p];
    }
  }

  lemma ProgressAfter(m: seq<string>, p: Cell, rest: seq<Cell>, checked: seq<Cell>, toCheck': seq<Cell>)
    requires |rest| <= |toCheck'| && toCheck'[..|rest|] == rest
    requires forall q :: q in toCheck' ==> q in rest || q in toCheck'[|rest|..]
    requires forall k :: |rest| <= k < |toCheck'| ==>
      Floodable(m, toCheck'[k]) && toCheck'[k] !in rest && toCheck'[k] !in checked + [p]
    ensures |Unseen(m, toCheck', checked + [p])| < |Unseen(m, [p] + rest, checked)| ||
      (Unseen(m, toCheck', checked + [p]) == Unseen(m, [p] + rest, checked) && |toCheck'| < |[p] + rest|)
  {
    var before := Unseen(m, [p] + rest, checked);
    var after := Unseen(m, toCheck', checked + [p]);
    assert forall q :: q in rest ==> q in toCheck' by {
      assert forall q :: q in rest ==> q in toCheck'[..|rest|];
    }
    assert p in checked + [p];
    if |toCheck'| > |rest| {
      var n := toCheck'[|rest|];
      BoxHolds(m, n);
      assert n in before && n !in after;
      ProperSubsetCard(after, before);
    } else {
      assert toCheck' == rest;
      assert after == before;
    }
  }

  lemma NewCellsFlooded(m: seq<string>, s: Cell, p: Cell, rest: seq<Cell>, toCheck': seq<Cell>)
    requires Flooded(m, s, p) && |rest| <= |toCheck'|
    requires forall k :: |rest| <= k < |toCheck'| ==> Adjacent(p, toCheck'[k]) && Floodable(m, toCheck'[k])
    ensures forall k :: |rest| <= k < |toCheck'| ==> Flooded(m, s, toCheck'[k]) && toCheck'[k] in Box(m)
  {
    forall k | |rest| <= k < |toCheck'|
      ensures Flooded(m, s, toCheck'[k]) && toCheck'[k] in Box(m)
    {
      FloodStep(m, s, p, toCheck'[k]);
      BoxHolds(m, toCheck'[k]);
    }
  }

  /**
   * _isMapValid: floods from the start cell through '.' and 's' cells, first
   * in first out, and decides the drawing valid when no checked cell has a
   * neighbour outside it; a neighbour holding any other character fails the
   * assert.
   */
  method IsMapValid(lines: seq<string>) returns (r: Result<bool, FloorplanError>)
    ensures r == Validity(lines)
  {
    var m := NonEmpty(lines);
    var start := StartOf(m, 0);
    if start.None? {
      return Ok(false);
    }
    var s := start.value;
    BoxHolds(m, s);
    var returnVal := true;
    var toCheck: seq<Cell> := [s];
    var checked: seq<Cell> := [];
    assert FloodPath(m, s, [s]);
    while toCheck != []
      invariant FloodInv(m, s, toCheck, checked, returnVal)
      decreases |Unseen(m, toCheck, checked)|, |toCheck|
    {
      var bad;
      toCheck, checked, returnVal, bad := CheckNext(m, s, toCheck, checked, returnVal);
      if bad {
        return Err(AssertionError);
      }
    }
    FloodDone(m, s, checked, returnVal);
    return Ok(returnVal);
  }

  /** Once the queue is empty the checked cells are the whole flood. */
  lemma FloodDone(m: seq<string>, s: Cell, checked: seq<Cell>, returnVal: bool)
    requires FloodInv(m, s, [], checked, returnVal)
    ensures !MeetsBadChar(m, s)
    ensures returnVal <==> !Leaks(m, s)
  {
    forall q | Flooded(m, s, q)
      ensures q in checked
    {
      FloodWithin(m, s, Elems(checked), q);
    }
  }

  /** A neighbour `n` of a flooded cell holds no unknown character, and is in `area` if the flood enters it. */
  predicate Kept(m: seq<string>, area: set<Cell>, n: Cell)
  {
    !BadAt(m, n) && (Floodable(m, n) ==> n in area)
  }

  /** Kept holds for every neighbour of `q`, written out in the order the flood scans them. */
  predicate KeptAround(m: seq<string>, area: set<Cell>, q: Cell)
  {
    var (r, c) := q;
    Kept(m, area, (r + 1, c)) && Kept(m, area, (r - 1, c)) &&
    Kept(m, area, (r, c - 1)) && Kept(m, area, (r, c + 1)) &&
    Kept(m, area, (r - 1, c - 1)) && Kept(m, area, (r + 1, c + 1)) &&
    Kept(m, area, (r - 1, c + 1)) && Kept(m, area, (r + 1, c - 1))
  }

  /** Every neighbour of `q` is inside the drawing. */
  predicate InsideAround(m: seq<string>, q: Cell)
  {
    var (r, c) := q;
    CharAt(m, (r + 1, c)).Some? && CharAt(m, (r - 1, c)).Some? &&
    CharAt(m, (r, c - 1)).Some? && CharAt(m, (r, c + 1)).Some? &&
    CharAt(m, (r - 1, c - 1)).Some? && CharAt(m, (r + 1, c + 1)).Some? &&
    CharAt(m, (r - 1, c + 1)).Some? && CharAt(m, (r + 1, c - 1)).Some?
  }

  /** Every cell of `cells` has its neighbours kept in `area`. */
  predicate AllKept(m: seq<string>, area: set<Cell>, cells: set<Cell>)
  {
    forall q :: q in cells ==> KeptAround(m, area, q)
  }

  /** Every cell of `cells` has its neighbours kept in `area` and inside the drawing. */
  predicate AllSealed(m: seq<string>, area: set<Cell>, cells: set<Cell>)
  {
    forall q :: q in cells ==> KeptAround(m, area, q) && InsideAround(m, q)
  }

  lemma KeptUnion(m: seq<string>, area: set<Cell>, a: set<Cell>, b: set<Cell>)
    requires AllKept(m, area, a) && AllKept(m, area, b)
    ensures AllKept(m, area, a + b)
  {
  }

  lemma SealedUnion(m: seq<string>, area: set<Cell>, a: set<Cell>, b: set<Cell>)
    requires AllSealed(m, area, a) && AllSealed(m, area, b)
    ensures AllSealed(m, area, a + b)
  {
  }

  /**
   * A set of cells holding the start, whose cells' neighbours hold no unknown
   * character and are in the set when floodable, holds the whole flood, and
   * the flood meets no unknown character.
   */
  lemma FloodContained(m: seq<string>, s: Cell, area: set<Cell>)
    requires s in area
    requires AllKept(m, area, area)
    ensures !MeetsBadChar(m, s)
    ensures forall p :: Flooded(m, s, p) ==> p in area
  {
    forall q, n | q in area && Adjacent(q, n)
      ensures Kept(m, area, n)
    {
      AroundMembers(q);
      assert KeptAround(m, area, q) by {
        assert q in area;
      }
    }
    forall p | Flooded(m, s, p)
      ensures p in area
    {
      FloodWithin(m, s, area, p);
    }
  }

  /** If moreover every neighbour of the set lies inside the drawing, the flood does not leak. */
  lemma SealedArea(m: seq<string>, s: Cell, area: set<Cell>)
    requires s in area
    requires AllSealed(m, area, area)
    ensures !MeetsBadChar(m, s) && !Leaks(m, s)
  {
    FloodContained(m, s, area);
    forall q, n | q in area && Adjacent(q, n)
      ensures CharAt(m, n).Some?
    {
      AroundMembers(q);
      assert InsideAround(m, q) by {
        assert q in area;
      }
    }
  }

  /** The sixteen blanks that indent every line of the validity fixtures. */
  const Pad: string := seq(16, _ => ' ')

  const FullBorderRows: seq<string> := [Pad + "######", Pad + "#....#", Pad + "#s...#", Pad + "######", Pad]
  const FullBorderArea: set<Cell> := {(1, 17), (1, 18), (1, 19), (1, 20)} + {(2, 17), (2, 18), (2, 19), (2, 20)}

  lemma FullBorderRow1()
    ensures AllSealed(FullBorderRows, FullBorderArea, {(1, 17), (1, 18), (1, 19), (1, 20)})
  {
  }

  lemma FullBorderRow2()
    ensures AllSealed(FullBorderRows, FullBorderArea, {(2, 17), (2, 18), (2, 19), (2, 20)})
  {
  }

  const OpenBorderRows: seq<string> := [Pad + "######", Pad + "#....#", Pad + "#s....", Pad + "######", Pad]
  const OpenBorderArea: set<Cell> := {(1, 17), (1, 18), (1, 19), (1, 20)} + {(2, 17), (2, 18), (2, 19), (2, 20), (2, 21)}

  lemma OpenBorderRow1()
    ensures AllKept(OpenBorderRows, OpenBorderArea, {(1, 17), (1, 18), (1, 19), (1, 20)})
  {
  }

  lemma OpenBorderRow2()
    ensures AllKept(OpenBorderRows, OpenBorderArea, {(2, 17), (2, 18), (2, 19), (2, 20), (2, 21)})
  {
  }

  const IrregularRows: seq<string> := [Pad + "######...", Pad + "#....####", Pad + "#...s...#", Pad + "#########", Pad]
  const IrregularArea: set<Cell> := {(1, 17), (1, 18), (1, 19), (1, 20)} + {(2, 17), (2, 18), (2, 19), (2, 20)} + {(2, 21), (2, 22), (2, 23)}

  lemma IrregularRow1()
    ensures AllSealed(IrregularRows, IrregularArea, {(1, 17), (1, 18), (1, 19), (1, 20)})
  {
  }

  lemma IrregularRow2()
    ensures AllSealed(IrregularRows, IrregularArea, {(2, 17), (2, 18), (2, 19), (2, 20)})
  {
  }

  lemma IrregularRow2End()
    ensures AllSealed(IrregularRows, IrregularArea, {(2, 21), (2, 22), (2, 23)})
  {
  }

  /** No line of the padded fixtures holds an 's' in its indentation. */
  lemma NoStartInPad(x: string)
    requires 's' !in x
    ensures 's' !in Pad + x
  {
    assert forall k :: 0 <= k < |Pad| ==> Pad[k] == ' ';
    assert forall k :: 0 <= k < |Pad + x| ==> (Pad + x)[k] == if k < 16 then ' ' else x[k - 16];
  }

  /** The start of a padded fixture line: the 's' at column 16 + `k` of `x`. */
  lemma StartInPad(x: string, k: nat)
    requires k < |x| && x[k] == 's' && 's' !in x[..k]
    ensures IndexOf(Pad + x, 's') == 16 + k
  {
    var line := Pad + x;
    forall j | 0 <= j < 16 + k
      ensures line[j] != 's'
    {
      if j < 16 {
        assert line[j] == Pad[j] == ' ';
      } else {
        assert line[j] == x[..k][j - 16];
      }
    }
    assert line[16 + k] == 's';
    assert forall j :: 16 + k < j <= |line| ==> line[..j][16 + k] == 's';
  }

  /**
   * The start of a fixture whose lines before `r` are the padded `above`,
   * none with an 's', and whose line `r` is the padded `x` with its first
   * 's' at `k`.
   */
  lemma {:induction false} StartFrom(m: seq<string>, j: nat, r: nat, above: seq<string>, x: string, k: nat)
    requires j <= r < |m| && |above| == r
    requires forall i :: 0 <= i < r ==> m[i] == Pad + above[i] && 's' !in above[i]
    requires m[r] == Pad + x && k < |x| && x[k] == 's' && 's' !in x[..k]
    ensures StartOf(m, j) == Some((r, 16 + k))
    decreases r - j
  {
    if j < r {
      NoStartInPad(above[j]);
      StartFrom(m, j + 1, r, above, x, k);
    } else {
      StartInPad(x, k);
    }
  }

  /** The drawing given to _isMapValid: a leading empty line, the fixture's lines, a line of blanks. */
  function Drawing(rows: seq<string>): seq<string>
  {
    [""] + rows
  }

  /** Its non-empty lines drop only the leading empty line. */
  lemma DrawingLines(rows: seq<string>)
    requires forall i :: 0 <= i < |rows| ==> rows[i] != []
    ensures NonEmpty(Drawing(rows)) == rows
  {
    assert Drawing(rows)[1..] == rows;
    NonEmptyKeeps(rows);
  }

  /** The fixture with a closed border is valid. */
  lemma FullBorderValid()
    ensures Validity(Drawing(FullBorderRows)) == Ok(true)
  {
    var m := FullBorderRows;
    DrawingLines(m);
    StartFrom(m, 0, 2, ["######", "#....#"], "#s...#", 1);
    FullBorderRow1();
    FullBorderRow2();
    SealedUnion(m, FullBorderArea, {(1, 17), (1, 18), (1, 19), (1, 20)}, {(2, 17), (2, 18), (2, 19), (2, 20)});
    SealedArea(m, (2, 17), FullBorderArea);
  }

  /** The fixture whose border has a gap is invalid: the flood walks out through the gap. */
  lemma OpenBorderInvalid()
    ensures Validity(Drawing(OpenBorderRows)) == Ok(false)
  {
    var m := OpenBorderRows;
    DrawingLines(m);
    StartFrom(m, 0, 2, ["######", "#....#"], "#s....", 1);
    var s := (2, 17);
    OpenBorderRow1();
    OpenBorderRow2();
    KeptUnion(m, OpenBorderArea, {(1, 17), (1, 18), (1, 19), (1, 20)}, {(2, 17), (2, 18), (2, 19), (2, 20), (2, 21)});
    FloodContained(m, s, OpenBorderArea);
    OpenBorderLeaks();
  }

  /** The flood of the open fixture walks along the start's line to its end and looks past it. */
  lemma OpenBorderLeaks()
    ensures Leaks(OpenBorderRows, (2, 17))
  {
    var m, s := OpenBorderRows, (2, 17);
    var w := [s, (2, 18), (2, 19), (2, 20), (2, 21)];
    assert m[2] == Pad + "#s....";
    assert FloodPath(m, s, w);
    assert Flooded(m, s, (2, 21)) && Adjacent((2, 21), (2, 22)) && CharAt(m, (2, 22)).None?;
  }

  /** The fixture whose border is not a rectangle is valid. */
  lemma IrregularValid()
    ensures Validity(Drawing(IrregularRows)) == Ok(true)
  {
    var m := IrregularRows;
    DrawingLines(m);
    StartFrom(m, 0, 2, ["######...", "#....####"], "#...s...#", 4);
    IrregularRow1();
    IrregularRow2();
    IrregularRow2End();
    SealedUnion(m, IrregularArea, {(1, 17), (1, 18), (1, 19), (1, 20)}, {(2, 17), (2, 18), (2, 19), (2, 20)});
    SealedUnion(m, IrregularArea, {(1, 17), (1, 18), (1, 19), (1, 20)} + {(2, 17), (2, 18), (2, 19), (2, 20)}, {(2, 21), (2, 22), (2, 23)});
    SealedArea(m, (2, 20), IrregularArea);
  }

  /** Without an 's' a drawing is invalid, the fixture with a 'b' included: the flood never starts. */
  lemma NoStartInvalid()
    ensures Validity(Drawing([Pad + "######", Pad + "#....#", Pad + "#.....", Pad + "######", Pad])) == Ok(false)
    ensures Validity(Drawing([Pad + "######", Pad + "#....#", Pad + "#..b.#", Pad + "######", Pad])) == Ok(false)
  {
    NoStartInPad("");
    assert Pad + "" == Pad;
    var m1 := [Pad + "######", Pad + "#....#", Pad + "#.....", Pad + "######", Pad];
    var m2 := [Pad + "######", Pad + "#....#", Pad + "#..b.#", Pad + "######", Pad];
    DrawingLines(m1);
    DrawingLines(m2);
    NoStartInPad("######");
    NoStartInPad("#....#");
    NoStartInPad("#.....");
    NoStartInPad("#..b.#");
    assert StartOf(m1, 0).None?;
    assert StartOf(m2, 0).None?;
  }

  /**
   * What _isMapValid's documentation and comments promise: a drawing is
   * valid when it has a start, its flood meets only '#', '.' and 's', and
   * never looks outside the drawing; an unknown character makes the map
   * invalid rather than failing an assert.
   */
  ghost predicate IntendedValid(lines: seq<string>)
  {
    match StartOf(NonEmpty(lines), 0)
    case None => false
    case Some(s) => !MeetsBadChar(NonEmpty(lines), s) && !Leaks(NonEmpty(lines), s)
  }

  /** _isMapValid as documented: false where the code as written fails its assert. */
  method IsMapValidIntended(lines: seq<string>) returns (valid: bool)
    ensures valid == IntendedValid(lines)
    ensures valid <==> Validity(lines) == Ok(true)
  {
    var r := IsMapValid(lines);
    valid := r == Ok(true);
  }

  /** A drawing whose flood reaches an unknown character: "#####", "#s.b#", "#####". */
  const UnknownCharRows: seq<string> := ["#####", "#s.b#", "#####"]

  /**
   * The code as written raises AssertionError on that drawing, where the
   * documentation says such a map is invalid.
   */
  lemma UnknownCharRaises()
    ensures Validity(UnknownCharRows) == Err(AssertionError)
    ensures !IntendedValid(UnknownCharRows)
  {
    NonEmptyKeeps(UnknownCharRows);
    UnknownCharMeets();
  }

  /** Its flood starts at (1, 1), steps right onto the '.' and sees the 'b' next to it. */
  lemma UnknownCharMeets()
    ensures StartOf(UnknownCharRows, 0) == Some((1, 1))
    ensures MeetsBadChar(UnknownCharRows, (1, 1))
  {
    var m, s := UnknownCharRows, (1, 1);
    assert 's' !in m[0] && m[1][1] == 's' && 's' !in m[1][..1];
    assert FloodPath(m, s, [s, (1, 2)]);
    assert Flooded(m, s, (1, 2)) && Adjacent((1, 2), (1, 3)) && BadAt(m, (1, 3));
  }

  /** The floorplan the DotBots move in: what getJSON reports. */
  class Floorplan {
    var width: nat
    var height: nat
    var obstacles: seq<Obstacle>

    constructor (json: FloorplanJson)
      ensures width == json.width && height == json.height && obstacles == json.obstacles
    {
      width, height, obstacles := json.width, json.height, json.obstacles;
    }

    /** getJSON: the width, height and obstacles. */
    function GetJSON(): FloorplanJson
      reads this
    {
      FloorplanJson(width, height, obstacles)
    }
  }

  /**
   * Floorplan(drawing): asserts the drawing valid, which fails with
   * AssertionError whether _isMapValid returns false or itself fails its
   * assert, then keeps what _parseDrawing returns.
   */
  method NewFloorplan(lines: seq<string>) returns (r: Result<Floorplan, FloorplanError>)
    ensures r.Err? <==> Validity(lines) != Ok(true)
    ensures r.Err? <==> !IntendedValid(lines)
    ensures r.Err? ==> r.error == AssertionError
    ensures r.Ok? ==> fresh(r.value) && ParseDrawing(lines) == Ok(r.value.GetJSON())
  {
    var valid := IsMapValidIntended(lines);
    if !valid {
      return Err(AssertionError);
    }
    var parsed := ParseDrawing(lines);
    var f := new Floorplan(parsed.value);
    return Ok(f);
  }
}
