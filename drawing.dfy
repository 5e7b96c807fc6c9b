/**
 * Turning an ASCII drawing of a floor into the 0/1 map used by the grid
 * simulators (genRealMapDrawing). Only lines starting with '#' are map rows;
 * in them '#' is a wall (0), ' ' and 'S' are open (1), and 'S' marks the
 * start cell. Any other character raises SystemError, and a second 'S' fails
 * the assertion that no start has been seen yet.
 *
 * The drawing is given already split into lines; Python's splitlines is not
 * part of this model.
 */
module Drawing {
  import opened SeqUtil
  import opened Grid

  datatype DrawingError = SystemError | AssertionError

  predicate IsWallLine(line: string)
  {
    |line| > 0 && line[0] == '#'
  }

  /** The lines that become map rows, in order. */
  function Walls(lines: seq<string>): (w: seq<string>)
    ensures forall i :: 0 <= i < |w| ==> IsWallLine(w[i])
  {
    if lines == [] then []
    else (if IsWallLine(lines[0]) then [lines[0]] else []) + Walls(lines[1..])
  }

  /** The characters of all rows, row after row. */
  function Flat(w: seq<string>): string
  {
    if w == [] then [] else w[0] + Flat(w[1..])
  }

  predicate Known(c: char)
  {
    c == '#' || c == ' ' || c == 'S'
  }

  predicate AllKnown(s: string)
  {
    forall k :: 0 <= k < |s| ==> Known(s[k])
  }

  function CountS(s: string): nat
  {
    if s == [] then 0 else (if s[0] == 'S' then 1 else 0) + CountS(s[1..])
  }

  function CellValue(c: char): int
  {
    if c == '#' then 0 else 1
  }

  function RowOf(line: string): (r: seq<int>)
    ensures |r| == |line|
    ensures forall j :: 0 <= j < |line| ==> r[j] == CellValue(line[j])
  {
    seq(|line|, j requires 0 <= j < |line| => CellValue(line[j]))
  }

  function Rows(w: seq<string>): (m: seq<seq<int>>)
    ensures |m| == |w|
    ensures forall i :: 0 <= i < |w| ==> m[i] == RowOf(w[i])
  {
    seq(|w|, i requires 0 <= i < |w| => RowOf(w[i]))
  }

  /**
   * Position k of the character stream is where parsing stops with `e`:
   * everything before it was accepted, and the character at k is unknown
   * (SystemError) or is a second 'S' (AssertionError).
   */
  predicate FaultAt(s: string, k: int, e: DrawingError)
  {
    0 <= k < |s| && AllKnown(s[..k]) && CountS(s[..k]) <= 1 &&
    match e
    case SystemError => !Known(s[k])
    case AssertionError => s[k] == 'S' && CountS(s[..k]) == 1
  }

  /** `p` names the 'S' of the rows `w`. */
  predicate IsStartOf(w: seq<string>, p: Cell)
  {
    0 <= p.0 < |w| && 0 <= p.1 < |w[p.0]| && w[p.0][p.1] == 'S'
  }

  lemma {:induction false} WallsAppend(a: seq<string>, b: seq<string>)
    ensures Walls(a + b) == Walls(a) + Walls(b)
  {
    if a == [] {
      assert a + b == b;
    } else {
      assert (a + b)[0] == a[0];
      assert (a + b)[1..] == a[1..] + b;
      WallsAppend(a[1..], b);
      var head := if IsWallLine(a[0]) then [a[0]] else [];
      calc {
        Walls(a + b);
        head + Walls(a[1..] + b);
        head + (Walls(a[1..]) + Walls(b));
        (head + Walls(a[1..])) + Walls(b);
        Walls(a) + Walls(b);
      }
    }
  }

  lemma {:induction false} FlatAppend(a: seq<string>, b: seq<string>)
    ensures Flat(a + b) == Flat(a) + Flat(b)
  {
    if a == [] {
      assert a + b == b;
    } else {
      assert (a + b)[0] == a[0];
      assert (a + b)[1..] == a[1..] + b;
      FlatAppend(a[1..], b);
      calc {
        Flat(a + b);
        a[0] + Flat(a[1..] + b);
        a[0] + (Flat(a[1..]) + Flat(b));
        (a[0] + Flat(a[1..])) + Flat(b);
      }
    }
  }

  lemma {:induction false} CountSAppend(a: string, b: string)
    ensures CountS(a + b) == CountS(a) + CountS(b)
  {
    if a == [] {
      assert a + b == b;
    } else {
      assert (a + b)[0] == a[0];
      assert (a + b)[1..] == a[1..] + b;
      CountSAppend(a[1..], b);
      assert CountS(a + b) == (if a[0] == 'S' then 1 else 0) + CountS(a[1..] + b);
    }
  }

  /** CountS counts the positions holding 'S'. */
  lemma {:induction false} CountSZero(s: string)
    ensures CountS(s) == 0 <==> forall k :: 0 <= k < |s| ==> s[k] != 'S'
  {
    if s != [] {
      CountSZero(s[1..]);
      assert forall k :: 1 <= k < |s| ==> s[k] == s[1..][k - 1];
    }
  }

  lemma WallsPrefix(lines: seq<string>, li: int)
    requires 0 <= li < |lines|
    ensures Walls(lines[..li + 1]) == Walls(lines[..li]) + (if IsWallLine(lines[li]) then [lines[li]] else [])
  {
    assert lines[..li + 1] == lines[..li] + [lines[li]];
    WallsAppend(lines[..li], [lines[li]]);
    assert Walls([lines[li]]) == (if IsWallLine(lines[li]) then [lines[li]] else []) + Walls([]);
  }

  /** The stream of the whole drawing starts with the stream of the rows read so far, then the current row. */
  lemma StreamPrefix(lines: seq<string>, li: int)
    requires 0 <= li < |lines| && IsWallLine(lines[li])
    ensures Flat(Walls(lines[..li])) + lines[li] <= Flat(Walls(lines))
  {
    assert lines == lines[..li + 1] + lines[li + 1..];
    WallsAppend(lines[..li + 1], lines[li + 1..]);
    WallsPrefix(lines, li);
    var w0 := Walls(lines[..li]);
    FlatAppend(w0 + [lines[li]], Walls(lines[li + 1..]));
    FlatAppend(w0, [lines[li]]);
    assert Flat([lines[li]]) == lines[li] + Flat([]);
  }

  /** A fault stays a fault when more characters follow. */
  lemma FaultExtends(s: string, t: string, k: int, e: DrawingError)
    requires FaultAt(s, k, e) && s <= t
    ensures FaultAt(t, k, e)
  {
    assert t[..k] == s[..k];
  }

  /** A stream with a fault is not a valid drawing. */
  lemma FaultSpoils(s: string, k: int, e: DrawingError)
    requires FaultAt(s, k, e)
    ensures !(AllKnown(s) && CountS(s) <= 1)
  {
    if e == AssertionError {
      assert s == s[..k] + [s[k]] + s[k + 1..];
      CountSAppend(s[..k] + [s[k]], s[k + 1..]);
      CountSAppend(s[..k], [s[k]]);
      assert CountS([s[k]]) == 1 + CountS([]);
    }
  }

  /**
   * The inner loop of genRealMapDrawing over one wall line. `p` is the
   * stream of the rows before it, which was accepted, and `startPos` the
   * start found in them. The row is accepted exactly when the stream stays
   * valid, and the start found so far is kept or set to a cell of this row.
   */
  method ScanRow(line: string, row: int, startPos: Option<Cell>, ghost p: string)
    returns (r: Result<(seq<int>, Option<Cell>), DrawingError>)
    requires AllKnown(p) && CountS(p) <= 1
    requires startPos.None? <==> CountS(p) == 0
    ensures r.Ok? <==> AllKnown(p + line) && CountS(p + line) <= 1
    ensures r.Err? ==> exists k :: FaultAt(p + line, k, r.error)
    ensures r.Ok? ==> r.value.0 == RowOf(line)
    ensures r.Ok? ==> (r.value.1.None? <==> CountS(p + line) == 0)
    ensures r.Ok? && r.value.1.Some? ==>
      r.value.1 == startPos || (r.value.1.value.0 == row && 0 <= r.value.1.value.1 < |line| && line[r.value.1.value.1] == 'S')
  {
    var cells: seq<int> := [];
    var start := startPos;
    var col := 0;
    assert p + line[..col] == p;
    while col < |line|
      invariant 0 <= col <= |line|
      invariant cells == RowOf(line[..col])
      invariant AllKnown(p + line[..col]) && CountS(p + line[..col]) <= 1
      invariant start.None? <==> CountS(p + line[..col]) == 0
      invariant start.Some? ==>
        (start == startPos || (start.value.0 == row && 0 <= start.value.1 < col && line[start.value.1] == 'S'))
    {
      var c := line[col];
      assert line[..col + 1] == line[..col] + [c];
      assert p + line[..col + 1] == (p + line[..col]) + [c];
      CountSAppend(p + line[..col], [c]);
      assert CountS([c]) == (if c == 'S' then 1 else 0) + CountS([]);
      assert (p + line)[..|p| + col] == p + line[..col];
      if c == '#' {
        cells := cells + [0];
      } else if c == ' ' {
        cells := cells + [1];
      } else if c == 'S' {
        cells := cells + [1];
        if start != None {
          assert FaultAt(p + line, |p| + col, AssertionError);
          FaultSpoils(p + line, |p| + col, AssertionError);
          return Err(AssertionError);
        }
        start := Some((row, col));
      } else {
        assert FaultAt(p + line, |p| + col, SystemError);
        FaultSpoils(p + line, |p| + col, SystemError);
        return Err(SystemError);
      }
      col := col + 1;
    }
    assert line[..col] == line;
    r := Ok((cells, start));
  }

  /** What genRealMapDrawing has built from the wall lines `w` read so far. */
  ghost predicate Drawn(w: seq<string>, row: int, realMap: seq<seq<int>>, startPos: Option<Cell>)
  {
    row == |w| && realMap == Rows(w) &&
    AllKnown(Flat(w)) && CountS(Flat(w)) <= 1 &&
    (startPos.None? <==> CountS(Flat(w)) == 0) &&
    (startPos.Some? ==> IsStartOf(w, startPos.value))
  }

  /** A wall line scanned without fault extends what was built by its row. */
  lemma DrawnRow(w: seq<string>, line: string, row: int, realMap: seq<seq<int>>, startPos: Option<Cell>,
                 cells: seq<int>, start: Option<Cell>)
    requires Drawn(w, row, realMap, startPos)
    requires AllKnown(Flat(w) + line) && CountS(Flat(w) + line) <= 1
    requires cells == RowOf(line)
    requires start.None? <==> CountS(Flat(w) + line) == 0
    requires start.Some? ==>
      start == startPos || (start.value.0 == row && 0 <= start.value.1 < |line| && line[start.value.1] == 'S')
    ensures Drawn(w + [line], row + 1, realMap + [cells], start)
  {
    var w' := w + [line];
    FlatAppend(w, [line]);
    assert Flat([line]) == line + Flat([]);
    assert Flat(w') == Flat(w) + line;
    assert Rows(w') == Rows(w) + [cells];
    if start.Some? && start == startPos {
      assert w'[start.value.0] == w[start.value.0];
    }
  }

  /**
   * genRealMapDrawing. On success the map is the rows of the wall lines with
   * '#' as 0 and everything else as 1, and the start is the cell of the one
   * 'S' if there is one. It succeeds exactly when every character of the
   * wall lines is '#', ' ' or 'S' and there is at most one 'S'; otherwise
   * the error is the one raised at the first offending character.
   */
  method GenRealMapDrawing(lines: seq<string>) returns (r: Result<(seq<seq<int>>, Option<Cell>), DrawingError>)
    ensures var s := Flat(Walls(lines));
      r.Ok? <==> AllKnown(s) && CountS(s) <= 1
    ensures r.Err? ==> exists k :: FaultAt(Flat(Walls(lines)), k, r.error)
    ensures r.Ok? ==> r.value.0 == Rows(Walls(lines))
    ensures r.Ok? ==> (r.value.1.None? <==> CountS(Flat(Walls(lines))) == 0)
    ensures r.Ok? && r.value.1.Some? ==> IsStartOf(Walls(lines), r.value.1.value)
  {
    var realMap: seq<seq<int>> := [];
    var startPos: Option<Cell> := None;
    var row := 0;
    var li := 0;
    while li < |lines|
      invariant 0 <= li <= |lines|
      invariant Drawn(Walls(lines[..li]), row, realMap, startPos)
    {
      var line := lines[li];
      WallsPrefix(lines, li);
      if !(|line| > 0 && line[0] == '#') {
        assert Walls(lines[..li + 1]) == Walls(lines[..li]);
        li := li + 1;
        continue;
      }
      ghost var w0 := Walls(lines[..li]);
      ghost var p := Flat(w0);
      StreamPrefix(lines, li);
      var scanned := ScanRow(line, row, startPos, p);
      if scanned.Err? {
        ghost var k :| FaultAt(p + line, k, scanned.error);
        FaultExtends(p + line, Flat(Walls(lines)), k, scanned.error);
        FaultSpoils(Flat(Walls(lines)), k, scanned.error);
        return Err(scanned.error);
      }
      DrawnRow(w0, line, row, realMap, startPos, scanned.value.0, scanned.value.1);
      realMap := realMap + [scanned.value.0];
      startPos := scanned.value.1;
      row := row + 1;
      li := li + 1;
    }
    assert lines[..li] == lines;
    r := Ok((realMap, startPos));
  }
}
