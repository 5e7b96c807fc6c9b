/**
 * The traversed-cell scan: a straight move from a start point to a stop
 * point is walked in half-metre steps, first along x and then along y, and
 * every point reached is snapped to the centre of its half-metre cell. The
 * cell grid is anchored at an origin: (1, 1) in the stand-alone version and
 * the robot's initial position in the navigation code.
 *
 * Coordinates are exact reals; Python's floats are not modelled.
 */
module Traversal {
  import opened SeqUtil

  type Point = (real, real)

  /** Half of the minimum feature size of one metre: the side of a cell. */
  const StepSize: real := 0.5

  /**
   * Python's round(r, 0) on an exact real: the nearest integer, and the even
   * one of the two on a tie.
   */
  function RoundHalfEven(r: real): (n: int)
    ensures (n as real) - 0.5 <= r <= (n as real) + 0.5
    ensures (r == (n as real) - 0.5 || r == (n as real) + 0.5) ==> n % 2 == 0
  {
    var f := r.Floor;
    var frac := r - f as real;
    if frac < 0.5 then f
    else if frac > 0.5 then f + 1
    else if f % 2 == 0 then f
    else f + 1
  }

  /** `v` is a cell centre of the grid anchored at `o`: o + k * StepSize for an integer k. */
  predicate OnGrid(v: real, o: real)
  {
    ((v - o) / StepSize).Floor as real == (v - o) / StepSize
  }

  /** One coordinate of _xy2hCell: o + k * StepSize for k the rounded number of steps from o to v. */
  function Snap(v: real, o: real): real
  {
    o + (RoundHalfEven((v - o) / StepSize) as real) * StepSize
  }

  /** _xy2hCell: the centre of the cell a point lies in. */
  function HCell(p: Point, origin: Point): Point
  {
    (Snap(p.0, origin.0), Snap(p.1, origin.1))
  }

  /** A snapped coordinate is a cell centre at most a quarter metre from the input. */
  lemma SnapNear(v: real, o: real)
    ensures OnGrid(Snap(v, o), o)
    ensures -0.25 <= Snap(v, o) - v <= 0.25
  {
    var n := RoundHalfEven((v - o) / StepSize);
    assert (Snap(v, o) - o) / StepSize == n as real;
  }

  /** Rounding an integer gives it back. */
  lemma RoundInteger(n: int)
    ensures RoundHalfEven(n as real) == n
  {
  }

  /** Snapping a cell centre leaves it in place, so snapping twice is snapping once. */
  lemma SnapIdempotent(v: real, o: real)
    ensures Snap(Snap(v, o), o) == Snap(v, o)
  {
    var n := RoundHalfEven((v - o) / StepSize);
    assert (Snap(v, o) - o) / StepSize == n as real;
    RoundInteger(n);
  }

  /** The square _hCell2SvgRect draws for a cell: its corner and its sides. */
  datatype SvgRect = SvgRect(x: real, y: real, width: real, height: real)

  /** _hCell2SvgRect: the cell square of side StepSize centred on (cx, cy). */
  function HCell2SvgRect(cx: real, cy: real): (r: SvgRect)
    ensures r.width == r.height == StepSize
  {
    SvgRect(cx - 1.0 / 4.0, cy - 1.0 / 4.0, StepSize, StepSize)
  }

  /**
   * The drawn square of a cell holds every point that snaps to the cell's
   * centre, and every point strictly inside it snaps to that centre.
   */
  lemma RectOfCell(v: Point, c: Point, origin: Point)
    requires OnGrid(c.0, origin.0) && OnGrid(c.1, origin.1)
    ensures var r := HCell2SvgRect(c.0, c.1);
      (HCell(v, origin) == c ==> r.x <= v.0 <= r.x + r.width && r.y <= v.1 <= r.y + r.height) &&
      (r.x < v.0 < r.x + r.width && r.y < v.1 < r.y + r.height ==> HCell(v, origin) == c)
  {
    SnapNear(v.0, origin.0);
    SnapNear(v.1, origin.1);
    var r := HCell2SvgRect(c.0, c.1);
    if r.x < v.0 < r.x + r.width {
      SnapInside(v.0, c.0, origin.0);
    }
    if r.y < v.1 < r.y + r.height {
      SnapInside(v.1, c.1, origin.1);
    }
  }

  lemma SnapInside(v: real, c: real, o: real)
    requires OnGrid(c, o) && c - 0.25 < v < c + 0.25
    ensures Snap(v, o) == c
  {
    var m := ((c - o) / StepSize).Floor;
    var n := RoundHalfEven((v - o) / StepSize);
    assert (v - o) / StepSize - m as real < 0.5;
    assert m as real - (v - o) / StepSize < 0.5;
    assert n == m;
  }

  /** 2 * int(a < b) - 1: the direction from a towards b, negative when a == b. */
  function Sign(a: real, b: real): int
  {
    if a < b then 1 else -1
  }

  /** The coordinate after `k` half-metre steps from `start` in direction `sign`. */
  function Along(start: real, sign: int, k: nat): real
  {
    if sign == 1 then start + (k as real) * StepSize else start - (k as real) * StepSize
  }

  /** The loop's exit test: the coordinate has gone beyond `stop` in direction `sign`. */
  predicate Past(v: real, stop: real, sign: int)
  {
    if sign == 1 then v > stop else v < stop
  }

  /** The number of steps a scan takes before its coordinate goes past `stop`. */
  function Steps(start: real, stop: real, sign: int): nat
  {
    var d := if sign == 1 then stop - start else start - stop;
    if d < 0.0 then 0 else (2.0 * d).Floor
  }

  /** Step j (from 1) is taken exactly when j is at most Steps: the scan stops at the first step past `stop`. */
  lemma StepsExact(start: real, stop: real, sign: int, j: nat)
    requires 1 <= j
    ensures j <= Steps(start, stop, sign) <==> !Past(Along(start, sign, j), stop, sign)
  {
  }

  /**
   * A scan takes a step only when it heads towards `stop` from a different
   * coordinate, so its division by (stop - start) is never by zero.
   */
  lemma StepsTowardStop(start: real, stop: real, sign: int)
    requires Steps(start, stop, sign) > 0
    ensures stop != start && (sign == 1 <==> start < stop)
  {
  }

  /** |b - a| */
  function Distance(a: real, b: real): real
  {
    if b < a then a - b else b - a
  }

  /** A scan with the right direction takes one step per half metre between start and stop. */
  lemma StepsCount(start: real, stop: real)
    ensures Steps(start, stop, Sign(start, stop)) == (2.0 * Distance(start, stop)).Floor
  {
    if start < stop {
      assert Steps(start, stop, 1) == (2.0 * (stop - start)).Floor;
    } else {
      assert Steps(start, stop, -1) == (2.0 * (start - stop)).Floor;
    }
  }

  /** Every coordinate the scan reaches lies between start and stop. */
  lemma StepsBetween(start: real, stop: real, sign: int, k: nat)
    requires 1 <= k <= Steps(start, stop, sign)
    ensures var v := Along(start, sign, k);
      (start < v <= stop) || (stop <= v < start)
  {
    StepsExact(start, stop, sign, k);
  }

  /** The y of the straight line through s and e at x. */
  function LineY(s: Point, e: Point, x: real): real
    requires e.0 != s.0
  {
    s.1 + ((e.1 - s.1) * (x - s.0)) / (e.0 - s.0)
  }

  /** The x of the straight line through s and e at y. */
  function LineX(s: Point, e: Point, y: real): real
    requires e.1 != s.1
  {
    s.0 + ((e.0 - s.0) * (y - s.1)) / (e.1 - s.1)
  }

  /** The point of the horizontal scan at step k. */
  function XPoint(s: Point, e: Point, k: nat): Point
    requires e.0 != s.0
  {
    var x := Along(s.0, Sign(s.0, e.0), k);
    (x, LineY(s, e, x))
  }

  /** The point of the vertical scan at step k. */
  function YPoint(s: Point, e: Point, ySign: int, k: nat): Point
    requires e.1 != s.1
  {
    var y := Along(s.1, ySign, k);
    (LineX(s, e, y), y)
  }

  /** The cells of the first k horizontal steps, in order. */
  function XScan(s: Point, e: Point, origin: Point, k: nat): seq<Point>
    requires k <= Steps(s.0, e.0, Sign(s.0, e.0))
  {
    if k == 0 then []
    else
      StepsTowardStop(s.0, e.0, Sign(s.0, e.0));
      XScan(s, e, origin, k - 1) + [HCell(XPoint(s, e, k), origin)]
  }

  /** The cells of the first k vertical steps, in order. */
  function YScan(s: Point, e: Point, ySign: int, origin: Point, k: nat): seq<Point>
    requires k <= Steps(s.1, e.1, ySign)
  {
    if k == 0 then []
    else
      StepsTowardStop(s.1, e.1, ySign);
      YScan(s, e, ySign, origin, k - 1) + [HCell(YPoint(s, e, ySign, k), origin)]
  }

  /** All cells of a move, horizontal scan first. */
  function Scan(s: Point, e: Point, ySign: int, origin: Point): seq<Point>
  {
    XScan(s, e, origin, Steps(s.0, e.0, Sign(s.0, e.0))) + YScan(s, e, ySign, origin, Steps(s.1, e.1, ySign))
  }

  /** Every cell of a scan is a cell centre of the grid. */
  lemma {:induction false} XScanOnGrid(s: Point, e: Point, origin: Point, k: nat)
    requires k <= Steps(s.0, e.0, Sign(s.0, e.0))
    ensures forall c :: c in XScan(s, e, origin, k) ==> OnGrid(c.0, origin.0) && OnGrid(c.1, origin.1)
  {
    if k > 0 {
      XScanOnGrid(s, e, origin, k - 1);
      StepsTowardStop(s.0, e.0, Sign(s.0, e.0));
      var p := XPoint(s, e, k);
      SnapNear(p.0, origin.0);
      SnapNear(p.1, origin.1);
    }
  }

  lemma {:induction false} YScanOnGrid(s: Point, e: Point, ySign: int, origin: Point, k: nat)
    requires k <= Steps(s.1, e.1, ySign)
    ensures forall c :: c in YScan(s, e, ySign, origin, k) ==> OnGrid(c.0, origin.0) && OnGrid(c.1, origin.1)
  {
    if k > 0 {
      YScanOnGrid(s, e, ySign, origin, k - 1);
      StepsTowardStop(s.1, e.1, ySign);
      var p := YPoint(s, e, ySign, k);
      SnapNear(p.0, origin.0);
      SnapNear(p.1, origin.1);
    }
  }

  lemma ScanOnGrid(s: Point, e: Point, ySign: int, origin: Point)
    ensures forall c :: c in Scan(s, e, ySign, origin) ==> OnGrid(c.0, origin.0) && OnGrid(c.1, origin.1)
  {
    XScanOnGrid(s, e, origin, Steps(s.0, e.0, Sign(s.0, e.0)));
    YScanOnGrid(s, e, ySign, origin, Steps(s.1, e.1, ySign));
  }

  /**
   * The two scans of a move: x steps by half a metre from s.0 until it goes
   * past e.0, then y from s.1 in direction ySign until it goes past e.1;
   * each point on the line through s and e is snapped to its cell. The
   * result lists the cells in the order they are reached.
   */
  method ScanCells(s: Point, e: Point, ySign: int, origin: Point) returns (cells: seq<Point>)
    requires ySign == 1 || ySign == -1
    ensures cells == Scan(s, e, ySign, origin)
  {
    var horizontal := ScanX(s, e, origin);
    var vertical := ScanY(s, e, ySign, origin);
    cells := horizontal + vertical;
  }

  /** The horizontal loop: x steps from s.0 towards e.0 until it goes past it. */
  method ScanX(s: Point, e: Point, origin: Point) returns (cells: seq<Point>)
    ensures cells == XScan(s, e, origin, Steps(s.0, e.0, Sign(s.0, e.0)))
  {
    var xSign := Sign(s.0, e.0);
    ghost var kx := Steps(s.0, e.0, xSign);
    cells := [];
    var x := s.0;
    ghost var k: nat := 0;
    while true
      invariant k <= kx
      invariant x == Along(s.0, xSign, k)
      invariant cells == XScan(s, e, origin, k)
      decreases kx - k
    {
      x := x + (xSign as real) * StepSize;
      assert x == Along(s.0, xSign, k + 1);
      StepsExact(s.0, e.0, xSign, k + 1);
      if Past(x, e.0, xSign) {
        break;
      }
      StepsTowardStop(s.0, e.0, xSign);
      var y := LineY(s, e, x);
      assert XPoint(s, e, k + 1) == (x, y);
      cells := cells + [HCell((x, y), origin)];
      k := k + 1;
    }
  }

  /** The vertical loop: y steps from s.1 in direction ySign until it goes past e.1. */
  method ScanY(s: Point, e: Point, ySign: int, origin: Point) returns (cells: seq<Point>)
    requires ySign == 1 || ySign == -1
    ensures cells == YScan(s, e, ySign, origin, Steps(s.1, e.1, ySign))
  {
    ghost var ky := Steps(s.1, e.1, ySign);
    cells := [];
    var y := s.1;
    ghost var k: nat := 0;
    while true
      invariant k <= ky
      invariant y == Along(s.1, ySign, k)
      invariant cells == YScan(s, e, ySign, origin, k)
      decreases ky - k
    {
      y := y + (ySign as real) * StepSize;
      assert y == Along(s.1, ySign, k + 1);
      StepsExact(s.1, e.1, ySign, k + 1);
      if Past(y, e.1, ySign) {
        break;
      }
      StepsTowardStop(s.1, e.1, ySign);
      var x := LineX(s, e, y);
      assert YPoint(s, e, ySign, k + 1) == (x, y);
      cells := cells + [HCell((x, y), origin)];
      k := k + 1;
    }
  }

  /** The grid of the stand-alone scan is anchored at (1, 1). */
  const TestOrigin: Point := (1.0, 1.0)

  /**
   * The stand-alone markTraversedCells: the scan with the vertical
   * direction taken from startY < stopX, then duplicates dropped. The
   * order of list(set(...)) is unspecified; first occurrence is used here.
   */
  method MarkTraversedCells(s: Point, e: Point) returns (cells: seq<Point>)
    ensures NoDup(cells)
    ensures Elems(cells) == Elems(Scan(s, e, Sign(s.1, e.0), TestOrigin))
    ensures forall c :: c in cells ==> OnGrid(c.0, 1.0) && OnGrid(c.1, 1.0)
  {
    var all := ScanCells(s, e, Sign(s.1, e.0), TestOrigin);
    cells := Dedup(all);
    ScanOnGrid(s, e, Sign(s.1, e.0), TestOrigin);
  }

  /**
   * The navigation's markTraversedCells: the scan with the vertical
   * direction taken from startY < stopY on the grid of the initial position;
   * the result is the sequence of cells handed to the map, in order.
   */
  method ExploredCells(s: Point, e: Point, origin: Point) returns (cells: seq<Point>)
    ensures cells == Scan(s, e, Sign(s.1, e.1), origin)
    ensures forall c :: c in cells ==> OnGrid(c.0, origin.0) && OnGrid(c.1, origin.1)
    ensures |cells| == (2.0 * Distance(s.0, e.0)).Floor + (2.0 * Distance(s.1, e.1)).Floor
  {
    cells := ScanCells(s, e, Sign(s.1, e.1), origin);
    ScanOnGrid(s, e, Sign(s.1, e.1), origin);
    ScanLength(s, e, Sign(s.1, e.1), origin);
    StepsCount(s.0, e.0);
    StepsCount(s.1, e.1);
  }

  lemma ScanLength(s: Point, e: Point, ySign: int, origin: Point)
    ensures |Scan(s, e, ySign, origin)| == Steps(s.0, e.0, Sign(s.0, e.0)) + Steps(s.1, e.1, ySign)
  {
    XScanLength(s, e, origin, Steps(s.0, e.0, Sign(s.0, e.0)));
    YScanLength(s, e, ySign, origin, Steps(s.1, e.1, ySign));
  }

  lemma {:induction false} XScanLength(s: Point, e: Point, origin: Point, k: nat)
    requires k <= Steps(s.0, e.0, Sign(s.0, e.0))
    ensures |XScan(s, e, origin, k)| == k
  {
    if k > 0 {
      XScanLength(s, e, origin, k - 1);
    }
  }

  lemma {:induction false} YScanLength(s: Point, e: Point, ySign: int, origin: Point, k: nat)
    requires k <= Steps(s.1, e.1, ySign)
    ensures |YScan(s, e, ySign, origin, k)| == k
  {
    if k > 0 {
      YScanLength(s, e, ySign, origin, k - 1);
    }
  }

  /**
   * With the direction taken from startY < stopX the vertical scan is
   * skipped whenever that direction is not the one from startY to stopY.
   */
  lemma WrongSignSkipsRows(s: Point, e: Point)
    requires Sign(s.1, e.0) != Sign(s.1, e.1)
    ensures Steps(s.1, e.1, Sign(s.1, e.0)) == 0
  {
    if Steps(s.1, e.1, Sign(s.1, e.0)) > 0 {
      StepsTowardStop(s.1, e.1, Sign(s.1, e.0));
    }
  }

  /**
   * A straight two-metre move up from (1, 1) to (1, 3): as written no cell
   * is marked, while the direction from startY < stopY marks the four cells
   * (1, 1.5), (1, 2), (1, 2.5) and (1, 3).
   */
  lemma VerticalMoveMarksNothing()
    ensures Scan((1.0, 1.0), (1.0, 3.0), Sign(1.0, 1.0), TestOrigin) == []
    ensures |Scan((1.0, 1.0), (1.0, 3.0), Sign(1.0, 3.0), TestOrigin)| == 4
  {
    ScanLength((1.0, 1.0), (1.0, 3.0), Sign(1.0, 3.0), TestOrigin);
  }
}
