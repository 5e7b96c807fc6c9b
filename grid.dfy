/**
 * Grid vocabulary of the exploration simulators: a cell is a (row, column)
 * pair, a map is a list of rows, and the one-hop neighbourhood lists the
 * eight surrounding cells in a fixed order, keeping those inside the map.
 */
module Grid {
  import opened SeqUtil

  type Cell = (int, int)

  predicate InBounds(numRows: int, numCols: int, c: Cell)
  {
    0 <= c.0 < numRows && 0 <= c.1 < numCols
  }

  /** Every row of `m` has `numCols` cells, and there are `numRows` rows. */
  predicate IsGrid(m: seq<seq<int>>, numRows: int, numCols: int)
  {
    |m| == numRows && forall r :: 0 <= r < |m| ==> |m[r]| == numCols
  }

  /** The value of cell `c` of a grid; only meaningful for cells inside it. */
  function At(m: seq<seq<int>>, c: Cell): int
  {
    if 0 <= c.0 < |m| && 0 <= c.1 < |m[c.0]| then m[c.0][c.1] else 0
  }

  /** `m` with cell `c` set to `v`. */
  function Set(m: seq<seq<int>>, c: Cell, v: int): (r: seq<seq<int>>)
    requires 0 <= c.0 < |m| && 0 <= c.1 < |m[c.0]|
    ensures |r| == |m| && forall i :: 0 <= i < |m| ==> |r[i]| == |m[i]|
    ensures At(r, c) == v
    ensures forall d :: d != c ==> At(r, d) == At(m, d)
  {
    m[c.0 := m[c.0][c.1 := v]]
  }

  /** Two distinct cells that touch, by side or by corner. */
  predicate Adjacent(c: Cell, d: Cell)
  {
    c != d && -1 <= d.0 - c.0 <= 1 && -1 <= d.1 - c.1 <= 1
  }

  /** The eight surrounding cells of (x, y), row by row. */
  function Ring(x: int, y: int): seq<Cell>
  {
    [(x - 1, y - 1), (x - 1, y), (x - 1, y + 1),
     (x, y - 1),                 (x, y + 1),
     (x + 1, y - 1), (x + 1, y), (x + 1, y + 1)]
  }

  /** The eight surrounding cells are distinct. */
  lemma RingNoDup(x: int, y: int)
    ensures NoDup(Ring(x, y))
  {
  }

  /** The members of `cs` that lie inside a numRows x numCols map, in order. */
  function InBoundsOnly(numRows: int, numCols: int, cs: seq<Cell>): (r: seq<Cell>)
    ensures forall c :: c in r <==> c in cs && InBounds(numRows, numCols, c)
    ensures |r| <= |cs|
  {
    if cs == [] then []
    else
      var init := InBoundsOnly(numRows, numCols, cs[..|cs| - 1]);
      assert cs == cs[..|cs| - 1] + [cs[|cs| - 1]];
      if InBounds(numRows, numCols, cs[|cs| - 1]) then init + [cs[|cs| - 1]] else init
  }

  lemma {:induction false} InBoundsOnlyNoDup(numRows: int, numCols: int, cs: seq<Cell>)
    requires NoDup(cs)
    ensures NoDup(InBoundsOnly(numRows, numCols, cs))
  {
    if cs != [] {
      var init := cs[..|cs| - 1];
      assert NoDup(init);
      InBoundsOnlyNoDup(numRows, numCols, init);
      assert cs[|cs| - 1] !in init;
    }
  }

  /**
   * The bounds filter of the neighbourhood listings: walks the listed
   * offsets and keeps, in order, those inside the map.
   */
  method CollectInBounds(numRows: int, numCols: int, offsets: seq<Cell>) returns (r: seq<Cell>)
    ensures r == InBoundsOnly(numRows, numCols, offsets)
  {
    r := [];
    for i := 0 to |offsets|
      invariant r == InBoundsOnly(numRows, numCols, offsets[..i])
    {
      assert offsets[..i + 1][..i] == offsets[..i];
      if 0 <= offsets[i].0 && offsets[i].0 < numRows && 0 <= offsets[i].1 && offsets[i].1 < numCols {
        r := r + [offsets[i]];
      }
    }
    assert offsets[..|offsets|] == offsets;
  }

  /** The one-hop neighbourhood in the listed order. */
  function OneHopList(numRows: int, numCols: int, x: int, y: int): seq<Cell>
  {
    InBoundsOnly(numRows, numCols, Ring(x, y))
  }

  /** The ring lists exactly the cells adjacent to (x, y). */
  lemma RingMembers(x: int, y: int)
    ensures forall c :: c in Ring(x, y) <==> Adjacent((x, y), c)
  {
    var ring := Ring(x, y);
    forall c | Adjacent((x, y), c)
      ensures c in ring
    {
      var dx, dy := c.0 - x, c.1 - y;
      if dx == -1 && dy == -1 { assert c == ring[0]; }
      else if dx == -1 && dy == 0 { assert c == ring[1]; }
      else if dx == -1 && dy == 1 { assert c == ring[2]; }
      else if dx == 0 && dy == -1 { assert c == ring[3]; }
      else if dx == 0 && dy == 1 { assert c == ring[4]; }
      else if dx == 1 && dy == -1 { assert c == ring[5]; }
      else if dx == 1 && dy == 0 { assert c == ring[6]; }
      else { assert c == ring[7]; }
    }
  }

  /**
   * The one-hop neighbourhood holds exactly the in-bounds cells adjacent to
   * (x, y), never (x, y) itself, each once.
   */
  lemma OneHopListMembers(numRows: int, numCols: int, x: int, y: int)
    ensures forall c :: c in OneHopList(numRows, numCols, x, y) <==> InBounds(numRows, numCols, c) && Adjacent((x, y), c)
    ensures (x, y) !in OneHopList(numRows, numCols, x, y)
    ensures NoDup(OneHopList(numRows, numCols, x, y))
    ensures |OneHopList(numRows, numCols, x, y)| <= 8
  {
    var ring := Ring(x, y);
    RingNoDup(x, y);
    InBoundsOnlyNoDup(numRows, numCols, ring);
    RingMembers(x, y);
  }

  /** The one-hop neighbourhood as a set. */
  function NbrSet(numRows: int, numCols: int, x: int, y: int): set<Cell>
  {
    set c | c in Ring(x, y) && InBounds(numRows, numCols, c)
  }

  lemma NbrSetMembers(numRows: int, numCols: int, x: int, y: int)
    ensures forall c :: c in NbrSet(numRows, numCols, x, y) <==> InBounds(numRows, numCols, c) && Adjacent((x, y), c)
  {
    RingMembers(x, y);
  }

  /** Every cell of a numRows x numCols map. */
  function AllCells(numRows: int, numCols: int): set<Cell>
  {
    set x, y | 0 <= x < numRows && 0 <= y < numCols :: (x, y)
  }

  /** Cells exactly two steps apart, counting diagonal steps as one. */
  predicate TwoAway(c: Cell, d: Cell)
  {
    -2 <= d.0 - c.0 <= 2 && -2 <= d.1 - c.1 <= 2 &&
    (d.0 - c.0 == -2 || d.0 - c.0 == 2 || d.1 - c.1 == -2 || d.1 - c.1 == 2)
  }

  /** The sixteen cells two steps from (x, y), row by row. */
  function TwoHopRing(x: int, y: int): seq<Cell>
  {
    [(x - 2, y - 2), (x - 2, y - 1), (x - 2, y), (x - 2, y + 1), (x - 2, y + 2),
     (x - 1, y - 2),                                             (x - 1, y + 2),
     (x, y - 2),                                                 (x, y + 2),
     (x + 1, y - 2),                                             (x + 1, y + 2),
     (x + 2, y - 2), (x + 2, y - 1), (x + 2, y), (x + 2, y + 1), (x + 2, y + 2)]
  }

  /** The ring at distance two lists exactly the cells two steps away. */
  lemma TwoHopRingMembers(x: int, y: int)
    ensures forall c :: c in TwoHopRing(x, y) <==> TwoAway((x, y), c)
  {
    var ring := TwoHopRing(x, y);
    forall c | TwoAway((x, y), c)
      ensures c in ring
    {
      var dx, dy := c.0 - x, c.1 - y;
      if dx == -2 { assert c == ring[dy + 2]; }
      else if dx == 2 { assert c == ring[dy + 13]; }
      else if dx == -1 { if dy == -2 { assert c == ring[5]; } else { assert c == ring[6]; } }
      else if dx == 0 { if dy == -2 { assert c == ring[7]; } else { assert c == ring[8]; } }
      else { if dy == -2 { assert c == ring[9]; } else { assert c == ring[10]; } }
    }
  }

  /**
   * The two-hop neighbourhood as evidently intended: the in-bounds cells
   * two steps from (x, y), in listed order.
   */
  method TwoHopNeighborhoodIntended(numRows: int, numCols: int, x: int, y: int) returns (r: seq<Cell>)
    ensures forall c :: c in r <==> InBounds(numRows, numCols, c) && TwoAway((x, y), c)
    ensures (x, y) !in r
  {
    r := CollectInBounds(numRows, numCols, TwoHopRing(x, y));
    TwoHopRingMembers(x, y);
  }

  /** The eight compass headings a ballistic robot can hold. */
  datatype Heading = N | NE | E | SE | S | SW | W | NW

  /** The cell one step from (rx, ry) along a heading (row decreases going north). */
  function Step(h: Heading, rx: int, ry: int): Cell
  {
    match h
    case N => (rx - 1, ry)
    case NE => (rx - 1, ry + 1)
    case E => (rx, ry + 1)
    case SE => (rx + 1, ry + 1)
    case S => (rx + 1, ry)
    case SW => (rx + 1, ry - 1)
    case W => (rx, ry - 1)
    case NW => (rx - 1, ry - 1)
  }

  /** The heading table covers every adjacent cell, and only adjacent cells. */
  lemma StepCoversRing(rx: int, ry: int, c: Cell)
    ensures Adjacent((rx, ry), c) <==> exists h: Heading :: Step(h, rx, ry) == c
  {
    if Adjacent((rx, ry), c) {
      var dx, dy := c.0 - rx, c.1 - ry;
      if dx == -1 && dy == 0 { assert Step(N, rx, ry) == c; }
      else if dx == -1 && dy == 1 { assert Step(NE, rx, ry) == c; }
      else if dx == 0 && dy == 1 { assert Step(E, rx, ry) == c; }
      else if dx == 1 && dy == 1 { assert Step(SE, rx, ry) == c; }
      else if dx == 1 && dy == 0 { assert Step(S, rx, ry) == c; }
      else if dx == 1 && dy == -1 { assert Step(SW, rx, ry) == c; }
      else if dx == 0 && dy == -1 { assert Step(W, rx, ry) == c; }
      else { assert Step(NW, rx, ry) == c; }
    }
  }
}
