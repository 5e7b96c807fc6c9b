/**
 * The geometry of the orchestrator's map: dots, axis-aligned wall lines,
 * the removal of dots covered by lines (_removeDotsOnLines) and the
 * consolidation of one row or column of the map (the body of the loop over
 * refs in _consolidateMap).
 */
module MapLines {
  import opened SeqUtil

  /** MapBuilder.MINFEATURESIZE_M: the shortest wall and the narrowest opening. */
  const MinFeatureSize: real := 1.0

  type Dot = (real, real)

  /** A wall segment (lax, lay, lbx, lby) from (lax, lay) to (lbx, lby). */
  datatype Line = Line(lax: real, lay: real, lbx: real, lby: real)

  /**
   * The test of _removeDotsOnLines: a dot on the row of a horizontal line
   * lies on it when it is between the ends; otherwise a dot on the column of
   * a vertical line lies on it when it is between the ends.
   */
  predicate OnLine(d: Dot, l: Line)
  {
    if l.lay == l.lby && l.lay == d.1 then l.lax <= d.0 <= l.lbx
    else if l.lax == l.lbx && l.lax == d.0 then l.lay <= d.1 <= l.lby
    else false
  }

  /** The dot lies on some line. */
  predicate OnSome(d: Dot, lines: seq<Line>)
  {
    exists l :: l in lines && OnLine(d, l)
  }

  /** A horizontal or vertical line whose first end is the lower one. */
  predicate AlignedLine(l: Line)
  {
    (l.lay == l.lby && l.lax <= l.lbx) || (l.lax == l.lbx && l.lay <= l.lby)
  }

  predicate Aligned(lines: seq<Line>)
  {
    forall l :: l in lines ==> AlignedLine(l)
  }

  /** Both ends of an aligned line lie on it. */
  lemma EndsOnLine(l: Line)
    requires AlignedLine(l)
    ensures OnLine((l.lax, l.lay), l) && OnLine((l.lbx, l.lby), l)
  {
  }

  // ---------------------------------------------------------------------
  // _removeDotsOnLines
  // ---------------------------------------------------------------------

  /** The dots that lie on no line, in their order. */
  function KeepOff(dots: seq<Dot>, lines: seq<Line>): (r: seq<Dot>)
    ensures |r| <= |dots|
  {
    if dots == [] then []
    else
      var rest := KeepOff(dots[..|dots| - 1], lines);
      if OnSome(dots[|dots| - 1], lines) then rest else rest + [dots[|dots| - 1]]
  }

  /** KeepOff keeps exactly the dots on no line. */
  lemma {:induction false} KeepOffMembers(dots: seq<Dot>, lines: seq<Line>)
    ensures forall d :: d in KeepOff(dots, lines) <==> d in dots && !OnSome(d, lines)
  {
    if dots != [] {
      var init := dots[..|dots| - 1];
      KeepOffMembers(init, lines);
      assert dots == init + [dots[|dots| - 1]];
    }
  }

  /** Dropping dots keeps a duplicate-free list duplicate-free. */
  lemma {:induction false} KeepOffNoDup(dots: seq<Dot>, lines: seq<Line>)
    requires NoDup(dots)
    ensures NoDup(KeepOff(dots, lines))
  {
    if dots != [] {
      var init := dots[..|dots| - 1];
      assert NoDup(init);
      KeepOffNoDup(init, lines);
      KeepOffMembers(init, lines);
      assert dots[|dots| - 1] !in init;
    }
  }

  /** The inner loop of _removeDotsOnLines: does some line hold the dot. */
  method OnSomeLine(d: Dot, lines: seq<Line>) returns (b: bool)
    ensures b <==> OnSome(d, lines)
  {
    for i := 0 to |lines|
      invariant forall k :: 0 <= k < i ==> !OnLine(d, lines[k])
    {
      if OnLine(d, lines[i]) {
        return true;
      }
    }
    return false;
  }

  /**
   * _removeDotsOnLines: pops from the list every dot that lies on a line
   * and returns the list, which keeps the other dots in their order.
   */
  method RemoveDotsOnLines(dots: seq<Dot>, lines: seq<Line>) returns (r: seq<Dot>)
    ensures r == KeepOff(dots, lines)
    ensures forall d :: d in r <==> d in dots && !OnSome(d, lines)
  {
    r := dots;
    var idx := 0;
    ghost var k := 0;
    while idx < |r|
      invariant 0 <= k <= |dots|
      invariant idx == |KeepOff(dots[..k], lines)|
      invariant r == KeepOff(dots[..k], lines) + dots[k..]
      decreases |r| - idx
    {
      KeepOffStep(dots, lines, k);
      var removed := OnSomeLine(r[idx], lines);
      if removed {
        r := r[..idx] + r[idx + 1..];
      } else {
        idx := idx + 1;
      }
      k := k + 1;
    }
    assert dots[..k] == dots;
    KeepOffMembers(dots, lines);
  }

  /** One pass of the loop of _removeDotsOnLines, on the list split at the current dot. */
  lemma KeepOffStep(dots: seq<Dot>, lines: seq<Line>, k: nat)
    requires k < |dots|
    ensures var kept := KeepOff(dots[..k], lines);
      (kept + dots[k..])[|kept|] == dots[k] &&
      (OnSome(dots[k], lines) ==>
         KeepOff(dots[..k + 1], lines) + dots[k + 1..] == (kept + dots[k..])[..|kept|] + (kept + dots[k..])[|kept| + 1..]) &&
      (!OnSome(dots[k], lines) ==>
         KeepOff(dots[..k + 1], lines) + dots[k + 1..] == kept + dots[k..] &&
         |KeepOff(dots[..k + 1], lines)| == |kept| + 1)
  {
    var kept := KeepOff(dots[..k], lines);
    assert dots[..k + 1][..k] == dots[..k];
    assert dots[k..] == [dots[k]] + dots[k + 1..];
    assert (kept + dots[k..])[..|kept|] == kept;
    assert (kept + dots[k..])[|kept| + 1..] == dots[k + 1..];
  }

  // ---------------------------------------------------------------------
  // One row or column of _consolidateMap
  // ---------------------------------------------------------------------

  /** The two passes of _consolidateMap: rows first, then columns. */
  datatype Direction = Horizontal | Vertical

  /** The coordinate of a dot along the direction. */
  function Along(d: Dot, dir: Direction): real
  {
    if dir == Horizontal then d.0 else d.1
  }

  /** The coordinate of a dot across the direction: the ref of its row or column. */
  function Across(d: Dot, dir: Direction): real
  {
    if dir == Horizontal then d.1 else d.0
  }

  /** The dot at v on the row or column ref. */
  function Place(v: real, ref: real, dir: Direction): (d: Dot)
    ensures Along(d, dir) == v && Across(d, dir) == ref
  {
    if dir == Horizontal then (v, ref) else (ref, v)
  }

  /** The first end of a line, along the direction. */
  function Lo(l: Line, dir: Direction): real
  {
    if dir == Horizontal then l.lax else l.lay
  }

  /** The second end of a line, along the direction. */
  function Hi(l: Line, dir: Direction): real
  {
    if dir == Horizontal then l.lbx else l.lby
  }

  /** Both ends of the line lie on the row (or column) ref. */
  predicate AtRef(l: Line, ref: real, dir: Direction)
  {
    if dir == Horizontal then l.lay == ref && l.lby == ref else l.lax == ref && l.lbx == ref
  }

  /** The line on the row or column ref from v to w. */
  function Segment(v: real, w: real, ref: real, dir: Direction): (l: Line)
    ensures AtRef(l, ref, dir) && Lo(l, dir) == v && Hi(l, dir) == w
  {
    if dir == Horizontal then Line(v, ref, w, ref) else Line(ref, v, ref, w)
  }

  /** Every line lies on ref with its lower end first. */
  predicate OnRef(ls: seq<Line>, ref: real, dir: Direction)
  {
    forall l :: l in ls ==> AtRef(l, ref, dir) && Lo(l, dir) <= Hi(l, dir)
  }

  predicate Spans(l: Line, v: real, dir: Direction)
  {
    Lo(l, dir) <= v <= Hi(l, dir)
  }

  /** Some line spans the coordinate v. */
  predicate Covers(ls: seq<Line>, v: real, dir: Direction)
  {
    exists l :: l in ls && Spans(l, v, dir)
  }

  /** Two lists of lines span the same coordinates. */
  ghost predicate SameCover(a: seq<Line>, b: seq<Line>, dir: Direction)
  {
    forall v :: Covers(a, v, dir) <==> Covers(b, v, dir)
  }

  /** An aligned line on a ref has its lower end first. */
  lemma AlignedAtRef(lines: seq<Line>, ref: real, dir: Direction)
    requires Aligned(lines)
    ensures forall l :: l in lines && AtRef(l, ref, dir) ==> Lo(l, dir) <= Hi(l, dir)
  {
  }

  /** On a line at ref, _removeDotsOnLines' test is: on the ref, between the ends. */
  lemma OnLineAtRef(p: Dot, l: Line, ref: real, dir: Direction)
    requires AtRef(l, ref, dir) && Lo(l, dir) <= Hi(l, dir)
    ensures OnLine(p, l) <==> Across(p, dir) == ref && Spans(l, Along(p, dir), dir)
  {
  }

  /** A dot lies on one of the lines of a ref exactly when it is on the ref and they span it. */
  lemma OnSomeAtRef(p: Dot, ls: seq<Line>, ref: real, dir: Direction)
    requires OnRef(ls, ref, dir)
    ensures OnSome(p, ls) <==> Across(p, dir) == ref && Covers(ls, Along(p, dir), dir)
  {
    forall l | l in ls
      ensures OnLine(p, l) <==> Across(p, dir) == ref && Spans(l, Along(p, dir), dir)
    {
      OnLineAtRef(p, l, ref, dir);
    }
  }

  lemma CoversAppend(a: seq<Line>, b: seq<Line>, dir: Direction)
    ensures forall v :: Covers(a + b, v, dir) <==> Covers(a, v, dir) || Covers(b, v, dir)
  {
    forall v
      ensures Covers(a + b, v, dir) <==> Covers(a, v, dir) || Covers(b, v, dir)
    {
      if Covers(a + b, v, dir) {
        var l :| l in a + b && Spans(l, v, dir);
      }
    }
  }

  lemma CoversSameElems(a: seq<Line>, b: seq<Line>, dir: Direction)
    requires forall l :: l in a <==> l in b
    ensures SameCover(a, b, dir)
  {
  }

  // The list comprehensions of _consolidateMap.

  /** [(x, y) for (x, y) in dots if the dot is on ref], kept as dots. */
  function DotsAt(dots: seq<Dot>, ref: real, dir: Direction): (r: seq<Dot>)
    ensures forall d :: d in r <==> d in dots && Across(d, dir) == ref
  {
    if dots == [] then []
    else
      var init := dots[..|dots| - 1];
      var d := dots[|dots| - 1];
      assert dots == init + [d];
      if Across(d, dir) == ref then DotsAt(init, ref, dir) + [d] else DotsAt(init, ref, dir)
  }

  /** [l for l in lines if both ends are on ref]: the lines already known at the ref. */
  function LinesAt(lines: seq<Line>, ref: real, dir: Direction): (r: seq<Line>)
    ensures forall l :: l in r <==> l in lines && AtRef(l, ref, dir)
  {
    if lines == [] then []
    else
      var init := lines[..|lines| - 1];
      var l := lines[|lines| - 1];
      assert lines == init + [l];
      if AtRef(l, ref, dir) then LinesAt(init, ref, dir) + [l] else LinesAt(init, ref, dir)
  }

  /** The coordinate along the direction of each dot. */
  function AlongAll(ds: seq<Dot>, dir: Direction): (r: seq<real>)
    ensures |r| == |ds| && forall i :: 0 <= i < |ds| ==> r[i] == Along(ds[i], dir)
  {
    if ds == [] then [] else AlongAll(ds[..|ds| - 1], dir) + [Along(ds[|ds| - 1], dir)]
  }

  /** The dot on ref at each coordinate. */
  function PlaceAll(xs: seq<real>, ref: real, dir: Direction): (r: seq<Dot>)
    ensures |r| == |xs| && forall i :: 0 <= i < |xs| ==> r[i] == Place(xs[i], ref, dir)
  {
    if xs == [] then [] else PlaceAll(xs[..|xs| - 1], ref, dir) + [Place(xs[|xs| - 1], ref, dir)]
  }

  /** Placing the coordinates of the dots of a ref back on the ref gives those dots. */
  lemma PlaceAlong(ds: seq<Dot>, ref: real, dir: Direction)
    requires forall d :: d in ds ==> Across(d, dir) == ref
    ensures PlaceAll(AlongAll(ds, dir), ref, dir) == ds
  {
    var r := PlaceAll(AlongAll(ds, dir), ref, dir);
    forall i | 0 <= i < |ds|
      ensures r[i] == ds[i]
    {
      assert ds[i] in ds;
    }
  }

  lemma AlongAllMembers(ds: seq<Dot>, dir: Direction)
    ensures forall x :: x in AlongAll(ds, dir) <==> exists d :: d in ds && Along(d, dir) == x
  {
    var r := AlongAll(ds, dir);
    forall x | x in r
      ensures exists d :: d in ds && Along(d, dir) == x
    {
      var i :| 0 <= i < |r| && r[i] == x;
      assert ds[i] in ds;
    }
    forall d | d in ds
      ensures Along(d, dir) in r
    {
      var i :| 0 <= i < |ds| && ds[i] == d;
      assert r[i] == Along(d, dir);
    }
  }

  /** The ends of the lines, lower then upper, line by line. */
  function LineCoords(ls: seq<Line>, dir: Direction): seq<real>
  {
    if ls == [] then []
    else LineCoords(ls[..|ls| - 1], dir) + [Lo(ls[|ls| - 1], dir), Hi(ls[|ls| - 1], dir)]
  }

  lemma {:induction false} LineCoordsMembers(ls: seq<Line>, dir: Direction)
    ensures forall x :: x in LineCoords(ls, dir) <==> exists l :: l in ls && (x == Lo(l, dir) || x == Hi(l, dir))
  {
    if ls != [] {
      var init := ls[..|ls| - 1];
      LineCoordsMembers(init, dir);
      assert ls == init + [ls[|ls| - 1]];
    }
  }

  // sorted(...)

  predicate SortedReals(s: seq<real>)
  {
    forall i, j :: 0 <= i < j < |s| ==> s[i] <= s[j]
  }

  predicate StrictlySorted(s: seq<real>)
  {
    forall i, j :: 0 <= i < j < |s| ==> s[i] < s[j]
  }

  function InsertReal(x: real, s: seq<real>): (r: seq<real>)
    requires SortedReals(s)
    ensures |r| == |s| + 1
    ensures SortedReals(r)
    ensures r[0] == x || (s != [] && r[0] == s[0])
  {
    if s == [] || x <= s[0] then
      ConsSorted(x, s);
      [x] + s
    else
      var t := InsertReal(x, s[1..]);
      assert s[0] <= t[0] by {
        if t[0] != x {
          assert t[0] == s[1];
        }
      }
      ConsSorted(s[0], t);
      [s[0]] + t
  }

  /** A value no larger than the head of an ascending list extends it. */
  lemma ConsSorted(a: real, t: seq<real>)
    requires SortedReals(t) && (t == [] || a <= t[0])
    ensures SortedReals([a] + t)
  {
    forall i, j | 0 <= i < j < |[a] + t|
      ensures ([a] + t)[i] <= ([a] + t)[j]
    {
      if i == 0 {
        assert t[0] <= t[j - 1];
      }
    }
  }

  /** sorted(s) on numbers: the same values in ascending order. */
  function SortReals(s: seq<real>): (r: seq<real>)
    ensures SortedReals(r) && multiset(r) == multiset(s)
  {
    if s == [] then []
    else
      assert s == [s[0]] + s[1..];
      InsertRealMultiset(s[0], SortReals(s[1..]));
      InsertReal(s[0], SortReals(s[1..]))
  }

  /** Inserting adds exactly the one value. */
  lemma {:induction false} InsertRealMultiset(x: real, s: seq<real>)
    requires SortedReals(s)
    ensures multiset(InsertReal(x, s)) == multiset(s) + multiset{x}
  {
    if s != [] && x > s[0] {
      InsertRealMultiset(x, s[1..]);
      assert s == [s[0]] + s[1..];
    }
  }

  /** Sorting values without duplicates gives them in strictly ascending order. */
  lemma SortDistinct(s: seq<real>)
    requires NoDup(s)
    ensures StrictlySorted(SortReals(s)) && Elems(SortReals(s)) == Elems(s)
  {
    var r := SortReals(s);
    PermNoDup(r, s);
    assert forall x :: x in r <==> x in multiset(r);
  }

  predicate SortedByLo(ls: seq<Line>, dir: Direction)
  {
    forall i, j :: 0 <= i < j < |ls| ==> Lo(ls[i], dir) <= Lo(ls[j], dir)
  }

  function InsertByLo(x: Line, s: seq<Line>, dir: Direction): (r: seq<Line>)
    requires SortedByLo(s, dir)
    ensures |r| == |s| + 1
    ensures SortedByLo(r, dir)
    ensures r[0] == x || (s != [] && r[0] == s[0])
  {
    if s == [] || Lo(x, dir) <= Lo(s[0], dir) then
      ConsSortedByLo(x, s, dir);
      [x] + s
    else
      var t := InsertByLo(x, s[1..], dir);
      assert Lo(s[0], dir) <= Lo(t[0], dir) by {
        if t[0] != x {
          assert t[0] == s[1];
        }
      }
      ConsSortedByLo(s[0], t, dir);
      [s[0]] + t
  }

  /** A line starting no later than the head of a list sorted by lower end extends it. */
  lemma ConsSortedByLo(a: Line, t: seq<Line>, dir: Direction)
    requires SortedByLo(t, dir) && (t == [] || Lo(a, dir) <= Lo(t[0], dir))
    ensures SortedByLo([a] + t, dir)
  {
    forall i, j | 0 <= i < j < |[a] + t|
      ensures Lo(([a] + t)[i], dir) <= Lo(([a] + t)[j], dir)
    {
      if i == 0 {
        assert Lo(t[0], dir) <= Lo(t[j - 1], dir);
      }
    }
  }

  /** sorted(lines, key = lower end): the same lines, lower ends ascending, ties in their order. */
  function SortByLo(s: seq<Line>, dir: Direction): (r: seq<Line>)
    ensures SortedByLo(r, dir) && multiset(r) == multiset(s)
  {
    if s == [] then []
    else
      assert s == [s[0]] + s[1..];
      InsertByLoMultiset(s[0], SortByLo(s[1..], dir), dir);
      InsertByLo(s[0], SortByLo(s[1..], dir), dir)
  }

  /** Inserting adds exactly the one line. */
  lemma {:induction false} InsertByLoMultiset(x: Line, s: seq<Line>, dir: Direction)
    requires SortedByLo(s, dir)
    ensures multiset(InsertByLo(x, s, dir)) == multiset(s) + multiset{x}
  {
    if s != [] && Lo(x, dir) > Lo(s[0], dir) {
      InsertByLoMultiset(x, s[1..], dir);
      assert s == [s[0]] + s[1..];
    }
  }

  // Lines between close consecutive coordinates.

  /**
   * The lines the loop over the sorted coordinates adds for its first n
   * positions: from each coordinate to the next one when they are less than
   * MINFEATURESIZE_M apart.
   */
  function Gaps(s: seq<real>, n: nat, ref: real, dir: Direction): seq<Line>
    requires n <= |s|
  {
    if n == 0 then []
    else
      Gaps(s, n - 1, ref, dir) +
      (if n < |s| && s[n] - s[n - 1] < MinFeatureSize then [Segment(s[n - 1], s[n], ref, dir)] else [])
  }

  /** v lies between s[i] and the next coordinate, and they are less than MINFEATURESIZE_M apart. */
  predicate PairGap(s: seq<real>, i: int, v: real)
  {
    0 <= i && i + 1 < |s| && s[i + 1] - s[i] < MinFeatureSize && s[i] <= v <= s[i + 1]
  }

  lemma {:induction false} GapsCover(s: seq<real>, n: nat, ref: real, dir: Direction)
    requires n <= |s|
    ensures forall v :: Covers(Gaps(s, n, ref, dir), v, dir) <==> exists i :: 0 <= i < n && PairGap(s, i, v)
  {
    if n > 0 {
      GapsCover(s, n - 1, ref, dir);
      var extra := if n < |s| && s[n] - s[n - 1] < MinFeatureSize then [Segment(s[n - 1], s[n], ref, dir)] else [];
      CoversAppend(Gaps(s, n - 1, ref, dir), extra, dir);
      forall v
        ensures Covers(extra, v, dir) <==> PairGap(s, n - 1, v)
      {
        if PairGap(s, n - 1, v) {
          assert extra[0] in extra && Spans(extra[0], v, dir);
        }
      }
    }
  }

  lemma {:induction false} GapsOnRef(s: seq<real>, n: nat, ref: real, dir: Direction)
    requires n <= |s| && SortedReals(s)
    ensures OnRef(Gaps(s, n, ref, dir), ref, dir)
  {
    if n > 0 {
      GapsOnRef(s, n - 1, ref, dir);
    }
  }

  /** a and b are members of C less than MINFEATURESIZE_M apart with no member in between. */
  ghost predicate Gap(C: set<real>, a: real, b: real)
  {
    a in C && b in C && a < b && b - a < MinFeatureSize && forall c :: c in C ==> !(a < c < b)
  }

  /** v lies in a gap of C: between two consecutive members less than MINFEATURESIZE_M apart. */
  ghost predicate InGap(C: set<real>, v: real)
  {
    exists a, b :: Gap(C, a, b) && a <= v <= b
  }

  /** Neighbours of a strictly ascending list less than MINFEATURESIZE_M apart form a gap of its members. */
  lemma NeighboursGap(s: seq<real>, i: int)
    requires StrictlySorted(s) && 0 <= i && i + 1 < |s| && s[i + 1] - s[i] < MinFeatureSize
    ensures Gap(Elems(s), s[i], s[i + 1])
  {
    forall c | c in Elems(s)
      ensures !(s[i] < c < s[i + 1])
    {
      var k :| 0 <= k < |s| && s[k] == c;
      assert k <= i || i + 1 <= k;
    }
  }

  /** l is the segment on ref joining the two ends of a gap of C. */
  ghost predicate GapSegment(C: set<real>, l: Line, ref: real, dir: Direction)
  {
    exists a, b :: Gap(C, a, b) && l == Segment(a, b, ref, dir)
  }

  /** Every segment the gap pass adds joins two consecutive coordinates less than MINFEATURESIZE_M apart. */
  lemma {:induction false} GapsJoinNeighbours(s: seq<real>, n: nat, ref: real, dir: Direction)
    requires StrictlySorted(s) && n <= |s|
    ensures forall l :: l in Gaps(s, n, ref, dir) ==> GapSegment(Elems(s), l, ref, dir)
  {
    if n > 0 {
      GapsJoinNeighbours(s, n - 1, ref, dir);
      if n < |s| && s[n] - s[n - 1] < MinFeatureSize {
        NeighboursGap(s, n - 1);
        assert GapSegment(Elems(s), Segment(s[n - 1], s[n], ref, dir), ref, dir);
      }
    }
  }

  /** The gap pass never drops a segment it has added. */
  lemma {:induction false} GapsGrow(s: seq<real>, m: nat, n: nat, ref: real, dir: Direction, l: Line)
    requires m <= n <= |s| && l in Gaps(s, m, ref, dir)
    ensures l in Gaps(s, n, ref, dir)
  {
    if m < n {
      GapsGrow(s, m, n - 1, ref, dir, l);
    }
  }

  /** The two ends of a gap of a strictly ascending list stand next to each other in it. */
  lemma GapIndices(s: seq<real>, a: real, b: real) returns (i: nat)
    requires StrictlySorted(s) && Gap(Elems(s), a, b)
    ensures i + 1 < |s| && s[i] == a && s[i + 1] == b
  {
    i :| 0 <= i < |s| && s[i] == a;
    var j :| 0 <= j < |s| && s[j] == b;
    assert i < j;
    assert s[i + 1] in Elems(s);
    assert b <= s[i + 1];
    assert j == i + 1;
  }

  /** A pair of neighbours less than MINFEATURESIZE_M apart gets its segment. */
  lemma GapsHavePair(s: seq<real>, i: nat, ref: real, dir: Direction)
    requires i + 1 < |s| && s[i + 1] - s[i] < MinFeatureSize
    ensures Segment(s[i], s[i + 1], ref, dir) in Gaps(s, |s|, ref, dir)
  {
    assert Segment(s[i], s[i + 1], ref, dir) in Gaps(s, i + 1, ref, dir);
    GapsGrow(s, i + 1, |s|, ref, dir, Segment(s[i], s[i + 1], ref, dir));
  }

  /** Every gap of the coordinates gets its segment. */
  lemma GapsComplete(s: seq<real>, a: real, b: real, ref: real, dir: Direction)
    requires StrictlySorted(s) && Gap(Elems(s), a, b)
    ensures Segment(a, b, ref, dir) in Gaps(s, |s|, ref, dir)
  {
    var i := GapIndices(s, a, b);
    GapsHavePair(s, i, ref, dir);
  }

  /** In a strictly ascending list, neighbouring positions are exactly the consecutive members. */
  lemma ConsecutivePairs(s: seq<real>)
    requires StrictlySorted(s)
    ensures forall v :: (exists i :: PairGap(s, i, v)) <==> InGap(Elems(s), v)
  {
    forall v
      ensures (exists i :: PairGap(s, i, v)) <==> InGap(Elems(s), v)
    {
      if i :| PairGap(s, i, v) {
        NeighboursGap(s, i);
      }
      if InGap(Elems(s), v) {
        var a, b :| Gap(Elems(s), a, b) && a <= v <= b;
        var i :| 0 <= i < |s| && s[i] == a;
        var j :| 0 <= j < |s| && s[j] == b;
        assert i < j;
        assert s[i + 1] in Elems(s);
        assert j == i + 1;
        assert PairGap(s, i, v);
      }
    }
  }

  // Joining the lines that touch.

  /** The line from the first end of l to the second end of n. */
  function Joined(l: Line, n: Line): Line
  {
    Line(l.lax, l.lay, n.lbx, n.lby)
  }

  /** No line ends where the next one begins. */
  predicate NoTouch(ls: seq<Line>, dir: Direction)
  {
    forall i :: 0 <= i < |ls| - 1 ==> Hi(ls[i], dir) != Lo(ls[i + 1], dir)
  }

  /** The list with the touching lines at idx and idx + 1 joined into one. */
  function JoinAt(r: seq<Line>, idx: nat): (r': seq<Line>)
    requires idx + 1 < |r|
    ensures |r'| == |r| - 1 && r'[..idx] == r[..idx] && r'[idx] == Joined(r[idx], r[idx + 1])
    ensures forall k :: idx < k < |r'| ==> r'[k] == r[k + 1]
  {
    r[..idx] + [Joined(r[idx], r[idx + 1])] + r[idx + 2..]
  }

  /** Joining two touching lines keeps the ref. */
  lemma JoinOnRef(r: seq<Line>, idx: nat, ref: real, dir: Direction)
    requires idx + 1 < |r| && OnRef(r, ref, dir) && Hi(r[idx], dir) == Lo(r[idx + 1], dir)
    ensures OnRef(JoinAt(r, idx), ref, dir) && Lo(JoinAt(r, idx)[idx], dir) == Lo(r[idx], dir)
  {
    var r' := JoinAt(r, idx);
    assert r[idx] in r && r[idx + 1] in r;
    forall l | l in r'
      ensures AtRef(l, ref, dir) && Lo(l, dir) <= Hi(l, dir)
    {
      var k :| 0 <= k < |r'| && r'[k] == l;
      if k < idx {
        assert r'[k] == r'[..idx][k] == r[..idx][k];
      } else if k > idx {
        assert r[k + 1] in r;
      }
    }
  }

  /** Joining two touching lines keeps the covered coordinates. */
  lemma JoinCover(r: seq<Line>, idx: nat, ref: real, dir: Direction)
    requires idx + 1 < |r| && OnRef(r, ref, dir) && Hi(r[idx], dir) == Lo(r[idx + 1], dir)
    ensures SameCover(JoinAt(r, idx), r, dir)
  {
    var r' := JoinAt(r, idx);
    var m := Joined(r[idx], r[idx + 1]);
    assert r[idx] in r && r[idx + 1] in r;
    assert r == r[..idx] + [r[idx], r[idx + 1]] + r[idx + 2..];
    assert r' == r[..idx] + [m] + r[idx + 2..];
    forall v
      ensures Covers(r', v, dir) <==> Covers(r, v, dir)
    {
      if Covers(r, v, dir) {
        var l :| l in r && Spans(l, v, dir);
        if l == r[idx] || l == r[idx + 1] {
          assert m in r' && Spans(m, v, dir);
        } else {
          assert l in r';
        }
      }
      if Covers(r', v, dir) {
        var l :| l in r' && Spans(l, v, dir);
        if l == m {
          assert Spans(r[idx], v, dir) || Spans(r[idx + 1], v, dir);
        } else {
          assert l in r;
        }
      }
    }
  }

  /** Joining two touching lines keeps the lines ordered by lower end. */
  lemma JoinSorted(r: seq<Line>, idx: nat, dir: Direction)
    requires idx + 1 < |r| && SortedByLo(r, dir) && Lo(Joined(r[idx], r[idx + 1]), dir) == Lo(r[idx], dir)
    ensures SortedByLo(JoinAt(r, idx), dir)
  {
    var r' := JoinAt(r, idx);
    forall i, j | 0 <= i < j < |r'|
      ensures Lo(r'[i], dir) <= Lo(r'[j], dir)
    {
      var i0 := if i <= idx then i else i + 1;
      var j0 := if j <= idx then j else j + 1;
      if i < idx {
        assert r'[i] == r'[..idx][i];
      }
      if j < idx {
        assert r'[j] == r'[..idx][j];
      }
      assert Lo(r'[i], dir) == Lo(r[i0], dir) && Lo(r'[j], dir) == Lo(r[j0], dir);
    }
  }

  /** The lines the join loop leaves when it resumes at idx on r. */
  function JoinFrom(r: seq<Line>, idx: nat, dir: Direction): seq<Line>
    decreases |r|, |r| - idx
  {
    if idx + 1 >= |r| then r
    else if Hi(r[idx], dir) == Lo(r[idx + 1], dir) then JoinFrom(JoinAt(r, idx), idx, dir)
    else JoinFrom(r, idx + 1, dir)
  }

  /** Joining at idx keeps the lines before idx apart from their successors. */
  lemma JoinKeepsApart(r: seq<Line>, idx: nat, dir: Direction)
    requires idx + 1 < |r|
    requires forall j :: 0 <= j < idx && j + 1 < |r| ==> Hi(r[j], dir) != Lo(r[j + 1], dir)
    ensures forall j :: 0 <= j < idx && j + 1 < |JoinAt(r, idx)| ==>
      Hi(JoinAt(r, idx)[j], dir) != Lo(JoinAt(r, idx)[j + 1], dir)
  {
    var r' := JoinAt(r, idx);
    forall j | 0 <= j < idx && j + 1 < |r'|
      ensures Hi(r'[j], dir) != Lo(r'[j + 1], dir)
    {
      assert r'[j] == r'[..idx][j] == r[j];
      if j + 1 < idx {
        assert r'[j + 1] == r'[..idx][j + 1] == r[j + 1];
      }
    }
  }

  /**
   * The join loop of _consolidateMap: a line whose second end is the first
   * end of the next one absorbs it; otherwise the scan moves on.
   */
  method JoinTouching(ls: seq<Line>, ghost ref: real, dir: Direction) returns (r: seq<Line>)
    requires OnRef(ls, ref, dir) && SortedByLo(ls, dir)
    ensures r == JoinFrom(ls, 0, dir)
    ensures OnRef(r, ref, dir) && SortedByLo(r, dir) && NoTouch(r, dir)
    ensures SameCover(r, ls, dir) && |r| <= |ls|
  {
    r := ls;
    var idx := 0;
    while idx < |r| - 1
      invariant JoinFrom(r, idx, dir) == JoinFrom(ls, 0, dir)
      invariant OnRef(r, ref, dir) && SortedByLo(r, dir) && SameCover(r, ls, dir) && |r| <= |ls|
      invariant forall j :: 0 <= j < idx && j + 1 < |r| ==> Hi(r[j], dir) != Lo(r[j + 1], dir)
      decreases |r| - idx
    {
      if Hi(r[idx], dir) == Lo(r[idx + 1], dir) {
        assert JoinFrom(r, idx, dir) == JoinFrom(JoinAt(r, idx), idx, dir);
        JoinOnRef(r, idx, ref, dir);
        JoinCover(r, idx, ref, dir);
        JoinSorted(r, idx, dir);
        JoinKeepsApart(r, idx, dir);
        r := JoinAt(r, idx);
      } else {
        assert JoinFrom(r, idx, dir) == JoinFrom(r, idx + 1, dir);
        idx := idx + 1;
      }
    }
  }

  // The whole ref.

  /**
   * The coordinates _consolidateMap joins on the row (or column) ref: those
   * of the dots on it that no line already there covers, and the ends of
   * those lines.
   */
  ghost function Coordinates(allDots: seq<Dot>, atRef: seq<Line>, ref: real, dir: Direction): set<real>
  {
    DotCoordinates(allDots, atRef, ref, dir) + EndCoordinates(atRef, dir)
  }

  /** The coordinates of the dots on ref that no line in atRef covers. */
  ghost function DotCoordinates(allDots: seq<Dot>, atRef: seq<Line>, ref: real, dir: Direction): set<real>
  {
    set d | d in allDots && Across(d, dir) == ref && !OnSome(d, atRef) :: Along(d, dir)
  }

  /** The ends of the lines. */
  ghost function EndCoordinates(atRef: seq<Line>, dir: Direction): set<real>
  {
    (set l | l in atRef :: Lo(l, dir)) + (set l | l in atRef :: Hi(l, dir))
  }

  /** The coordinates the method collects are the ones Coordinates describes. */
  lemma CoordinatesCollected(allDots: seq<Dot>, atRef: seq<Line>, ref: real, dir: Direction)
    ensures Elems(AlongAll(KeepOff(DotsAt(allDots, ref, dir), atRef), dir) + LineCoords(atRef, dir))
         == Coordinates(allDots, atRef, ref, dir)
  {
    CollectedWithin(allDots, atRef, ref, dir);
    CollectedAll(allDots, atRef, ref, dir);
  }

  lemma CollectedWithin(allDots: seq<Dot>, atRef: seq<Line>, ref: real, dir: Direction)
    ensures Elems(AlongAll(KeepOff(DotsAt(allDots, ref, dir), atRef), dir) + LineCoords(atRef, dir))
         <= Coordinates(allDots, atRef, ref, dir)
  {
    var kept := KeepOff(DotsAt(allDots, ref, dir), atRef);
    KeepOffMembers(DotsAt(allDots, ref, dir), atRef);
    AlongAllMembers(kept, dir);
    LineCoordsMembers(atRef, dir);
    forall x | x in AlongAll(kept, dir) + LineCoords(atRef, dir)
      ensures x in Coordinates(allDots, atRef, ref, dir)
    {
      if x in AlongAll(kept, dir) {
        var d :| d in kept && Along(d, dir) == x;
      } else {
        var l :| l in atRef && (x == Lo(l, dir) || x == Hi(l, dir));
      }
    }
  }

  lemma CollectedAll(allDots: seq<Dot>, atRef: seq<Line>, ref: real, dir: Direction)
    ensures Coordinates(allDots, atRef, ref, dir)
         <= Elems(AlongAll(KeepOff(DotsAt(allDots, ref, dir), atRef), dir) + LineCoords(atRef, dir))
  {
    var kept := KeepOff(DotsAt(allDots, ref, dir), atRef);
    var collected := AlongAll(kept, dir) + LineCoords(atRef, dir);
    forall x | x in DotCoordinates(allDots, atRef, ref, dir)
      ensures x in collected
    {
      var d :| d in allDots && Across(d, dir) == ref && !OnSome(d, atRef) && Along(d, dir) == x;
      KeepOffMembers(DotsAt(allDots, ref, dir), atRef);
      assert d in kept;
      var k :| 0 <= k < |kept| && kept[k] == d;
      assert AlongAll(kept, dir)[k] == x;
      assert collected[k] == x;
    }
    forall x | x in EndCoordinates(atRef, dir)
      ensures x in collected
    {
      var l :| l in atRef && (x == Lo(l, dir) || x == Hi(l, dir));
      LineCoordsHas(atRef, l, dir);
      assert x in LineCoords(atRef, dir);
    }
  }

  /** Both ends of every line are among its line coordinates. */
  lemma {:induction false} LineCoordsHas(ls: seq<Line>, l: Line, dir: Direction)
    requires l in ls
    ensures Lo(l, dir) in LineCoords(ls, dir) && Hi(l, dir) in LineCoords(ls, dir)
  {
    var init := ls[..|ls| - 1];
    if l != ls[|ls| - 1] {
      assert ls == init + [ls[|ls| - 1]];
      LineCoordsHas(init, l, dir);
    }
  }

  /** The lines one ref of _consolidateMap produces, step by step as below. */
  function RefLines(allDots: seq<Dot>, lines: seq<Line>, ref: real, dir: Direction): seq<Line>
  {
    var atRef := LinesAt(lines, ref, dir);
    var coords := AlongAll(KeepOff(DotsAt(allDots, ref, dir), atRef), dir) + LineCoords(atRef, dir);
    var s := SortReals(Dedup(coords));
    JoinFrom(SortByLo(Dedup(atRef + Gaps(s, |s|, ref, dir)), dir), 0, dir)
  }

  /**
   * One ref of _consolidateMap. The dots of the row (or column) are taken,
   * those on a line already there dropped and the ends of those lines added;
   * a line is laid between every two consecutive coordinates less than
   * MINFEATURESIZE_M apart; duplicates are dropped, the lines sorted by their
   * lower end and touching lines joined. The result lies on the ref, and it
   * covers exactly the old lines there and the short gaps between consecutive
   * coordinates.
   */
  method ConsolidateRef(allDots: seq<Dot>, lines: seq<Line>, ref: real, dir: Direction) returns (res: seq<Line>)
    requires Aligned(lines)
    ensures res == RefLines(allDots, lines, ref, dir)
    ensures OnRef(res, ref, dir) && SortedByLo(res, dir) && NoTouch(res, dir)
    ensures forall v :: Covers(res, v, dir) <==>
      Covers(LinesAt(lines, ref, dir), v, dir) ||
      InGap(Coordinates(allDots, LinesAt(lines, ref, dir), ref, dir), v)
  {
    var theseLines := LinesAt(lines, ref, dir);
    var theseDots := CollectCoordinates(allDots, theseLines, ref, dir);
    CoordinatesCollected(allDots, theseLines, ref, dir);
    var unique := Dedup(theseDots);
    assert Elems(unique) == Elems(theseDots);
    theseDots := SortReals(unique);
    var laid := LayGaps(theseDots, theseLines, ref, dir);
    theseLines := SortByLo(Dedup(laid), dir);
    LaidCover(allDots, lines, ref, dir, unique, theseDots, laid, theseLines);
    res := JoinTouching(theseLines, ref, dir);
  }

  /**
   * The first half of a ref of _consolidateMap: the coordinates of the dots
   * on the ref, without those on a line already there, then the ends of
   * those lines.
   */
  method CollectCoordinates(allDots: seq<Dot>, atRef: seq<Line>, ref: real, dir: Direction) returns (coords: seq<real>)
    ensures coords == AlongAll(KeepOff(DotsAt(allDots, ref, dir), atRef), dir) + LineCoords(atRef, dir)
  {
    var theseDots := AlongAll(DotsAt(allDots, ref, dir), dir);
    PlaceAlong(DotsAt(allDots, ref, dir), ref, dir);
    var kept := RemoveDotsOnLines(PlaceAll(theseDots, ref, dir), atRef);
    coords := AddLineEnds(AlongAll(kept, dir), atRef, dir);
  }

  /** The loop of _consolidateMap that adds both ends of every line to the coordinates. */
  method AddLineEnds(xs: seq<real>, ls: seq<Line>, dir: Direction) returns (coords: seq<real>)
    ensures coords == xs + LineCoords(ls, dir)
  {
    coords := xs;
    for i := 0 to |ls|
      invariant coords == xs + LineCoords(ls[..i], dir)
    {
      assert ls[..i + 1][..i] == ls[..i];
      coords := coords + [Lo(ls[i], dir), Hi(ls[i], dir)];
    }
    assert ls[..|ls|] == ls;
  }

  /** The loop of _consolidateMap that adds a line between close consecutive coordinates. */
  method LayGaps(s: seq<real>, atRef: seq<Line>, ref: real, dir: Direction) returns (laid: seq<Line>)
    ensures laid == atRef + Gaps(s, |s|, ref, dir)
  {
    laid := atRef;
    for idx := 0 to |s|
      invariant laid == atRef + Gaps(s, idx, ref, dir)
    {
      if idx == |s| - 1 {
        continue;
      }
      var vnext := s[idx + 1];
      if vnext - s[idx] < MinFeatureSize {
        laid := laid + [Segment(s[idx], vnext, ref, dir)];
      }
    }
  }

  /** The proof of ConsolidateRef once the lines are laid, deduplicated and sorted. */
  lemma LaidCover(allDots: seq<Dot>, lines: seq<Line>, ref: real, dir: Direction,
                  unique: seq<real>, s: seq<real>, laid: seq<Line>, sorted: seq<Line>)
    requires Aligned(lines)
    requires NoDup(unique) && s == SortReals(unique)
    requires Elems(unique) == Coordinates(allDots, LinesAt(lines, ref, dir), ref, dir)
    requires laid == LinesAt(lines, ref, dir) + Gaps(s, |s|, ref, dir)
    requires sorted == SortByLo(Dedup(laid), dir)
    ensures OnRef(sorted, ref, dir) && SortedByLo(sorted, dir)
    ensures forall v :: Covers(sorted, v, dir) <==>
      Covers(LinesAt(lines, ref, dir), v, dir) ||
      InGap(Coordinates(allDots, LinesAt(lines, ref, dir), ref, dir), v)
  {
    var atRef := LinesAt(lines, ref, dir);
    SortDistinct(unique);
    LaidGapsCover(s, atRef, ref, dir);
    AlignedAtRef(lines, ref, dir);
    GapsOnRef(s, |s|, ref, dir);
    assert OnRef(laid, ref, dir);
    SortedSameElems(laid, sorted, dir);
    CoversSameElems(sorted, laid, dir);
  }

  /** The laid lines cover the old ones and the gaps between consecutive coordinates. */
  lemma LaidGapsCover(s: seq<real>, atRef: seq<Line>, ref: real, dir: Direction)
    requires StrictlySorted(s)
    ensures forall v :: Covers(atRef + Gaps(s, |s|, ref, dir), v, dir) <==> Covers(atRef, v, dir) || InGap(Elems(s), v)
  {
    GapsCover(s, |s|, ref, dir);
    ConsecutivePairs(s);
    CoversAppend(atRef, Gaps(s, |s|, ref, dir), dir);
  }

  /** Deduplicating and sorting keeps exactly the same lines. */
  lemma SortedSameElems(laid: seq<Line>, sorted: seq<Line>, dir: Direction)
    requires sorted == SortByLo(Dedup(laid), dir)
    ensures forall l :: l in sorted <==> l in laid
  {
    assert forall l :: l in sorted <==> l in multiset(sorted);
    assert forall l :: l in Dedup(laid) <==> l in multiset(Dedup(laid));
  }
}
