/**
 * The map builder of the orchestrator: bumps reported by the robots become
 * dots, close dots on a common row or column are joined into axis-aligned
 * lines, and the map is declared complete once no dot is left and the lines
 * split into closed loops.
 *
 * Coordinates are exact reals. The lock around the map and the periodic
 * housekeeping timer are not modelled: every operation runs on its own.
 */
module Mapping {
  import opened SeqUtil
  import opened MapLines

  // ---------------------------------------------------------------------
  // _areLinesClose, _walkloop, _isMapComplete
  // ---------------------------------------------------------------------

  /** The squared distance between two points. */
  function DistSq(p: Dot, q: Dot): real
  {
    (p.0 - q.0) * (p.0 - q.0) + (p.1 - q.1) * (p.1 - q.1)
  }

  /** Two points are less than MINFEATURESIZE_M / 2 apart: the squared distance is below its square. */
  predicate Near(p: Dot, q: Dot)
  {
    DistSq(p, q) < (MinFeatureSize / 2.0) * (MinFeatureSize / 2.0)
  }

  function Ends(l: Line): seq<Dot>
  {
    [(l.lax, l.lay), (l.lbx, l.lby)]
  }

  /** _areLinesClose: the four end pairs are tried in turn; the lines are close when one pair is near. */
  predicate AreLinesClose(l1: Line, l2: Line)
  {
    if Near((l1.lax, l1.lay), (l2.lax, l2.lay)) then true
    else if Near((l1.lax, l1.lay), (l2.lbx, l2.lby)) then true
    else if Near((l1.lbx, l1.lby), (l2.lax, l2.lay)) then true
    else Near((l1.lbx, l1.lby), (l2.lbx, l2.lby))
  }

  /** Two lines are close exactly when an end of one is near an end of the other. */
  lemma CloseMeans(l1: Line, l2: Line)
    ensures AreLinesClose(l1, l2) <==> exists p, q :: p in Ends(l1) && q in Ends(l2) && Near(p, q)
  {
    assert Ends(l1)[0] == (l1.lax, l1.lay) && Ends(l1)[1] == (l1.lbx, l1.lby);
    assert Ends(l2)[0] == (l2.lax, l2.lay) && Ends(l2)[1] == (l2.lbx, l2.lby);
  }

  /** Closeness does not depend on the order of the two lines. */
  lemma CloseSymmetric(l1: Line, l2: Line)
    ensures AreLinesClose(l1, l2) == AreLinesClose(l2, l1)
  {
    assert forall p, q :: Near(p, q) == Near(q, p);
  }

  /** _walkloop raises ExceptionOpenLoop when the walk has nowhere to go. */
  datatype WalkError = ExceptionOpenLoop

  /** The first line of `cands` close to `last` and not yet in the loop. */
  function FirstClose(cands: seq<Line>, last: Line, loop: seq<Line>): (r: Option<Line>)
    ensures r.Some? ==> r.value in cands && AreLinesClose(last, r.value) && r.value !in loop
    ensures r.None? ==> forall l :: l in cands && AreLinesClose(last, l) ==> l in loop
  {
    if cands == [] then None
    else if AreLinesClose(last, cands[0]) && cands[0] !in loop then Some(cands[0])
    else FirstClose(cands[1..], last, loop)
  }

  /**
   * The walk of _walkloop from a partial loop: hop to the first close line
   * not yet taken, and stop once more than two lines are taken and the last
   * is close to the first.
   */
  function Walk(all: seq<Line>, loop: seq<Line>): Result<seq<Line>, WalkError>
    requires loop != [] && NoDup(loop)
    decreases |Elems(all) - Elems(loop)|
  {
    match FirstClose(all, loop[|loop| - 1], loop)
    case None => Err(ExceptionOpenLoop)
    case Some(l) =>
      var next := loop + [l];
      if |next| > 2 && AreLinesClose(l, next[0]) then Ok(next)
      else
        WalkShrinks(all, loop, l);
        Walk(all, next)
  }

  /** Each hop of the walk takes a line of `all` not yet taken. */
  lemma WalkShrinks(all: seq<Line>, loop: seq<Line>, l: Line)
    requires l in all && l !in loop
    ensures |Elems(all) - Elems(loop + [l])| < |Elems(all) - Elems(loop)|
  {
    assert Elems(all) - Elems(loop + [l]) < Elems(all) - Elems(loop) by {
      assert l in Elems(all) - Elems(loop);
      assert l !in Elems(all) - Elems(loop + [l]);
    }
    ProperSubsetCard(Elems(all) - Elems(loop + [l]), Elems(all) - Elems(loop));
  }

  /** Every line after the first is close to the one before it. */
  predicate Chained(loop: seq<Line>)
  {
    forall i :: 0 < i < |loop| ==> AreLinesClose(loop[i - 1], loop[i])
  }

  /** A chain grows by a line close to its last one. */
  lemma ChainedSnoc(loop: seq<Line>, l: Line)
    requires loop != [] && Chained(loop) && AreLinesClose(loop[|loop| - 1], l)
    ensures Chained(loop + [l])
  {
  }

  /** A closed loop: at least three distinct lines, each close to the next, the last close to the first. */
  predicate ClosedLoop(loop: seq<Line>)
  {
    |loop| >= 3 && NoDup(loop) && Chained(loop) && AreLinesClose(loop[|loop| - 1], loop[0])
  }

  /** A walk that ends is a closed loop that extends the partial one with lines of `all`. */
  lemma {:induction false} WalkCloses(all: seq<Line>, loop: seq<Line>)
    requires loop != [] && NoDup(loop) && Chained(loop)
    ensures Walk(all, loop).Ok? ==>
      var r := Walk(all, loop).value;
      ClosedLoop(r) && GrownFrom(r, loop, all)
    decreases |Elems(all) - Elems(loop)|
  {
    match FirstClose(all, loop[|loop| - 1], loop)
    case None =>
    case Some(l) =>
      var next := loop + [l];
      assert NoDup(next);
      ChainedSnoc(loop, l);
      GrownSnoc(loop, l, all);
      if !(|next| > 2 && AreLinesClose(l, next[0])) {
        WalkShrinks(all, loop, l);
        WalkCloses(all, next);
        if Walk(all, next).Ok? {
          GrownTrans(Walk(all, next).value, next, loop, all);
        }
      }
  }

  /** `r` is `loop` followed by at least one line of `all`. */
  predicate GrownFrom(r: seq<Line>, loop: seq<Line>, all: seq<Line>)
  {
    |r| > |loop| && r[..|loop|] == loop && forall i :: |loop| <= i < |r| ==> r[i] in all
  }

  lemma GrownSnoc(loop: seq<Line>, l: Line, all: seq<Line>)
    requires l in all
    ensures GrownFrom(loop + [l], loop, all)
  {
    assert (loop + [l])[..|loop|] == loop;
  }

  lemma GrownTrans(r: seq<Line>, next: seq<Line>, loop: seq<Line>, all: seq<Line>)
    requires GrownFrom(r, next, all) && GrownFrom(next, loop, all)
    ensures GrownFrom(r, loop, all)
  {
    assert r[..|loop|] == next[..|loop|];
    forall i | |loop| <= i < |r|
      ensures r[i] in all
    {
      if i < |next| {
        assert r[i] == r[..|next|][i];
      }
    }
  }

  /** A duplicate-free chain extending `loop` whose last line has no close line of `all` outside it. */
  predicate StuckAt(all: seq<Line>, loop: seq<Line>, c: seq<Line>)
  {
    |c| >= |loop| > 0 && c[..|loop|] == loop && NoDup(c) && Chained(c) &&
    forall l :: l in all && AreLinesClose(c[|c| - 1], l) ==> l in c
  }

  lemma StuckBack(all: seq<Line>, loop: seq<Line>, l: Line, c: seq<Line>)
    requires loop != [] && StuckAt(all, loop + [l], c)
    ensures StuckAt(all, loop, c)
  {
    assert c[..|loop|] == (loop + [l])[..|loop|];
  }

  /**
   * A walk that fails is stuck: it reached a chain extending the partial
   * loop whose last line has no close line outside the chain.
   */
  lemma {:induction false} WalkStuck(all: seq<Line>, loop: seq<Line>)
    requires loop != [] && NoDup(loop) && Chained(loop)
    ensures Walk(all, loop).Err? ==> exists c :: StuckAt(all, loop, c)
    decreases |Elems(all) - Elems(loop)|
  {
    match FirstClose(all, loop[|loop| - 1], loop)
    case None =>
      assert loop[..|loop|] == loop;
      assert StuckAt(all, loop, loop);
    case Some(l) =>
      var next := loop + [l];
      assert NoDup(next);
      ChainedSnoc(loop, l);
      if !(|next| > 2 && AreLinesClose(l, next[0])) {
        WalkShrinks(all, loop, l);
        WalkStuck(all, next);
        if Walk(all, next).Err? {
          var c :| StuckAt(all, next, c);
          StuckBack(all, loop, l, c);
        }
      }
  }

  /** The lines of `ls` with one copy of each line of `loop` removed, in turn. */
  function RemoveAll(ls: seq<Line>, loop: seq<Line>): (r: seq<Line>)
    requires multiset(loop) <= multiset(ls)
    ensures |r| == |ls| - |loop|
  {
    if loop == [] then ls
    else
      RemoveHeadWithin(ls, loop);
      RemoveAll(RemoveFirst(ls, loop[0]), loop[1..])
  }

  /** RemoveAll takes away exactly the loop's lines: what is left and the loop make up the lines. */
  lemma {:induction false} RemoveAllMultiset(ls: seq<Line>, loop: seq<Line>)
    requires multiset(loop) <= multiset(ls)
    ensures multiset(RemoveAll(ls, loop)) + multiset(loop) == multiset(ls)
  {
    if loop != [] {
      var h := loop[0];
      RemoveHeadWithin(ls, loop);
      var ls' := RemoveFirst(ls, h);
      var r := RemoveAll(ls', loop[1..]);
      assert multiset(r) + multiset(loop[1..]) == multiset(ls') by {
        RemoveAllMultiset(ls', loop[1..]);
      }
      assert multiset(loop) == multiset{h} + multiset(loop[1..]) by {
        assert loop == [h] + loop[1..];
      }
      AddBack(multiset(r), multiset(loop[1..]), multiset(ls'), multiset(ls), h);
      assert RemoveAll(ls, loop) == r;
    }
  }

  /** Adding one element to both sides of a sum of multisets keeps it. */
  lemma AddBack<T>(a: multiset<T>, b: multiset<T>, c: multiset<T>, d: multiset<T>, x: T)
    requires a + b == c && c + multiset{x} == d
    ensures a + (multiset{x} + b) == d
  {
  }

  /** After removing the first line of the loop the rest of the loop is still within the lines. */
  lemma RemoveHeadWithin(ls: seq<Line>, loop: seq<Line>)
    requires loop != [] && multiset(loop) <= multiset(ls)
    ensures loop[0] in ls
    ensures multiset(loop[1..]) <= multiset(RemoveFirst(ls, loop[0]))
  {
    var h := loop[0];
    assert multiset(loop) == multiset(loop[1..]) + multiset{h} by {
      assert loop == [h] + loop[1..];
    }
    assert h in multiset(ls);
    CancelOne(multiset(loop[1..]), multiset(RemoveFirst(ls, h)), h);
  }

  /** Taking the same element from both sides keeps multiset inclusion. */
  lemma CancelOne<T>(a: multiset<T>, b: multiset<T>, x: T)
    requires a + multiset{x} <= b + multiset{x}
    ensures a <= b
  {
    forall y
      ensures a[y] <= b[y]
    {
      assert (a + multiset{x})[y] <= (b + multiset{x})[y];
    }
  }

  /** A duplicate-free loop of lines of `ls` is contained in `ls` as a multiset. */
  lemma LoopWithin(ls: seq<Line>, loop: seq<Line>)
    requires NoDup(loop) && forall l :: l in loop ==> l in ls
    ensures multiset(loop) <= multiset(ls)
  {
    NoDupCount(loop);
    forall x | x in multiset(loop)
      ensures multiset(loop)[x] <= multiset(ls)[x]
    {
      assert x in ls;
    }
  }

  /**
   * The loop-peeling of _isMapComplete: walk from the first remaining line,
   * remove the loop found, and go on until no line is left. The result is
   * the list of loops, or None once a walk is stuck.
   */
  function Loops(ls: seq<Line>): Option<seq<seq<Line>>>
    decreases |ls|
  {
    if ls == [] then Some([])
    else
      var w := Walk(ls, [ls[0]]);
      if w.Err? then None
      else
        WalkCloses(ls, [ls[0]]);
        var loop := w.value;
        LoopWithin(ls, loop);
        match Loops(RemoveAll(ls, loop))
        case None => None
        case Some(rest) => Some([loop] + rest)
  }

  function Concat(ps: seq<seq<Line>>): seq<Line>
  {
    if ps == [] then [] else ps[0] + Concat(ps[1..])
  }

  /** When peeling succeeds the lines split exactly into closed loops. */
  lemma {:induction false} LoopsPartition(ls: seq<Line>)
    ensures Loops(ls).Some? ==>
      var ps := Loops(ls).value;
      (forall p :: p in ps ==> ClosedLoop(p)) && multiset(Concat(ps)) == multiset(ls)
    decreases |ls|
  {
    if ls != [] && Walk(ls, [ls[0]]).Ok? {
      WalkCloses(ls, [ls[0]]);
      var loop := Walk(ls, [ls[0]]).value;
      LoopWithin(ls, loop);
      var rest := RemoveAll(ls, loop);
      RemoveAllMultiset(ls, loop);
      LoopsPartition(rest);
      if Loops(rest).Some? {
        var ps := Loops(ls).value;
        assert ps == [loop] + Loops(rest).value;
        assert ps[1..] == Loops(rest).value;
        assert Concat(ps) == loop + Concat(Loops(rest).value);
      }
    }
  }

  /**
   * The decision of _isMapComplete: not before mapping has started, never
   * while a dot is left, and otherwise exactly when the lines peel into
   * closed loops.
   */
  function MapComplete(dots: seq<Dot>, lines: seq<Line>): bool
  {
    if dots == [] && lines == [] then false
    else if dots != [] then false
    else Loops(lines).Some?
  }

  /** The hop search of _walkloop: the first close line of `all` not yet in the loop. */
  method FindCloseLine(all: seq<Line>, last: Line, loop: seq<Line>) returns (r: Option<Line>)
    ensures r == FirstClose(all, last, loop)
  {
    for i := 0 to |all|
      invariant FirstClose(all, last, loop) == FirstClose(all[i..], last, loop)
    {
      assert all[i..][1..] == all[i + 1..];
      if AreLinesClose(last, all[i]) && all[i] !in loop {
        return Some(all[i]);
      }
    }
    return None;
  }

  /**
   * _walkloop: grows a loop from the start line and returns it once it
   * closes, or raises ExceptionOpenLoop when no line is left to hop to.
   */
  method WalkLoop(all: seq<Line>, start: Line) returns (r: Result<seq<Line>, WalkError>)
    ensures r == Walk(all, [start])
    ensures r.Ok? ==> ClosedLoop(r.value) && r.value[0] == start && forall i :: 1 <= i < |r.value| ==> r.value[i] in all
  {
    WalkCloses(all, [start]);
    var loop := [start];
    while true
      invariant loop != [] && NoDup(loop)
      invariant Walk(all, loop) == Walk(all, [start])
      decreases |Elems(all) - Elems(loop)|
    {
      var found := FindCloseLine(all, loop[|loop| - 1], loop);
      if found.None? {
        return Err(ExceptionOpenLoop);
      }
      var l := found.value;
      var next := loop + [l];
      WalkShrinks(all, loop, l);
      loop := next;
      if |loop| > 2 && AreLinesClose(loop[|loop| - 1], loop[0]) {
        return Ok(loop);
      }
    }
  }

  /** MapBuilder: the consolidated map of dots and lines and whether it is complete. */
  // ---------------------------------------------------------------------
  // _consolidateMap, one direction at a time
  // ---------------------------------------------------------------------

  /** The ref of a line: its row when horizontal, its column when vertical. */
  function LineAcross(l: Line, dir: Direction): real
  {
    if dir == Horizontal then l.lay else l.lax
  }

  /** The line lies along the direction: horizontal (lay == lby) or vertical (lax == lbx). */
  predicate AlongDir(l: Line, dir: Direction)
  {
    AtRef(l, LineAcross(l, dir), dir)
  }

  /** [y for (x, y) in dots] (or x for columns). */
  function AcrossAll(dots: seq<Dot>, dir: Direction): (r: seq<real>)
    ensures forall d :: d in dots ==> Across(d, dir) in r
    ensures forall v :: v in r ==> exists d :: d in dots && Across(d, dir) == v
  {
    if dots == [] then []
    else
      var init := dots[..|dots| - 1];
      assert dots == init + [dots[|dots| - 1]];
      AcrossAll(init, dir) + [Across(dots[|dots| - 1], dir)]
  }

  /** [lay for (lax, lay, lbx, lby) in lines if lay == lby] (or lax when lax == lbx for columns). */
  function LineRefs(lines: seq<Line>, dir: Direction): (r: seq<real>)
    ensures forall l :: l in lines && AlongDir(l, dir) ==> LineAcross(l, dir) in r
    ensures forall v :: v in r ==> exists l :: l in lines && AlongDir(l, dir) && LineAcross(l, dir) == v
  {
    if lines == [] then []
    else
      var init := lines[..|lines| - 1];
      var l := lines[|lines| - 1];
      assert lines == init + [l];
      if AlongDir(l, dir) then LineRefs(init, dir) + [LineAcross(l, dir)] else LineRefs(init, dir)
  }

  /**
   * The refs _consolidateMap visits in a direction, each once: the rows (or
   * columns) of the dots and of the lines lying along the direction.
   */
  function Refs(dots: seq<Dot>, lines: seq<Line>, dir: Direction): (r: seq<real>)
    ensures NoDup(r)
    ensures forall d :: d in dots ==> Across(d, dir) in r
    ensures forall l :: l in lines && AlongDir(l, dir) ==> LineAcross(l, dir) in r
    ensures forall v :: v in r ==>
      (exists d :: d in dots && Across(d, dir) == v) ||
      (exists l :: l in lines && AlongDir(l, dir) && LineAcross(l, dir) == v)
  {
    var all := AcrossAll(dots, dir) + LineRefs(lines, dir);
    DedupMembers(all);
    Dedup(all)
  }

  lemma DedupMembers(s: seq<real>)
    ensures forall x :: x in Dedup(s) <==> x in s
  {
    forall x | x in s
      ensures x in Dedup(s)
    {
      var i :| 0 <= i < |s| && s[i] == x;
    }
    forall x | x in Dedup(s)
      ensures x in s
    {
      var i :| 0 <= i < |Dedup(s)| && Dedup(s)[i] == x;
    }
  }

  /** [(lax, lay) for each line] + [(lbx, lby) for each line]: the ends the loop appends to the dots. */
  function LineEnds(lines: seq<Line>): (r: seq<Dot>)
    ensures |r| == 2 * |lines|
    ensures forall i :: 0 <= i < |lines| ==>
      r[i] == (lines[i].lax, lines[i].lay) && r[|lines| + i] == (lines[i].lbx, lines[i].lby)
    ensures forall d :: d in r <==> IsEnd(d, lines)
  {
    var starts := seq(|lines|, i requires 0 <= i < |lines| => (lines[i].lax, lines[i].lay));
    var finishes := seq(|lines|, i requires 0 <= i < |lines| => (lines[i].lbx, lines[i].lby));
    assert forall d :: d in starts + finishes ==> IsEnd(d, lines) by {
      forall d | d in starts + finishes
        ensures IsEnd(d, lines)
      {
        var j :| 0 <= j < |starts + finishes| && (starts + finishes)[j] == d;
        if j < |lines| {
          assert lines[j] in lines;
        } else {
          assert lines[j - |lines|] in lines;
        }
      }
    }
    assert forall d :: IsEnd(d, lines) ==> d in starts + finishes by {
      forall d | IsEnd(d, lines)
        ensures d in starts + finishes
      {
        var l :| l in lines && (d == (l.lax, l.lay) || d == (l.lbx, l.lby));
        var j :| 0 <= j < |lines| && lines[j] == l;
        assert (starts + finishes)[j] == starts[j];
        assert (starts + finishes)[|lines| + j] == finishes[j];
      }
    }
    starts + finishes
  }

  predicate IsEnd(d: Dot, lines: seq<Line>)
  {
    exists l :: l in lines && (d == (l.lax, l.lay) || d == (l.lbx, l.lby))
  }

  /**
   * The map's dots after k refs of one direction: each ref appends the ends
   * of all lines to them (allDots is the same list as discoMap['dots']).
   */
  function Grow(dots: seq<Dot>, lines: seq<Line>, k: nat): (r: seq<Dot>)
    ensures forall d :: d in r <==> d in dots || (k > 0 && IsEnd(d, lines))
  {
    if k == 0 then dots else Grow(dots, lines, k - 1) + LineEnds(lines)
  }

  /** After the first ref the dots are the old ones and the line ends. */
  lemma GrowMembers(dots: seq<Dot>, lines: seq<Line>, k: nat)
    requires k > 0
    ensures forall d :: d in Grow(dots, lines, k) <==> d in dots + LineEnds(lines)
  {
  }

  /** PassLines over one more ref adds that ref's lines. */
  lemma PassLinesStep(dots: seq<Dot>, lines: seq<Line>, refs: seq<real>, i: nat, dir: Direction)
    requires i < |refs|
    ensures PassLines(dots, lines, refs[..i + 1], dir)
         == PassLines(dots, lines, refs[..i], dir) + RefLines(Grow(dots, lines, i + 1), lines, refs[i], dir)
  {
    assert refs[..i + 1][..i] == refs[..i];
  }

  /** The lines one direction of _consolidateMap lays at the refs, the dots grown before each ref. */
  function PassLines(dots: seq<Dot>, lines: seq<Line>, refs: seq<real>, dir: Direction): seq<Line>
  {
    if refs == [] then []
    else
      var n := |refs| - 1;
      PassLines(dots, lines, refs[..n], dir) + RefLines(Grow(dots, lines, n + 1), lines, refs[n], dir)
  }

  /** Some line along the direction holds the point. */
  ghost predicate OnSomeAlong(p: Dot, lines: seq<Line>, dir: Direction)
  {
    exists l :: l in lines && AlongDir(l, dir) && OnLine(p, l)
  }

  /** The point lies in a short gap between consecutive coordinates collected on its row (or column). */
  ghost predicate InGapAt(dots: seq<Dot>, lines: seq<Line>, dir: Direction, p: Dot)
  {
    var ref := Across(p, dir);
    InGap(Coordinates(dots, LinesAt(lines, ref, dir), ref, dir), Along(p, dir))
  }

  /**
   * The point is on a wall one direction lays between dots: its row (or
   * column) is a ref of the direction, and it lies in a short gap there, the
   * ends of the lines counting as dots.
   */
  ghost predicate GapAt(dots: seq<Dot>, lines: seq<Line>, dir: Direction, p: Dot)
  {
    Across(p, dir) in Refs(dots, lines, dir) && InGapAt(dots + LineEnds(lines), lines, dir, p)
  }

  /**
   * The walls _consolidateMap lays between dots: gaps on the rows, then gaps
   * on the columns, whose refs come from the dots as the rows left them.
   */
  ghost predicate NewWall(dots: seq<Dot>, lines: seq<Line>, p: Dot)
  {
    var rowDots := Dedup(dots);
    var colDots := Grow(rowDots, lines, |Refs(rowDots, lines, Horizontal)|);
    GapAt(rowDots, lines, Horizontal, p) || GapAt(colDots, lines, Vertical, p)
  }

  /** What out covers once the refs in done are consolidated. */
  ghost predicate PassCover(out: seq<Line>, reslines: seq<Line>, lines: seq<Line>, done: seq<real>,
                            dots: seq<Dot>, dir: Direction)
  {
    forall p {:trigger OnSome(p, out)} :: OnSome(p, out) <==>
      OnSome(p, reslines) || (Across(p, dir) in done && (OnSomeAlong(p, lines, dir) || InGapAt(dots, lines, dir, p)))
  }

  lemma OnSomeSplit(p: Dot, a: seq<Line>, b: seq<Line>)
    ensures OnSome(p, a + b) <==> OnSome(p, a) || OnSome(p, b)
  {
    OnSomeAppend(p, a, b);
    if OnSome(p, a + b) {
      var l :| l in a + b && OnLine(p, l);
    }
  }

  /** The coordinates collected at a ref depend only on which dots there are. */
  lemma CoordinatesSameDots(a: seq<Dot>, b: seq<Dot>, atRef: seq<Line>, ref: real, dir: Direction)
    requires forall d :: d in a <==> d in b
    ensures Coordinates(a, atRef, ref, dir) == Coordinates(b, atRef, ref, dir)
  {
    assert DotCoordinates(a, atRef, ref, dir) == DotCoordinates(b, atRef, ref, dir);
  }

  /** A point is on a line along the direction iff the lines at its ref span it. */
  lemma AlongCovers(p: Dot, lines: seq<Line>, dir: Direction)
    requires Aligned(lines)
    ensures OnSomeAlong(p, lines, dir) <==> Covers(LinesAt(lines, Across(p, dir), dir), Along(p, dir), dir)
  {
    var ref := Across(p, dir);
    AlignedAtRef(lines, ref, dir);
    OnSomeAtRef(p, LinesAt(lines, ref, dir), ref, dir);
    if OnSomeAlong(p, lines, dir) {
      var l :| l in lines && AlongDir(l, dir) && OnLine(p, l);
      AlignedAtRef(lines, LineAcross(l, dir), dir);
      OnLineAtRef(p, l, LineAcross(l, dir), dir);
      assert l in LinesAt(lines, ref, dir);
    }
    if OnSome(p, LinesAt(lines, ref, dir)) {
      var l :| l in LinesAt(lines, ref, dir) && OnLine(p, l);
      assert AlongDir(l, dir);
    }
  }

  /** Consolidating one more ref adds exactly its row (or column) to the cover. */
  lemma CoverStep(out: seq<Line>, these: seq<Line>, reslines: seq<Line>, lines: seq<Line>, refs: seq<real>,
                  i: nat, grown: seq<Dot>, dots: seq<Dot>, dir: Direction)
    requires Aligned(lines) && i < |refs|
    requires PassCover(out, reslines, lines, refs[..i], dots, dir)
    requires OnRef(these, refs[i], dir)
    requires forall v :: Covers(these, v, dir) <==>
      Covers(LinesAt(lines, refs[i], dir), v, dir) ||
      InGap(Coordinates(grown, LinesAt(lines, refs[i], dir), refs[i], dir), v)
    requires forall d :: d in grown <==> d in dots
    ensures PassCover(out + these, reslines, lines, refs[..i + 1], dots, dir)
  {
    assert refs[..i + 1] == refs[..i] + [refs[i]];
    CoordinatesSameDots(grown, dots, LinesAt(lines, refs[i], dir), refs[i], dir);
    forall p
      ensures OnSome(p, out + these) <==>
        OnSome(p, reslines) || (Across(p, dir) in refs[..i + 1] && (OnSomeAlong(p, lines, dir) || InGapAt(dots, lines, dir, p)))
    {
      OnSomeSplit(p, out, these);
      OnSomeAtRef(p, these, refs[i], dir);
      AlongCovers(p, lines, dir);
    }
  }

  /** The state of one direction of _consolidateMap after the first i refs. */
  ghost predicate PassState(start: seq<Dot>, lines: seq<Line>, refs: seq<real>, i: nat, dots: seq<Dot>,
                            out: seq<Line>, reslines: seq<Line>, dir: Direction)
  {
    i <= |refs| && dots == Grow(start, lines, i) &&
    out == reslines + PassLines(start, lines, refs[..i], dir) && Aligned(out) &&
    PassCover(out, reslines, lines, refs[..i], start + LineEnds(lines), dir)
  }

  /** Consolidating ref i, with the dots grown once more, keeps the state. */
  lemma PassStep(start: seq<Dot>, lines: seq<Line>, refs: seq<real>, i: nat, out: seq<Line>, these: seq<Line>,
                 reslines: seq<Line>, dir: Direction)
    requires Aligned(lines) && i < |refs|
    requires PassState(start, lines, refs, i, Grow(start, lines, i), out, reslines, dir)
    requires these == RefLines(Grow(start, lines, i + 1), lines, refs[i], dir)
    requires OnRef(these, refs[i], dir)
    requires forall v :: Covers(these, v, dir) <==>
      Covers(LinesAt(lines, refs[i], dir), v, dir) ||
      InGap(Coordinates(Grow(start, lines, i + 1), LinesAt(lines, refs[i], dir), refs[i], dir), v)
    ensures PassState(start, lines, refs, i + 1, Grow(start, lines, i + 1), out + these, reslines, dir)
  {
    OnRefAligned(these, refs[i], dir);
    PassLinesStep(start, lines, refs, i, dir);
    PassCoverStep(start, lines, refs, i, out, these, reslines, dir);
    AppendAssoc(reslines, PassLines(start, lines, refs[..i], dir), these);
  }

  /** The cover part of PassStep. */
  lemma PassCoverStep(start: seq<Dot>, lines: seq<Line>, refs: seq<real>, i: nat, out: seq<Line>, these: seq<Line>,
                      reslines: seq<Line>, dir: Direction)
    requires Aligned(lines) && i < |refs|
    requires PassCover(out, reslines, lines, refs[..i], start + LineEnds(lines), dir)
    requires OnRef(these, refs[i], dir)
    requires forall v :: Covers(these, v, dir) <==>
      Covers(LinesAt(lines, refs[i], dir), v, dir) ||
      InGap(Coordinates(Grow(start, lines, i + 1), LinesAt(lines, refs[i], dir), refs[i], dir), v)
    ensures PassCover(out + these, reslines, lines, refs[..i + 1], start + LineEnds(lines), dir)
  {
    GrowMembers(start, lines, i + 1);
    CoverStep(out, these, reslines, lines, refs, i, Grow(start, lines, i + 1), start + LineEnds(lines), dir);
  }

  /** The rows, then the columns: together they cover the old lines and the new walls. */
  lemma MapCover(original: seq<Dot>, lines: seq<Line>, rows: seq<Line>, both: seq<Line>)
    requires Aligned(lines)
    requires forall p {:trigger OnSome(p, rows)} :: OnSome(p, rows) <==>
      OnSome(p, []) || OnSomeAlong(p, lines, Horizontal) || GapAt(Dedup(original), lines, Horizontal, p)
    requires forall p {:trigger OnSome(p, both)} :: OnSome(p, both) <==>
      OnSome(p, rows) || OnSomeAlong(p, lines, Vertical) ||
      GapAt(Grow(Dedup(original), lines, |Refs(Dedup(original), lines, Horizontal)|), lines, Vertical, p)
    ensures forall p :: OnSome(p, both) <==> OnSome(p, lines) || NewWall(original, lines, p)
  {
    forall p
      ensures OnSome(p, both) <==> OnSome(p, lines) || NewWall(original, lines, p)
    {
      assert !OnSome(p, []);
      if OnSome(p, lines) {
        var l :| l in lines && OnLine(p, l);
        AlignedAlong(l);
      }
    }
  }

  /**
   * The dots left after the final removal: the grown dots hold the old ones
   * and line ends only, and the ends lie on old lines, which stay covered.
   */
  lemma MapDots(original: seq<Dot>, lines: seq<Line>, grown: seq<Dot>, both: seq<Line>)
    requires Aligned(lines)
    requires forall d :: d in original ==> d in grown
    requires forall d :: d in grown ==> d in original || IsEnd(d, lines)
    requires forall p :: OnSome(p, lines) ==> OnSome(p, both)
    ensures forall d :: d in grown && !OnSome(d, both) <==> d in original && !OnSome(d, both)
  {
    forall d | IsEnd(d, lines)
      ensures OnSome(d, lines)
    {
      var l :| l in lines && (d == (l.lax, l.lay) || d == (l.lbx, l.lby));
      EndsOnLine(l);
    }
  }

  /** Before the first ref nothing is added. */
  lemma PassStart(start: seq<Dot>, lines: seq<Line>, refs: seq<real>, reslines: seq<Line>, dir: Direction)
    requires Aligned(reslines)
    ensures PassState(start, lines, refs, 0, start, reslines, reslines, dir)
  {
    assert refs[..0] == [];
  }

  /** After the last ref: the dots grown once per ref, and the lines and cover of the pass. */
  lemma PassEnd(start: seq<Dot>, lines: seq<Line>, dots: seq<Dot>, out: seq<Line>, reslines: seq<Line>, dir: Direction)
    requires Aligned(lines)
    requires PassState(start, lines, Refs(start, lines, dir), |Refs(start, lines, dir)|, dots, out, reslines, dir)
    ensures dots == Grow(start, lines, |Refs(start, lines, dir)|) && Aligned(out)
    ensures out == reslines + PassLines(start, lines, Refs(start, lines, dir), dir)
    ensures forall p {:trigger OnSome(p, out)} :: OnSome(p, out) <==>
      OnSome(p, reslines) || OnSomeAlong(p, lines, dir) || GapAt(start, lines, dir, p)
  {
    var refs := Refs(start, lines, dir);
    assert refs[..|refs|] == refs;
    PassCoverDone(out, reslines, lines, start, dir);
  }

  /** Once every ref is done, the points on lines along the direction are among them. */
  lemma PassCoverDone(out: seq<Line>, reslines: seq<Line>, lines: seq<Line>, dots: seq<Dot>, dir: Direction)
    requires Aligned(lines)
    requires PassCover(out, reslines, lines, Refs(dots, lines, dir), dots + LineEnds(lines), dir)
    ensures forall p {:trigger OnSome(p, out)} :: OnSome(p, out) <==>
      OnSome(p, reslines) || OnSomeAlong(p, lines, dir) || GapAt(dots, lines, dir, p)
  {
    forall p | OnSomeAlong(p, lines, dir)
      ensures Across(p, dir) in Refs(dots, lines, dir)
    {
      var l :| l in lines && AlongDir(l, dir) && OnLine(p, l);
      AlignedAtRef(lines, LineAcross(l, dir), dir);
      OnLineAtRef(p, l, LineAcross(l, dir), dir);
    }
  }

  /** Lines on a ref with the lower end first are aligned. */
  lemma OnRefAligned(ls: seq<Line>, ref: real, dir: Direction)
    requires OnRef(ls, ref, dir)
    ensures Aligned(ls)
  {
  }

  lemma OnSomeAppend(p: Dot, a: seq<Line>, b: seq<Line>)
    ensures OnSome(p, a) || OnSome(p, b) ==> OnSome(p, a + b)
  {
    if OnSome(p, a) {
      var l :| l in a && OnLine(p, l);
      assert l in a + b;
    } else if OnSome(p, b) {
      var l :| l in b && OnLine(p, l);
      assert l in a + b;
    }
  }

  /** An aligned line lies along one direction or the other. */
  lemma AlignedAlong(l: Line)
    requires AlignedLine(l)
    ensures AlongDir(l, Horizontal) || AlongDir(l, Vertical)
  {
  }

  /** MapBuilder: the consolidated map of dots and lines and whether it is complete. */
  class MapBuilder {
    var complete: bool
    var dots: seq<Dot>
    var lines: seq<Line>

    /** The lines of the map are horizontal or vertical with their lower end first. */
    predicate Valid()
      reads this
    {
      Aligned(lines)
    }

    constructor ()
      ensures Valid()
      ensures !complete && dots == [] && lines == []
    {
      complete, dots, lines := false, [], [];
    }

    /** notifBump: the bump becomes one more dot. */
    method NotifBump(x: real, y: real)
      requires Valid()
      modifies this
      ensures Valid()
      ensures dots == old(dots) + [(x, y)]
      ensures lines == old(lines) && complete == old(complete)
    {
      dots := dots + [(x, y)];
    }

    /**
     * One direction of _consolidateMap. For every ref of the direction the
     * ends of all lines are first appended to the map's own dots (allDots is
     * the same list as discoMap['dots']), then the ref is consolidated and its
     * lines are added to the result. The result gains exactly the points on
     * the lines along the direction and those in short gaps at the refs.
     */
    method ConsolidatePass(dir: Direction, reslines: seq<Line>) returns (out: seq<Line>)
      requires Valid() && Aligned(reslines)
      modifies this
      ensures lines == old(lines) && complete == old(complete) && Valid() && Aligned(out)
      ensures dots == Grow(old(dots), lines, |Refs(old(dots), lines, dir)|)
      ensures out == reslines + PassLines(old(dots), lines, Refs(old(dots), lines, dir), dir)
      ensures forall p {:trigger OnSome(p, out)} :: OnSome(p, out) <==>
        OnSome(p, reslines) || OnSomeAlong(p, lines, dir) || GapAt(old(dots), lines, dir, p)
    {
      ghost var start := dots;
      var refs := Refs(dots, lines, dir);
      out := reslines;
      PassStart(start, lines, refs, reslines, dir);
      for i := 0 to |refs|
        invariant lines == old(lines) && complete == old(complete)
        invariant PassState(start, lines, refs, i, dots, out, reslines, dir)
      {
        dots := dots + LineEnds(lines);
        var these := ConsolidateRef(dots, lines, refs[i], dir);
        PassStep(start, lines, refs, i, out, these, reslines, dir);
        out := out + these;
      }
      PassEnd(start, lines, dots, out, reslines, dir);
    }

    /**
     * _consolidateMap: duplicate dots dropped, the rows and then the columns
     * consolidated, the dots dropped again of duplicates and of those lying on
     * the new lines. A point is on a new line iff it was on an old one or
     * lies in a short gap at its ref; the dots left are exactly the old dots
     * that lie on no new line.
     */
    method ConsolidateMap()
      requires Valid()
      modifies this
      ensures Valid() && complete == old(complete)
      ensures NoDup(dots) && forall d :: d in dots ==> !OnSome(d, lines)
      ensures forall d :: d in dots <==> d in old(dots) && !OnSome(d, lines)
      ensures forall p :: OnSome(p, lines) <==> OnSome(p, old(lines)) || NewWall(old(dots), old(lines), p)
    {
      ghost var original := dots;
      dots := Dedup(dots);
      var reslines := ConsolidatePass(Horizontal, []);
      ghost var rows := reslines;
      reslines := ConsolidatePass(Vertical, reslines);
      MapCover(original, lines, rows, reslines);
      ghost var grown := dots;
      lines := reslines;
      var unique := Dedup(dots);
      dots := RemoveDotsOnLines(unique, lines);
      KeepOffNoDup(unique, lines);
      MapDots(original, old(lines), grown, lines);
    }

    /** _houseKeeping: consolidate the map, then decide whether it is complete. */
    method HouseKeeping()
      requires Valid()
      modifies this
      ensures Valid()
      ensures NoDup(dots) && forall d :: d in dots ==> !OnSome(d, lines)
      ensures forall d :: d in dots <==> d in old(dots) && !OnSome(d, lines)
      ensures forall p :: OnSome(p, lines) <==> OnSome(p, old(lines)) || NewWall(old(dots), old(lines), p)
      ensures complete == MapComplete(dots, lines)
    {
      ConsolidateMap();
      complete := IsMapComplete();
    }

    /** _isMapComplete, on a copy of the lines. */
    method IsMapComplete() returns (r: bool)
      ensures r == MapComplete(dots, lines)
      ensures r ==> dots == [] && lines != []
      ensures r ==> exists ps :: (forall p :: p in ps ==> ClosedLoop(p)) && multiset(Concat(ps)) == multiset(lines)
    {
      if dots == [] && lines == [] {
        return false;
      }
      if dots != [] {
        return false;
      }
      var all := lines;
      while all != []
        invariant Loops(all).Some? == Loops(lines).Some?
        decreases |all|
      {
        var w := WalkLoop(all, all[0]);
        if w.Err? {
          return false;
        }
        var loop := w.value;
        LoopWithin(all, loop);
        var rest := RemoveLoop(all, loop);
        all := rest;
      }
      LoopsPartition(lines);
      return true;
    }
  }

  /** The removal loop of _isMapComplete: list.remove of each line of the loop in turn. */
  method RemoveLoop(all: seq<Line>, loop: seq<Line>) returns (r: seq<Line>)
    requires multiset(loop) <= multiset(all)
    ensures r == RemoveAll(all, loop)
  {
    r := all;
    for i := 0 to |loop|
      invariant multiset(loop[i..]) <= multiset(r)
      invariant RemoveAll(all, loop) == RemoveAll(r, loop[i..])
    {
      RemoveHeadWithin(r, loop[i..]);
      assert loop[i..][1..] == loop[i + 1..];
      r := RemoveFirst(r, loop[i]);
    }
  }

}
