/**
 * The earlier variant of the exploration simulator. It differs from the
 * later one in four places: maps can be drawn at random, the one-hop
 * neighbourhood is listed in its fixed order rather than shuffled, the
 * two-hop offsets carry other slips, and think does not count the cells
 * it explores. Its run loop keeps only the tick and step counts. Everything the two variants share (the
 * drawing parser, the done check, the ballistic headings, the rank maps)
 * is modelled once, in the modules of the later variant.
 */
module Hnoo {
  import opened SeqUtil
  import opened Grid
  import opened Exploration

  const NumRows := 20
  const NumCols := 20

  /**
   * genRealMapRandom: a NUM_ROWS x NUM_COLS map whose cells are each drawn
   * open or wall, except the centre cell, which is forced open and is the
   * start position. The draw is modelled as a free choice per cell.
   */
  method GenRealMapRandom() returns (realMap: seq<seq<int>>, startPos: Cell)
    ensures IsGrid(realMap, NumRows, NumCols) && Binary(realMap)
    ensures startPos == (NumRows / 2, NumCols / 2) && InBounds(NumRows, NumCols, startPos)
    ensures At(realMap, startPos) == 1
  {
    realMap := [];
    for row := 0 to NumRows
      invariant |realMap| == row
      invariant forall r :: 0 <= r < row ==> |realMap[r]| == NumCols
      invariant Binary(realMap)
    {
      var thisRow: seq<int> := [];
      for col := 0 to NumCols
        invariant |thisRow| == col
        invariant forall c :: 0 <= c < col ==> thisRow[c] == 0 || thisRow[c] == 1
      {
        var v :| v == 0 || v == 1;
        thisRow := thisRow + [v];
      }
      realMap := realMap + [thisRow];
    }
    startPos := (NumRows / 2, NumCols / 2);
    realMap := Set(realMap, startPos, 1);
  }

  /**
   * _OneHopNeighborhood of this variant: the in-bounds cells around
   * (x, y) in the listed order, which are exactly the in-bounds cells
   * adjacent to (x, y), each once.
   */
  method OneHopInOrder(numRows: int, numCols: int, x: int, y: int) returns (r: seq<Cell>)
    ensures r == OneHopList(numRows, numCols, x, y)
    ensures forall c :: c in r <==> InBounds(numRows, numCols, c) && Adjacent((x, y), c)
    ensures NoDup(r)
  {
    r := CollectInBounds(numRows, numCols, Ring(x, y));
    OneHopListMembers(numRows, numCols, x, y);
  }

  /**
   * The sixteen offsets of this variant's two-hop neighbourhood: in the
   * second, third and fourth rows the left-hand entries are (x - 1, y + 1),
   * (x, y) and (x + 1, y - 1) where the ring at distance two has
   * (x - 1, y - 2), (x, y - 2) and (x + 1, y - 2).
   */
  function EarlyTwoHopOffsets(x: int, y: int): seq<Cell>
  {
    [(x - 2, y - 2), (x - 2, y - 1), (x - 2, y), (x - 2, y + 1), (x - 2, y + 2),
     (x - 1, y + 1),                                             (x - 1, y + 2),
     (x, y),                                                     (x, y + 2),
     (x + 1, y - 1),                                             (x + 1, y + 2),
     (x + 2, y - 2), (x + 2, y - 1), (x + 2, y), (x + 2, y + 1), (x + 2, y + 2)]
  }

  /**
   * _TwoHopNeighborhood of this variant, as written: the in-bounds members
   * of its sixteen offsets in order. Of the cells two steps away it misses
   * the three two columns to the left, and it reports three cells that
   * are not two steps away.
   */
  method EarlyTwoHopNeighborhood(numRows: int, numCols: int, x: int, y: int) returns (r: seq<Cell>)
    ensures r == InBoundsOnly(numRows, numCols, EarlyTwoHopOffsets(x, y))
    ensures forall c :: c in r && !TwoAway((x, y), c) <==>
      InBounds(numRows, numCols, c) && (c == (x - 1, y + 1) || c == (x, y) || c == (x + 1, y - 1))
    ensures forall c :: TwoAway((x, y), c) && InBounds(numRows, numCols, c) && c !in r <==>
      InBounds(numRows, numCols, c) && (c == (x - 1, y - 2) || c == (x, y - 2) || c == (x + 1, y - 2))
  {
    r := CollectInBounds(numRows, numCols, EarlyTwoHopOffsets(x, y));
    EarlyTwoHopExtra(x, y);
    EarlyTwoHopMissing(x, y);
  }

  /** The listed offsets that are not two steps away: two diagonal neighbours and the centre. */
  lemma EarlyTwoHopExtra(x: int, y: int)
    ensures forall c :: c in EarlyTwoHopOffsets(x, y) && !TwoAway((x, y), c) <==> c == (x - 1, y + 1) || c == (x, y) || c == (x + 1, y - 1)
  {
  }

  /** The cells two steps away that the listed offsets miss: the three two columns to the left. */
  lemma EarlyTwoHopMissing(x: int, y: int)
    ensures forall c :: TwoAway((x, y), c) && c !in EarlyTwoHopOffsets(x, y) <==> c == (x - 1, y - 2) || c == (x, y - 2) || c == (x + 1, y - 2)
  {
    var offs := EarlyTwoHopOffsets(x, y);
    var ring := TwoHopRing(x, y);
    TwoHopRingMembers(x, y);
    forall c | TwoAway((x, y), c) && c != (x - 1, y - 2) && c != (x, y - 2) && c != (x + 1, y - 2)
      ensures c in offs
    {
      var k :| 0 <= k < |ring| && ring[k] == c;
      if k < 5 || k == 6 || k == 8 || k >= 10 {
        assert c == offs[k];
      }
    }
  }

  /**
   * NavigationRandomWalk and NavigationBallistic of this variant: the
   * real map, the map discovered so far, and for ballistic robots one
   * heading per robot.
   */
  class Navigation {
    const realMap: seq<seq<int>>
    const numRows: int
    const numCols: int
    const numRobots: nat
    const strategy: Strategy
    var discoMap: seq<seq<int>>
    var robotHeading: seq<Heading>

    predicate Valid()
      reads this
    {
      numRows == |realMap| && numRows > 0 && numCols == |realMap[0]| &&
      IsGrid(realMap, numRows, numCols) && IsGrid(discoMap, numRows, numCols) &&
      (strategy == Ballistic ==> |robotHeading| == numRobots)
    }

    /** Every cell starts unexplored; a ballistic robot starts with an arbitrary heading. */
    constructor (realMap: seq<seq<int>>, numRobots: nat, strategy: Strategy)
      requires |realMap| > 0 && IsGrid(realMap, |realMap|, |realMap[0]|)
      ensures Valid()
      ensures this.realMap == realMap && this.numRobots == numRobots && this.strategy == strategy
      ensures Known(discoMap, numRows, numCols) == {}
      ensures strategy == RandomWalk ==> robotHeading == []
    {
      this.realMap := realMap;
      numRows := |realMap|;
      numCols := |realMap[0]|;
      this.numRobots := numRobots;
      this.strategy := strategy;
      discoMap := seq(|realMap|, r requires 0 <= r < |realMap| => seq(|realMap[r]|, c => -1));
      var headings: seq<Heading> := [];
      if strategy == Ballistic {
        for k := 0 to numRobots
          invariant |headings| == k
        {
          var h: Heading :| true;
          headings := headings + [h];
        }
      }
      robotHeading := headings;
    }

    /**
     * The inner loop of think for one robot: copies each neighbour's real
     * value into the discovered map when it is 0 or 1, and lists in order
     * the neighbours the robot may claim.
     */
    method Scan(rx: int, ry: int, taken: seq<Cell>) returns (valid: seq<Cell>)
      requires Valid()
      modifies this
      ensures Valid() && robotHeading == old(robotHeading)
      ensures forall c :: c in valid <==> Claimable(realMap, numRows, numCols, (rx, ry), taken, c)
      ensures forall c :: (At(discoMap, c) ==
        if c in NbrSet(numRows, numCols, rx, ry) && (At(realMap, c) == 0 || At(realMap, c) == 1)
        then At(realMap, c) else At(old(discoMap), c))
    {
      var nbrs := OneHopInOrder(numRows, numCols, rx, ry);
      valid := [];
      for j := 0 to |nbrs|
        invariant IsGrid(discoMap, numRows, numCols) && robotHeading == old(robotHeading)
        invariant forall c :: c in valid <==> c in nbrs[..j] && Claimable(realMap, numRows, numCols, (rx, ry), taken, c)
        invariant forall c :: (At(discoMap, c) ==
          if c in nbrs[..j] && (At(realMap, c) == 0 || At(realMap, c) == 1) then At(realMap, c) else At(old(discoMap), c))
      {
        var n := nbrs[j];
        assert InBounds(numRows, numCols, n) by { assert n in nbrs; }
        assert nbrs[..j + 1] == nbrs[..j] + [n];
        ghost var before := discoMap;
        if realMap[n.0][n.1] == 0 {
          discoMap := Set(discoMap, n, 0);
        } else if realMap[n.0][n.1] == 1 {
          discoMap := Set(discoMap, n, 1);
        }
        assert forall c :: c != n ==> At(discoMap, c) == At(before, c);
        if realMap[n.0][n.1] == 1 && n !in taken {
          valid := valid + [n];
        }
      }
      assert nbrs[..|nbrs|] == nbrs;
      NbrSetMembers(numRows, numCols, rx, ry);
    }

    /**
     * _pickNextPosition, as in the later variant: a random walker takes
     * any valid cell; a ballistic robot keeps its heading while the cell
     * ahead is valid and otherwise ends on a heading that points at one.
     */
    method PickNextPosition(ridx: nat, rx: int, ry: int, valid: seq<Cell>) returns (p: Cell)
      requires Valid()
      requires valid != [] && forall c :: c in valid ==> Adjacent((rx, ry), c)
      requires strategy == Ballistic ==> ridx < |robotHeading|
      modifies this
      ensures Valid() && discoMap == old(discoMap)
      ensures p in valid
      ensures strategy == RandomWalk ==> robotHeading == old(robotHeading)
      ensures strategy == Ballistic ==>
        robotHeading == old(robotHeading)[ridx := robotHeading[ridx]] && Step(robotHeading[ridx], rx, ry) == p
      ensures strategy == Ballistic && Step(old(robotHeading)[ridx], rx, ry) in valid ==> robotHeading == old(robotHeading)
    {
      if strategy == RandomWalk {
        assert valid[0] in valid;
        p :| p in valid;
      } else {
        var h := robotHeading[ridx];
        if Step(h, rx, ry) !in valid {
          StepCoversRing(rx, ry, valid[0]);
          h :| Step(h, rx, ry) in valid;
          robotHeading := robotHeading[ridx := h];
        }
        p := Step(h, rx, ry);
      }
    }

    /** One pass of think's robot loop: robot `i` scans and claims given the cells `next` claimed before it. */
    method MoveRobot(positions: seq<Cell>, i: nat, next: seq<Cell>) returns (p: Cell)
      requires Valid() && i < |positions|
      requires strategy == Ballistic ==> |positions| <= numRobots
      modifies this
      ensures Valid()
      ensures Claim(realMap, numRows, numCols, positions[i], next, p)
      ensures forall c :: (At(discoMap, c) ==
        if c in NbrSet(numRows, numCols, positions[i].0, positions[i].1) && (At(realMap, c) == 0 || At(realMap, c) == 1)
        then At(realMap, c) else At(old(discoMap), c))
      ensures strategy == RandomWalk ==> robotHeading == old(robotHeading)
      ensures strategy == Ballistic ==> robotHeading == old(robotHeading)[i := robotHeading[i]]
      ensures strategy == Ballistic && p != positions[i] ==> Step(robotHeading[i], positions[i].0, positions[i].1) == p
      ensures strategy == Ballistic && p == positions[i] ==> robotHeading == old(robotHeading)
    {
      var (rx, ry) := positions[i];
      var valid := Scan(rx, ry, next);
      if valid != [] {
        p := PickNextPosition(i, rx, ry, valid);
        assert Claimable(realMap, numRows, numCols, (rx, ry), next, p);
      } else {
        assert forall c :: !Claimable(realMap, numRows, numCols, (rx, ry), next, c);
        p := (rx, ry);
      }
    }

    /**
     * think: unless the map is fully discovered, every robot in index order
     * reveals its neighbourhood and claims a free open neighbour, staying
     * put when it has none. Nothing is counted.
     */
    method Think(positions: seq<Cell>) returns (next: Option<seq<Cell>>)
      requires Valid()
      requires strategy == Ballistic ==> |positions| <= numRobots
      modifies this
      ensures Valid()
      ensures next.None? <==> FullyDiscovered(old(discoMap))
      ensures next.None? ==> discoMap == old(discoMap) && robotHeading == old(robotHeading)
      ensures next.Some? ==> ClaimRule(realMap, numRows, numCols, positions, next.value)
      ensures next.Some? ==> forall c :: (At(discoMap, c) ==
        if c in ScannedSet(numRows, numCols, positions) && (At(realMap, c) == 0 || At(realMap, c) == 1)
        then At(realMap, c) else At(old(discoMap), c))
      ensures strategy == RandomWalk ==> robotHeading == old(robotHeading)
      ensures strategy == Ballistic && next.Some? ==> HeadingsFollow(old(robotHeading), robotHeading, positions, next.value)
    {
      var done := DetermineDoneExploring(discoMap);
      if done {
        return None;
      }
      var moves: seq<Cell> := [];
      for i := 0 to |positions|
        invariant Valid()
        invariant ClaimRule(realMap, numRows, numCols, positions[..i], moves)
        invariant forall c :: (At(discoMap, c) ==
          if c in ScannedSet(numRows, numCols, positions[..i]) && (At(realMap, c) == 0 || At(realMap, c) == 1)
          then At(realMap, c) else At(old(discoMap), c))
        invariant strategy == RandomWalk ==> robotHeading == old(robotHeading)
        invariant strategy == Ballistic ==> HeadingsFollow(old(robotHeading), robotHeading, positions[..i], moves)
      {
        ghost var h := robotHeading;
        var p := MoveRobot(positions, i, moves);
        assert positions[..i + 1][..i] == positions[..i];
        assert ScannedSet(numRows, numCols, positions[..i + 1]) ==
          ScannedSet(numRows, numCols, positions[..i]) + NbrSet(numRows, numCols, positions[i].0, positions[i].1);
        ClaimRuleExtend(realMap, numRows, numCols, positions, moves, i, p);
        if strategy == Ballistic {
          HeadingsStep(old(robotHeading), h, robotHeading, positions, moves, i, p);
        }
        moves := moves + [p];
      }
      assert positions[..|positions|] == positions;
      return Some(moves);
    }
  }

  /** The move loop of this variant's singleExploration: robots take their next positions, and changes are counted. */
  method MoveAll(robotPositions: seq<Cell>, next: seq<Cell>) returns (positions: seq<Cell>, steps: nat)
    requires |next| == |robotPositions|
    ensures positions == next
    ensures steps == StepsTaken(robotPositions, next)
  {
    positions := robotPositions;
    steps := 0;
    for i := 0 to |next|
      invariant |positions| == |next|
      invariant forall k :: 0 <= k < i ==> positions[k] == next[k]
      invariant forall k :: i <= k < |next| ==> positions[k] == robotPositions[k]
      invariant steps == StepsTaken(robotPositions, next[..i])
    {
      assert next[..i + 1][..i] == next[..i];
      if next[i] != positions[i] {
        steps := steps + 1;
      }
      positions := positions[i := next[i]];
    }
    assert next[..|next|] == next;
  }

  /** think as the run loop sees it: its outcome, and the cells it adds to the explored ones. */
  method ThinkCounted(nav: Navigation, positions: seq<Cell>) returns (next: Option<seq<Cell>>, ghost explored: nat)
    requires nav.Valid() && Binary(nav.realMap) && (nav.strategy == Ballistic ==> |positions| <= nav.numRobots)
    modifies nav
    ensures nav.Valid()
    ensures next.None? ==> nav.discoMap == old(nav.discoMap)
    ensures next.None? ==> Known(nav.discoMap, nav.numRows, nav.numCols) == AllCells(nav.numRows, nav.numCols)
    ensures next.Some? ==> ClaimRule(nav.realMap, nav.numRows, nav.numCols, positions, next.value)
    ensures next.Some? ==>
      Known(nav.discoMap, nav.numRows, nav.numCols) == Known(old(nav.discoMap), nav.numRows, nav.numCols) + ScannedSet(nav.numRows, nav.numCols, positions)
    ensures next.Some? ==> explored == |NewlyExplored(old(nav.discoMap), nav.numRows, nav.numCols, positions)|
    ensures next.Some? ==> explored == |ScannedSet(nav.numRows, nav.numCols, positions) - Known(old(nav.discoMap), nav.numRows, nav.numCols)|
    ensures next.Some? ==> Known(old(nav.discoMap), nav.numRows, nav.numCols) != AllCells(nav.numRows, nav.numCols)
  {
    next := nav.Think(positions);
    if next.None? {
      FullyDiscoveredKnown(nav.discoMap, nav.numRows, nav.numCols);
      explored := 0;
    } else {
      NotFullKnown(old(nav.discoMap), nav.numRows, nav.numCols);
      RevealedKnown(old(nav.discoMap), nav.discoMap, nav.realMap, nav.numRows, nav.numCols, positions);
      explored := |NewlyExplored(old(nav.discoMap), nav.numRows, nav.numCols, positions)|;
    }
  }

  /**
   * The bookkeeping this variant's singleExploration keeps across ticks:
   * the robots stand on open cells where the last tick left them, every
   * tick obeyed the claim rule, the step count agrees with the ticks, each
   * tick counts the cells it newly scanned, and before each tick some cell
   * was still unscanned.
   */
  ghost predicate RunState(realMap: seq<seq<int>>, numRows: int, numCols: int, start: seq<Cell>, history: seq<Tick>,
                           robotPositions: seq<Cell>, numSteps: nat)
  {
    |robotPositions| == |start| &&
    (forall i :: 0 <= i < |robotPositions| ==> At(realMap, robotPositions[i]) == 1) &&
    robotPositions == (if history == [] then start else history[|history| - 1].after) &&
    Logged(realMap, numRows, numCols, start, history) &&
    numSteps == TotalSteps(history)
  }

  /** The move half of a tick: the robots take the positions think chose, and the steps are counted. */
  method RecordTick(realMap: seq<seq<int>>, numRows: int, numCols: int, ghost start: seq<Cell>, ghost history: seq<Tick>,
                    robotPositions: seq<Cell>, numSteps: nat, next: seq<Cell>, ghost explored: nat)
    returns (robotPositions': seq<Cell>, numSteps': nat, ghost history': seq<Tick>)
    requires RunState(realMap, numRows, numCols, start, history, robotPositions, numSteps)
    requires ClaimRule(realMap, numRows, numCols, robotPositions, next)
    requires Covered(numRows, numCols, history) != AllCells(numRows, numCols)
    requires explored == |ScannedSet(numRows, numCols, robotPositions) - Covered(numRows, numCols, history)|
    ensures history' == history + [Tick(robotPositions, next, explored)]
    ensures Covered(numRows, numCols, history') == Covered(numRows, numCols, history) + ScannedSet(numRows, numCols, robotPositions)
    ensures RunState(realMap, numRows, numCols, start, history', robotPositions', numSteps')
  {
    ClaimedOpen(realMap, numRows, numCols, robotPositions, next);
    var t := Tick(robotPositions, next, explored);
    HistoryStep(history, t);
    LoggedStep(realMap, numRows, numCols, start, history, t);
    history' := history + [t];
    var steps;
    robotPositions', steps := MoveAll(robotPositions, next);
    numSteps' := numSteps + steps;
  }

  /** One tick of the run loop: think, then either stop with the map complete or move the robots. */
  method RunTick(nav: Navigation, ghost start: seq<Cell>, ghost history: seq<Tick>, robotPositions: seq<Cell>, numSteps: nat)
    returns (done: bool, robotPositions': seq<Cell>, numSteps': nat, ghost history': seq<Tick>)
    requires nav.Valid() && Binary(nav.realMap) && (nav.strategy == Ballistic ==> |robotPositions| <= nav.numRobots)
    requires RunState(nav.realMap, nav.numRows, nav.numCols, start, history, robotPositions, numSteps)
    requires Known(nav.discoMap, nav.numRows, nav.numCols) == Covered(nav.numRows, nav.numCols, history)
    modifies nav
    ensures nav.Valid()
    ensures done ==> history' == history && Covered(nav.numRows, nav.numCols, history) == AllCells(nav.numRows, nav.numCols)
    ensures |history'| == |history| + (if done then 0 else 1)
    ensures RunState(nav.realMap, nav.numRows, nav.numCols, start, history', robotPositions', numSteps')
    ensures Known(nav.discoMap, nav.numRows, nav.numCols) == Covered(nav.numRows, nav.numCols, history')
  {
    var next, explored := ThinkCounted(nav, robotPositions);
    if next.None? {
      return true, robotPositions, numSteps, history;
    }
    done := false;
    robotPositions', numSteps', history' :=
      RecordTick(nav.realMap, nav.numRows, nav.numCols, start, history, robotPositions, numSteps, next.value, explored);
  }

  /**
   * singleExploration of this variant, bounded by `maxTicks`: all robots
   * start on the start cell, and per tick numSteps grows by the number of
   * robots that changed position and numTicks by one. A tick counts as
   * explored the cells next to the robots that no earlier tick had
   * scanned, and the run succeeds only once every cell has been scanned.
   */
  method SingleExploration(realMap: seq<seq<int>>, startPos: Cell, numRobots: nat, strategy: Strategy, maxTicks: nat)
    returns (numTicks: nat, numSteps: nat, outcome: MappingOutcome, ghost history: seq<Tick>)
    requires |realMap| > 0 && IsGrid(realMap, |realMap|, |realMap[0]|) && Binary(realMap)
    requires At(realMap, startPos) == 1
    ensures numTicks == |history| <= maxTicks
    ensures outcome == OutOfTicks ==> numTicks == maxTicks
    ensures Chained(history, seq(numRobots, _ => startPos))
    ensures forall k :: 0 <= k < |history| ==> ClaimRule(realMap, |realMap|, |realMap[0]|, history[k].before, history[k].after)
    ensures numSteps == TotalSteps(history)
    ensures TotalExplored(history) <= |AllCells(|realMap|, |realMap[0]|)|
    ensures ScanCounted(|realMap|, |realMap[0]|, history)
    ensures outcome == Success ==> Covered(|realMap|, |realMap[0]|, history) == AllCells(|realMap|, |realMap[0]|)
    ensures outcome == Success ==> TotalExplored(history) == |AllCells(|realMap|, |realMap[0]|)|
    ensures NeverFullBefore(|realMap|, |realMap[0]|, history)
  {
    var numRows, numCols := |realMap|, |realMap[0]|;
    var nav := new Navigation(realMap, numRobots, strategy);
    ghost var start := seq(numRobots, _ => startPos);
    var robotPositions: seq<Cell> := seq(numRobots, _ => startPos);
    numTicks, numSteps, outcome := 0, 0, OutOfTicks;
    history := [];
    while numTicks < maxTicks
      invariant nav.Valid() && nav.realMap == realMap && nav.numRobots == numRobots && nav.strategy == strategy
      invariant numTicks == |history| <= maxTicks
      invariant RunState(realMap, numRows, numCols, start, history, robotPositions, numSteps)
      invariant Known(nav.discoMap, numRows, numCols) == Covered(numRows, numCols, history)
      invariant outcome == OutOfTicks
    {
      var done;
      done, robotPositions, numSteps, history := RunTick(nav, start, history, robotPositions, numSteps);
      if done {
        outcome := Success;
        break;
      }
      numTicks := numTicks + 1;
    }
    ExploredBound(numRows, numCols, history);
  }

  /** This variant's reveal, which copies only 0 and 1, adds the newly explored cells to the explored ones on a binary map. */
  lemma RevealedKnown(d: seq<seq<int>>, d': seq<seq<int>>, realMap: seq<seq<int>>, numRows: int, numCols: int, positions: seq<Cell>)
    requires Binary(realMap) && IsGrid(realMap, numRows, numCols)
    requires forall c :: (At(d', c) ==
      if c in ScannedSet(numRows, numCols, positions) && (At(realMap, c) == 0 || At(realMap, c) == 1)
      then At(realMap, c) else At(d, c))
    ensures Known(d', numRows, numCols) == Known(d, numRows, numCols) + ScannedSet(numRows, numCols, positions)
    ensures NewlyExplored(d, numRows, numCols, positions) == ScannedSet(numRows, numCols, positions) - Known(d, numRows, numCols)
    ensures |Known(d', numRows, numCols)| == |Known(d, numRows, numCols)| + |NewlyExplored(d, numRows, numCols, positions)|
  {
    forall c
      ensures At(d', c) == if c in ScannedSet(numRows, numCols, positions) then At(realMap, c) else At(d, c)
    {
      if c in ScannedSet(numRows, numCols, positions) {
        assert At(realMap, c) == realMap[c.0][c.1];
      }
    }
    KnownStep(d, d', realMap, numRows, numCols, positions);
  }
}
