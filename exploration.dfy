/**
 * The distributed side of the grid exploration simulator: the
 * neighbourhood listings, the test for a fully discovered map, the
 * per-tick movement of random-walk and ballistic robots, and the KPI
 * accounting of one exploration run.
 *
 * The discovered map holds -1 for a cell not yet seen, 0 for a wall and 1
 * for open floor. random.shuffle and random.choice are modelled as
 * nondeterministic choices: a shuffle yields some permutation, a choice
 * yields some member.
 */
module Exploration {
  import opened SeqUtil
  import opened Grid

  /** random.shuffle: the result is some ordering of `s`. */
  method Shuffle(s: seq<Cell>) returns (r: seq<Cell>)
    ensures multiset(r) == multiset(s)
  {
    r := s;
  }

  /**
   * _OneHopNeighborhood: the in-bounds cells around (x, y), shuffled. As a
   * collection it holds exactly the in-bounds cells adjacent to (x, y).
   */
  method OneHopNeighborhood(numRows: int, numCols: int, x: int, y: int) returns (r: seq<Cell>)
    ensures multiset(r) == multiset(OneHopList(numRows, numCols, x, y))
    ensures forall c :: c in r <==> InBounds(numRows, numCols, c) && Adjacent((x, y), c)
    ensures NoDup(r)
  {
    var listed := CollectInBounds(numRows, numCols, Ring(x, y));
    r := Shuffle(listed);
    OneHopListMembers(numRows, numCols, x, y);
    PermNoDup(r, listed);
    assert forall c :: c in r <==> c in multiset(r);
  }

  /**
   * The sixteen offsets the two-hop neighbourhood lists, as written: the
   * eighth entry is (x, y) itself where the ring at distance two has
   * (x, y - 2).
   */
  function TwoHopOffsets(x: int, y: int): seq<Cell>
  {
    [(x - 2, y - 2), (x - 2, y - 1), (x - 2, y), (x - 2, y + 1), (x - 2, y + 2),
     (x - 1, y - 2),                                             (x - 1, y + 2),
     (x, y),                                                     (x, y + 2),
     (x + 1, y - 2),                                             (x + 1, y + 2),
     (x + 2, y - 2), (x + 2, y - 1), (x + 2, y), (x + 2, y + 1), (x + 2, y + 2)]
  }

  /**
   * _TwoHopNeighborhood as written: the in-bounds members of its sixteen
   * offsets, shuffled. It reports the robot's own cell and never the cell
   * two columns to its left.
   */
  method TwoHopNeighborhood(numRows: int, numCols: int, x: int, y: int) returns (r: seq<Cell>)
    ensures multiset(r) == multiset(InBoundsOnly(numRows, numCols, TwoHopOffsets(x, y)))
    ensures InBounds(numRows, numCols, (x, y)) ==> (x, y) in r
    ensures (x, y - 2) !in r
  {
    var listed := CollectInBounds(numRows, numCols, TwoHopOffsets(x, y));
    r := Shuffle(listed);
    assert forall c :: c in r <==> c in multiset(r);
    assert (x, y) in TwoHopOffsets(x, y);
    assert (x, y - 2) !in TwoHopOffsets(x, y);
  }

  /**
   * The two-hop offsets as written list the centre, which is no two steps
   * from itself, and miss (x, y - 2), which is.
   */
  lemma TwoHopAsWrittenDiffers(x: int, y: int)
    ensures (x, y) in TwoHopOffsets(x, y) && !TwoAway((x, y), (x, y))
    ensures (x, y - 2) !in TwoHopOffsets(x, y) && TwoAway((x, y), (x, y - 2))
  {
    assert TwoHopOffsets(x, y)[7] == (x, y);
  }

  /** No cell of the discovered map is still unexplored. */
  predicate FullyDiscovered(m: seq<seq<int>>)
  {
    forall r, c :: 0 <= r < |m| && 0 <= c < |m[r]| ==> m[r][c] != -1
  }

  /**
   * _determineDoneExploring: scans the map row by row, leaving a row at
   * its first unexplored cell. It reports done exactly when no cell is -1.
   */
  method DetermineDoneExploring(discoMap: seq<seq<int>>) returns (done: bool)
    ensures done <==> FullyDiscovered(discoMap)
  {
    done := true;
    var r := 0;
    while r < |discoMap|
      invariant 0 <= r <= |discoMap|
      invariant done <==> forall i, j :: 0 <= i < r && 0 <= j < |discoMap[i]| ==> discoMap[i][j] != -1
    {
      var c := 0;
      while c < |discoMap[r]|
        invariant 0 <= c <= |discoMap[r]|
        invariant done <==> forall i, j :: (0 <= i < r && 0 <= j < |discoMap[i]|) || (i == r && 0 <= j < c) ==> discoMap[i][j] != -1
      {
        if discoMap[r][c] == -1 {
          done := false;
          break;
        }
        c := c + 1;
      }
      r := r + 1;
    }
  }

  /** Every cell of the map is a wall (0) or open (1). */
  predicate Binary(m: seq<seq<int>>)
  {
    forall r, c :: 0 <= r < |m| && 0 <= c < |m[r]| ==> m[r][c] == 0 || m[r][c] == 1
  }

  /** A cell the robot at `p` may move to: inside, adjacent, open, and not claimed in `taken`. */
  predicate Claimable(realMap: seq<seq<int>>, numRows: int, numCols: int, p: Cell, taken: seq<Cell>, c: Cell)
  {
    InBounds(numRows, numCols, c) && Adjacent(p, c) && At(realMap, c) == 1 && c !in taken
  }

  /** `q` is a legal outcome for the robot at `p` given the cells `taken` before it: a claimable cell if there is one, else `p`. */
  ghost predicate Claim(realMap: seq<seq<int>>, numRows: int, numCols: int, p: Cell, taken: seq<Cell>, q: Cell)
  {
    if exists c :: Claimable(realMap, numRows, numCols, p, taken, c)
    then Claimable(realMap, numRows, numCols, p, taken, q)
    else q == p
  }

  /** The claim rule of think: robots move in index order, each to a cell no lower-index robot took. */
  ghost predicate ClaimRule(realMap: seq<seq<int>>, numRows: int, numCols: int, positions: seq<Cell>, next: seq<Cell>)
  {
    |next| == |positions| &&
    forall i :: 0 <= i < |next| ==> Claim(realMap, numRows, numCols, positions[i], next[..i], next[i])
  }

  /** Cells in the one-hop neighbourhood of some robot. */
  function ScannedSet(numRows: int, numCols: int, positions: seq<Cell>): (r: set<Cell>)
    ensures forall c :: c in r ==> InBounds(numRows, numCols, c)
  {
    if positions == [] then {}
    else
      var p := positions[|positions| - 1];
      ScannedSet(numRows, numCols, positions[..|positions| - 1]) + NbrSet(numRows, numCols, p.0, p.1)
  }

  /** The scanned cells are the in-bounds cells next to some robot. */
  lemma {:induction false} ScannedSetMembers(numRows: int, numCols: int, positions: seq<Cell>)
    ensures forall c :: c in ScannedSet(numRows, numCols, positions) <==>
      InBounds(numRows, numCols, c) && exists i :: 0 <= i < |positions| && Adjacent(positions[i], c)
  {
    if positions != [] {
      var init := positions[..|positions| - 1];
      var p := positions[|positions| - 1];
      ScannedSetMembers(numRows, numCols, init);
      NbrSetMembers(numRows, numCols, p.0, p.1);
      forall c | InBounds(numRows, numCols, c) && exists i :: 0 <= i < |positions| && Adjacent(positions[i], c)
        ensures c in ScannedSet(numRows, numCols, positions)
      {
        var i :| 0 <= i < |positions| && Adjacent(positions[i], c);
        if i < |init| {
          assert init[i] == positions[i];
        }
      }
      forall c | c in ScannedSet(numRows, numCols, positions)
        ensures exists i :: 0 <= i < |positions| && Adjacent(positions[i], c)
      {
        if c in ScannedSet(numRows, numCols, init) {
          var i :| 0 <= i < |init| && Adjacent(init[i], c);
          assert positions[i] == init[i];
        } else {
          assert Adjacent(positions[|positions| - 1], c);
        }
      }
    }
  }

  /** The cells a tick explores for the first time: scanned and unexplored before it. */
  function NewlyExplored(discoMap: seq<seq<int>>, numRows: int, numCols: int, positions: seq<Cell>): set<Cell>
  {
    set c | c in ScannedSet(numRows, numCols, positions) && At(discoMap, c) == -1
  }

  /** The explored cells of a discovered map. */
  function Known(discoMap: seq<seq<int>>, numRows: int, numCols: int): set<Cell>
  {
    set c | c in AllCells(numRows, numCols) && At(discoMap, c) != -1
  }

  /**
   * Headings after a ballistic tick: a robot that moved now heads at the
   * cell it moved to; the others keep their heading.
   */
  predicate HeadingsFollow(before: seq<Heading>, after: seq<Heading>, positions: seq<Cell>, next: seq<Cell>)
    requires |next| == |positions|
  {
    |after| == |before| &&
    forall i :: 0 <= i < |after| ==>
      if i < |positions| && next[i] != positions[i]
      then Step(after[i], positions[i].0, positions[i].1) == next[i]
      else after[i] == before[i]
  }

  datatype Strategy = RandomWalk | Ballistic

  /** What think returns: the mapping is done, or the next positions and the number of cells explored this tick. */
  datatype ThinkOutcome = MappingDoneSuccess | Moves(next: seq<Cell>, numExplored: nat)

  /**
   * NavigationRandomWalk and NavigationBallistic: the real map, the map
   * discovered so far, and for ballistic robots one heading per robot.
   */
  class DistributedNavigation {
    const realMap: seq<seq<int>>
    const numRows: int
    const numCols: int
    const numRobots: nat
    const strategy: Strategy
    var discoMap: seq<seq<int>>
    var robotHeading: seq<Heading>

    predicate Valid()
      reads this
    {
      numRows == |realMap| && numRows > 0 && numCols == |realMap[0]| &&
      IsGrid(realMap, numRows, numCols) && Binary(realMap) &&
      IsGrid(discoMap, numRows, numCols) &&
      (strategy == Ballistic ==> |robotHeading| == numRobots)
    }

    /** Every cell starts unexplored; a ballistic robot starts with an arbitrary heading. */
    constructor (realMap: seq<seq<int>>, numRobots: nat, strategy: Strategy)
      requires |realMap| > 0 && IsGrid(realMap, |realMap|, |realMap[0]|) && Binary(realMap)
      ensures Valid()
      ensures this.realMap == realMap && this.numRobots == numRobots && this.strategy == strategy
      ensures Known(discoMap, numRows, numCols) == {}
      ensures strategy == RandomWalk ==> robotHeading == []
    {
      this.realMap := realMap;
      numRows := |realMap|;
      numCols := |realMap[0]|;
      this.numRobots := numRobots;
      this.strategy := strategy;
      discoMap := seq(|realMap|, r requires 0 <= r < |realMap| => seq(|realMap[r]|, c => -1));
      var headings: seq<Heading> := [];
      if strategy == Ballistic {
        for k := 0 to numRobots
          invariant |headings| == k
        {
          var h: Heading :| true;
          headings := headings + [h];
        }
      }
      robotHeading := headings;
    }

    /**
     * The inner loop of think for one robot: reveals every neighbour's real
     * value, counts the neighbours that were unexplored, and lists the
     * neighbours the robot may claim.
     */
    method Scan(rx: int, ry: int, taken: seq<Cell>) returns (valid: seq<Cell>, explored: nat)
      requires Valid()
      modifies this
      ensures Valid() && robotHeading == old(robotHeading)
      ensures forall c :: c in valid <==> Claimable(realMap, numRows, numCols, (rx, ry), taken, c)
      ensures forall c :: At(discoMap, c) == if c in NbrSet(numRows, numCols, rx, ry) then At(realMap, c) else At(old(discoMap), c)
      ensures explored == |set c | c in NbrSet(numRows, numCols, rx, ry) && At(old(discoMap), c) == -1|
    {
      var nbrs := OneHopNeighborhood(numRows, numCols, rx, ry);
      valid := [];
      explored := 0;
      for j := 0 to |nbrs|
        invariant IsGrid(discoMap, numRows, numCols) && robotHeading == old(robotHeading)
        invariant forall c :: c in valid <==> c in nbrs[..j] && Claimable(realMap, numRows, numCols, (rx, ry), taken, c)
        invariant forall c :: At(discoMap, c) == if c in nbrs[..j] then At(realMap, c) else At(old(discoMap), c)
        invariant explored == |Unexplored(old(discoMap), nbrs[..j])|
      {
        var n := nbrs[j];
        assert InBounds(numRows, numCols, n) by { assert n in nbrs; }
        assert nbrs[..j + 1] == nbrs[..j] + [n];
        UnexploredStep(old(discoMap), discoMap, realMap, numRows, numCols, nbrs[..j], n);
        if discoMap[n.0][n.1] == -1 {
          explored := explored + 1;
        }
        ghost var before := discoMap;
        if realMap[n.0][n.1] == 0 {
          discoMap := Set(discoMap, n, 0);
        } else if realMap[n.0][n.1] == 1 {
          discoMap := Set(discoMap, n, 1);
        }
        assert At(discoMap, n) == At(realMap, n);
        assert forall c :: c != n ==> At(discoMap, c) == At(before, c);
        if realMap[n.0][n.1] == 1 && n !in taken {
          valid := valid + [n];
        }
      }
      assert nbrs[..|nbrs|] == nbrs;
      NbrSetMembers(numRows, numCols, rx, ry);
      assert Unexplored(old(discoMap), nbrs) == (set c | c in NbrSet(numRows, numCols, rx, ry) && At(old(discoMap), c) == -1);
    }

    /**
     * _pickNextPosition. A random walker takes any valid cell. A ballistic
     * robot keeps its heading while the cell ahead is valid; otherwise it
     * redraws headings until one points at a valid cell, which is modelled
     * by choosing such a heading.
     */
    method PickNextPosition(ridx: nat, rx: int, ry: int, valid: seq<Cell>) returns (p: Cell)
      requires Valid()
      requires valid != [] && forall c :: c in valid ==> Adjacent((rx, ry), c)
      requires strategy == Ballistic ==> ridx < |robotHeading|
      modifies this
      ensures Valid() && discoMap == old(discoMap)
      ensures p in valid
      ensures strategy == RandomWalk ==> robotHeading == old(robotHeading)
      ensures strategy == Ballistic ==>
        robotHeading == old(robotHeading)[ridx := robotHeading[ridx]] && Step(robotHeading[ridx], rx, ry) == p
      ensures strategy == Ballistic && Step(old(robotHeading)[ridx], rx, ry) in valid ==> robotHeading == old(robotHeading)
    {
      if strategy == RandomWalk {
        assert valid[0] in valid;
        p :| p in valid;
      } else {
        var h := robotHeading[ridx];
        if Step(h, rx, ry) !in valid {
          StepCoversRing(rx, ry, valid[0]);
          h :| Step(h, rx, ry) in valid;
          robotHeading := robotHeading[ridx := h];
        }
        p := Step(h, rx, ry);
      }
    }

    /**
     * One pass of think's robot loop: robot `i` scans its neighbourhood
     * and claims a cell given the cells `next` claimed before it.
     */
    method MoveRobot(positions: seq<Cell>, i: nat, next: seq<Cell>) returns (p: Cell, explored: nat)
      requires Valid() && i < |positions|
      requires strategy == Ballistic ==> |positions| <= numRobots
      modifies this
      ensures Valid()
      ensures Claim(realMap, numRows, numCols, positions[i], next, p)
      ensures forall c :: (At(discoMap, c) ==
        if c in NbrSet(numRows, numCols, positions[i].0, positions[i].1) then At(realMap, c) else At(old(discoMap), c))
      ensures explored == |set c | c in NbrSet(numRows, numCols, positions[i].0, positions[i].1) && At(old(discoMap), c) == -1|
      ensures strategy == RandomWalk ==> robotHeading == old(robotHeading)
      ensures strategy == Ballistic ==> robotHeading == old(robotHeading)[i := robotHeading[i]]
      ensures strategy == Ballistic && p != positions[i] ==> Step(robotHeading[i], positions[i].0, positions[i].1) == p
      ensures strategy == Ballistic && p == positions[i] ==> robotHeading == old(robotHeading)
    {
      var (rx, ry) := positions[i];
      var valid;
      valid, explored := Scan(rx, ry, next);
      if valid != [] {
        p := PickNextPosition(i, rx, ry, valid);
        assert Claimable(realMap, numRows, numCols, (rx, ry), next, p);
      } else {
        assert forall c :: !Claimable(realMap, numRows, numCols, (rx, ry), next, c);
        p := (rx, ry);
      }
    }

    /**
     * think: unless the map is fully discovered, every robot in index order
     * reveals its neighbourhood and claims a free open neighbour, staying
     * put when it has none.
     */
    method Think(positions: seq<Cell>) returns (outcome: ThinkOutcome)
      requires Valid()
      requires strategy == Ballistic ==> |positions| <= numRobots
      modifies this
      ensures Valid()
      ensures outcome.MappingDoneSuccess? <==> FullyDiscovered(old(discoMap))
      ensures outcome.MappingDoneSuccess? ==> discoMap == old(discoMap) && robotHeading == old(robotHeading)
      ensures outcome.Moves? ==> ClaimRule(realMap, numRows, numCols, positions, outcome.next)
      ensures outcome.Moves? ==> forall c :: (At(discoMap, c) ==
        if c in ScannedSet(numRows, numCols, positions) then At(realMap, c) else At(old(discoMap), c))
      ensures outcome.Moves? ==> outcome.numExplored == |NewlyExplored(old(discoMap), numRows, numCols, positions)|
      ensures strategy == RandomWalk ==> robotHeading == old(robotHeading)
      ensures strategy == Ballistic && outcome.Moves? ==> HeadingsFollow(old(robotHeading), robotHeading, positions, outcome.next)
    {
      var done := DetermineDoneExploring(discoMap);
      if done {
        return MappingDoneSuccess;
      }
      var next: seq<Cell> := [];
      var numExplored: nat := 0;
      for i := 0 to |positions|
        invariant Valid()
        invariant ClaimRule(realMap, numRows, numCols, positions[..i], next)
        invariant forall c :: (At(discoMap, c) ==
          if c in ScannedSet(numRows, numCols, positions[..i]) then At(realMap, c) else At(old(discoMap), c))
        invariant numExplored == |NewlyExplored(old(discoMap), numRows, numCols, positions[..i])|
        invariant strategy == RandomWalk ==> robotHeading == old(robotHeading)
        invariant strategy == Ballistic ==> HeadingsFollow(old(robotHeading), robotHeading, positions[..i], next)
      {
        ghost var d := discoMap;
        ghost var h := robotHeading;
        var p, explored := MoveRobot(positions, i, next);
        RevealStep(old(discoMap), d, discoMap, realMap, numRows, numCols, positions, i);
        numExplored := numExplored + explored;
        ClaimRuleExtend(realMap, numRows, numCols, positions, next, i, p);
        if strategy == Ballistic {
          HeadingsStep(old(robotHeading), h, robotHeading, positions, next, i, p);
        }
        next := next + [p];
      }
      assert positions[..|positions|] == positions;
      return Moves(next, numExplored);
    }
  }

  /**
   * Revealing robot i's neighbourhood extends the revealed area by it, and
   * the cells it finds unexplored are exactly the newly explored ones that
   * no earlier robot found.
   */
  lemma RevealStep(d0: seq<seq<int>>, d: seq<seq<int>>, d': seq<seq<int>>, realMap: seq<seq<int>>,
                   numRows: int, numCols: int, positions: seq<Cell>, i: int)
    requires Binary(realMap) && IsGrid(realMap, numRows, numCols) && 0 <= i < |positions|
    requires forall c :: (At(d, c) ==
      if c in ScannedSet(numRows, numCols, positions[..i]) then At(realMap, c) else At(d0, c))
    requires forall c :: (At(d', c) ==
      if c in NbrSet(numRows, numCols, positions[i].0, positions[i].1) then At(realMap, c) else At(d, c))
    ensures forall c :: (At(d', c) ==
      if c in ScannedSet(numRows, numCols, positions[..i + 1]) then At(realMap, c) else At(d0, c))
    ensures |NewlyExplored(d0, numRows, numCols, positions[..i + 1])| ==
      |NewlyExplored(d0, numRows, numCols, positions[..i])| +
      |set c | c in NbrSet(numRows, numCols, positions[i].0, positions[i].1) && At(d, c) == -1|
  {
    var nb := NbrSet(numRows, numCols, positions[i].0, positions[i].1);
    var scanned := ScannedSet(numRows, numCols, positions[..i]);
    assert positions[..i + 1][..i] == positions[..i];
    assert ScannedSet(numRows, numCols, positions[..i + 1]) == scanned + nb;
    NewlyExploredStep(d0, d, realMap, numRows, numCols, scanned, nb);
  }

  /** A ballistic robot's heading update keeps HeadingsFollow for one more robot. */
  lemma HeadingsStep(h0: seq<Heading>, h: seq<Heading>, h': seq<Heading>, positions: seq<Cell>, next: seq<Cell>, i: int, p: Cell)
    requires 0 <= i < |positions| && |next| == i
    requires HeadingsFollow(h0, h, positions[..i], next)
    requires |h'| == |h| && i < |h| && h' == h[i := h'[i]]
    requires p != positions[i] ==> Step(h'[i], positions[i].0, positions[i].1) == p
    requires p == positions[i] ==> h' == h
    ensures HeadingsFollow(h0, h', positions[..i + 1], next + [p])
  {
  }

  /** The cells of `cs` that `discoMap` has not explored. */
  function Unexplored(discoMap: seq<seq<int>>, cs: seq<Cell>): set<Cell>
  {
    set c | c in cs && At(discoMap, c) == -1
  }

  /**
   * After the cells of `cs` were revealed, a further cell `n` still reads
   * -1 exactly when it adds a new unexplored cell to the count.
   */
  lemma UnexploredStep(d0: seq<seq<int>>, d: seq<seq<int>>, realMap: seq<seq<int>>, numRows: int, numCols: int, cs: seq<Cell>, n: Cell)
    requires Binary(realMap) && IsGrid(realMap, numRows, numCols) && InBounds(numRows, numCols, n)
    requires forall c :: c in cs ==> InBounds(numRows, numCols, c)
    requires forall c :: At(d, c) == if c in cs then At(realMap, c) else At(d0, c)
    ensures |Unexplored(d0, cs + [n])| == |Unexplored(d0, cs)| + (if At(d, n) == -1 then 1 else 0)
  {
    assert Unexplored(d0, cs + [n]) == Unexplored(d0, cs) + (if At(d0, n) == -1 then {n} else {});
    if n in cs {
      assert At(realMap, n) == realMap[n.0][n.1];
    }
  }

  /**
   * Scanning a new neighbourhood after the cells of `scanned` were revealed
   * finds unexplored exactly the neighbours outside `scanned` that were
   * unexplored at the start of the tick, and none that were counted before.
   */
  lemma NewlyExploredStep(d0: seq<seq<int>>, d: seq<seq<int>>, realMap: seq<seq<int>>, numRows: int, numCols: int,
                          scanned: set<Cell>, nbrs: set<Cell>)
    requires Binary(realMap) && IsGrid(realMap, numRows, numCols)
    requires forall c :: c in scanned ==> InBounds(numRows, numCols, c)
    requires forall c :: At(d, c) == if c in scanned then At(realMap, c) else At(d0, c)
    ensures (set c | c in scanned + nbrs && At(d0, c) == -1) ==
      (set c | c in scanned && At(d0, c) == -1) + (set c | c in nbrs && At(d, c) == -1)
    ensures (set c | c in scanned && At(d0, c) == -1) !! (set c | c in nbrs && At(d, c) == -1)
  {
    forall c | c in scanned
      ensures At(d, c) != -1
    {
      assert At(realMap, c) == realMap[c.0][c.1];
    }
  }

  /** Appending the outcome of robot i keeps the claim rule for the first i + 1 robots. */
  lemma ClaimRuleExtend(realMap: seq<seq<int>>, numRows: int, numCols: int, positions: seq<Cell>, next: seq<Cell>, i: int, p: Cell)
    requires 0 <= i < |positions| && ClaimRule(realMap, numRows, numCols, positions[..i], next)
    requires Claim(realMap, numRows, numCols, positions[i], next, p)
    ensures ClaimRule(realMap, numRows, numCols, positions[..i + 1], next + [p])
  {
    var next' := next + [p];
    forall k | 0 <= k < |next'|
      ensures Claim(realMap, numRows, numCols, positions[..i + 1][k], next'[..k], next'[k])
    {
      if k < i {
        assert next'[..k] == next[..k];
        assert positions[..i + 1][k] == positions[..i][k];
      } else {
        assert next'[..k] == next;
      }
    }
  }

  /** A robot that claims by the claim rule from an open cell lands on an open cell. */
  lemma ClaimedOpen(realMap: seq<seq<int>>, numRows: int, numCols: int, before: seq<Cell>, after: seq<Cell>)
    requires ClaimRule(realMap, numRows, numCols, before, after)
    requires forall i :: 0 <= i < |before| ==> At(realMap, before[i]) == 1
    ensures forall i :: 0 <= i < |after| ==> At(realMap, after[i]) == 1
  {
    forall i | 0 <= i < |after|
      ensures At(realMap, after[i]) == 1
    {
      assert Claim(realMap, numRows, numCols, before[i], after[..i], after[i]);
    }
  }

  /** A fully discovered map has explored every cell. */
  lemma FullyDiscoveredKnown(discoMap: seq<seq<int>>, numRows: int, numCols: int)
    requires IsGrid(discoMap, numRows, numCols) && FullyDiscovered(discoMap)
    ensures Known(discoMap, numRows, numCols) == AllCells(numRows, numCols)
  {
  }

  /** A map with an unexplored cell has fewer explored cells than cells. */
  lemma NotFullKnown(discoMap: seq<seq<int>>, numRows: int, numCols: int)
    requires IsGrid(discoMap, numRows, numCols) && !FullyDiscovered(discoMap)
    ensures |Known(discoMap, numRows, numCols)| < |AllCells(numRows, numCols)|
  {
    var r, c :| 0 <= r < |discoMap| && 0 <= c < |discoMap[r]| && discoMap[r][c] == -1;
    assert (r, c) in AllCells(numRows, numCols) && (r, c) !in Known(discoMap, numRows, numCols);
    SubsetCard(Known(discoMap, numRows, numCols), AllCells(numRows, numCols) - {(r, c)});
  }

  /**
   * Before every recorded tick some cell was still unscanned: each tick was
   * taken because think found the map incomplete, so a run ends at the
   * first tick that finds it full.
   */
  ghost predicate NeverFullBefore(numRows: int, numCols: int, history: seq<Tick>)
  {
    forall k :: 0 <= k < |history| ==> Covered(numRows, numCols, history[..k]) != AllCells(numRows, numCols)
  }

  lemma NeverFullStep(numRows: int, numCols: int, history: seq<Tick>, t: Tick)
    requires NeverFullBefore(numRows, numCols, history) && Covered(numRows, numCols, history) != AllCells(numRows, numCols)
    ensures NeverFullBefore(numRows, numCols, history + [t])
  {
    var h := history + [t];
    forall k | 0 <= k < |h|
      ensures Covered(numRows, numCols, h[..k]) != AllCells(numRows, numCols)
    {
      assert h[..k] == history[..k];
    }
  }

  /** The cells a tick explores are added to the explored cells, and were not among them. */
  lemma KnownStep(d: seq<seq<int>>, d': seq<seq<int>>, realMap: seq<seq<int>>, numRows: int, numCols: int, positions: seq<Cell>)
    requires Binary(realMap) && IsGrid(realMap, numRows, numCols)
    requires forall c :: (At(d', c) ==
      if c in ScannedSet(numRows, numCols, positions) then At(realMap, c) else At(d, c))
    ensures Known(d', numRows, numCols) == Known(d, numRows, numCols) + ScannedSet(numRows, numCols, positions)
    ensures NewlyExplored(d, numRows, numCols, positions) == ScannedSet(numRows, numCols, positions) - Known(d, numRows, numCols)
    ensures |Known(d', numRows, numCols)| == |Known(d, numRows, numCols)| + |NewlyExplored(d, numRows, numCols, positions)|
  {
    var scanned := ScannedSet(numRows, numCols, positions);
    forall c | c in scanned
      ensures At(d', c) != -1
    {
      assert At(realMap, c) == realMap[c.0][c.1];
    }
    assert Known(d', numRows, numCols) == Known(d, numRows, numCols) + NewlyExplored(d, numRows, numCols, positions);
    assert Known(d, numRows, numCols) !! NewlyExplored(d, numRows, numCols, positions);
  }

  /** One tick of a run: the positions before it, the positions after it, and the number of cells it explored. */
  datatype Tick = Tick(before: seq<Cell>, after: seq<Cell>, explored: nat)

  /** How a run ended: the map was fully discovered, or the tick budget ran out. */
  datatype MappingOutcome = Success | OutOfTicks

  datatype Kpis = Kpis(numTicks: nat, numSteps: nat, profile: seq<nat>, heatmap: Option<seq<seq<int>>>, mappingOutcome: MappingOutcome)

  /** Number of robots whose position differs between `before` and `after`. */
  function StepsTaken(before: seq<Cell>, after: seq<Cell>): nat
  {
    if after == [] then 0
    else
      var i := |after| - 1;
      StepsTaken(before, after[..i]) + (if i < |before| && before[i] != after[i] then 1 else 0)
  }

  function TotalSteps(history: seq<Tick>): nat
  {
    if history == [] then 0
    else
      var t := history[|history| - 1];
      TotalSteps(history[..|history| - 1]) + StepsTaken(t.before, t.after)
  }

  function TotalExplored(history: seq<Tick>): nat
  {
    if history == [] then 0 else TotalExplored(history[..|history| - 1]) + history[|history| - 1].explored
  }

  /** The running totals of explored cells, one per tick. */
  function Profile(history: seq<Tick>): (p: seq<nat>)
    ensures |p| == |history|
  {
    if history == [] then [] else Profile(history[..|history| - 1]) + [TotalExplored(history)]
  }

  /** Entry k of the profile is the number of cells explored in the first k + 1 ticks, so the profile never decreases. */
  lemma {:induction false} ProfileSums(history: seq<Tick>)
    ensures forall k :: 0 <= k < |history| ==> Profile(history)[k] == TotalExplored(history[..k + 1])
    ensures forall k, l :: 0 <= k <= l < |history| ==> Profile(history)[k] <= Profile(history)[l]
  {
    if history != [] {
      var init := history[..|history| - 1];
      ProfileSums(init);
      forall k | 0 <= k < |init|
        ensures Profile(history)[k] == TotalExplored(history[..k + 1])
      {
        assert history[..k + 1] == init[..k + 1];
      }
      assert history[..|history|] == history;
      TotalExploredGrows(history);
    }
  }

  lemma {:induction false} TotalExploredGrows(history: seq<Tick>)
    ensures forall k :: 0 <= k <= |history| ==> TotalExplored(history[..k]) <= TotalExplored(history)
  {
    if history != [] {
      var init := history[..|history| - 1];
      TotalExploredGrows(init);
      forall k | 0 <= k <= |init|
        ensures history[..k] == init[..k]
      {
      }
      assert history[..|history|] == history;
    }
  }

  /** How many times, summed over ticks, a robot ended a tick on cell `c`. */
  function Visits(history: seq<Tick>, c: Cell): nat
  {
    if history == [] then 0 else Visits(history[..|history| - 1], c) + Count(history[|history| - 1].after, c)
  }

  /** Appending a tick adds its steps, its explored cells and its robots' cells to the totals. */
  lemma HistoryStep(history: seq<Tick>, t: Tick)
    ensures TotalSteps(history + [t]) == TotalSteps(history) + StepsTaken(t.before, t.after)
    ensures TotalExplored(history + [t]) == TotalExplored(history) + t.explored
    ensures Profile(history + [t]) == Profile(history) + [TotalExplored(history) + t.explored]
    ensures forall c :: Visits(history + [t], c) == Visits(history, c) + Count(t.after, c)
  {
    assert (history + [t])[..|history|] == history;
  }

  /** The cells scanned in the ticks of `history`: the neighbourhoods of the robots at the start of each tick. */
  ghost function Covered(numRows: int, numCols: int, history: seq<Tick>): set<Cell>
  {
    if history == [] then {}
    else Covered(numRows, numCols, history[..|history| - 1]) + ScannedSet(numRows, numCols, history[|history| - 1].before)
  }

  /** Every tick's explored count is the number of cells it scanned that no earlier tick had scanned. */
  ghost predicate ScanCounted(numRows: int, numCols: int, history: seq<Tick>)
  {
    history == [] ||
    var init, t := history[..|history| - 1], history[|history| - 1];
    ScanCounted(numRows, numCols, init) &&
    t.explored == |ScannedSet(numRows, numCols, t.before) - Covered(numRows, numCols, init)|
  }

  /** The counting, tick by tick: tick k explored the cells of its scan that the first k ticks had not covered. */
  lemma {:induction false} ScanCountedAt(numRows: int, numCols: int, history: seq<Tick>)
    requires ScanCounted(numRows, numCols, history)
    ensures forall k :: 0 <= k < |history| ==>
      history[k].explored == |ScannedSet(numRows, numCols, history[k].before) - Covered(numRows, numCols, history[..k])|
  {
    forall k | 0 <= k < |history|
      ensures history[k].explored == |ScannedSet(numRows, numCols, history[k].before) - Covered(numRows, numCols, history[..k])|
    {
      ScanCountedTick(numRows, numCols, history, k);
    }
  }

  lemma {:induction false} ScanCountedTick(numRows: int, numCols: int, history: seq<Tick>, k: nat)
    requires ScanCounted(numRows, numCols, history) && k < |history|
    ensures history[k].explored == |ScannedSet(numRows, numCols, history[k].before) - Covered(numRows, numCols, history[..k])|
    decreases |history|
  {
    var init := history[..|history| - 1];
    if k < |init| {
      ScanCountedTick(numRows, numCols, init, k);
      assert history[k] == init[k] && history[..k] == init[..k];
    } else {
      assert history[..k] == init;
    }
  }

  /** A tick that counts the cells it newly scans keeps the counts honest, and adds its scan to the covered cells. */
  lemma {:induction false} ScanCountedStep(numRows: int, numCols: int, history: seq<Tick>, t: Tick)
    requires ScanCounted(numRows, numCols, history)
    requires t.explored == |ScannedSet(numRows, numCols, t.before) - Covered(numRows, numCols, history)|
    ensures ScanCounted(numRows, numCols, history + [t])
    ensures Covered(numRows, numCols, history + [t]) == Covered(numRows, numCols, history) + ScannedSet(numRows, numCols, t.before)
  {
    assert (history + [t])[..|history|] == history;
  }

  lemma {:induction false} ScanCountedPrefix(numRows: int, numCols: int, history: seq<Tick>, n: nat)
    requires ScanCounted(numRows, numCols, history) && n <= |history|
    ensures ScanCounted(numRows, numCols, history[..n])
    decreases |history|
  {
    if n < |history| {
      var init := history[..|history| - 1];
      ScanCountedPrefix(numRows, numCols, init, n);
      assert init[..n] == history[..n];
    } else {
      assert history[..n] == history;
    }
  }

  /** When every tick counts the cells it newly scans, the counts add up to the number of distinct cells scanned. */
  lemma {:induction false} ExploredIsCovered(numRows: int, numCols: int, history: seq<Tick>)
    requires ScanCounted(numRows, numCols, history)
    ensures TotalExplored(history) == |Covered(numRows, numCols, history)|
  {
    if history != [] {
      var init := history[..|history| - 1];
      ExploredIsCovered(numRows, numCols, init);
      var before := Covered(numRows, numCols, init);
      var scanned := ScannedSet(numRows, numCols, history[|history| - 1].before);
      assert before + scanned == before + (scanned - before);
      assert before !! (scanned - before);
    }
  }

  /** Only cells of the map are ever scanned. */
  lemma {:induction false} CoveredCells(numRows: int, numCols: int, history: seq<Tick>)
    ensures Covered(numRows, numCols, history) <= AllCells(numRows, numCols)
  {
    if history != [] {
      CoveredCells(numRows, numCols, history[..|history| - 1]);
      forall c | c in ScannedSet(numRows, numCols, history[|history| - 1].before)
        ensures c in AllCells(numRows, numCols)
      {
        assert c == (c.0, c.1);
      }
    }
  }

  /**
   * Under the same counting, the explored total never exceeds the number
   * of cells, and reaches it exactly when every cell has been scanned.
   */
  lemma ExploredBound(numRows: int, numCols: int, history: seq<Tick>)
    requires ScanCounted(numRows, numCols, history)
    ensures TotalExplored(history) <= |AllCells(numRows, numCols)|
    ensures TotalExplored(history) == |AllCells(numRows, numCols)| <==> Covered(numRows, numCols, history) == AllCells(numRows, numCols)
  {
    ExploredIsCovered(numRows, numCols, history);
    CoveredCells(numRows, numCols, history);
    SubsetCard(Covered(numRows, numCols, history), AllCells(numRows, numCols));
    if Covered(numRows, numCols, history) != AllCells(numRows, numCols) {
      ProperSubsetCard(Covered(numRows, numCols, history), AllCells(numRows, numCols));
    }
  }

  /** Under the same counting, entry k of the profile is the number of distinct cells scanned in the first k + 1 ticks. */
  lemma {:induction false} ProfileCovered(numRows: int, numCols: int, history: seq<Tick>)
    requires ScanCounted(numRows, numCols, history)
    ensures forall k :: 0 <= k < |history| ==> Profile(history)[k] == |Covered(numRows, numCols, history[..k + 1])|
  {
    ProfileSums(history);
    forall k | 0 <= k < |history|
      ensures Profile(history)[k] == |Covered(numRows, numCols, history[..k + 1])|
    {
      ScanCountedPrefix(numRows, numCols, history, k + 1);
      ExploredIsCovered(numRows, numCols, history[..k + 1]);
    }
  }

  /** Each tick starts where the previous one ended, and the first at `start`. */
  ghost predicate Chained(history: seq<Tick>, start: seq<Cell>)
  {
    (|history| > 0 ==> history[0].before == start) &&
    forall k :: 0 <= k < |history| - 1 ==> history[k + 1].before == history[k].after
  }

  /** think as the run loop sees it: its outcome, and how it moves the count of explored cells. */
  method ThinkCounted(nav: DistributedNavigation, positions: seq<Cell>) returns (outcome: ThinkOutcome)
    requires nav.Valid() && (nav.strategy == Ballistic ==> |positions| <= nav.numRobots)
    modifies nav
    ensures nav.Valid()
    ensures outcome.MappingDoneSuccess? ==> nav.discoMap == old(nav.discoMap)
    ensures outcome.MappingDoneSuccess? ==> Known(nav.discoMap, nav.numRows, nav.numCols) == AllCells(nav.numRows, nav.numCols)
    ensures outcome.Moves? ==> ClaimRule(nav.realMap, nav.numRows, nav.numCols, positions, outcome.next)
    ensures outcome.Moves? ==>
      Known(nav.discoMap, nav.numRows, nav.numCols) == Known(old(nav.discoMap), nav.numRows, nav.numCols) + ScannedSet(nav.numRows, nav.numCols, positions)
    ensures outcome.Moves? ==>
      outcome.numExplored == |ScannedSet(nav.numRows, nav.numCols, positions) - Known(old(nav.discoMap), nav.numRows, nav.numCols)|
    ensures outcome.Moves? ==>
      |Known(nav.discoMap, nav.numRows, nav.numCols)| == |Known(old(nav.discoMap), nav.numRows, nav.numCols)| + outcome.numExplored
    ensures outcome.Moves? ==> Known(old(nav.discoMap), nav.numRows, nav.numCols) != AllCells(nav.numRows, nav.numCols)
  {
    outcome := nav.Think(positions);
    if outcome.MappingDoneSuccess? {
      FullyDiscoveredKnown(nav.discoMap, nav.numRows, nav.numCols);
    } else {
      NotFullKnown(old(nav.discoMap), nav.numRows, nav.numCols);
      KnownStep(old(nav.discoMap), nav.discoMap, nav.realMap, nav.numRows, nav.numCols, positions);
    }
  }

  lemma ChainedStep(history: seq<Tick>, start: seq<Cell>, t: Tick)
    requires Chained(history, start)
    requires t.before == if history == [] then start else history[|history| - 1].after
    ensures Chained(history + [t], start)
  {
    var h := history + [t];
    assert forall k :: 0 <= k < |history| ==> h[k] == history[k];
  }

  /**
   * The move loop of singleExploration: every robot takes its next
   * position, each change of position is a step, and with the heatmap on
   * the cell each robot lands on gains one.
   */
  method ApplyMoves(realMap: seq<seq<int>>, numRows: int, numCols: int, robotPositions: seq<Cell>, next: seq<Cell>,
                    heatmap: seq<seq<int>>, collectHeatmap: bool)
    returns (positions: seq<Cell>, heatmap': seq<seq<int>>, steps: nat)
    requires IsGrid(realMap, numRows, numCols) && IsGrid(heatmap, numRows, numCols)
    requires |next| == |robotPositions|
    requires forall i :: 0 <= i < |next| ==> At(realMap, next[i]) == 1
    requires collectHeatmap ==> forall c :: InBounds(numRows, numCols, c) && At(realMap, c) == 1 ==> At(heatmap, c) >= 0
    ensures positions == next
    ensures steps == StepsTaken(robotPositions, next)
    ensures IsGrid(heatmap', numRows, numCols)
    ensures collectHeatmap ==> forall c :: InBounds(numRows, numCols, c) ==> At(heatmap', c) == At(heatmap, c) + Count(next, c)
    ensures !collectHeatmap ==> heatmap' == heatmap
  {
    positions := robotPositions;
    heatmap' := heatmap;
    steps := 0;
    for i := 0 to |next|
      invariant |positions| == |next|
      invariant forall j :: 0 <= j < |next| ==> positions[j] == if j < i then next[j] else robotPositions[j]
      invariant steps == StepsTaken(robotPositions, next[..i])
      invariant IsGrid(heatmap', numRows, numCols)
      invariant collectHeatmap ==> forall c :: InBounds(numRows, numCols, c) ==> At(heatmap', c) == At(heatmap, c) + Count(next[..i], c)
      invariant !collectHeatmap ==> heatmap' == heatmap
    {
      StepsSnoc(robotPositions, next, i);
      if next[i] != positions[i] {
        steps := steps + 1;
      }
      if collectHeatmap {
        var (nx, ny) := next[i];
        HeatBump(realMap, numRows, numCols, heatmap, heatmap', next, i);
        heatmap' := Set(heatmap', next[i], heatmap'[nx][ny] + 1);
      }
      positions := positions[i := next[i]];
    }
    assert next[..|next|] == next;
  }

  lemma StepsSnoc(before: seq<Cell>, after: seq<Cell>, i: nat)
    requires i < |after|
    ensures StepsTaken(before, after[..i + 1]) ==
      StepsTaken(before, after[..i]) + (if i < |before| && before[i] != after[i] then 1 else 0)
  {
    assert after[..i + 1][..i] == after[..i];
  }

  /** Adding the robot that ends on next[i] to the heatmap counts next[..i + 1]. */
  lemma HeatBump(realMap: seq<seq<int>>, numRows: int, numCols: int, heatmap: seq<seq<int>>, current: seq<seq<int>>,
                 next: seq<Cell>, i: nat)
    requires IsGrid(realMap, numRows, numCols) && IsGrid(current, numRows, numCols)
    requires i < |next| && At(realMap, next[i]) == 1
    requires forall c :: InBounds(numRows, numCols, c) && At(realMap, c) == 1 ==> At(heatmap, c) >= 0
    requires forall c :: InBounds(numRows, numCols, c) ==> At(current, c) == At(heatmap, c) + Count(next[..i], c)
    ensures InBounds(numRows, numCols, next[i]) && current[next[i].0][next[i].1] >= 0
    ensures var bumped := Set(current, next[i], current[next[i].0][next[i].1] + 1);
      IsGrid(bumped, numRows, numCols) &&
      forall c :: InBounds(numRows, numCols, c) ==> At(bumped, c) == At(heatmap, c) + Count(next[..i + 1], c)
  {
    assert next[..i + 1] == next[..i] + [next[i]];
    CountSnoc(next[..i], next[i]);
  }

  /**
   * The bookkeeping singleExploration keeps across ticks: the robots stand
   * on open cells where the last tick left them, every tick obeyed the
   * claim rule, and the step count, explored count, profile and heatmap
   * agree with the recorded ticks.
   */
  ghost predicate RunState(realMap: seq<seq<int>>, numRows: int, numCols: int, start: seq<Cell>, history: seq<Tick>,
                           robotPositions: seq<Cell>, numSteps: nat, numExplored: nat, profile: seq<nat>,
                           heatmap: seq<seq<int>>, collectHeatmap: bool)
  {
    |robotPositions| == |start| &&
    (forall i :: 0 <= i < |robotPositions| ==> At(realMap, robotPositions[i]) == 1) &&
    robotPositions == (if history == [] then start else history[|history| - 1].after) &&
    Logged(realMap, numRows, numCols, start, history) &&
    numSteps == TotalSteps(history) &&
    numExplored == TotalExplored(history) &&
    profile == Profile(history) &&
    IsGrid(heatmap, numRows, numCols) &&
    (collectHeatmap ==> forall c :: InBounds(numRows, numCols, c) ==>
      At(heatmap, c) == if At(realMap, c) == 0 then -1 else Visits(history, c))
  }

  /**
   * What the recorded ticks of a run satisfy on their own: they chain from
   * `start`, each obeyed the claim rule, each counted the cells it newly
   * scanned, and before each some cell was still unscanned.
   */
  ghost predicate Logged(realMap: seq<seq<int>>, numRows: int, numCols: int, start: seq<Cell>, history: seq<Tick>)
  {
    Chained(history, start) &&
    (forall k :: 0 <= k < |history| ==> ClaimRule(realMap, numRows, numCols, history[k].before, history[k].after)) &&
    ScanCounted(numRows, numCols, history) &&
    NeverFullBefore(numRows, numCols, history)
  }

  /** A tick that starts where the last one ended, obeys the claim rule and counts its new cells extends the log. */
  lemma LoggedStep(realMap: seq<seq<int>>, numRows: int, numCols: int, start: seq<Cell>, history: seq<Tick>, t: Tick)
    requires Logged(realMap, numRows, numCols, start, history)
    requires t.before == if history == [] then start else history[|history| - 1].after
    requires ClaimRule(realMap, numRows, numCols, t.before, t.after)
    requires Covered(numRows, numCols, history) != AllCells(numRows, numCols)
    requires t.explored == |ScannedSet(numRows, numCols, t.before) - Covered(numRows, numCols, history)|
    ensures Logged(realMap, numRows, numCols, start, history + [t])
    ensures Covered(numRows, numCols, history + [t]) == Covered(numRows, numCols, history) + ScannedSet(numRows, numCols, t.before)
  {
    ChainedStep(history, start, t);
    ClaimsStep(realMap, numRows, numCols, history, t);
    ScanCountedStep(numRows, numCols, history, t);
    NeverFullStep(numRows, numCols, history, t);
  }

  /** A tick obeying the claim rule keeps every recorded tick obeying it. */
  lemma ClaimsStep(realMap: seq<seq<int>>, numRows: int, numCols: int, history: seq<Tick>, t: Tick)
    requires forall k :: 0 <= k < |history| ==> ClaimRule(realMap, numRows, numCols, history[k].before, history[k].after)
    requires ClaimRule(realMap, numRows, numCols, t.before, t.after)
    ensures forall k :: 0 <= k < |history + [t]| ==>
      ClaimRule(realMap, numRows, numCols, (history + [t])[k].before, (history + [t])[k].after)
  {
    forall k | 0 <= k < |history + [t]|
      ensures ClaimRule(realMap, numRows, numCols, (history + [t])[k].before, (history + [t])[k].after)
    {
      if k < |history| {
        assert (history + [t])[k] == history[k];
      }
    }
  }

  /** Counting the robots of a tick on the heatmap keeps it equal to the visits of the recorded ticks. */
  lemma HeatStep(realMap: seq<seq<int>>, numRows: int, numCols: int, history: seq<Tick>, t: Tick,
                 heatmap: seq<seq<int>>, heatmap': seq<seq<int>>)
    requires forall c :: InBounds(numRows, numCols, c) ==>
      At(heatmap, c) == if At(realMap, c) == 0 then -1 else Visits(history, c)
    requires forall c :: InBounds(numRows, numCols, c) ==> At(heatmap', c) == At(heatmap, c) + Count(t.after, c)
    requires forall i :: 0 <= i < |t.after| ==> At(realMap, t.after[i]) == 1
    ensures forall c :: InBounds(numRows, numCols, c) ==>
      At(heatmap', c) == if At(realMap, c) == 0 then -1 else Visits(history + [t], c)
  {
    HistoryStep(history, t);
    forall c | InBounds(numRows, numCols, c)
      ensures At(heatmap', c) == if At(realMap, c) == 0 then -1 else Visits(history + [t], c)
    {
      if At(realMap, c) == 0 {
        assert c !in t.after;
      }
    }
  }

  /**
   * The second half of a tick of singleExploration: the robots move to the
   * positions think chose, and the counters, profile and heatmap record it.
   */
  method RecordTick(realMap: seq<seq<int>>, numRows: int, numCols: int, ghost start: seq<Cell>, ghost history: seq<Tick>,
                    robotPositions: seq<Cell>, numSteps: nat, numExplored: nat, profile: seq<nat>,
                    heatmap: seq<seq<int>>, collectHeatmap: bool, next: seq<Cell>, explored: nat)
    returns (robotPositions': seq<Cell>, numSteps': nat, numExplored': nat, profile': seq<nat>,
             heatmap': seq<seq<int>>, ghost history': seq<Tick>)
    requires IsGrid(realMap, numRows, numCols)
    requires RunState(realMap, numRows, numCols, start, history, robotPositions, numSteps, numExplored, profile, heatmap, collectHeatmap)
    requires ClaimRule(realMap, numRows, numCols, robotPositions, next)
    requires Covered(numRows, numCols, history) != AllCells(numRows, numCols)
    requires explored == |ScannedSet(numRows, numCols, robotPositions) - Covered(numRows, numCols, history)|
    ensures history' == history + [Tick(robotPositions, next, explored)]
    ensures numExplored' == numExplored + explored
    ensures Covered(numRows, numCols, history') == Covered(numRows, numCols, history) + ScannedSet(numRows, numCols, robotPositions)
    ensures RunState(realMap, numRows, numCols, start, history', robotPositions', numSteps', numExplored', profile', heatmap', collectHeatmap)
  {
    ClaimedOpen(realMap, numRows, numCols, robotPositions, next);
    var steps;
    robotPositions', heatmap', steps := ApplyMoves(realMap, numRows, numCols, robotPositions, next, heatmap, collectHeatmap);
    numSteps' := numSteps + steps;
    numExplored' := numExplored + explored;
    profile' := profile + [numExplored'];
    var t := Tick(robotPositions, next, explored);
    HistoryStep(history, t);
    LoggedStep(realMap, numRows, numCols, start, history, t);
    history' := history + [t];
    if collectHeatmap {
      HeatStep(realMap, numRows, numCols, history, t, heatmap, heatmap');
    }
  }

  /** One tick of the run loop: think, then either stop with the map complete or move the robots and record the tick. */
  method RunTick(nav: DistributedNavigation, collectHeatmap: bool, ghost start: seq<Cell>, ghost history: seq<Tick>,
                 robotPositions: seq<Cell>, numSteps: nat, numExplored: nat, profile: seq<nat>, heatmap: seq<seq<int>>)
    returns (done: bool, robotPositions': seq<Cell>, numSteps': nat, numExplored': nat, profile': seq<nat>,
             heatmap': seq<seq<int>>, ghost history': seq<Tick>)
    requires nav.Valid() && (nav.strategy == Ballistic ==> |robotPositions| <= nav.numRobots)
    requires RunState(nav.realMap, nav.numRows, nav.numCols, start, history, robotPositions, numSteps, numExplored, profile, heatmap, collectHeatmap)
    requires Known(nav.discoMap, nav.numRows, nav.numCols) == Covered(nav.numRows, nav.numCols, history)
    modifies nav
    ensures nav.Valid()
    ensures done ==> history' == history && heatmap' == heatmap
    ensures done ==> Covered(nav.numRows, nav.numCols, history) == AllCells(nav.numRows, nav.numCols)
    ensures |history'| == |history| + (if done then 0 else 1)
    ensures RunState(nav.realMap, nav.numRows, nav.numCols, start, history', robotPositions', numSteps', numExplored', profile', heatmap', collectHeatmap)
    ensures Known(nav.discoMap, nav.numRows, nav.numCols) == Covered(nav.numRows, nav.numCols, history')
  {
    var t := ThinkCounted(nav, robotPositions);
    if t.MappingDoneSuccess? {
      return true, robotPositions, numSteps, numExplored, profile, heatmap, history;
    }
    done := false;
    robotPositions', numSteps', numExplored', profile', heatmap', history' :=
      RecordTick(nav.realMap, nav.numRows, nav.numCols, start, history, robotPositions, numSteps, numExplored, profile,
                 heatmap, collectHeatmap, t.next, t.numExplored);
  }

  /** The heatmap before the first tick: -1 on walls and 0 on open cells. */
  function InitialHeatmap(realMap: seq<seq<int>>, numRows: nat, numCols: nat): (h: seq<seq<int>>)
    requires IsGrid(realMap, numRows, numCols)
    ensures IsGrid(h, numRows, numCols)
    ensures forall c :: InBounds(numRows, numCols, c) ==> At(h, c) == if At(realMap, c) == 0 then -1 else 0
  {
    seq(numRows, x requires 0 <= x < numRows => seq(numCols, y requires 0 <= y < numCols => if realMap[x][y] == 0 then -1 else 0))
  }

  /** Before the first tick the run invariant holds with empty history and zero totals. */
  lemma RunStart(realMap: seq<seq<int>>, numRows: int, numCols: int, start: seq<Cell>,
                 heatmap: seq<seq<int>>, collectHeatmap: bool)
    requires forall i :: 0 <= i < |start| ==> At(realMap, start[i]) == 1
    requires IsGrid(heatmap, numRows, numCols)
    requires forall c :: InBounds(numRows, numCols, c) ==> At(heatmap, c) == if At(realMap, c) == 0 then -1 else 0
    ensures RunState(realMap, numRows, numCols, start, [], start, 0, 0, [], heatmap, collectHeatmap)
  {
  }

  /**
   * singleExploration for the distributed strategies, bounded by
   * `maxTicks`. All robots start on the start cell. Per tick numSteps grows
   * by the number of robots that changed position, numTicks by one, the
   * profile records the running total of explored cells, and the heatmap
   * (walls -1, open cells 0 at first) counts the robots ending a tick on
   * each cell. A tick counts as explored the cells next to the robots
   * that no earlier tick had scanned, and a run succeeds only once every
   * cell of the map has been scanned.
   */
  method SingleExploration(realMap: seq<seq<int>>, startPos: Cell, numRobots: nat, strategy: Strategy,
                           collectHeatmap: bool, maxTicks: nat)
    returns (kpis: Kpis, ghost history: seq<Tick>)
    requires |realMap| > 0 && IsGrid(realMap, |realMap|, |realMap[0]|) && Binary(realMap)
    requires At(realMap, startPos) == 1
    ensures kpis.numTicks == |history| <= maxTicks
    ensures kpis.mappingOutcome == OutOfTicks ==> kpis.numTicks == maxTicks
    ensures Chained(history, seq(numRobots, _ => startPos))
    ensures forall k :: 0 <= k < |history| ==> ClaimRule(realMap, |realMap|, |realMap[0]|, history[k].before, history[k].after)
    ensures kpis.numSteps == TotalSteps(history)
    ensures kpis.profile == Profile(history)
    ensures TotalExplored(history) <= |AllCells(|realMap|, |realMap[0]|)|
    ensures ScanCounted(|realMap|, |realMap[0]|, history)
    ensures kpis.mappingOutcome == Success ==> Covered(|realMap|, |realMap[0]|, history) == AllCells(|realMap|, |realMap[0]|)
    ensures kpis.mappingOutcome == Success ==> TotalExplored(history) == |AllCells(|realMap|, |realMap[0]|)|
    ensures NeverFullBefore(|realMap|, |realMap[0]|, history)
    ensures kpis.heatmap.Some? <==> collectHeatmap
    ensures kpis.heatmap.Some? ==> IsGrid(kpis.heatmap.value, |realMap|, |realMap[0]|)
    ensures kpis.heatmap.Some? ==> forall c :: InBounds(|realMap|, |realMap[0]|, c) ==>
      At(kpis.heatmap.value, c) == if At(realMap, c) == 0 then -1 else Visits(history, c)
  {
    var numRows, numCols := |realMap|, |realMap[0]|;
    var nav := new DistributedNavigation(realMap, numRobots, strategy);
    ghost var start := seq(numRobots, _ => startPos);
    var robotPositions: seq<Cell> := seq(numRobots, _ => startPos);
    var heatmap := InitialHeatmap(realMap, numRows, numCols);
    var numExplored: nat := 0;
    var profile: seq<nat> := [];
    var numTicks: nat := 0;
    var numSteps: nat := 0;
    var outcome := OutOfTicks;
    history := [];
    RunStart(realMap, numRows, numCols, start, heatmap, collectHeatmap);
    while numTicks < maxTicks
      invariant nav.Valid() && nav.realMap == realMap && nav.numRobots == numRobots && nav.strategy == strategy
      invariant numTicks == |history| <= maxTicks
      invariant RunState(realMap, numRows, numCols, start, history, robotPositions, numSteps, numExplored, profile, heatmap, collectHeatmap)
      invariant Known(nav.discoMap, numRows, numCols) == Covered(numRows, numCols, history)
      invariant outcome == OutOfTicks
    {
      var done;
      done, robotPositions, numSteps, numExplored, profile, heatmap, history :=
        RunTick(nav, collectHeatmap, start, history, robotPositions, numSteps, numExplored, profile, heatmap);
      if done {
        outcome := Success;
        break;
      }
      numTicks := numTicks + 1;
    }
    ExploredBound(numRows, numCols, history);
    kpis := Kpis(numTicks, numSteps, profile, if collectHeatmap then Some(heatmap) else None, outcome);
  }
}
