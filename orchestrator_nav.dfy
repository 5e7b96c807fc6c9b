/**
 * The orchestrator's navigation: how notifications from the robots update
 * its view of them and the map builder (Navigation, NavigationBallistic),
 * and the heatmap and explored cells of NavigationAtlas.
 *
 * The position a robot reached is computed by Utils.computeCurrentPosition,
 * which is trigonometry; it is a function the caller supplies. The path
 * planner, target selection and relay placement of NavigationAtlas are
 * not part of this model; its map of explored cells is a set of cells.
 */
module OrchestratorNav {
  import opened SeqUtil
  import opened MapLines
  import opened Mapping
  import Traversal

  /** The orchestrator's view of one robot (an entry of dotbotsview). */
  datatype DotBotView = DotBotView(
    id: nat,
    x: real,
    y: real,
    heading: int,
    speed: int,
    seqNumMovement: int,
    seqNumNotification: Option<int>)

  /** A notification frame sent by a robot. A heartbeat frame has a non-zero heartbeat. */
  datatype Frame = Frame(
    dotBotId: nat,
    bump: bool,
    heartbeat: int,
    pdrStatus: real,
    seqNumNotification: int,
    tsMovementStart: real,
    tsMovementStop: real)

  /** dotbotsview[frame['dotBotId']] past the end of the list. */
  datatype NavError = IndexError

  /** Utils.computeCurrentPosition(currentX, currentY, heading, speed, duration). */
  type Mover = (real, real, int, int, real) -> Dot

  /** The ballistic _updateMovement took `before` to `after`: a heading in [0, 359], speed 1, one more movement. */
  predicate NewMovement(before: DotBotView, after: DotBotView)
  {
    0 <= after.heading <= 359 &&
    after == before.(heading := after.heading, speed := 1, seqNumMovement := before.seqNumMovement + 1)
  }

  /** A robot as NavigationBallistic.__init__ leaves it: at the start, moving, nothing heard yet. */
  predicate Started(v: DotBotView, id: nat, start: Dot)
  {
    v.id == id && v.x == start.0 && v.y == start.1 &&
    0 <= v.heading <= 359 && v.speed == 1 && v.seqNumMovement == 1 && v.seqNumNotification == None
  }

  /** Navigation with the ballistic movement rule: each robot goes on in a random heading until it bumps. */
  class BallisticNavigation {
    var dotbots: seq<DotBotView>
    var bump: bool
    var heartbeat: int
    var pdrStatus: Option<real>
    var movingDuration: real
    const mapBuilder: MapBuilder

    /** The entry of each robot holds its own index, and the map builder's lines are aligned. */
    predicate Valid()
      reads this, mapBuilder
    {
      mapBuilder.Valid() && forall i :: 0 <= i < |dotbots| ==> dotbots[i].id == i
    }

    /** Navigation.__init__ then NavigationBallistic.__init__: every robot at the start, each given a movement. */
    constructor (numDotBots: nat, initialPosition: Dot)
      ensures Valid() && fresh(mapBuilder)
      ensures mapBuilder.dots == [] && mapBuilder.lines == [] && !mapBuilder.complete
      ensures |dotbots| == numDotBots
      ensures forall i :: 0 <= i < numDotBots ==> Started(dotbots[i], i, initialPosition)
      ensures heartbeat == 1 && pdrStatus == None && movingDuration == 0.0 && !bump
    {
      dotbots := seq(numDotBots, i requires 0 <= i => DotBotView(i, initialPosition.0, initialPosition.1, 0, 0, 0, None));
      bump := false;
      heartbeat := 1;
      pdrStatus := None;
      movingDuration := 0.0;
      mapBuilder := new MapBuilder();
      new;
      for id := 0 to numDotBots
        invariant |dotbots| == numDotBots && Valid()
        invariant fresh(mapBuilder) && mapBuilder.dots == [] && mapBuilder.lines == [] && !mapBuilder.complete
        invariant heartbeat == 1 && pdrStatus == None && movingDuration == 0.0 && !bump
        invariant forall i :: 0 <= i < id ==> Started(dotbots[i], i, initialPosition)
        invariant forall i :: id <= i < numDotBots ==>
          dotbots[i] == DotBotView(i, initialPosition.0, initialPosition.1, 0, 0, 0, None)
      {
        UpdateMovement(id);
      }
    }

    /** NavigationBallistic._updateMovement: a random heading in [0, 359], speed 1, one more movement. */
    method UpdateMovement(dotBotId: nat)
      requires dotBotId < |dotbots|
      modifies this
      ensures |dotbots| == |old(dotbots)|
      ensures forall i :: 0 <= i < |dotbots| && i != dotBotId ==> dotbots[i] == old(dotbots[i])
      ensures NewMovement(old(dotbots[dotBotId]), dotbots[dotBotId])
      ensures bump == old(bump) && heartbeat == old(heartbeat) && pdrStatus == old(pdrStatus)
      ensures movingDuration == old(movingDuration)
    {
      var heading :| 0 <= heading <= 359;
      var v := dotbots[dotBotId];
      dotbots := dotbots[dotBotId := v.(heading := heading, speed := 1, seqNumMovement := v.seqNumMovement + 1)];
    }

    /**
     * Navigation.receiveNotification. The bump flag is always stored. A
     * heartbeat frame only updates heartbeat and pdrStatus; a frame repeating
     * the robot's last sequence number is dropped; otherwise the sequence
     * number is stored, the robot moved to where its movement took it, the
     * position given to the map builder when it bumped, and a new movement
     * picked.
     */
    method ReceiveNotification(frame: Frame, position: Mover) returns (r: Result<(), NavError>)
      requires Valid()
      modifies this, mapBuilder
      ensures Valid()
      ensures frame.dotBotId >= |old(dotbots)| ==> r == Err(IndexError) && unchanged(this, mapBuilder)
      ensures frame.dotBotId < |old(dotbots)| ==> r.Ok? && bump == frame.bump && |dotbots| == |old(dotbots)|
      ensures frame.dotBotId < |old(dotbots)| && frame.heartbeat != 0 ==>
        heartbeat == frame.heartbeat && pdrStatus == Some(frame.pdrStatus) &&
        dotbots == old(dotbots) && movingDuration == old(movingDuration) && unchanged(mapBuilder)
      ensures frame.dotBotId < |old(dotbots)| && frame.heartbeat == 0 &&
              old(dotbots[frame.dotBotId].seqNumNotification) == Some(frame.seqNumNotification) ==>
        heartbeat == old(heartbeat) && pdrStatus == old(pdrStatus) &&
        dotbots == old(dotbots) && movingDuration == old(movingDuration) && unchanged(mapBuilder)
      ensures frame.dotBotId < |old(dotbots)| && frame.heartbeat == 0 &&
              old(dotbots[frame.dotBotId].seqNumNotification) != Some(frame.seqNumNotification) ==>
        var before := old(dotbots[frame.dotBotId]);
        var duration := frame.tsMovementStop - frame.tsMovementStart;
        var pos := position(before.x, before.y, before.heading, before.speed, duration);
        heartbeat == old(heartbeat) && pdrStatus == old(pdrStatus) && movingDuration == duration &&
        (forall i :: 0 <= i < |dotbots| && i != frame.dotBotId ==> dotbots[i] == old(dotbots[i])) &&
        NewMovement(before.(x := pos.0, y := pos.1, seqNumNotification := Some(frame.seqNumNotification)),
                    dotbots[frame.dotBotId]) &&
        mapBuilder.dots == old(mapBuilder.dots) + (if frame.bump then [pos] else []) &&
        mapBuilder.lines == old(mapBuilder.lines) && mapBuilder.complete == old(mapBuilder.complete)
    {
      if frame.dotBotId >= |dotbots| {
        return Err(IndexError);
      }
      var id := frame.dotBotId;
      var dotbot := dotbots[id];
      bump := frame.bump;
      if frame.heartbeat != 0 {
        heartbeat := frame.heartbeat;
        pdrStatus := Some(frame.pdrStatus);
        return Ok(());
      }
      if dotbot.seqNumNotification == Some(frame.seqNumNotification) {
        return Ok(());
      }
      dotbot := dotbot.(seqNumNotification := Some(frame.seqNumNotification));
      var duration := frame.tsMovementStop - frame.tsMovementStart;
      var pos := position(dotbot.x, dotbot.y, dotbot.heading, dotbot.speed, duration);
      movingDuration := duration;
      // _notifyDotBotMoved does nothing for the ballistic rule
      dotbot := dotbot.(x := pos.0, y := pos.1);
      dotbots := dotbots[id := dotbot];
      if bump {
        mapBuilder.NotifBump(dotbot.x, dotbot.y);
      }
      UpdateMovement(id);
      return Ok(());
    }
  }

  // ---------------------------------------------------------------------
  // The heatmap of NavigationAtlas
  // ---------------------------------------------------------------------

  /** The cells of the heatmap, in order. */
  function Keys(h: seq<(Dot, int)>): (r: seq<Dot>)
    ensures |r| == |h| && forall i :: 0 <= i < |h| ==> r[i] == h[i].0
  {
    seq(|h|, i requires 0 <= i < |h| => h[i].0)
  }

  /** The count of a cell: that of its first entry, or 0 when it has none. */
  function Lookup(h: seq<(Dot, int)>, k: Dot): int
  {
    if h == [] then 0 else if h[0].0 == k then h[0].1 else Lookup(h[1..], k)
  }

  /** [h[1] for h in heatmap if h[0] == cell]. */
  function CountsOf(h: seq<(Dot, int)>, k: Dot): seq<int>
  {
    if h == [] then [] else (if h[0].0 == k then [h[0].1] else []) + CountsOf(h[1..], k)
  }

  /** With unique cells, the first count listed for a cell is its count, and that entry is where its cell is. */
  lemma {:induction false} FirstCount(h: seq<(Dot, int)>, k: Dot)
    requires NoDup(Keys(h)) && k in Keys(h)
    ensures CountsOf(h, k) != [] && CountsOf(h, k)[0] == Lookup(h, k)
    ensures (k, Lookup(h, k)) in h
    ensures Keys(h)[IndexOf(h, (k, Lookup(h, k)))] == k
  {
    assert Keys(h)[0] == h[0].0;
    if h[0].0 != k {
      assert Keys(h[1..]) == Keys(h)[1..];
      assert NoDup(Keys(h[1..]));
      FirstCount(h[1..], k);
    }
  }

  /** Setting the count of the first entry holding cell k sets k's count and no other. */
  lemma {:induction false} LookupUpdate(h: seq<(Dot, int)>, j: nat, k: Dot, c: int, q: Dot)
    requires j < |h| && h[j].0 == k && forall i :: 0 <= i < j ==> h[i].0 != k
    ensures Lookup(h[j := (k, c)], q) == if q == k then c else Lookup(h, q)
  {
    var h' := h[j := (k, c)];
    if j > 0 {
      LookupUpdate(h[1..], j - 1, k, c, q);
      assert h'[1..] == h[1..][j - 1 := (k, c)];
      assert h'[0] == h[0];
    } else {
      assert h'[1..] == h[1..];
    }
  }

  /** A cell without an entry counts 0. */
  lemma {:induction false} LookupAbsent(h: seq<(Dot, int)>, k: Dot)
    requires k !in Keys(h)
    ensures Lookup(h, k) == 0
  {
    if h != [] {
      assert Keys(h)[0] == h[0].0;
      assert Keys(h[1..]) == Keys(h)[1..];
      LookupAbsent(h[1..], k);
    }
  }

  /** Appending an entry for a new cell gives it that entry's count and leaves the others. */
  lemma {:induction false} LookupSnoc(h: seq<(Dot, int)>, k: Dot, c: int, q: Dot)
    requires k !in Keys(h)
    ensures Lookup(h + [(k, c)], q) == if q == k then c else Lookup(h, q)
  {
    if h != [] {
      assert Keys(h)[0] == h[0].0;
      assert Keys(h[1..]) == Keys(h)[1..];
      assert (h + [(k, c)])[1..] == h[1..] + [(k, c)];
      LookupSnoc(h[1..], k, c, q);
    }
  }

  /** Adding a cell not yet in the heatmap keeps the cells unique. */
  lemma KeysSnoc(h: seq<(Dot, int)>, k: Dot, c: int)
    requires NoDup(Keys(h)) && k !in Keys(h)
    ensures Keys(h + [(k, c)]) == Keys(h) + [k] && NoDup(Keys(h + [(k, c)]))
  {
    assert Keys(h + [(k, c)]) == Keys(h) + [k];
  }

  /** The cell's entry in the heatmap, appended with count 0 when missing. */
  function WithEntry(h: seq<(Dot, int)>, cell: Dot): (r: seq<(Dot, int)>)
    requires NoDup(Keys(h))
    ensures NoDup(Keys(r)) && cell in Keys(r)
    ensures Keys(r) == Keys(h) + (if cell in Keys(h) then [] else [cell])
    ensures forall q :: Lookup(r, q) == Lookup(h, q)
  {
    if cell in Keys(h) then h
    else
      KeysSnoc(h, cell, 0);
      LookupAbsent(h, cell);
      assert forall q :: Lookup(h + [(cell, 0)], q) == Lookup(h, q) by {
        forall q
          ensures Lookup(h + [(cell, 0)], q) == Lookup(h, q)
        {
          LookupSnoc(h, cell, 0, q);
        }
      }
      h + [(cell, 0)]
  }

  /** One pass of the loop of _buildHeatmap: the first entry holding the cell's first count counts one more. */
  function Raised(h: seq<(Dot, int)>, cell: Dot): seq<(Dot, int)>
    requires NoDup(Keys(h))
  {
    var h1 := WithEntry(h, cell);
    FirstCount(h1, cell);
    var counts := CountsOf(h1, cell);
    var index := IndexOf(h1, (cell, counts[0]));
    h1[index := (cell, h1[index].1 + 1)]
  }

  /** Raising a cell keeps the cells unique, appends the cell when new, and adds one to its count only. */
  lemma RaisedCounts(h: seq<(Dot, int)>, cell: Dot)
    requires NoDup(Keys(h))
    ensures NoDup(Keys(Raised(h, cell)))
    ensures Keys(Raised(h, cell)) == Keys(h) + (if cell in Keys(h) then [] else [cell])
    ensures forall q :: Lookup(Raised(h, cell), q) == Lookup(h, q) + (if q == cell then 1 else 0)
  {
    var h1 := WithEntry(h, cell);
    FirstCount(h1, cell);
    var index := IndexOf(h1, (cell, CountsOf(h1, cell)[0]));
    var c := h1[index].1 + 1;
    assert Keys(h1[index := (cell, c)]) == Keys(h1);
    forall i | 0 <= i < index
      ensures h1[i].0 != cell
    {
      assert Keys(h1)[i] == h1[i].0;
    }
    forall q
      ensures Lookup(Raised(h, cell), q) == Lookup(h, q) + (if q == cell then 1 else 0)
    {
      LookupUpdate(h1, index, cell, c, q);
    }
  }

  /** NavigationAtlas: the heatmap and the cells explored. */
  class AtlasNavigation {
    var heatmap: seq<(Dot, int)>
    var explored: set<Dot>
    const ix: real
    const iy: real

    /** No cell has two heatmap entries. */
    predicate Valid()
      reads this
    {
      NoDup(Keys(heatmap))
    }

    /** The start cell has count 0 and nothing is explored yet; the grid is centred on the start. */
    constructor (initialPosition: Dot)
      ensures Valid()
      ensures heatmap == [(initialPosition, 0)] && explored == {}
      ensures ix == initialPosition.0 && iy == initialPosition.1
    {
      heatmap := [(initialPosition, 0)];
      explored := {};
      ix := initialPosition.0;
      iy := initialPosition.1;
    }

    /**
     * _buildHeatmap: every cell keeps a single entry, a cell seen for the
     * first time is appended, and each cell's count rises by the number of
     * times it occurs in `cells`.
     */
    method BuildHeatmap(cells: seq<Dot>)
      requires Valid()
      modifies this
      ensures Valid() && explored == old(explored)
      ensures |heatmap| >= |old(heatmap)| && Keys(heatmap)[..|old(heatmap)|] == Keys(old(heatmap))
      ensures forall q :: q in Keys(heatmap) <==> q in Keys(old(heatmap)) || q in cells
      ensures forall q :: Lookup(heatmap, q) == Lookup(old(heatmap), q) + Count(cells, q)
    {
      for i := 0 to |cells|
        invariant Valid() && explored == old(explored)
        invariant |heatmap| >= |old(heatmap)| && Keys(heatmap)[..|old(heatmap)|] == Keys(old(heatmap))
        invariant forall q :: q in Keys(heatmap) <==> q in Keys(old(heatmap)) || q in cells[..i]
        invariant forall q :: Lookup(heatmap, q) == Lookup(old(heatmap), q) + Count(cells[..i], q)
      {
        assert cells[..i + 1] == cells[..i] + [cells[i]];
        CountSnoc(cells[..i], cells[i]);
        ghost var before := heatmap;
        RaisedCounts(heatmap, cells[i]);
        heatmap := Raised(heatmap, cells[i]);
        assert Keys(heatmap)[..|before|] == Keys(before);
      }
      assert cells[..|cells|] == cells;
    }

    /**
     * markTraversedCells: every cell the horizontal and the vertical scan from
     * start to stop pass is explored, the cells snapped with _xy2hCell around
     * the start position.
     */
    method MarkTraversedCells(startX: real, startY: real, stopX: real, stopY: real)
      modifies this
      ensures heatmap == old(heatmap)
      ensures explored == old(explored) +
        Elems(Traversal.Scan((startX, startY), (stopX, stopY), Traversal.Sign(startY, stopY), (ix, iy)))
      ensures forall c :: c in explored - old(explored) ==> Traversal.OnGrid(c.0, ix) && Traversal.OnGrid(c.1, iy)
    {
      var cells := Traversal.ExploredCells((startX, startY), (stopX, stopY), (ix, iy));
      for i := 0 to |cells|
        invariant heatmap == old(heatmap)
        invariant explored == old(explored) + Elems(cells[..i])
      {
        assert Elems(cells[..i + 1]) == Elems(cells[..i]) + {cells[i]} by {
          assert cells[..i + 1] == cells[..i] + [cells[i]];
        }
        explored := explored + {cells[i]};
      }
      assert cells[..|cells|] == cells;
    }
  }
}
