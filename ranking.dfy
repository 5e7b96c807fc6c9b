/**
 * The distance oracle of the centralized navigators. For each source cell
 * it keeps a rank map (cell to number of steps from the source) grown by a
 * breadth-first search, and the search frontier, so that a later query
 * resumes the search where an earlier one stopped. Counters record cache
 * hits, resumed searches and new searches.
 */
module Ranking {
  import opened SeqUtil
  import opened Grid
  import opened Exploration

  type RankMap = map<Cell, int>

  /** The exception a dictionary lookup of a missing key raises. */
  datatype KeyError = KeyError

  /**
   * A walk from `src`: each cell after the first is an open cell of the
   * map adjacent to the one before it. A walk of n + 1 cells takes n steps.
   */
  ghost predicate IsWalk(realMap: seq<seq<int>>, numRows: int, numCols: int, w: seq<Cell>, src: Cell)
  {
    |w| > 0 && w[0] == src &&
    forall k :: 0 < k < |w| ==> InBounds(numRows, numCols, w[k]) && At(realMap, w[k]) == 1 && Adjacent(w[k - 1], w[k])
  }

  ghost predicate Reachable(realMap: seq<seq<int>>, numRows: int, numCols: int, src: Cell, dst: Cell)
  {
    exists w :: IsWalk(realMap, numRows, numCols, w, src) && w[|w| - 1] == dst
  }

  /** `d` steps lead from `src` to `dst`, and no walk between them is shorter. */
  ghost predicate ShortestDistance(realMap: seq<seq<int>>, numRows: int, numCols: int, src: Cell, dst: Cell, d: int)
  {
    (exists w :: IsWalk(realMap, numRows, numCols, w, src) && w[|w| - 1] == dst && |w| == d + 1) &&
    (forall w :: IsWalk(realMap, numRows, numCols, w, src) && w[|w| - 1] == dst ==> d + 1 <= |w|)
  }

  /**
   * What a rank map and its frontier (the cells still to visit) satisfy
   * between two steps of the search from `src`:
   *  - the source has rank 0; every other ranked cell is open, in the map,
   *    and next to a ranked cell of rank one less;
   *  - the frontier lists ranked cells, each once;
   *  - no ranked cell is more than one step beyond any frontier cell;
   *  - every open neighbour of a visited cell (ranked, off the frontier)
   *    is ranked;
   *  - no walk from the source to a ranked cell is shorter than its rank.
   */
  ghost predicate BfsState(realMap: seq<seq<int>>, numRows: int, numCols: int, src: Cell, rm: RankMap, fr: seq<Cell>)
  {
    Grounded(realMap, numRows, numCols, src, rm) &&
    FrontierListed(rm, fr) &&
    FrontierBound(rm, fr) &&
    Settled(realMap, numRows, numCols, rm, fr) &&
    NoShortcut(realMap, numRows, numCols, src, rm)
  }

  ghost predicate Grounded(realMap: seq<seq<int>>, numRows: int, numCols: int, src: Cell, rm: RankMap)
  {
    src in rm && rm[src] == 0 &&
    (forall c :: c in rm && c != src ==> InBounds(numRows, numCols, c) && At(realMap, c) == 1 && rm[c] >= 1) &&
    forall c {:trigger HasParent(rm, c)} :: c in rm && c != src ==> HasParent(rm, c)
  }

  /** Some ranked cell next to `c` is ranked one less than `c`. */
  ghost predicate HasParent(rm: RankMap, c: Cell)
    requires c in rm
  {
    exists q :: q in rm && Adjacent(q, c) && rm[q] == rm[c] - 1
  }

  ghost predicate FrontierListed(rm: RankMap, fr: seq<Cell>)
  {
    NoDup(fr) && forall f :: f in fr ==> f in rm
  }

  ghost predicate FrontierBound(rm: RankMap, fr: seq<Cell>)
    requires FrontierListed(rm, fr)
  {
    forall c, f :: c in rm && f in fr ==> rm[c] <= rm[f] + 1
  }

  ghost predicate Settled(realMap: seq<seq<int>>, numRows: int, numCols: int, rm: RankMap, fr: seq<Cell>)
  {
    forall v, n :: v in rm && v !in fr && InBounds(numRows, numCols, n) && At(realMap, n) == 1 && Adjacent(v, n) ==> n in rm
  }

  ghost predicate NoShortcut(realMap: seq<seq<int>>, numRows: int, numCols: int, src: Cell, rm: RankMap)
  {
    forall w :: IsWalk(realMap, numRows, numCols, w, src) && w[|w| - 1] in rm ==> rm[w[|w| - 1]] <= |w| - 1
  }

  lemma WalkPrefix(realMap: seq<seq<int>>, numRows: int, numCols: int, w: seq<Cell>, src: Cell, k: int)
    requires IsWalk(realMap, numRows, numCols, w, src) && 0 < k <= |w|
    ensures IsWalk(realMap, numRows, numCols, w[..k], src)
  {
  }

  /**
   * A walk from the source to an unranked cell leaves the ranked cells
   * through a frontier cell, and does so no earlier than that cell's rank.
   */
  lemma {:induction false} FrontierCrossing(realMap: seq<seq<int>>, numRows: int, numCols: int, src: Cell, rm: RankMap, fr: seq<Cell>, w: seq<Cell>)
    returns (j: int)
    requires BfsState(realMap, numRows, numCols, src, rm, fr)
    requires IsWalk(realMap, numRows, numCols, w, src) && w[|w| - 1] !in rm
    ensures 1 <= j < |w| && w[j - 1] in fr && rm[w[j - 1]] <= j - 1
    decreases |w|
  {
    var init := w[..|w| - 1];
    WalkPrefix(realMap, numRows, numCols, w, src, |w| - 1);
    if init[|init| - 1] !in rm {
      j := FrontierCrossing(realMap, numRows, numCols, src, rm, fr, init);
      assert w[j - 1] == init[j - 1];
    } else {
      j := |w| - 1;
      var v := w[|w| - 2];
      assert InBounds(numRows, numCols, w[|w| - 1]) && At(realMap, w[|w| - 1]) == 1 && Adjacent(v, w[|w| - 1]);
      assert v in fr;
    }
  }

  /** Every ranked cell is reached by a walk with as many steps as its rank. */
  lemma WalkOfRank(realMap: seq<seq<int>>, numRows: int, numCols: int, src: Cell, rm: RankMap, c: Cell)
    returns (w: seq<Cell>)
    requires Grounded(realMap, numRows, numCols, src, rm) && c in rm
    ensures IsWalk(realMap, numRows, numCols, w, src) && w[|w| - 1] == c && |w| == rm[c] + 1
    decreases rm[c]
  {
    if c == src {
      w := [src];
    } else {
      assert HasParent(rm, c);
      var q :| q in rm && Adjacent(q, c) && rm[q] == rm[c] - 1;
      var v := WalkOfRank(realMap, numRows, numCols, src, rm, q);
      WalkExtend(realMap, numRows, numCols, v, src, c);
      w := v + [c];
    }
  }

  lemma WalkExtend(realMap: seq<seq<int>>, numRows: int, numCols: int, w: seq<Cell>, src: Cell, c: Cell)
    requires IsWalk(realMap, numRows, numCols, w, src)
    requires InBounds(numRows, numCols, c) && At(realMap, c) == 1 && Adjacent(w[|w| - 1], c)
    ensures IsWalk(realMap, numRows, numCols, w + [c], src)
  {
    var w' := w + [c];
    forall k | 0 < k < |w'|
      ensures InBounds(numRows, numCols, w'[k]) && At(realMap, w'[k]) == 1 && Adjacent(w'[k - 1], w'[k])
    {
      if k < |w| {
        assert w'[k] == w[k] && w'[k - 1] == w[k - 1];
      }
    }
  }

  /** The rank of every ranked cell is its distance from the source. */
  lemma RankIsShortest(realMap: seq<seq<int>>, numRows: int, numCols: int, src: Cell, rm: RankMap, fr: seq<Cell>, c: Cell)
    requires BfsState(realMap, numRows, numCols, src, rm, fr) && c in rm
    ensures ShortestDistance(realMap, numRows, numCols, src, c, rm[c])
  {
    var w := WalkOfRank(realMap, numRows, numCols, src, rm, c);
  }

  /** With an empty frontier the search is complete: every cell reachable from the source is ranked. */
  lemma CompleteRankMap(realMap: seq<seq<int>>, numRows: int, numCols: int, src: Cell, rm: RankMap, c: Cell)
    requires BfsState(realMap, numRows, numCols, src, rm, [])
    ensures c in rm <==> Reachable(realMap, numRows, numCols, src, c)
  {
    if c in rm {
      var w := WalkOfRank(realMap, numRows, numCols, src, rm, c);
    } else if Reachable(realMap, numRows, numCols, src, c) {
      var w :| IsWalk(realMap, numRows, numCols, w, src) && w[|w| - 1] == c;
      var j := FrontierCrossing(realMap, numRows, numCols, src, rm, [], w);
    }
  }

  /** Walks between open cells can be walked backwards, so distance is symmetric. */
  lemma ReverseWalk(realMap: seq<seq<int>>, numRows: int, numCols: int, w: seq<Cell>, a: Cell, b: Cell)
    returns (v: seq<Cell>)
    requires IsWalk(realMap, numRows, numCols, w, a) && w[|w| - 1] == b
    requires InBounds(numRows, numCols, a) && At(realMap, a) == 1
    ensures IsWalk(realMap, numRows, numCols, v, b) && v[|v| - 1] == a && |v| == |w|
  {
    v := seq(|w|, k requires 0 <= k < |w| => w[|w| - 1 - k]);
    forall k | 0 < k < |v|
      ensures InBounds(numRows, numCols, v[k]) && At(realMap, v[k]) == 1 && Adjacent(v[k - 1], v[k])
    {
      var i := |w| - 1 - k;
      assert v[k] == w[i] && v[k - 1] == w[i + 1];
      assert Adjacent(w[i], w[i + 1]);
    }
  }

  lemma ShortestSymmetric(realMap: seq<seq<int>>, numRows: int, numCols: int, a: Cell, b: Cell, d: int)
    requires InBounds(numRows, numCols, a) && At(realMap, a) == 1
    requires InBounds(numRows, numCols, b) && At(realMap, b) == 1
    requires ShortestDistance(realMap, numRows, numCols, a, b, d)
    ensures ShortestDistance(realMap, numRows, numCols, b, a, d)
  {
    var w :| IsWalk(realMap, numRows, numCols, w, a) && w[|w| - 1] == b && |w| == d + 1;
    var v := ReverseWalk(realMap, numRows, numCols, w, a, b);
    forall u | IsWalk(realMap, numRows, numCols, u, b) && u[|u| - 1] == a
      ensures d + 1 <= |u|
    {
      var u' := ReverseWalk(realMap, numRows, numCols, u, b, a);
    }
  }

  /**
   * Once every open neighbour of the frontier cell `c` is ranked, taking
   * `c` off the frontier keeps the search state.
   */
  lemma SettleStep(realMap: seq<seq<int>>, numRows: int, numCols: int, src: Cell, rm: RankMap, fr: seq<Cell>, c: Cell)
    requires BfsState(realMap, numRows, numCols, src, rm, fr) && c in fr
    requires forall n :: InBounds(numRows, numCols, n) && At(realMap, n) == 1 && Adjacent(c, n) ==> n in rm
    ensures BfsState(realMap, numRows, numCols, src, rm, RemoveFirst(fr, c))
  {
    RemoveFirstNoDup(fr, c);
  }

  /**
   * The selection loop of the search: the first frontier cell of least
   * rank, with that rank; none when the frontier is empty.
   */
  method MinRank(rm: RankMap, fr: seq<Cell>) returns (found: bool, cur: int, c: Cell)
    requires forall f :: f in fr ==> f in rm
    ensures found <==> fr != []
    ensures found ==> c in fr && rm[c] == cur && forall f :: f in fr ==> cur <= rm[f]
    ensures found ==> forall j :: 0 <= j < |fr| && rm[fr[j]] == cur ==> c in fr[..j + 1]
  {
    found, cur, c := false, 0, (0, 0);
    ghost var ci := 0;
    for i := 0 to |fr|
      invariant found <==> i > 0
      invariant found ==> 0 <= ci < i && fr[ci] == c && rm[c] == cur
      invariant found ==> forall j :: 0 <= j < ci ==> cur < rm[fr[j]]
      invariant found ==> forall j :: 0 <= j < i ==> cur <= rm[fr[j]]
    {
      if !found || rm[fr[i]] < cur {
        cur, c, found := rm[fr[i]], fr[i], true;
        ci := i;
      }
    }
    if found {
      forall j | 0 <= j < |fr| && rm[fr[j]] == cur
        ensures c in fr[..j + 1]
      {
        assert fr[..j + 1][ci] == c;
      }
      forall f | f in fr
        ensures cur <= rm[f]
      {
        var j :| 0 <= j < |fr| && fr[j] == f;
      }
    }
  }

  /**
   * Visiting the frontier cell `c` turned `rm` and `fr` into `rm'` and
   * `fr'`: old ranks are kept, and every newly ranked cell is an open
   * neighbour of `c`, one step beyond it, appended once to the frontier.
   */
  ghost predicate Visited(realMap: seq<seq<int>>, numRows: int, numCols: int,
                          rm: RankMap, fr: seq<Cell>, c: Cell, rm': RankMap, fr': seq<Cell>)
  {
    c in rm &&
    (forall n :: n in rm ==> n in rm' && rm'[n] == rm[n]) &&
    (forall n :: n in rm' && n !in rm ==>
      rm'[n] == rm[c] + 1 && InBounds(numRows, numCols, n) && At(realMap, n) == 1 && Adjacent(c, n) && n in fr') &&
    |fr| <= |fr'| && fr'[..|fr|] == fr &&
    (forall k :: |fr| <= k < |fr'| ==> fr'[k] in rm' && fr'[k] !in rm) &&
    NoDup(fr')
  }

  lemma VisitedGrounded(realMap: seq<seq<int>>, numRows: int, numCols: int, src: Cell,
                        rm: RankMap, fr: seq<Cell>, c: Cell, rm': RankMap, fr': seq<Cell>)
    requires Grounded(realMap, numRows, numCols, src, rm)
    requires Visited(realMap, numRows, numCols, rm, fr, c, rm', fr')
    ensures Grounded(realMap, numRows, numCols, src, rm')
  {
    forall m | m in rm' && m != src
      ensures InBounds(numRows, numCols, m) && At(realMap, m) == 1 && rm'[m] >= 1
      ensures HasParent(rm', m)
    {
      if m !in rm {
        assert c in rm' && Adjacent(c, m) && rm'[c] == rm'[m] - 1;
      } else {
        assert HasParent(rm, m);
        var q :| q in rm && Adjacent(q, m) && rm[q] == rm[m] - 1;
        assert q in rm' && rm'[q] == rm[q];
      }
    }
  }

  lemma VisitedFrontier(rm: RankMap, fr: seq<Cell>, c: Cell, rm': RankMap, fr': seq<Cell>, numRows: int, numCols: int, realMap: seq<seq<int>>)
    requires FrontierListed(rm, fr) && FrontierBound(rm, fr)
    requires c in fr && forall f :: f in fr ==> rm[c] <= rm[f]
    requires Visited(realMap, numRows, numCols, rm, fr, c, rm', fr')
    ensures FrontierListed(rm', fr') && FrontierBound(rm', fr')
  {
    forall f | f in fr'
      ensures f in rm' && rm[c] <= rm'[f] && (f !in rm ==> rm'[f] == rm[c] + 1)
    {
      var k :| 0 <= k < |fr'| && fr'[k] == f;
      if k < |fr| {
        assert f == fr[k];
      }
    }
  }

  lemma VisitedSettled(realMap: seq<seq<int>>, numRows: int, numCols: int,
                       rm: RankMap, fr: seq<Cell>, c: Cell, rm': RankMap, fr': seq<Cell>)
    requires Settled(realMap, numRows, numCols, rm, fr)
    requires Visited(realMap, numRows, numCols, rm, fr, c, rm', fr')
    ensures Settled(realMap, numRows, numCols, rm', fr')
  {
    forall v | v in fr
      ensures v in fr'
    {
      var k :| 0 <= k < |fr| && fr[k] == v;
      assert fr'[..|fr|][k] == v;
    }
  }

  lemma VisitedNoShortcut(realMap: seq<seq<int>>, numRows: int, numCols: int, src: Cell,
                          rm: RankMap, fr: seq<Cell>, c: Cell, rm': RankMap, fr': seq<Cell>)
    requires BfsState(realMap, numRows, numCols, src, rm, fr)
    requires c in fr && forall f :: f in fr ==> rm[c] <= rm[f]
    requires Visited(realMap, numRows, numCols, rm, fr, c, rm', fr')
    ensures NoShortcut(realMap, numRows, numCols, src, rm')
  {
    forall w | IsWalk(realMap, numRows, numCols, w, src) && w[|w| - 1] in rm'
      ensures rm'[w[|w| - 1]] <= |w| - 1
    {
      if w[|w| - 1] !in rm {
        var j := FrontierCrossing(realMap, numRows, numCols, src, rm, fr, w);
      }
    }
  }

  /** Ranking the open neighbours of the frontier cell of least rank keeps the search state. */
  lemma VisitedState(realMap: seq<seq<int>>, numRows: int, numCols: int, src: Cell,
                     rm: RankMap, fr: seq<Cell>, c: Cell, rm': RankMap, fr': seq<Cell>)
    requires BfsState(realMap, numRows, numCols, src, rm, fr)
    requires c in fr && forall f :: f in fr ==> rm[c] <= rm[f]
    requires Visited(realMap, numRows, numCols, rm, fr, c, rm', fr')
    ensures BfsState(realMap, numRows, numCols, src, rm', fr')
  {
    VisitedGrounded(realMap, numRows, numCols, src, rm, fr, c, rm', fr');
    VisitedFrontier(rm, fr, c, rm', fr', numRows, numCols, realMap);
    VisitedSettled(realMap, numRows, numCols, rm, fr, c, rm', fr');
    VisitedNoShortcut(realMap, numRows, numCols, src, rm, fr, c, rm', fr');
  }

  /**
   * The neighbour loop of the search: every open, unranked neighbour of
   * the frontier cell `c` of least rank is ranked one more than `c` and
   * queued. A neighbour already ranked is never more than one step beyond
   * `c`, which is the assertion the loop makes.
   */
  method VisitNeighbours(realMap: seq<seq<int>>, numRows: int, numCols: int, ghost src: Cell, rm: RankMap, fr: seq<Cell>, c: Cell)
    returns (rm': RankMap, fr': seq<Cell>)
    requires IsGrid(realMap, numRows, numCols)
    requires BfsState(realMap, numRows, numCols, src, rm, fr)
    requires c in fr && forall f :: f in fr ==> rm[c] <= rm[f]
    ensures BfsState(realMap, numRows, numCols, src, rm', fr')
    ensures Visited(realMap, numRows, numCols, rm, fr, c, rm', fr')
    ensures forall n :: InBounds(numRows, numCols, n) && At(realMap, n) == 1 && Adjacent(c, n) ==> n in rm'
  {
    var cur := rm[c];
    var nbrs := OneHopNeighborhood(numRows, numCols, c.0, c.1);
    rm', fr' := rm, fr;
    assert fr[..|fr|] == fr;
    assert FrontierBound(rm, fr);
    for j := 0 to |nbrs|
      invariant Visited(realMap, numRows, numCols, rm, fr, c, rm', fr')
      invariant forall n :: n in nbrs[..j] && At(realMap, n) == 1 ==> n in rm'
    {
      var n := nbrs[j];
      assert nbrs[..j + 1] == nbrs[..j] + [n];
      assert InBounds(numRows, numCols, n) && Adjacent(c, n) by { assert n in nbrs; }
      if n in rm' {
        assert rm'[n] <= cur + 1 by {
          if n in rm { assert rm'[n] == rm[n] <= rm[c] + 1; }
        }
      }
      if realMap[n.0][n.1] == 1 && n !in rm' {
        VisitAppend(realMap, numRows, numCols, rm, fr, c, rm', fr', n);
        rm' := rm'[n := cur + 1];
        fr' := fr' + [n];
      }
    }
    assert nbrs[..|nbrs|] == nbrs;
    VisitedState(realMap, numRows, numCols, src, rm, fr, c, rm', fr');
  }

  lemma VisitAppend(realMap: seq<seq<int>>, numRows: int, numCols: int,
                    rm: RankMap, fr: seq<Cell>, c: Cell, rm': RankMap, fr': seq<Cell>, n: Cell)
    requires FrontierListed(rm, fr) && Visited(realMap, numRows, numCols, rm, fr, c, rm', fr')
    requires n !in rm' && InBounds(numRows, numCols, n) && At(realMap, n) == 1 && Adjacent(c, n)
    ensures Visited(realMap, numRows, numCols, rm, fr, c, rm'[n := rm[c] + 1], fr' + [n])
  {
    var fr2 := fr' + [n];
    assert fr2[..|fr|] == fr'[..|fr|];
    assert forall k :: 0 <= k < |fr'| ==> fr2[k] == fr'[k];
    assert n !in fr';
  }

  /**
   * The search loop of _distance: visit the first frontier cell of least
   * rank, take it off the frontier, and stop once `pos2` is ranked or the
   * frontier is empty. Ranks already given are never revised.
   */
  method Bfs(realMap: seq<seq<int>>, numRows: int, numCols: int, ghost src: Cell, rm0: RankMap, fr0: seq<Cell>, pos2: Option<Cell>)
    returns (rm: RankMap, fr: seq<Cell>, reached: bool)
    requires IsGrid(realMap, numRows, numCols)
    requires BfsState(realMap, numRows, numCols, src, rm0, fr0)
    ensures BfsState(realMap, numRows, numCols, src, rm, fr)
    ensures forall n :: n in rm0 ==> n in rm && rm[n] == rm0[n]
    ensures reached ==> pos2.Some? && pos2.value in rm
    ensures !reached ==> fr == []
  {
    rm, fr, reached := rm0, fr0, false;
    while true
      invariant BfsState(realMap, numRows, numCols, src, rm, fr)
      invariant forall n :: n in rm0 ==> n in rm && rm[n] == rm0[n]
      decreases |AllCells(numRows, numCols) - rm.Keys|, |fr|
    {
      var found, cur, c := MinRank(rm, fr);
      if !found {
        break;
      }
      var rm', fr' := VisitNeighbours(realMap, numRows, numCols, src, rm, fr, c);
      SettleStep(realMap, numRows, numCols, src, rm', fr', c);
      VisitProgress(realMap, numRows, numCols, rm, fr, c, rm', fr');
      rm, fr := rm', RemoveFirst(fr', c);
      if pos2.Some? && pos2.value in rm {
        reached := true;
        break;
      }
    }
  }

  /**
   * A visit either ranks a new cell of the map or leaves the rank map and
   * the frontier as they were: the search makes progress.
   */
  lemma VisitProgress(realMap: seq<seq<int>>, numRows: int, numCols: int,
                      rm: RankMap, fr: seq<Cell>, c: Cell, rm': RankMap, fr': seq<Cell>)
    requires Visited(realMap, numRows, numCols, rm, fr, c, rm', fr')
    ensures |AllCells(numRows, numCols) - rm'.Keys| < |AllCells(numRows, numCols) - rm.Keys| ||
            (rm'.Keys == rm.Keys && fr' == fr)
  {
    if rm'.Keys != rm.Keys {
      var m :| m in rm' && m !in rm;
      assert m in AllCells(numRows, numCols) by { assert m == (m.0, m.1); }
      ProperSubsetCard(AllCells(numRows, numCols) - rm'.Keys, AllCells(numRows, numCols) - rm.Keys);
    } else {
      var added := fr'[|fr|..];
      NoDupWithin(added, rm'.Keys - rm.Keys);
      assert fr' == fr'[..|fr|] + added;
    }
  }

  /** A counter dictionary after one increment of key `k`, an absent key counting as 0. */
  function Bump(stats: map<string, int>, k: string): (r: map<string, int>)
    ensures r.Keys == stats.Keys + {k}
    ensures r[k] == (if k in stats then stats[k] else 0) + 1
    ensures forall j :: j in stats && j != k ==> r[j] == stats[j]
  {
    stats[k := (if k in stats then stats[k] else 0) + 1]
  }

  /**
   * The rank-map cache: each cached rank map is a search state from its
   * own source, whose frontier is the stored one (none stored: the search
   * is complete), and frontiers are stored only for cached sources.
   */
  ghost predicate CacheOK(realMap: seq<seq<int>>, numRows: int, numCols: int,
                          rankMaps: map<Cell, RankMap>, shouldvisits: map<Cell, seq<Cell>>)
  {
    shouldvisits.Keys <= rankMaps.Keys &&
    forall p {:trigger CachedSearch(realMap, numRows, numCols, rankMaps, shouldvisits, p)} ::
      p in rankMaps ==> CachedSearch(realMap, numRows, numCols, rankMaps, shouldvisits, p)
  }

  /** The rank map cached for `p` is a search state from `p` with the frontier stored for `p`. */
  ghost predicate CachedSearch(realMap: seq<seq<int>>, numRows: int, numCols: int,
                               rankMaps: map<Cell, RankMap>, shouldvisits: map<Cell, seq<Cell>>, p: Cell)
    requires p in rankMaps
  {
    BfsState(realMap, numRows, numCols, p, rankMaps[p], if p in shouldvisits then shouldvisits[p] else [])
  }

  /** Storing a search state from p1 (and its frontier, unless the search is complete) keeps the cache. */
  lemma StoreSearch(realMap: seq<seq<int>>, numRows: int, numCols: int,
                    rankMaps: map<Cell, RankMap>, shouldvisits: map<Cell, seq<Cell>>,
                    p1: Cell, rm: RankMap, fr: seq<Cell>, store: bool)
    requires CacheOK(realMap, numRows, numCols, rankMaps, shouldvisits)
    requires BfsState(realMap, numRows, numCols, p1, rm, fr)
    requires !store ==> p1 !in shouldvisits && fr == []
    ensures CacheOK(realMap, numRows, numCols, rankMaps[p1 := rm], if store then shouldvisits[p1 := fr] else shouldvisits)
  {
    var rankMaps', shouldvisits' := rankMaps[p1 := rm], if store then shouldvisits[p1 := fr] else shouldvisits;
    forall p | p in rankMaps'
      ensures CachedSearch(realMap, numRows, numCols, rankMaps', shouldvisits', p)
    {
      if p != p1 {
        assert CachedSearch(realMap, numRows, numCols, rankMaps, shouldvisits, p);
      }
    }
  }

  /**
   * Looking up neighbour `n` in the rank map raises KeyError: it is open on
   * the discovered map, and it or the centre (x, y) has no rank.
   */
  predicate RankLookupFails(rm: RankMap, discoMap: seq<seq<int>>, x: int, y: int, n: Cell)
  {
    At(discoMap, n) == 1 && (n !in rm || (x, y) !in rm)
  }

  /** The open neighbours of (x, y) ranked strictly higher than (x, y). */
  function HigherRanked(rm: RankMap, discoMap: seq<seq<int>>, numRows: int, numCols: int, x: int, y: int): set<Cell>
  {
    set n | n in NbrSet(numRows, numCols, x, y) && At(discoMap, n) == 1 && n in rm && (x, y) in rm && rm[n] > rm[(x, y)]
  }

  /** The neighbours of (x, y) not yet discovered. */
  function UnexploredAround(discoMap: seq<seq<int>>, numRows: int, numCols: int, x: int, y: int): set<Cell>
  {
    set n | n in NbrSet(numRows, numCols, x, y) && At(discoMap, n) == -1
  }

  /**
   * The two counts never exceed the eight neighbours together: a
   * higher-ranked neighbour is open, an unexplored one is not.
   */
  lemma NeighbourCountsBound(rm: RankMap, discoMap: seq<seq<int>>, numRows: int, numCols: int, x: int, y: int)
    ensures |HigherRanked(rm, discoMap, numRows, numCols, x, y)| + |UnexploredAround(discoMap, numRows, numCols, x, y)|
            <= |NbrSet(numRows, numCols, x, y)| <= 8
  {
    var h, u := HigherRanked(rm, discoMap, numRows, numCols, x, y), UnexploredAround(discoMap, numRows, numCols, x, y);
    var ring := Ring(x, y);
    RingNoDup(x, y);
    NoDupCard(ring);
    SubsetCard(NbrSet(numRows, numCols, x, y), Elems(ring));
    assert h * u == {};
    assert |h + u| == |h| + |u|;
    SubsetCard(h + u, NbrSet(numRows, numCols, x, y));
  }

  /** Counting one more neighbour: the tally of those in `target` gains it exactly when it is in `target`. */
  lemma TallyStep(seen: seq<Cell>, n: Cell, tally: set<Cell>, target: set<Cell>, add: bool)
    requires forall m :: m in tally <==> m in seen && m in target
    requires n !in seen && (add <==> n in target)
    ensures forall m :: m in (if add then tally + {n} else tally) <==> m in seen + [n] && m in target
    ensures |if add then tally + {n} else tally| == |tally| + if add then 1 else 0
  {
  }

  /** The counting loop of _numHigherRankAndUnexploredNeighbors, over the start cell's rank map `rm`. */
  method CountNeighbours(rm: RankMap, discoMap: seq<seq<int>>, numRows: int, numCols: int, x: int, y: int)
    returns (r: Result<(nat, nat), KeyError>)
    requires IsGrid(discoMap, numRows, numCols)
    ensures r.Err? <==> exists n :: n in NbrSet(numRows, numCols, x, y) && RankLookupFails(rm, discoMap, x, y, n)
    ensures r.Ok? ==> r.value == (|HigherRanked(rm, discoMap, numRows, numCols, x, y)|,
                                  |UnexploredAround(discoMap, numRows, numCols, x, y)|)
  {
    var nbrs := OneHopNeighborhood(numRows, numCols, x, y);
    NbrSetMembers(numRows, numCols, x, y);
    ghost var hr, ua := HigherRanked(rm, discoMap, numRows, numCols, x, y), UnexploredAround(discoMap, numRows, numCols, x, y);
    var numHigher, numUnexplored := 0, 0;
    ghost var higher: set<Cell>, unexplored: set<Cell> := {}, {};
    for j := 0 to |nbrs|
      invariant forall n :: n in higher <==> n in nbrs[..j] && n in hr
      invariant forall n :: n in unexplored <==> n in nbrs[..j] && n in ua
      invariant numHigher == |higher| && numUnexplored == |unexplored|
      invariant forall n :: n in nbrs[..j] ==> !RankLookupFails(rm, discoMap, x, y, n)
    {
      var n := nbrs[j];
      assert nbrs[..j + 1] == nbrs[..j] + [n];
      assert n !in nbrs[..j];
      assert InBounds(numRows, numCols, n) && n in NbrSet(numRows, numCols, x, y);
      var (nx, ny) := n;
      var isHigher := false;
      if discoMap[nx][ny] == 1 {
        if n !in rm || (x, y) !in rm {
          return Err(KeyError);
        }
        isHigher := rm[n] > rm[(x, y)];
      }
      var isUnexplored := discoMap[nx][ny] == -1;
      TallyStep(nbrs[..j], n, higher, hr, isHigher);
      TallyStep(nbrs[..j], n, unexplored, ua, isUnexplored);
      if isHigher {
        numHigher := numHigher + 1;
        higher := higher + {n};
      }
      if isUnexplored {
        numUnexplored := numUnexplored + 1;
        unexplored := unexplored + {n};
      }
    }
    assert nbrs[..|nbrs|] == nbrs;
    assert higher == hr;
    assert unexplored == ua;
    r := Ok((numHigher, numUnexplored));
  }

  /** Every rank map of `before` is still cached in `after`, with every rank it gave unchanged. */
  ghost predicate RanksKept(before: map<Cell, RankMap>, after: map<Cell, RankMap>)
  {
    forall p :: p in before ==> p in after && forall c :: c in before[p] ==> c in after[p] && after[p][c] == before[p][c]
  }

  /**
   * The value _distance returns once the rank map `rm` of p1, with
   * frontier `fr`, is as far as the query takes it; `ok` false stands
   * for the KeyError of a resumed search without a stored frontier.
   */
  method Lookup(realMap: seq<seq<int>>, numRows: int, numCols: int, p1: Cell, rm: RankMap, fr: seq<Cell>,
                p2: Option<Cell>, ok: bool) returns (r: Result<Option<int>, KeyError>)
    requires BfsState(realMap, numRows, numCols, p1, rm, fr)
    requires p2.None? || p2.value !in rm ==> fr == []
    requires !ok ==> p2.None? || p2.value !in rm
    ensures !ok ==> r.Err?
    ensures ok && p2.None? ==> r == Ok(None)
    ensures p2.Some? ==> (r.Ok? <==> Reachable(realMap, numRows, numCols, p1, p2.value))
    ensures r.Ok? && p2.Some? ==>
      p2.value in rm && r.value == Some(rm[p2.value]) &&
      ShortestDistance(realMap, numRows, numCols, p1, p2.value, rm[p2.value])
    ensures ok && p2.None? ==> forall c :: c in rm <==> Reachable(realMap, numRows, numCols, p1, c)
  {
    if p2.Some? && p2.value in rm {
      RankIsShortest(realMap, numRows, numCols, p1, rm, fr, p2.value);
    }
    if p2.Some? && p2.value !in rm {
      CompleteRankMap(realMap, numRows, numCols, p1, rm, p2.value);
    }
    if ok && p2.None? {
      forall c
        ensures c in rm <==> Reachable(realMap, numRows, numCols, p1, c)
      {
        CompleteRankMap(realMap, numRows, numCols, p1, rm, c);
      }
    }
    if !ok {
      r := Err(KeyError);
    } else if p2.None? {
      r := Ok(None);
    } else if p2.value !in rm {
      r := Err(KeyError);
    } else {
      r := Ok(Some(rm[p2.value]));
    }
  }

  /**
   * NavigationCentralized: the navigator that owns the rank maps, their
   * stored frontiers and the statistics counters.
   */
  class CentralizedNavigation {
    const realMap: seq<seq<int>>
    const startPos: Cell
    const numRobots: nat
    const numRows: int
    const numCols: int
    var rankMaps: map<Cell, RankMap>
    var shouldvisits: map<Cell, seq<Cell>>
    var stats: map<string, int>

    /** The stored frontier of the search from `p`; none stored means the search from `p` is complete. */
    ghost function Frontier(p: Cell): seq<Cell>
      reads this
    {
      if p in shouldvisits then shouldvisits[p] else []
    }

    /** Every cached rank map is a search state from its source, with its stored frontier. */
    ghost predicate Valid()
      reads this
    {
      IsGrid(realMap, numRows, numCols) && CacheOK(realMap, numRows, numCols, rankMaps, shouldvisits)
    }

    /** The query after the swap: the source is pos2 when only pos2 has a rank map. */
    ghost function Oriented(pos1: Cell, pos2: Option<Cell>): (Cell, Option<Cell>)
      reads this
    {
      if pos1 !in rankMaps && pos2.Some? && pos2.value in rankMaps then (pos2.value, Some(pos1)) else (pos1, pos2)
    }

    /** The counter the (already swapped) query from p1 to p2 increments. */
    ghost function CacheEvent(p1: Cell, p2: Option<Cell>): string
      reads this
    {
      if p1 in rankMaps && p2.Some? && p2.value in rankMaps[p1] then "cache_hit"
      else if p1 in rankMaps then "cache_miss_resume"
      else "cache_miss_new"
    }

    /**
     * The navigator starts with no rank maps and builds the full one of
     * the start cell: afterwards the start cell's rank map holds exactly
     * the cells reachable from it, each ranked by its distance.
     */
    constructor(realMap: seq<seq<int>>, startPos: Cell, numRobots: nat)
      requires |realMap| > 0 && IsGrid(realMap, |realMap|, |realMap[0]|)
      ensures Valid()
      ensures this.realMap == realMap && this.startPos == startPos && this.numRobots == numRobots
      ensures numRows == |realMap| && numCols == |realMap[0]|
      ensures rankMaps.Keys == {startPos} && shouldvisits == map[]
      ensures stats == map["cache_miss_new" := 1]
      ensures forall c :: c in rankMaps[startPos] <==> Reachable(realMap, numRows, numCols, startPos, c)
    {
      this.realMap := realMap;
      this.startPos := startPos;
      this.numRobots := numRobots;
      numRows := |realMap|;
      numCols := |realMap[0]|;
      rankMaps := map[];
      shouldvisits := map[];
      stats := map[];
      new;
      var r := Distance(startPos, None);
    }

    /** _stats_incr: one more for counter `k`, starting from 0. */
    method StatsIncr(k: string)
      modifies this
      ensures stats == Bump(old(stats), k)
      ensures rankMaps == old(rankMaps) && shouldvisits == old(shouldvisits)
    {
      if k !in stats {
        stats := stats[k := 0];
      }
      stats := stats[k := stats[k] + 1];
    }

    /**
     * The cache-miss branch of _distance for the (already swapped) query
     * from p1 to p2: the search from p1 resumes from its stored frontier,
     * or starts anew from p1 alone, until p2 is ranked or the frontier is
     * empty. The stored frontier is the search's own list, so a resumed
     * search keeps it up to date, and a new search stores it only when it
     * stops at p2. Resuming a search whose frontier was never stored
     * raises KeyError (reported as `ok` false). The caller has counted
     * the miss already, as the source does before the KeyError.
     */
    method Search(p1: Cell, p2: Option<Cell>) returns (ok: bool)
      requires Valid()
      requires !(p1 in rankMaps && p2.Some? && p2.value in rankMaps[p1])
      modifies this
      ensures Valid()
      ensures stats == old(stats)
      ensures RanksKept(old(rankMaps), rankMaps)
      ensures rankMaps.Keys == old(rankMaps).Keys + {p1}
      ensures ok <==> !(p1 in old(rankMaps) && p1 !in old(shouldvisits))
      ensures !ok ==> rankMaps == old(rankMaps) && shouldvisits == old(shouldvisits)
      ensures p2.None? || p2.value !in rankMaps[p1] ==> Frontier(p1) == []
      ensures p2.None? ==> shouldvisits.Keys == old(shouldvisits).Keys
    {
      var rm, fr;
      if p1 in rankMaps {
        if p1 !in shouldvisits {
          return false;
        }
        assert CachedSearch(realMap, numRows, numCols, rankMaps, shouldvisits, p1);
        rm, fr := rankMaps[p1], shouldvisits[p1];
      } else {
        rm, fr := map[p1 := 0], [p1];
      }
      var reached;
      rm, fr, reached := Bfs(realMap, numRows, numCols, p1, rm, fr, p2);
      var store := reached || p1 in shouldvisits;
      StoreSearch(realMap, numRows, numCols, rankMaps, shouldvisits, p1, rm, fr, store);
      if store {
        shouldvisits := shouldvisits[p1 := fr];
      }
      rankMaps := rankMaps[p1 := rm];
      ok := true;
    }

    /**
     * _distance after the swap: count a hit, or count the miss and run
     * Search, then look p2 up in p1's rank map.
     */
    method Query(p1: Cell, p2: Option<Cell>) returns (r: Result<Option<int>, KeyError>)
      requires Valid()
      modifies this
      ensures Valid()
      ensures stats == Bump(old(stats), old(CacheEvent(p1, p2)))
      ensures RanksKept(old(rankMaps), rankMaps)
      ensures rankMaps.Keys == old(rankMaps).Keys + {p1}
      ensures p2.Some? ==>
        (r.Ok? <==> Reachable(realMap, numRows, numCols, p1, p2.value)) &&
        (r.Ok? ==> r.value.Some? && p2.value in rankMaps[p1] && r.value.value == rankMaps[p1][p2.value] &&
                   ShortestDistance(realMap, numRows, numCols, p1, p2.value, r.value.value))
      ensures p2.None? ==> (r.Err? <==> p1 in old(rankMaps) && p1 !in old(shouldvisits))
      ensures p2.None? ==> shouldvisits.Keys == old(shouldvisits).Keys
      ensures p2.None? && r.Ok? ==>
        r.value.None? && Frontier(p1) == [] &&
        forall c :: c in rankMaps[p1] <==> Reachable(realMap, numRows, numCols, p1, c)
    {
      var ok := true;
      if p1 in rankMaps && p2.Some? && p2.value in rankMaps[p1] {
        StatsIncr("cache_hit");
      } else {
        StatsIncr(if p1 in rankMaps then "cache_miss_resume" else "cache_miss_new");
        ok := Search(p1, p2);
      }
      assert CachedSearch(realMap, numRows, numCols, rankMaps, shouldvisits, p1);
      var fr := if p1 in shouldvisits then shouldvisits[p1] else [];
      r := Lookup(realMap, numRows, numCols, p1, rankMaps[p1], fr, p2, ok);
    }

    /**
     * _distance(pos1, pos2): the number of steps from pos1 to pos2 over
     * open cells, served from the rank maps. pos1 == pos2 is 0 at once.
     * The query is swapped when only pos2 has a rank map. A cached answer
     * is a hit; otherwise Search extends the source's rank map. Without
     * pos2 the search runs to the end and nothing is returned. A lookup of
     * a missing key raises KeyError: a resumed search whose frontier was
     * never stored, or a pos2 the search could not reach.
     */
    method Distance(pos1: Cell, pos2: Option<Cell>) returns (r: Result<Option<int>, KeyError>)
      requires Valid()
      modifies this
      ensures Valid()
      ensures pos2 == Some(pos1) ==>
        r == Ok(Some(0)) && rankMaps == old(rankMaps) && shouldvisits == old(shouldvisits) && stats == old(stats)
      ensures pos2 != Some(pos1) ==> stats == Bump(old(stats), old(CacheEvent(Oriented(pos1, pos2).0, Oriented(pos1, pos2).1)))
      ensures RanksKept(old(rankMaps), rankMaps)
      ensures rankMaps.Keys <= old(rankMaps).Keys + {pos1}
      ensures pos2.Some? && pos2 != Some(pos1) ==>
        var (s, t) := old(Oriented(pos1, pos2));
        (r.Ok? <==> Reachable(realMap, numRows, numCols, s, t.value)) &&
        (r.Ok? ==> r.value.Some? && s in rankMaps && t.value in rankMaps[s] && r.value.value == rankMaps[s][t.value] &&
                   ShortestDistance(realMap, numRows, numCols, s, t.value, r.value.value))
      ensures pos2.None? ==> (r.Err? <==> pos1 in old(rankMaps) && pos1 !in old(shouldvisits))
      ensures pos2.None? ==> shouldvisits.Keys == old(shouldvisits).Keys
      ensures pos2.None? && r.Ok? ==>
        r.value.None? && pos1 in rankMaps && Frontier(pos1) == [] &&
        forall c :: c in rankMaps[pos1] <==> Reachable(realMap, numRows, numCols, pos1, c)
    {
      if pos2 == Some(pos1) {
        return Ok(Some(0));
      }
      var p1, p2 := pos1, pos2;
      if p1 !in rankMaps && p2.Some? && p2.value in rankMaps {
        p1, p2 := p2.value, Some(pos1);
      }
      r := Query(p1, p2);
    }

    /**
     * _numHigherRankAndUnexploredNeighbors: among the neighbours of
     * (x, y), the number of open ones ranked above (x, y) in the start
     * cell's rank map, and the number not yet discovered. A rank lookup of
     * a missing cell raises KeyError.
     */
    method NumHigherRankAndUnexploredNeighbors(x: int, y: int, discoMap: seq<seq<int>>) returns (r: Result<(nat, nat), KeyError>)
      requires IsGrid(discoMap, numRows, numCols)
      ensures r.Err? <==> (startPos !in rankMaps ||
        exists n :: n in NbrSet(numRows, numCols, x, y) && RankLookupFails(rankMaps[startPos], discoMap, x, y, n))
      ensures r.Ok? ==> r.value == (|HigherRanked(rankMaps[startPos], discoMap, numRows, numCols, x, y)|,
                                    |UnexploredAround(discoMap, numRows, numCols, x, y)|)
    {
      if startPos !in rankMaps {
        return Err(KeyError);
      }
      r := CountNeighbours(rankMaps[startPos], discoMap, numRows, numCols, x, y);
    }
  }
}
