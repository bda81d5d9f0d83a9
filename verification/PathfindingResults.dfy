/** The meaning of find_path and validate_path for callers, and the map on which a wrapped move defeats the search. */
module PathfindingResults {
  import opened Common
  import opened Grid
  import opened Walk
  import opened Search
  import opened SearchResults
  import opened Pathfinding

  /** Each step goes to a walkable cell of the neighbour list. */
  ghost predicate IsValidPath(cells: Cells, path: seq<nat>) {
    forall i :: 0 < i < |path| ==> IsValidStep(cells, path[i - 1], path[i])
  }

  ghost predicate IsValidStep(cells: Cells, from: nat, to: nat) {
    && from < MAP_CELLS_COUNT && to < MAP_CELLS_COUNT && cells[to].IsWalkable()
    && exists d: nat :: d < 8 && NeighbourAt(from, d) == Some(to)
  }

  method IsNeighbour(from: Cell, to: Cell) returns (found: bool)
    ensures found <==> exists d: nat :: d < 8 && NeighbourAt(from, d) == Some(to)
  {
    hide NeighbourAt, NeighboursUpTo;
    var nbrs := CellNeighbours(from);
    forall d: nat ensures (to, d) in nbrs <==> d < 8 && NeighbourAt(from, d) == Some(to) {
      NeighboursExact(from, 8, to, d);
    }
    found := false;
    for j := 0 to |nbrs|
      invariant found <==> exists k :: 0 <= k < j && nbrs[k].0 == to
    {
      if nbrs[j].0 == to {
        found := true;
      }
    }
    if found {
      var k :| 0 <= k < |nbrs| && nbrs[k].0 == to;
      assert (to, nbrs[k].1) in nbrs;
    }
  }

  /** Checks a path sent by a client; its first cell is an index only if the second one passed. */
  method ValidatePath(cells: Cells, path: seq<nat>) returns (ok: bool)
    requires |path| >= 2 && path[1] < MAP_CELLS_COUNT && cells[path[1]].IsWalkable() ==> path[0] < MAP_CELLS_COUNT
    ensures ok <==> IsValidPath(cells, path)
  {
    hide NeighbourAt;
    if path == [] {
      return true;
    }
    for i := 1 to |path|
      invariant forall j :: 0 < j < i ==> IsValidStep(cells, path[j - 1], path[j])
    {
      var to := path[i];
      if to >= MAP_CELLS_COUNT || !cells[to].IsWalkable() {
        assert !IsValidStep(cells, path[i - 1], path[i]);
        return false;
      }
      assert i > 1 ==> IsValidStep(cells, path[i - 1 - 1], path[i - 1]);
      var neighbour := IsNeighbour(path[i - 1], to);
      if !neighbour {
        assert !IsValidStep(cells, path[i - 1], path[i]);
        return false;
      }
    }
    return true;
  }

  lemma WalkIsValidPath(cells: Cells, w: seq<Cell>, a: Cell, b: Cell)
    requires IsWalk(cells, w, a, b)
    ensures IsValidPath(cells, w)
  {
    hide NeighbourAt, SideOpen;
    forall i | 0 < i < |w| ensures IsValidStep(cells, w[i - 1], w[i]) {
      assert Edge(cells, w[i - 1], w[i]);
    }
  }

  ghost predicate InBudget(maxCost: Option<nat>, w: seq<Cell>) {
    maxCost.Some? ==> |w| - 1 <= maxCost.value
  }

  /** Every map: a returned path is a repeat-free usable walk within the budget, and validate_path accepts it. */
  lemma FindPathSound(cells: Cells, start: Cell, end: Cell, maxCost: Option<nat>, path: seq<nat>)
    requires FindsPath(cells, start, end, maxCost, Some(path))
    ensures forall i :: 0 <= i < |path| ==> path[i] < MAP_CELLS_COUNT
    ensures IsWalk(cells, path, start, end) && NoRepeats(path) && InBudget(maxCost, path)
    ensures IsValidPath(cells, path)
  {
    hide Edge, Returns, NeighbourAt;
    var env := Env(cells, start, end, maxCost);
    if start != end {
      Sound(env, path);
    }
    WalkIsValidPath(cells, path, start, end);
  }

  /** The two early exits, for ids beyond the map too. */
  lemma EarlyExits(cells: Cells, start: nat, end: nat, maxCost: Option<nat>, r: Option<seq<nat>>)
    requires MayCall(cells, start, end) && FindsPath(cells, start, end, maxCost, r)
    ensures start == end ==> r == Some([start])
    ensures start != end && (end >= MAP_CELLS_COUNT || !cells[end].mov || cells[end].nonWalkableDuringRp) ==> r == None
  {
    hide Returns;
  }

  lemma WalkTargetWalkable(cells: Cells, start: Cell, end: Cell, w: seq<Cell>)
    requires start != end && IsWalk(cells, w, start, end)
    ensures cells[end].IsWalkable()
  {
    hide NeighbourAt, SideOpen;
    assert Edge(cells, w[|w| - 2], w[|w| - 1]);
  }

  /** Every map: without a budget the search answers Some exactly when the destination can be reached. */
  lemma FindPathComplete(cells: Cells, start: Cell, end: Cell, r: Option<seq<nat>>)
    requires FindsPath(cells, start, end, None, r)
    ensures r.Some? <==> exists w :: IsWalk(cells, w, start, end)
  {
    hide Returns, IsWalk;
    match r
    case Some(path) =>
      FindPathSound(cells, start, end, None, path);
    case None =>
      forall w ensures !IsWalk(cells, w, start, end) {
        if IsWalk(cells, w, start, end) {
          WalkTargetWalkable(cells, start, end, w);
          Complete(Env(cells, start, end, None), w);
        }
      }
  }

  /** Every map: the answer is as short as every straight walk, and Some as soon as one of them fits the budget. */
  lemma FindPathAmongStraight(cells: Cells, start: Cell, end: Cell, maxCost: Option<nat>, r: Option<seq<nat>>,
                              w: seq<Cell>)
    requires FindsPath(cells, start, end, maxCost, r)
    requires IsWalk(cells, w, start, end) && Straight(w, end)
    ensures r.Some? ==> |r.value| <= |w|
    ensures InBudget(maxCost, w) ==> r.Some?
  {
    hide Returns, IsWalk, Straight;
    var env := Env(cells, start, end, maxCost);
    WalkEnds(env, w, end);
    match r
    case Some(path) =>
      if start != end {
        FindPathSound(cells, start, end, maxCost, path);
        Optimal(env, path, w);
      }
    case None =>
      if InBudget(maxCost, w) {
        WalkTargetWalkable(cells, start, end, w);
        BudgetComplete(env, w);
      }
  }

  /** w is a walk with the fewest moves. */
  ghost predicate IsShortest(cells: Cells, w: seq<Cell>, start: Cell, end: Cell) {
    IsWalk(cells, w, start, end) && forall v :: IsWalk(cells, v, start, end) ==> |w| <= |v|
  }

  /** Where one shortest walk is straight, the answer is a shortest walk exactly when the budget admits one. */
  lemma FindPathShortest(cells: Cells, start: Cell, end: Cell, maxCost: Option<nat>, r: Option<seq<nat>>,
                         best: seq<Cell>)
    requires IsShortest(cells, best, start, end) && Straight(best, end)
    requires FindsPath(cells, start, end, maxCost, r)
    ensures r.Some? <==> exists w :: IsWalk(cells, w, start, end) && InBudget(maxCost, w)
    ensures r.Some? ==> |r.value| == |best|
    ensures r.Some? ==> (forall i :: 0 <= i < |r.value| ==> r.value[i] < MAP_CELLS_COUNT)
                        && IsShortest(cells, r.value, start, end)
  {
    hide Returns, IsWalk, Straight;
    FindPathAmongStraight(cells, start, end, maxCost, r, best);
    if r.Some? {
      FindPathSound(cells, start, end, maxCost, r.value);
    }
  }

  /** Consistent maps: the answer is Some exactly when a walk fits the budget, and it has the fewest moves of all. */
  lemma FindPathConsistent(cells: Cells, start: Cell, end: Cell, maxCost: Option<nat>, r: Option<seq<nat>>)
    requires Consistent(cells, end)
    requires FindsPath(cells, start, end, maxCost, r)
    ensures r.Some? <==> exists w :: IsWalk(cells, w, start, end) && InBudget(maxCost, w)
    ensures r.Some? ==> forall w :: IsWalk(cells, w, start, end) ==> |r.value| <= |w|
  {
    hide Returns, IsWalk, Consistent, Straight;
    ConsistentIffStraight(cells, end);
    forall w | IsWalk(cells, w, start, end)
      ensures (r.Some? ==> |r.value| <= |w|) && (InBudget(maxCost, w) ==> r.Some?)
    {
      FindPathAmongStraight(cells, start, end, maxCost, r, w);
    }
    if r.Some? {
      FindPathSound(cells, start, end, maxCost, r.value);
    }
  }

  /** The same for maps without wrapped moves, whatever the destination. */
  lemma FindPathWithoutWraps(cells: Cells, start: Cell, end: Cell, maxCost: Option<nat>, r: Option<seq<nat>>)
    requires NoWrap(cells)
    requires FindsPath(cells, start, end, maxCost, r)
    ensures r.Some? <==> exists w :: IsWalk(cells, w, start, end) && InBudget(maxCost, w)
    ensures r.Some? ==> forall w :: IsWalk(cells, w, start, end) ==> |r.value| <= |w|
  {
    hide Returns, IsWalk, Consistent, NoWrap;
    NoWrapIsConsistent(cells, end);
    FindPathConsistent(cells, start, end, maxCost, r);
  }
}
