/** Usable moves of a map, the walks they form, and the maps on which the search heuristic is consistent. */
module Walk {
  import opened Common
  import opened Grid

  type Cells = cells: seq<CellData> | |cells| == MAP_CELLS_COUNT
    witness seq(MAP_CELLS_COUNT, _ => CellData(false, false, false))

  /** The cell at offset d exists by id and is walkable; used for the two cells beside a diagonal move. */
  predicate SideOpen(cells: Cells, c: Cell, d: nat)
    requires d < 8
  {
    match CoordToCellId(CellCoord(c).x + DirDx(d), CellCoord(c).y + DirDy(d))
    case None => false
    case Some(n) => cells[n].IsWalkable()
  }

  /** A move to n in direction d is usable: n is walkable and a diagonal does not cut through a wall. */
  predicate Passable(cells: Cells, c: Cell, n: Cell, d: nat)
    requires d < 8
  {
    && cells[n].IsWalkable()
    && (IsDiagonal(d) ==> SideOpen(cells, c, (d + 7) % 8) || SideOpen(cells, c, (d + 1) % 8))
  }

  ghost predicate Edge(cells: Cells, a: Cell, b: Cell) {
    exists d: nat :: d < 8 && NeighbourAt(a, d) == Some(b) && Passable(cells, a, b, d)
  }

  /** w leads from a to b along usable moves; it has |w| - 1 of them. */
  ghost predicate IsWalk(cells: Cells, w: seq<Cell>, a: Cell, b: Cell) {
    && w != []
    && w[0] == a
    && w[|w| - 1] == b
    && forall i :: 0 < i < |w| ==> Edge(cells, w[i - 1], w[i])
  }

  /** No usable move jumps across the border of the diamond through an aliased id. */
  ghost predicate NoWrap(cells: Cells) {
    forall a: Cell, b: Cell, d: nat ::
      d < 8 && NeighbourAt(a, d) == Some(b) && Passable(cells, a, b, d)
      ==> CellCoord(b) == Coord(CellCoord(a).x + DirDx(d), CellCoord(a).y + DirDy(d))
  }

  /** One usable move never lowers the distance estimate to end by more than one. */
  ghost predicate Consistent(cells: Cells, end: Cell) {
    forall a: Cell, b: Cell :: Edge(cells, a, b) ==> Heuristic(a, end) <= 1 + Heuristic(b, end)
  }

  lemma HeuristicStep(a: Cell, b: Cell, end: Cell, d: nat)
    requires d < 8
    requires CellCoord(b) == Coord(CellCoord(a).x + DirDx(d), CellCoord(a).y + DirDy(d))
    ensures Heuristic(a, end) <= 1 + Heuristic(b, end)
  {
    hide CellCoord;
  }

  /** A map without wrapped moves has a consistent heuristic for every destination. */
  lemma NoWrapIsConsistent(cells: Cells, end: Cell)
    requires NoWrap(cells)
    ensures Consistent(cells, end)
  {
    hide CellCoord, NeighbourAt, Passable, Heuristic;
    forall a: Cell, b: Cell | Edge(cells, a, b)
      ensures Heuristic(a, end) <= 1 + Heuristic(b, end)
    {
      var d: nat :| d < 8 && NeighbourAt(a, d) == Some(b) && Passable(cells, a, b, d);
      HeuristicStep(a, b, end, d);
    }
  }

  /** No step along w lowers the distance estimate to end by more than one. */
  ghost predicate Straight(w: seq<Cell>, end: Cell) {
    forall i :: 0 < i < |w| ==> Heuristic(w[i - 1], end) <= 1 + Heuristic(w[i], end)
  }

  /** Consistent maps are those on which every usable walk is straight. */
  lemma ConsistentIffStraight(cells: Cells, end: Cell)
    ensures Consistent(cells, end) <==>
            forall w, a: Cell, b: Cell :: IsWalk(cells, w, a, b) ==> Straight(w, end)
  {
    hide Heuristic, Edge;
    if forall w, a: Cell, b: Cell :: IsWalk(cells, w, a, b) ==> Straight(w, end) {
      forall a: Cell, b: Cell | Edge(cells, a, b) ensures Heuristic(a, end) <= 1 + Heuristic(b, end) {
        var w := [a, b];
        assert IsWalk(cells, w, a, b);
        assert Heuristic(w[1 - 1], end) <= 1 + Heuristic(w[1], end);
      }
    }
  }

  /** Along a straight walk the estimate drops by at most the number of moves. */
  lemma {:induction false} HeuristicAlong(end: Cell, w: seq<Cell>, i: nat)
    requires Straight(w, end) && i < |w|
    ensures Heuristic(w[i], end) <= |w| - 1 - i + Heuristic(w[|w| - 1], end)
    decreases |w| - i
  {
    hide Heuristic;
    if i + 1 < |w| {
      assert Heuristic(w[i + 1 - 1], end) <= 1 + Heuristic(w[i + 1], end);
      HeuristicAlong(end, w, i + 1);
    }
  }

  lemma StraightPrefix(end: Cell, w: seq<Cell>, i: nat)
    requires Straight(w, end) && i <= |w|
    ensures Straight(w[..i], end)
  {
    hide Heuristic;
  }

  lemma WalkPrefix(cells: Cells, w: seq<Cell>, a: Cell, b: Cell, i: nat)
    requires IsWalk(cells, w, a, b) && 0 < i <= |w|
    ensures IsWalk(cells, w[..i], a, w[i - 1])
  {
    hide Edge;
  }
}
