/** Which moves a map allows, in coordinates and cell flags alone. */
module Moves {
  import opened Common
  import opened Grid
  import opened Walk
  import opened Search
  import opened SearchResults
  import opened Pathfinding
  import opened PathfindingResults

  /** A unit step on one axis, the other coordinate kept. */
  predicate OneAxis(p: Coord, q: Coord) {
    || ((q.x == p.x + 1 || q.x == p.x - 1) && q.y == p.y)
    || (q.x == p.x && (q.y == p.y + 1 || q.y == p.y - 1))
  }

  /** A unit step on each axis. */
  predicate BothAxes(p: Coord, q: Coord) {
    (q.x == p.x + 1 || q.x == p.x - 1) && (q.y == p.y + 1 || q.y == p.y - 1)
  }

  /** s and t are the two points one unit beside q, off the axis of the step from p. */
  predicate Beside(p: Coord, q: Coord, s: Coord, t: Coord) {
    if q.y == p.y then s == Coord(q.x, q.y + 1) && t == Coord(q.x, q.y - 1)
    else s == Coord(q.x + 1, q.y) && t == Coord(q.x - 1, q.y)
  }

  predicate Open(cells: Cells, c: Cell) {
    cells[c].mov && !cells[c].nonWalkableDuringRp
  }

  /** Some direction leads exactly where the step goes, and no other one computes the id of the same cell. */
  lemma DirectionOf(a: Cell, b: Cell) returns (d: nat)
    requires OneAxis(CellCoord(a), CellCoord(b)) || BothAxes(CellCoord(a), CellCoord(b))
    ensures a != b && d < 8 && NeighbourAt(a, d) == Some(b)
    ensures CellCoord(b) == Coord(CellCoord(a).x + DirDx(d), CellCoord(a).y + DirDy(d))
    ensures forall e: nat :: e < 8 && NeighbourAt(a, e) == Some(b) ==> e == d
  {
    hide CellCoord, CoordToCellId;
    var p, q := CellCoord(a), CellCoord(b);
    d := if q.x == p.x + 1 then (if q.y == p.y + 1 then 0 else if q.y == p.y then 1 else 2)
         else if q.x == p.x then (if q.y == p.y + 1 then 7 else 3)
         else if q.y == p.y + 1 then 6 else if q.y == p.y then 5 else 4;
    CoordRoundTrip(b);
    forall e: nat | e < 8 && NeighbourAt(a, e) == Some(b) ensures e == d {
      NearIdsDiffer(p.x + DirDx(e), p.y + DirDy(e), q.x, q.y);
    }
  }

  /** Points at most two units apart have different ids. */
  lemma NearIdsDiffer(x: int, y: int, u: int, v: int)
    requires -2 <= x - u <= 2 && -2 <= y - v <= 2
    requires CoordToCellId(x, y).Some? && CoordToCellId(x, y) == CoordToCellId(u, v)
    ensures x == u && y == v
  {
  }

  lemma EdgeIsPassable(cells: Cells, a: Cell, b: Cell, d: nat)
    requires d < 8 && NeighbourAt(a, d) == Some(b)
    requires forall e: nat :: e < 8 && NeighbourAt(a, e) == Some(b) ==> e == d
    ensures Edge(cells, a, b) <==> Passable(cells, a, b, d)
  {
    hide NeighbourAt, Passable;
  }

  /** A step on both axes is allowed exactly when its target is walkable. */
  lemma StraightMove(cells: Cells, a: Cell, b: Cell)
    requires BothAxes(CellCoord(a), CellCoord(b))
    ensures Edge(cells, a, b) <==> Open(cells, b)
  {
    hide CellCoord, NeighbourAt, SideOpen;
    var d := DirectionOf(a, b);
    EdgeIsPassable(cells, a, b, d);
  }

  /** A step on one axis is allowed exactly when its target is walkable and one of the two cells beside it is. */
  lemma DiagonalMove(cells: Cells, a: Cell, b: Cell, s: Cell, t: Cell)
    requires OneAxis(CellCoord(a), CellCoord(b)) && Beside(CellCoord(a), CellCoord(b), CellCoord(s), CellCoord(t))
    ensures Edge(cells, a, b) <==> Open(cells, b) && (Open(cells, s) || Open(cells, t))
  {
    hide CellCoord, NeighbourAt, CoordToCellId;
    var d := DirectionOf(a, b);
    EdgeIsPassable(cells, a, b, d);
    CoordRoundTrip(s);
    CoordRoundTrip(t);
  }

  // ---- Every move, wrapped ones included ----

  /** The id computed for a point belongs to a walkable cell. */
  ghost predicate OpenAt(cells: Cells, p: Coord) {
    exists c: Cell :: CoordToCellId(p.x, p.y) == Some(c) && Open(cells, c)
  }

  ghost predicate OneBesideOpen(cells: Cells, p: Coord, q: Coord) {
    exists s, t :: Beside(p, q, s, t) && (OpenAt(cells, s) || OpenAt(cells, t))
  }

  /** The moves from a to b are the steps to a point whose id is b, wherever b lies. */
  lemma EdgeInCoordinates(cells: Cells, a: Cell, b: Cell)
    ensures Edge(cells, a, b) <==>
            && a != b && Open(cells, b)
            && exists q :: StepTo(cells, CellCoord(a), q) && CoordToCellId(q.x, q.y) == Some(b)
  {
    hide CellCoord, CoordToCellId, StepTo;
    var p := CellCoord(a);
    if Edge(cells, a, b) {
      var d: nat :| d < 8 && NeighbourAt(a, d) == Some(b) && Passable(cells, a, b, d);
      StepOfDirection(cells, a, d);
      assert StepTo(cells, p, Coord(p.x + DirDx(d), p.y + DirDy(d)));
    }
    if a != b && Open(cells, b) && exists q :: StepTo(cells, p, q) && CoordToCellId(q.x, q.y) == Some(b) {
      var q :| StepTo(cells, p, q) && CoordToCellId(q.x, q.y) == Some(b);
      var d := DirectionOfStep(cells, p, q);
      StepOfDirection(cells, a, d);
      assert NeighbourAt(a, d) == Some(b) && Passable(cells, a, b, d);
    }
  }

  /** A unit step on both axes, or on one of them past an open side. */
  ghost predicate StepTo(cells: Cells, p: Coord, q: Coord) {
    BothAxes(p, q) || (OneAxis(p, q) && OneBesideOpen(cells, p, q))
  }

  lemma DirectionOfStep(cells: Cells, p: Coord, q: Coord) returns (d: nat)
    requires StepTo(cells, p, q)
    ensures d < 8 && q == Coord(p.x + DirDx(d), p.y + DirDy(d))
  {
    d := if q.x == p.x + 1 then (if q.y == p.y + 1 then 0 else if q.y == p.y then 1 else 2)
         else if q.x == p.x then (if q.y == p.y + 1 then 7 else 3)
         else if q.y == p.y + 1 then 6 else if q.y == p.y then 5 else 4;
  }

  lemma StepOfDirection(cells: Cells, a: Cell, d: nat)
    requires d < 8
    ensures var p := CellCoord(a);
            StepTo(cells, p, Coord(p.x + DirDx(d), p.y + DirDy(d))) <==>
            (IsDiagonal(d) ==> SideOpen(cells, a, (d + 7) % 8) || SideOpen(cells, a, (d + 1) % 8))
  {
    hide CellCoord, CoordToCellId;
    var p := CellCoord(a);
    var q := Coord(p.x + DirDx(d), p.y + DirDy(d));
    if IsDiagonal(d) {
      var s, t := if q.y == p.y then Coord(q.x, q.y + 1) else Coord(q.x + 1, q.y),
          if q.y == p.y then Coord(q.x, q.y - 1) else Coord(q.x - 1, q.y);
      assert Beside(p, q, s, t);
      SideOpenAt(cells, a, (d + 7) % 8);
      SideOpenAt(cells, a, (d + 1) % 8);
    }
  }

  lemma SideOpenAt(cells: Cells, a: Cell, d: nat)
    requires d < 8
    ensures SideOpen(cells, a, d) <==> OpenAt(cells, Coord(CellCoord(a).x + DirDx(d), CellCoord(a).y + DirDy(d)))
  {
    hide CellCoord, CoordToCellId;
  }

  /** Outside the diamond an id runs on into the neighbouring sub-rows: position b of sub-row v is position b mod 14 of
      the sub-row b div 14 further on. Above the first sub-row ids count back from it. */
  lemma AliasedCell(x: int, y: int, c: Cell)
    ensures var v := x - y;
            var b := y + v / 2;
            v >= 0 ==>
              (CoordToCellId(x, y) == Some(c) <==> c / MAP_WIDTH == v + b / MAP_WIDTH && c % MAP_WIDTH == b % MAP_WIDTH)
    ensures x < y ==> (CoordToCellId(x, y) == Some(c) <==> c == y - 14 * (y - x) - (y - x) / 2)
  {
    var v := x - y;
    if v >= 0 {
      var b := y + v / 2;
      assert v * MAP_WIDTH + b == (v + b / MAP_WIDTH) * MAP_WIDTH + b % MAP_WIDTH;
    }
  }

  // ---- What one movement point buys ----

  /** With a budget of one move the search finds exactly the neighbours it may step to. */
  lemma OneMove(cells: Cells, a: Cell, b: Cell, r: Option<seq<nat>>)
    requires a != b && FindsPath(cells, a, b, Some(1), r)
    requires Heuristic(a, b) <= 1
    ensures r.Some? <==> Edge(cells, a, b)
    ensures r.Some? ==> r.value == [a, b]
  {
    hide Edge, Returns, Heuristic;
    if r.Some? {
      FindPathSound(cells, a, b, Some(1), r.value);
      assert |r.value| == 2;
    }
    if Edge(cells, a, b) {
      var w: seq<Cell> := [a, b];
      assert IsWalk(cells, w, a, b);
      SelfEstimate(b);
      FindPathAmongStraight(cells, a, b, Some(1), r, w);
    }
  }

  lemma SelfEstimate(b: Cell)
    ensures Heuristic(b, b) == 0
  {
    hide CellCoord;
  }

  /** find_path over a step on both axes. */
  lemma OneStraightMove(cells: Cells, a: Cell, b: Cell, r: Option<seq<nat>>)
    requires BothAxes(CellCoord(a), CellCoord(b)) && FindsPath(cells, a, b, Some(1), r)
    ensures r.Some? <==> Open(cells, b)
    ensures r.Some? ==> r.value == [a, b]
  {
    hide CellCoord, Edge, Returns;
    StraightMove(cells, a, b);
    OneMove(cells, a, b, r);
  }

  /** find_path over a step on one axis: a wall cut on both sides stops it, a wall on one side does not. */
  lemma OneDiagonalMove(cells: Cells, a: Cell, b: Cell, s: Cell, t: Cell, r: Option<seq<nat>>)
    requires OneAxis(CellCoord(a), CellCoord(b)) && Beside(CellCoord(a), CellCoord(b), CellCoord(s), CellCoord(t))
    requires FindsPath(cells, a, b, Some(1), r)
    ensures r.Some? <==> Open(cells, b) && (Open(cells, s) || Open(cells, t))
    ensures r.Some? ==> r.value == [a, b]
  {
    hide CellCoord, Edge, Returns;
    DiagonalMove(cells, a, b, s, t);
    OneMove(cells, a, b, r);
  }
}
