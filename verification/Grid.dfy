/** The staggered diamond grid of a map: 560 cells, 40 sub-rows of 14, with (x, y) coordinates. */
module Grid {
  import opened Common

  const MAP_WIDTH := 14
  const MAP_CELLS_COUNT := 560

  type Cell = c: nat | c < MAP_CELLS_COUNT

  datatype Coord = Coord(x: int, y: int)

  datatype CellData = CellData(mov: bool, nonWalkableDuringRp: bool, los: bool) {
    predicate IsWalkable() {
      mov && !nonWalkableDuringRp
    }
  }

  function Abs(n: int): nat {
    if n < 0 then -n else n
  }

  function Max(a: int, b: int): int {
    if a < b then b else a
  }

  /** Division by two as Rust does it: the quotient is truncated toward zero. */
  function TruncHalf(n: int): int {
    if n >= 0 then n / 2 else -(-n / 2)
  }

  /** Closed form of the coordinate table: sub-row c / 14, position c % 14 inside it. */
  function CellCoord(c: Cell): Coord {
    Coord(c % MAP_WIDTH + (c / MAP_WIDTH + 1) / 2, c % MAP_WIDTH - c / MAP_WIDTH / 2)
  }

  /** Only the range of the computed id is tested, so a point outside the diamond can alias a cell. */
  function CoordToCellId(x: int, y: int): Option<Cell> {
    var diff := x - y;
    var id := diff * MAP_WIDTH + y + TruncHalf(diff);
    if 0 <= id < MAP_CELLS_COUNT then Some(id) else None
  }

  predicate InDiamond(x: int, y: int) {
    0 <= x - y <= 39 && 0 <= x + y <= 27
  }

  lemma SubRowCoord(v: nat, b: nat)
    requires v < 40 && b < MAP_WIDTH
    ensures v * MAP_WIDTH + b < MAP_CELLS_COUNT
    ensures CellCoord(v * MAP_WIDTH + b) == Coord((v + 1) / 2 + b, b - v / 2)
  {
    var c := v * MAP_WIDTH + b;
    assert c / MAP_WIDTH == v && c % MAP_WIDTH == b;
  }

  ghost predicate FilledTo(coords: array<Coord>, n: nat)
    reads coords
  {
    coords.Length == MAP_CELLS_COUNT && forall c: Cell :: c < n ==> coords[c] == CellCoord(c)
  }

  /** The table built row by row agrees with the closed form everywhere. */
  method BuildCellCoords() returns (coords: array<Coord>)
    ensures fresh(coords) && coords.Length == MAP_CELLS_COUNT
    ensures forall c: Cell :: coords[c] == CellCoord(c)
  {
    hide CellCoord;
    coords := new Coord[MAP_CELLS_COUNT](_ => Coord(0, 0));
    var cell := 0;
    var startX, startY := 0, 0;
    for row := 0 to 20
      invariant cell == 28 * row && startX == row && startY == -row
      invariant FilledTo(coords, cell)
    {
      for b := 0 to MAP_WIDTH
        invariant cell == 28 * row + b
        invariant FilledTo(coords, cell)
      {
        if cell < MAP_CELLS_COUNT {
          SubRowCoord(2 * row, b);
          coords[cell] := Coord(startX + b, startY + b);
          cell := cell + 1;
        }
      }
      startX := startX + 1;
      for b := 0 to MAP_WIDTH
        invariant cell == 28 * row + MAP_WIDTH + b
        invariant FilledTo(coords, cell)
      {
        if cell < MAP_CELLS_COUNT {
          SubRowCoord(2 * row + 1, b);
          coords[cell] := Coord(startX + b, startY + b);
          cell := cell + 1;
        }
      }
      startY := startY - 1;
    }
  }

  /** The grid points of the table are exactly the integer points of the diamond. */
  lemma CellCoordInDiamond(c: Cell)
    ensures InDiamond(CellCoord(c).x, CellCoord(c).y)
    ensures CellCoord(c).x - CellCoord(c).y == c / MAP_WIDTH
    ensures CellCoord(c).x + CellCoord(c).y == 2 * (c % MAP_WIDTH) + c / MAP_WIDTH % 2
  {
    var v := c / MAP_WIDTH;
    assert (v + 1) / 2 + v / 2 == v;
    assert (v + 1) / 2 - v / 2 == v % 2;
  }

  lemma CoordRoundTrip(c: Cell)
    ensures CoordToCellId(CellCoord(c).x, CellCoord(c).y) == Some(c)
  {
    CellCoordInDiamond(c);
  }

  /** Inside the diamond no id is aliased: the conversion and the table are inverse both ways. */
  lemma DiamondPointIsCell(x: int, y: int)
    requires InDiamond(x, y)
    ensures CoordToCellId(x, y).Some?
    ensures CellCoord(CoordToCellId(x, y).value) == Coord(x, y)
  {
    var v := x - y;
    var b := y + v / 2;
    var id := v * MAP_WIDTH + b;
    assert 0 <= b < 14;
    assert id / MAP_WIDTH == v && id % MAP_WIDTH == b;
    assert (v + 1) / 2 + v / 2 == v;
  }

  lemma CellCoordInjective(a: Cell, b: Cell)
    requires CellCoord(a) == CellCoord(b)
    ensures a == b
  {
    CoordRoundTrip(a);
    CoordRoundTrip(b);
  }

  // Directions 0 to 7: E, SE, S, SW, W, NW, N, NE.

  function DirDx(d: nat): int
    requires d < 8
  {
    if d <= 2 then 1 else if d == 3 || d == 7 then 0 else -1
  }

  function DirDy(d: nat): int
    requires d < 8
  {
    if d == 0 || d >= 6 then 1 else if d == 1 || d == 5 then 0 else -1
  }

  predicate IsDiagonal(d: nat) {
    d % 2 == 1
  }

  /** Chebyshev distance between two cells. */
  function Heuristic(a: Cell, b: Cell): (h: nat) {
    Max(Abs(CellCoord(a).x - CellCoord(b).x), Abs(CellCoord(a).y - CellCoord(b).y))
  }

  /** Manhattan distance between two cells. */
  function Distance(a: Cell, b: Cell): nat {
    Abs(CellCoord(a).x - CellCoord(b).x) + Abs(CellCoord(a).y - CellCoord(b).y)
  }

  /** The cell whose id the step in direction d computes; a cell is not its own neighbour. */
  function NeighbourAt(c: Cell, d: nat): Option<Cell>
    requires d < 8
  {
    var n := CoordToCellId(CellCoord(c).x + DirDx(d), CellCoord(c).y + DirDy(d));
    if n == Some(c) then None else n
  }

  function NeighboursUpTo(c: Cell, k: nat): seq<(Cell, nat)>
    requires k <= 8
  {
    if k == 0 then []
    else
      var before := NeighboursUpTo(c, k - 1);
      match NeighbourAt(c, k - 1)
      case None => before
      case Some(n) => before + [(n, k - 1)]
  }

  /** An entry of the neighbour list is exactly a direction that leads to a cell. */
  lemma {:induction false} NeighboursExact(c: Cell, k: nat, n: Cell, d: nat)
    requires k <= 8
    ensures (n, d) in NeighboursUpTo(c, k) <==> d < k && NeighbourAt(c, d) == Some(n)
  {
    hide CellCoord, CoordToCellId, NeighbourAt;
    if k > 0 {
      NeighboursExact(c, k - 1, n, d);
    }
  }

  method CellNeighbours(c: Cell) returns (result: seq<(Cell, nat)>)
    ensures result == NeighboursUpTo(c, 8)
  {
    hide NeighbourAt, CellCoord, CoordToCellId;
    result := [];
    for dir := 0 to 8
      invariant result == NeighboursUpTo(c, dir)
    {
      match NeighbourAt(c, dir)
      case None =>
      case Some(n) =>
        result := result + [(n, dir)];
    }
  }
}
