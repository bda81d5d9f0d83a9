/** Line of sight: the incremental line walk against a closed form of the rounded segment. */
module LineOfSight {
  import opened Common
  import opened Grid
  import opened Walk

  /** n / d rounded to the nearest integer, halves down. */
  function RoundHalfDown(n: nat, d: nat): nat
    requires d > 0
  {
    (2 * n + d - 1) / (2 * d)
  }

  /** Steps taken on an axis of length len after k of the n moves of the line. */
  function AxisSteps(len: nat, n: nat, k: nat): nat
    requires len <= n
  {
    if len == n then k else RoundHalfDown(k * len, n)
  }

  function Sign(from: int, to: int): int {
    if from < to then 1 else -1
  }

  function LineLength(a: Coord, b: Coord): nat {
    Max(Abs(b.x - a.x), Abs(b.y - a.y))
  }

  /** The k-th point of the line from a to b: one axis advances every move, the other is the rounded segment. */
  function LinePoint(a: Coord, b: Coord, k: nat): Coord {
    var n := LineLength(a, b);
    Coord(a.x + Sign(a.x, b.x) * AxisSteps(Abs(b.x - a.x), n, k),
          a.y + Sign(a.y, b.y) * AxisSteps(Abs(b.y - a.y), n, k))
  }

  /** Rounding is pinned down by its error: less than half a step above, at most half a step below. */
  lemma RoundingUnique(n: nat, d: int, r: nat)
    requires d > 0 && -d <= 2 * (r * d - n) < d
    ensures r == RoundHalfDown(n, d)
  {
    var q := RoundHalfDown(n, d);
    DivBounds(2 * n + d - 1, 2 * d);
    assert q * (2 * d) == 2 * (q * d) by { Assoc(q, d); }
    if r > q {
      MulMono(q + 1, r, d);
      Distribute(q, d);
    } else if r < q {
      MulMono(r + 1, q, d);
      Distribute(r, d);
    }
  }

  lemma Assoc(q: int, d: int)
    ensures q * (2 * d) == 2 * (q * d)
  {
  }

  lemma DivBounds(a: nat, m: nat)
    requires m > 0
    ensures a / m * m <= a < a / m * m + m
  {
  }

  lemma Distribute(q: int, d: int)
    ensures (q + 1) * d == q * d + d
  {
  }

  lemma RoundingError(n: nat, d: int)
    requires d > 0
    ensures -d <= 2 * (RoundHalfDown(n, d) * d - n) < d
  {
    var q := RoundHalfDown(n, d);
    DivBounds(2 * n + d - 1, 2 * d);
    Assoc(q, d);
  }

  // ---- The rounded segment stays beside the true one, hence inside the diamond ----

  /** After k of n moves one coordinate is off the true segment by at most half a step, an advancing one not at all. */
  lemma AxisError(from: int, to: int, n: nat, k: nat)
    requires Abs(to - from) <= n && k <= n && n > 0
    ensures var c := from + Sign(from, to) * AxisSteps(Abs(to - from), n, k);
            var e := n * c - ((n - k) * from + k * to);
            && -(n as int) <= 2 * e <= n
            && (Abs(to - from) == n ==> e == 0)
  {
    hide RoundHalfDown;
    var len := Abs(to - from);
    var steps := AxisSteps(len, n, k);
    var sign := Sign(from, to);
    Signed(n, k, from, to, len, steps, sign);
    if len != n {
      RoundingError(k * len, n);
    }
  }

  lemma Signed(n: int, k: int, from: int, to: int, len: int, steps: int, sign: int)
    requires to == from + sign * len && (sign == 1 || sign == -1 || (sign == 0 && len == 0))
    ensures n * (from + sign * steps) - ((n - k) * from + k * to) == sign * (steps * n - k * len)
  {
    assert k * to == k * from + sign * (k * len);
    assert n * (from + sign * steps) == n * from + sign * (steps * n);
    ScaleSum(from, n, k);
  }

  lemma ScaleSum(n: int, x: int, y: int)
    ensures n * (x + y) == n * x + n * y && n * (x - y) == n * x - n * y
  {
  }

  lemma Weighted(n: int, k: int, w0: int, w1: int, hi: int)
    requires 0 <= k <= n && 0 <= w0 <= hi && 0 <= w1 <= hi
    ensures 0 <= (n - k) * w0 + k * w1 <= n * hi
  {
    MulMono(0, w0, n - k);
    MulMono(0, w1, k);
    MulMono(w0, hi, n - k);
    MulMono(w1, hi, k);
    ScaleSum(hi, n - k, k);
  }

  /** A rounded point lies within the bounds that its segment's ends respect. */
  lemma Between(n: int, mid: int, w: int, e: int, hi: int)
    requires n > 0 && 0 <= mid <= n * hi
    requires n * w == mid + e && -n <= 2 * e <= n
    ensures 0 <= w <= hi
  {
    if w < 0 {
      MulMono(w, -1, n);
    } else if w > hi {
      MulMono(hi + 1, w, n);
      Distribute(hi, n);
    }
  }

  lemma LineStart(a: Coord, b: Coord)
    ensures LinePoint(a, b, 0) == a
  {
  }

  /** The line between two points of the diamond never leaves it. */
  lemma LineInDiamond(a: Coord, b: Coord, k: nat)
    requires InDiamond(a.x, a.y) && InDiamond(b.x, b.y) && k <= LineLength(a, b)
    ensures InDiamond(LinePoint(a, b, k).x, LinePoint(a, b, k).y)
  {
    hide AxisSteps;
    var n := LineLength(a, b);
    var c := LinePoint(a, b, k);
    if n == 0 {
      LineStart(a, b);
    } else {
      AxisError(a.x, b.x, n, k);
      AxisError(a.y, b.y, n, k);
      var ex := n * c.x - ((n - k) * a.x + k * b.x);
      var ey := n * c.y - ((n - k) * a.y + k * b.y);
      Combine(n, k, a, b, c, ex, ey);
    }
  }

  lemma Combine(n: int, k: int, a: Coord, b: Coord, c: Coord, ex: int, ey: int)
    requires 0 <= k <= n && n > 0 && InDiamond(a.x, a.y) && InDiamond(b.x, b.y)
    requires n * c.x == (n - k) * a.x + k * b.x + ex && n * c.y == (n - k) * a.y + k * b.y + ey
    requires -n <= 2 * ex <= n && -n <= 2 * ey <= n && (ex == 0 || ey == 0)
    ensures InDiamond(c.x, c.y)
  {
    ScaleSum(n, c.x, c.y);
    ScaleSum(n - k, a.x, a.y);
    ScaleSum(k, b.x, b.y);
    Weighted(n, k, a.x - a.y, b.x - b.y, 39);
    Between(n, (n - k) * (a.x - a.y) + k * (b.x - b.y), c.x - c.y, ex - ey, 39);
    Weighted(n, k, a.x + a.y, b.x + b.y, 27);
    Between(n, (n - k) * (a.x + a.y) + k * (b.x + b.y), c.x + c.y, ex + ey, 27);
  }

  /** Every point of the line is the coordinate of a cell, and the conversion finds that cell. */
  lemma LineOnCells(from: Cell, to: Cell, k: nat)
    requires k <= LineLength(CellCoord(from), CellCoord(to))
    ensures var p := LinePoint(CellCoord(from), CellCoord(to), k);
            CoordToCellId(p.x, p.y).Some? && CellCoord(CoordToCellId(p.x, p.y).value) == p
  {
    hide LinePoint, CoordToCellId, CellCoord, LineLength;
    CellCoordInDiamond(from);
    CellCoordInDiamond(to);
    LineInDiamond(CellCoord(from), CellCoord(to), k);
    var p := LinePoint(CellCoord(from), CellCoord(to), k);
    DiamondPointIsCell(p.x, p.y);
  }

  // ---- The incremental walk ----

  /** One move of the walk, on the axis that advances every time (length p) and the other one (length q, r steps so
      far). */
  lemma MinorStep(p: int, q: int, k: int, r: int)
    requires 0 <= q <= p && 0 < p && 0 <= k && 0 <= r
    requires -p <= 2 * (r * p - k * q) < p
    ensures var e := r * p - k * q;
            && 2 * e + 2 * p - q > 0
            && (2 * e < 2 * q - p ==> -p <= 2 * ((r + 1) * p - (k + 1) * q) < p)
            && (2 * e >= 2 * q - p ==> -p <= 2 * (r * p - (k + 1) * q) < p)
  {
    Distribute(r, p);
    Distribute(k, q);
    if p == q {
      SameSteps(p, k, r);
    }
  }

  /** On a diagonal both axes have made the same number of steps. */
  lemma SameSteps(p: int, k: int, r: int)
    requires 0 < p && -p <= 2 * (r * p - k * p) < p
    ensures r * p - k * p == 0 && r == k
  {
    ScaleSum(p, r, k);
    if r - k >= 1 {
      MulMono(1, r - k, p);
    } else if r - k <= -1 {
      MulMono(r - k, -1, p);
    }
  }

  /** a and b steps on the two axes are those of the line after k moves. */
  ghost predicate OnLine(dx: int, dy: int, k: int, a: int, b: int) {
    && 0 <= a && 0 <= b && 0 <= k
    && (dx >= dy ==> a == k && -dx <= 2 * (b * dx - k * dy) < dx)
    && (dx < dy ==> b == k && -dy <= 2 * (a * dy - k * dx) < dy)
  }

  lemma OnLineSteps(dx: nat, dy: nat, k: nat, a: nat, b: nat)
    requires OnLine(dx, dy, k, a, b)
    ensures a == AxisSteps(dx, Max(dx, dy), k) && b == AxisSteps(dy, Max(dx, dy), k)
  {
    if dx > dy {
      RoundingUnique(k * dy, dx, b);
    } else if dx < dy {
      RoundingUnique(k * dx, dy, a);
    } else {
      SameSteps(dx, k, b);
    }
  }

  /** One turn of the loop makes exactly one move of the line. */
  lemma Advance(dx: nat, dy: nat, k: nat, a: nat, b: nat, err: int)
    requires OnLine(dx, dy, k, a, b) && err == dx - dy + b * dx - a * dy
    ensures var a' := if 2 * err > -(dy as int) then a + 1 else a;
            var b' := if 2 * err < dx then b + 1 else b;
            OnLine(dx, dy, k + 1, a', b')
  {
    if dx >= dy {
      MinorStep(dx, dy, k, b);
    } else {
      MinorStep(dy, dx, k, a);
    }
  }

  /** The loop's variables after k turns, a and b of which moved x and y. */
  ghost predicate Walking(c0: Coord, c1: Coord, k: nat, a: nat, b: nat, x: int, y: int, err: int) {
    var dx, dy := Abs(c1.x - c0.x), Abs(c1.y - c0.y);
    && x == c0.x + Sign(c0.x, c1.x) * a
    && y == c0.y + Sign(c0.y, c1.y) * b
    && err == dx - dy + b * dx - a * dy
    && (if dx == 0 && dy == 0 then k == 0 && a == 0 && b == 0 else OnLine(dx, dy, k, a, b))
  }

  lemma WalkingStarts(c0: Coord, c1: Coord)
    ensures Walking(c0, c1, 0, 0, 0, c0.x, c0.y, Abs(c1.x - c0.x) - Abs(c1.y - c0.y))
  {
  }

  lemma WalkingPoint(c0: Coord, c1: Coord, k: nat, a: nat, b: nat, x: int, y: int, err: int)
    requires Walking(c0, c1, k, a, b, x, y, err)
    ensures Coord(x, y) == LinePoint(c0, c1, k)
  {
    hide AxisSteps, OnLine;
    var dx, dy := Abs(c1.x - c0.x), Abs(c1.y - c0.y);
    if dx == 0 && dy == 0 {
      LineStart(c0, c1);
    } else {
      OnLineSteps(dx, dy, k, a, b);
    }
  }

  lemma WalkingMoves(c0: Coord, c1: Coord, k: nat, a: nat, b: nat, x: int, y: int, err: int)
    requires Walking(c0, c1, k, a, b, x, y, err) && c0 != c1
    ensures var dx, dy := Abs(c1.x - c0.x), Abs(c1.y - c0.y);
            var moveX, moveY := 2 * err > -(dy as int), 2 * err < dx;
            Walking(c0, c1, k + 1, if moveX then a + 1 else a, if moveY then b + 1 else b,
                    if moveX then x + Sign(c0.x, c1.x) else x, if moveY then y + Sign(c0.y, c1.y) else y,
                    err - (if moveX then dy else 0) + (if moveY then dx else 0))
  {
    hide OnLine;
    var dx, dy := Abs(c1.x - c0.x), Abs(c1.y - c0.y);
    Advance(dx, dy, k, a, b, err);
    Distribute(a, dy);
    Distribute(b, dx);
  }

  /** The line meets its ends only after 0 and after all of its moves. */
  lemma LineMeetsEnds(a: Coord, b: Coord, k: nat)
    requires k <= LineLength(a, b)
    ensures LinePoint(a, b, k) == b <==> k == LineLength(a, b)
    ensures LinePoint(a, b, k) == a <==> k == 0
    ensures a == b <==> LineLength(a, b) == 0
  {
    var n := LineLength(a, b);
    LineStart(a, b);
    if k == n && n > 0 {
      if Abs(b.x - a.x) < n { RoundAll(n, Abs(b.x - a.x)); }
      if Abs(b.y - a.y) < n { RoundAll(n, Abs(b.y - a.y)); }
    }
  }

  lemma RoundAll(n: nat, len: nat)
    requires n > 0
    ensures RoundHalfDown(n * len, n) == len
  {
    RoundingUnique(n * len, n, len);
  }

  function LineCell(from: Cell, to: Cell, k: nat): Cell
    requires k <= LineLength(CellCoord(from), CellCoord(to))
  {
    LineOnCells(from, to, k);
    var p := LinePoint(CellCoord(from), CellCoord(to), k);
    CoordToCellId(p.x, p.y).value
  }

  /** Every cell strictly between the two ends of the line lets sight through. */
  ghost predicate Clear(cells: Cells, from: Cell, to: Cell, k: nat)
    requires k <= LineLength(CellCoord(from), CellCoord(to))
  {
    forall i: nat :: 0 < i < k ==> cells[LineCell(from, to, i)].los
  }

  method HasLineOfSight(cells: Cells, from: Cell, to: Cell) returns (clear: bool)
    ensures clear <==> Clear(cells, from, to, LineLength(CellCoord(from), CellCoord(to)))
  {
    hide CellCoord, CoordToCellId, LinePoint, LineLength, Walking;
    var c0, c1 := CellCoord(from), CellCoord(to);
    ghost var n := LineLength(c0, c1);
    var dx: int, dy: int := Abs(c1.x - c0.x), Abs(c1.y - c0.y);
    var sx, sy := Sign(c0.x, c1.x), Sign(c0.y, c1.y);
    var err := dx - dy;
    var x, y := c0.x, c0.y;
    ghost var k: nat, a: nat, b: nat := 0, 0, 0;
    WalkingStarts(c0, c1);
    CoordRoundTrip(from);
    while true
      invariant k <= n && Walking(c0, c1, k, a, b, x, y, err) && Clear(cells, from, to, k)
      decreases n - k
    {
      WalkingPoint(c0, c1, k, a, b, x, y, err);
      LineMeetsEnds(c0, c1, k);
      if x == c1.x && y == c1.y {
        return true;
      }
      LineOnCells(from, to, k);
      assert LinePoint(c0, c1, k).x == x && LinePoint(c0, c1, k).y == y;
      match CoordToCellId(x, y) {
        case Some(cell) =>
          if cell != from && cell != to {
            if !cells[cell].los {
              assert cell == LineCell(from, to, k);
              return false;
            }
          }
        case None =>
          return false;
      }
      WalkingMoves(c0, c1, k, a, b, x, y, err);
      var e2 := 2 * err;
      if e2 > -dy {
        err := err - dy;
        x := x + sx;
        a := a + 1;
      }
      if e2 < dx {
        err := err + dx;
        y := y + sy;
        b := b + 1;
      }
      k := k + 1;
    }
  }
}
