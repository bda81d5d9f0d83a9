/** Marks on the battlefield: glyphs, traps, and networks of connected traps. */
module Marks {
  import opened Common
  import opened Grid

  datatype MarkType = Glyph | Trap

  /** Caster and effect identities are opaque numbers. */
  datatype Mark = Mark(id: nat, markType: MarkType, casterId: int, cellId: Cell, zoneCells: seq<Cell>,
          effects: seq<int>,
                       remainingTurns: int, teamOnly: bool, visible: bool, color: int, spellId: int)

  // ---- The network relation ----

  predicate CellsTouch(c1: Cell, c2: Cell) {
    c1 == c2 || Distance(c1, c2) <= 1
  }

  predicate ZonesTouch(a: seq<Cell>, b: seq<Cell>) {
    exists i, j :: 0 <= i < |a| && 0 <= j < |b| && CellsTouch(a[i], b[j])
  }

  /** A trap that mark m passes its trigger on to. */
  predicate LinksTo(m: Mark, other: Mark) {
    other.id != m.id && other.markType == Trap && other.casterId == m.casterId &&
            ZonesTouch(m.zoneCells, other.zoneCells)
  }

  /** The same cell, or one unit apart on one axis. */
  ghost predicate Adjoining(p: Coord, q: Coord) {
    q in {p, Coord(p.x + 1, p.y), Coord(p.x - 1, p.y), Coord(p.x, p.y + 1), Coord(p.x, p.y - 1)}
  }

  /** A trigger is passed on exactly to the other traps of the same caster with a cell adjoining one of the zone. */
  lemma LinkMeans(m: Mark, other: Mark)
    ensures LinksTo(m, other) <==>
            && other.markType.Trap? && other.id != m.id && other.casterId == m.casterId
            && exists c1, c2 :: c1 in m.zoneCells && c2 in other.zoneCells && Adjoining(CellCoord(c1), CellCoord(c2))
  {
    hide CellCoord, CellsTouch;
    forall c1: Cell, c2: Cell ensures CellsTouch(c1, c2) <==> Adjoining(CellCoord(c1), CellCoord(c2)) {
      TouchMeans(c1, c2);
    }
    if ZonesTouch(m.zoneCells, other.zoneCells) {
      var i, j :| 0 <= i < |m.zoneCells| && 0 <= j < |other.zoneCells|
                  && CellsTouch(m.zoneCells[i], other.zoneCells[j]);
      assert Adjoining(CellCoord(m.zoneCells[i]), CellCoord(other.zoneCells[j]));
    }
  }

  lemma TouchMeans(c1: Cell, c2: Cell)
    ensures CellsTouch(c1, c2) <==> Adjoining(CellCoord(c1), CellCoord(c2))
  {
    hide CellCoord;
  }

  ghost predicate UniqueIds(marks: seq<Mark>) {
    forall i, j :: 0 <= i < j < |marks| ==> marks[i].id != marks[j].id
  }

  ghost predicate Linked(marks: seq<Mark>, a: nat, b: nat) {
    exists i, j :: 0 <= i < |marks| && 0 <= j < |marks| && marks[i].id == a && marks[j].id == b &&
            LinksTo(marks[i], marks[j])
  }

  /** path leads from a to b along links. */
  ghost predicate IsChain(marks: seq<Mark>, path: seq<nat>, a: nat, b: nat) {
    && path != [] && path[0] == a && path[|path| - 1] == b
    && forall i :: 0 < i < |path| ==> Linked(marks, path[i - 1], path[i])
  }

  ghost predicate Reaches(marks: seq<Mark>, a: nat, b: nat) {
    exists path :: IsChain(marks, path, a, b)
  }

  lemma ReachesSelf(marks: seq<Mark>, a: nat)
    ensures Reaches(marks, a, a)
  {
    assert IsChain(marks, [a], a, a);
  }

  lemma ReachesStep(marks: seq<Mark>, a: nat, b: nat, c: nat)
    requires Reaches(marks, a, b) && Linked(marks, b, c)
    ensures Reaches(marks, a, c)
  {
    hide Linked;
    var path :| IsChain(marks, path, a, b);
    assert IsChain(marks, path + [c], a, c);
  }

  lemma {:induction false} ChainsJoin(marks: seq<Mark>, a: nat, path: seq<nat>, b: nat, c: nat)
    requires Reaches(marks, a, b) && IsChain(marks, path, b, c)
    ensures Reaches(marks, a, c)
    decreases |path|
  {
    hide Linked;
    if |path| > 1 {
      var shorter := path[..|path| - 1];
      assert IsChain(marks, shorter, b, path[|path| - 2]);
      ChainsJoin(marks, a, shorter, b, path[|path| - 2]);
      assert Linked(marks, path[|path| - 1 - 1], path[|path| - 1]);
      ReachesStep(marks, a, path[|path| - 2], c);
    }
  }

  /** A set of ids that every link stays inside. */
  ghost predicate ClosedUnder(marks: seq<Mark>, ids: set<nat>) {
    forall a, b :: a in ids && Linked(marks, a, b) ==> b in ids
  }

  lemma {:induction false} ChainStaysInside(marks: seq<Mark>, ids: set<nat>, path: seq<nat>, a: nat, b: nat)
    requires ClosedUnder(marks, ids) && a in ids && IsChain(marks, path, a, b)
    ensures b in ids
    decreases |path|
  {
    hide Linked;
    if |path| > 1 {
      var shorter := path[..|path| - 1];
      assert IsChain(marks, shorter, a, path[|path| - 2]);
      ChainStaysInside(marks, ids, shorter, a, path[|path| - 2]);
      assert Linked(marks, path[|path| - 1 - 1], path[|path| - 1]);
    }
  }

  // ---- Between traps the relation is symmetric, so networks partition the traps ----

  ghost predicate IsTrap(marks: seq<Mark>, id: nat) {
    exists i :: 0 <= i < |marks| && marks[i].id == id && marks[i].markType == Trap
  }

  lemma TouchSymmetric(a: Cell, b: Cell)
    ensures CellsTouch(a, b) <==> CellsTouch(b, a)
  {
    hide CellCoord;
  }

  lemma ZonesSymmetric(a: seq<Cell>, b: seq<Cell>)
    ensures ZonesTouch(a, b) ==> ZonesTouch(b, a)
  {
    hide CellsTouch;
    if ZonesTouch(a, b) {
      var i, j :| 0 <= i < |a| && 0 <= j < |b| && CellsTouch(a[i], b[j]);
      TouchSymmetric(a[i], b[j]);
    }
  }

  lemma LinkReverses(marks: seq<Mark>, a: nat, b: nat)
    requires UniqueIds(marks) && IsTrap(marks, a) && Linked(marks, a, b)
    ensures Linked(marks, b, a) && IsTrap(marks, b)
  {
    hide ZonesTouch;
    var i, j :| 0 <= i < |marks| && 0 <= j < |marks| && marks[i].id == a && marks[j].id == b &&
            LinksTo(marks[i], marks[j]);
    var k :| 0 <= k < |marks| && marks[k].id == a && marks[k].markType == Trap;
    assert k == i;
    ZonesSymmetric(marks[i].zoneCells, marks[j].zoneCells);
    assert LinksTo(marks[j], marks[i]);
  }

  lemma {:induction false} ChainReverses(marks: seq<Mark>, path: seq<nat>, a: nat, b: nat)
    requires UniqueIds(marks) && IsTrap(marks, a) && IsChain(marks, path, a, b)
    ensures IsTrap(marks, b) && Reaches(marks, b, a)
    decreases |path|
  {
    hide Linked, IsTrap, UniqueIds;
    if |path| > 1 {
      var shorter, c := path[..|path| - 1], path[|path| - 2];
      assert IsChain(marks, shorter, a, c);
      ChainReverses(marks, shorter, a, c);
      assert Linked(marks, path[|path| - 1 - 1], path[|path| - 1]);
      LinkReverses(marks, c, b);
      ReachesSelf(marks, b);
      ReachesStep(marks, b, b, c);
      var back :| IsChain(marks, back, c, a);
      ChainsJoin(marks, b, back, c, a);
    } else {
      ReachesSelf(marks, b);
    }
  }

  /** Two networks of traps that share a trap are the same network. */
  lemma NetworksPartition(marks: seq<Mark>, a: nat, b: nat, shared: nat, id: nat)
    requires UniqueIds(marks) && IsTrap(marks, a) && IsTrap(marks, b)
    requires Reaches(marks, a, shared) && Reaches(marks, b, shared)
    ensures Reaches(marks, a, id) <==> Reaches(marks, b, id)
  {
    hide UniqueIds, IsTrap;
    NetworkInside(marks, a, b, shared, id);
    NetworkInside(marks, b, a, shared, id);
  }

  lemma NetworkInside(marks: seq<Mark>, a: nat, b: nat, shared: nat, id: nat)
    requires UniqueIds(marks) && IsTrap(marks, a) && IsTrap(marks, b)
    requires Reaches(marks, a, shared) && Reaches(marks, b, shared)
    ensures Reaches(marks, a, id) ==> Reaches(marks, b, id)
  {
    hide UniqueIds, IsTrap, IsChain;
    if Reaches(marks, a, id) {
      var toShared :| IsChain(marks, toShared, a, shared);
      ChainReverses(marks, toShared, a, shared);
      var back :| IsChain(marks, back, shared, a);
      ChainsJoin(marks, b, back, shared, a);
      var onward :| IsChain(marks, onward, a, id);
      ChainsJoin(marks, b, onward, a, id);
    }
  }

  // ---- The manager ----

  function TrapIdsOn(marks: seq<Mark>, cell: Cell): seq<nat> {
    if marks == [] then []
    else
      var first := marks[0];
      (if first.markType == Trap && cell in first.zoneCells then [first.id] else []) + TrapIdsOn(marks[1..], cell)
  }

  function Without(marks: seq<Mark>, ids: set<nat>): seq<Mark> {
    if marks == [] then []
    else (if marks[0].id in ids then [] else [marks[0]]) + Without(marks[1..], ids)
  }

  ghost function IdSet(marks: seq<Mark>): set<nat> {
    set i | 0 <= i < |marks| :: marks[i].id
  }

  ghost predicate NoRepeats(ids: seq<nat>) {
    forall i, j :: 0 <= i < j < |ids| ==> ids[i] != ids[j]
  }

  /** ids lists, once each, exactly the marks that start passes its trigger on to. */
  ghost predicate IsNetwork(marks: seq<Mark>, start: nat, ids: seq<nat>) {
    NoRepeats(ids) && forall id :: id in ids <==> Reaches(marks, start, id)
  }

  function Find(marks: seq<Mark>, id: nat): Option<Mark> {
    if marks == [] then None else if marks[0].id == id then Some(marks[0]) else Find(marks[1..], id)
  }

  lemma {:induction false} FindUnique(marks: seq<Mark>, i: nat)
    requires UniqueIds(marks) && i < |marks|
    ensures Find(marks, marks[i].id) == Some(marks[i])
  {
    if i > 0 {
      assert marks[0].id != marks[i].id;
      FindUnique(marks[1..], i - 1);
    }
  }

  lemma {:induction false} FindSome(marks: seq<Mark>, id: nat)
    ensures Find(marks, id).Some? ==>
              exists i :: 0 <= i < |marks| && marks[i] == Find(marks, id).value && marks[i].id == id
    ensures Find(marks, id).None? ==> id !in IdSet(marks)
  {
    if marks != [] && marks[0].id != id {
      FindSome(marks[1..], id);
      if Find(marks[1..], id).Some? {
        var i :| 0 <= i < |marks[1..]| && marks[1..][i] == Find(marks, id).value && marks[1..][i].id == id;
        assert marks[i + 1] == Find(marks, id).value;
      } else {
        forall k | 0 <= k < |marks| ensures marks[k].id != id {
          if k > 0 {
            assert marks[1..][k - 1].id in IdSet(marks[1..]);
          }
        }
      }
    }
  }
}
