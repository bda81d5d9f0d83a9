/** The mark manager of a fight and the state part of triggering traps. */
module MarkManager {
  import opened Common
  import opened Grid
  import opened Marks

  method CheckZones(a: seq<Cell>, b: seq<Cell>) returns (touch: bool)
    ensures touch <==> ZonesTouch(a, b)
  {
    hide CellsTouch;
    for i := 0 to |a|
      invariant forall k, l :: 0 <= k < i && 0 <= l < |b| ==> !CellsTouch(a[k], b[l])
    {
      for j := 0 to |b|
        invariant forall l :: 0 <= l < j ==> !CellsTouch(a[i], b[l])
      {
        if CellsTouch(a[i], b[j]) {
          return true;
        }
      }
    }
    return false;
  }

  /** Ids still to visit and ids visited cover everything reached from the visited ones. */
  ghost predicate Searching(marks: seq<Mark>, start: nat, visited: set<nat>, queue: seq<nat>, result: seq<nat>) {
    && NoRepeats(result)
    && (forall id :: id in result <==> id in visited)
    && (forall id :: id in visited || id in queue ==> Reaches(marks, start, id) && id in IdSet(marks) + {start})
    && (forall a, b :: a in visited && Marks.Linked(marks, a, b) ==> b in visited || b in queue)
    && (start in visited || start in queue)
  }

  lemma SearchDone(marks: seq<Mark>, start: nat, visited: set<nat>, result: seq<nat>)
    requires Searching(marks, start, visited, [], result)
    ensures IsNetwork(marks, start, result)
  {
    hide Marks.Linked, IsChain;
    assert ClosedUnder(marks, visited);
    forall id | Reaches(marks, start, id) ensures id in result {
      var path :| IsChain(marks, path, start, id);
      ChainStaysInside(marks, visited, path, start, id);
    }
  }

  /** An id seen before is dropped from the stack. */
  lemma SearchSkips(marks: seq<Mark>, start: nat, visited: set<nat>, queue: seq<nat>, result: seq<nat>)
    requires Searching(marks, start, visited, queue, result) && queue != [] && queue[|queue| - 1] in visited
    ensures Searching(marks, start, visited, queue[..|queue| - 1], result)
  {
    hide Marks.Linked, Reaches;
    var id, rest := queue[|queue| - 1], queue[..|queue| - 1];
    assert forall x :: x in queue <==> x in rest || x == id;
  }

  /** A new id is visited and its unvisited links are stacked. */
  lemma SearchVisits(marks: seq<Mark>, start: nat, visited: set<nat>, queue: seq<nat>, result: seq<nat>,
                     found: seq<nat>)
    requires Searching(marks, start, visited, queue, result) && queue != [] && queue[|queue| - 1] !in visited
    requires var id := queue[|queue| - 1];
             forall b :: b in found <==> Marks.Linked(marks, id, b) && b !in visited + {id}
    ensures Searching(marks, start, visited + {queue[|queue| - 1]}, queue[..|queue| - 1] + found,
            result + [queue[|queue| - 1]])
  {
    hide Marks.Linked, Reaches;
    var id, rest := queue[|queue| - 1], queue[..|queue| - 1];
    assert forall x :: x in queue <==> x in rest || x == id;
    forall b | b in found ensures Reaches(marks, start, b) && b in IdSet(marks) + {start} {
      ReachesStep(marks, start, id, b);
      LinkedHasId(marks, id, b);
    }
  }

  lemma LinkedHasId(marks: seq<Mark>, a: nat, b: nat)
    requires Marks.Linked(marks, a, b)
    ensures a in IdSet(marks) && b in IdSet(marks)
  {
  }

  lemma FiniteIds(marks: seq<Mark>, start: nat, visited: set<nat>)
    requires visited <= IdSet(marks) + {start}
    ensures |visited| <= |IdSet(marks) + {start}|
  {
    SubsetSize(visited, IdSet(marks) + {start});
  }

  lemma WithoutStep(marks: seq<Mark>, i: nat, id: nat)
    requires i < |marks|
    ensures Without(marks[i..], {id}) ==
            (if marks[i].id == id then [] else [marks[i]]) + Without(marks[i + 1..], {id})
  {
    assert marks[i..][1..] == marks[i + 1..];
  }

  lemma WithoutEnd(marks: seq<Mark>, id: nat)
    ensures Without(marks[|marks|..], {id}) == []
  {
  }

  class MarkManager {
    var marks: seq<Mark>

    constructor ()
      ensures marks == []
    {
      marks := [];
    }

    ghost predicate Valid()
      reads this
    {
      UniqueIds(marks)
    }

    /** The id comes from a global counter that never repeats a value. */
    method PlaceMark(id: nat, markType: MarkType, casterId: int, cellId: Cell, zoneCells: seq<Cell>, effects: seq<int>,
                     duration: int, spellId: int)
      requires Valid() && id !in IdSet(marks)
      modifies this
      ensures Valid()
      ensures marks ==
              old(marks) + [Mark(id, markType, casterId, cellId, zoneCells, effects, duration, markType == Trap,
                                          markType == Glyph, if markType == Glyph then 0xFF0000 else 0x00FF00, spellId)]
    {
      var color := match markType case Glyph => 0xFF0000 case Trap => 0x00FF00;
      ghost var before := marks;
      forall i | 0 <= i < |before| ensures before[i].id != id {
        assert before[i].id in IdSet(before);
      }
      marks := marks + [Mark(id, markType, casterId, cellId, zoneCells, effects, duration, markType == Trap,
                             markType == Glyph, color, spellId)];
    }

    method TrapsOnCell(cell: Cell) returns (ids: seq<nat>)
      ensures ids == TrapIdsOn(marks, cell)
    {
      ids := [];
      for i := 0 to |marks|
        invariant ids + TrapIdsOn(marks[i..], cell) == TrapIdsOn(marks, cell)
      {
        assert marks[i..][1..] == marks[i + 1..];
        if marks[i].markType == Trap && cell in marks[i].zoneCells {
          ids := ids + [marks[i].id];
        }
      }
    }

    method FindMark(id: nat) returns (r: Option<Mark>)
      ensures r == Find(marks, id)
    {
      for i := 0 to |marks|
        invariant Find(marks, id) == Find(marks[i..], id)
      {
        assert marks[i..][1..] == marks[i + 1..];
        if marks[i].id == id {
          return Some(marks[i]);
        }
      }
      return None;
    }

    /** The ids of traps that mark links to and that have not been visited. */
    method UnvisitedLinks(mark: Mark, visited: set<nat>) returns (ids: seq<nat>)
      requires Valid() && Find(marks, mark.id) == Some(mark)
      ensures forall b :: b in ids <==> Marks.Linked(marks, mark.id, b) && b !in visited
    {
      hide ZonesTouch, IsChain;
      ids := [];
      for j := 0 to |marks|
        invariant forall b :: b in ids <==>
                  exists k :: 0 <= k < j && marks[k].id == b && LinksTo(mark, marks[k]) && b !in visited
      {
        var other := marks[j];
        if other.id != mark.id && other.markType == Trap && other.casterId == mark.casterId && other.id !in visited {
          var connected := CheckZones(mark.zoneCells, other.zoneCells);
          if connected {
            ids := ids + [other.id];
          }
        }
      }
      forall b ensures b in ids <==> Marks.Linked(marks, mark.id, b) && b !in visited {
        LinksOfMark(marks, mark, b);
      }
    }

    /** All marks that a trigger of the given mark reaches, found with a stack. */
    method ConnectedTraps(start: nat) returns (result: seq<nat>)
      requires Valid()
      ensures IsNetwork(marks, start, result)
    {
      hide Searching, IsNetwork;
      var visited: set<nat> := {};
      var queue: seq<nat> := [start];
      result := [];
      SearchStarts(marks, start);
      while queue != []
        invariant Searching(marks, start, visited, queue, result)
        decreases |IdSet(marks) + {start}| - |visited|, |queue|
      {
        var markId := queue[|queue| - 1];
        var rest := queue[..|queue| - 1];
        VisitedInside(marks, start, visited, queue, result);
        if markId in visited {
          SearchSkips(marks, start, visited, queue, result);
          queue := rest;
          continue;
        }
        ghost var before := visited;
        visited := visited + {markId};
        FiniteIds(marks, start, visited);
        var mark := FindMark(markId);
        FindSome(marks, markId);
        var found: seq<nat> := [];
        if mark.Some? {
          found := UnvisitedLinks(mark.value, visited);
        } else {
          NoLinksFromMissing(marks, markId);
        }
        SearchVisits(marks, start, before, queue, result, found);
        result := result + [markId];
        queue := rest + found;
      }
      SearchDone(marks, start, visited, result);
    }

    method RemoveMark(id: nat)
      requires Valid()
      modifies this
      ensures Valid() && marks == Without(old(marks), {id})
    {
      hide Without, UniqueIds;
      var kept: seq<Mark> := [];
      assert marks[0..] == marks;
      for i := 0 to |marks|
        invariant marks == old(marks)
        invariant kept + Without(marks[i..], {id}) == Without(marks, {id})
      {
        WithoutStep(marks, i, id);
        if marks[i].id != id {
          kept := kept + [marks[i]];
        }
      }
      WithoutKeepsUnique(marks, {id});
      WithoutEnd(marks, id);
      assert kept == Without(marks, {id});
      marks := kept;
    }

    /** Counts every mark down; those on their last turn are removed and reported. */
    method Tick() returns (expired: seq<nat>)
      requires Valid()
      modifies this
      ensures Valid()
      ensures expired == ExpiredIds(old(marks)) && marks == Aged(old(marks))
    {
      hide ExpiredIds, Aged, UniqueIds;
      expired := [];
      var kept: seq<Mark> := [];
      for i := 0 to |marks|
        invariant marks == old(marks)
        invariant expired + ExpiredIds(marks[i..]) == ExpiredIds(marks)
        invariant kept + Aged(marks[i..]) == Aged(marks)
      {
        TickStep(marks, i, expired, kept);
        if marks[i].remainingTurns <= 1 {
          expired := expired + [marks[i].id];
        } else {
          kept := kept + [marks[i].(remainingTurns := marks[i].remainingTurns - 1)];
        }
      }
      NothingLeft();
      assert marks[|marks|..] == [] && expired + [] == expired && kept + [] == kept;
      AgedKeepsUnique(marks);
      marks := kept;
    }
  }

  function ExpiredIds(marks: seq<Mark>): seq<nat> {
    if marks == [] then []
    else (if marks[0].remainingTurns <= 1 then [marks[0].id] else []) + ExpiredIds(marks[1..])
  }

  function Aged(marks: seq<Mark>): seq<Mark> {
    if marks == [] then []
    else
      var m := marks[0];
      (if m.remainingTurns <= 1 then [] else [m.(remainingTurns := m.remainingTurns - 1)]) + Aged(marks[1..])
  }

  lemma NothingLeft()
    ensures ExpiredIds([]) == [] && Aged([]) == []
  {
  }

  /** One mark moves from what is to come to what is done. */
  lemma TickStep(marks: seq<Mark>, i: nat, expired: seq<nat>, kept: seq<Mark>)
    requires i < |marks|
    ensures var m := marks[i];
            if m.remainingTurns <= 1 then
              && expired + ExpiredIds(marks[i..]) == expired + [m.id] + ExpiredIds(marks[i + 1..])
              && kept + Aged(marks[i..]) == kept + Aged(marks[i + 1..])
            else
              && expired + ExpiredIds(marks[i..]) == expired + ExpiredIds(marks[i + 1..])
              && kept + Aged(marks[i..]) == kept + [m.(remainingTurns := m.remainingTurns - 1)] + Aged(marks[i + 1..])
  {
    assert marks[i..][1..] == marks[i + 1..];
  }

  lemma LinksOfMark(marks: seq<Mark>, mark: Mark, b: nat)
    requires UniqueIds(marks) && Find(marks, mark.id) == Some(mark)
    ensures Marks.Linked(marks, mark.id, b) <==>
            exists k :: 0 <= k < |marks| && marks[k].id == b && LinksTo(mark, marks[k])
  {
    hide ZonesTouch;
    FindSome(marks, mark.id);
    if Marks.Linked(marks, mark.id, b) {
      var i, j :| 0 <= i < |marks| && 0 <= j < |marks| && marks[i].id == mark.id && marks[j].id == b &&
              LinksTo(marks[i], marks[j]);
      FindUnique(marks, i);
    }
  }

  lemma NoLinksFromMissing(marks: seq<Mark>, id: nat)
    requires id !in IdSet(marks)
    ensures forall b :: !Marks.Linked(marks, id, b)
  {
    forall b ensures !Marks.Linked(marks, id, b) {
      if Marks.Linked(marks, id, b) {
        LinkedHasId(marks, id, b);
      }
    }
  }

  lemma SearchStarts(marks: seq<Mark>, start: nat)
    ensures Searching(marks, start, {}, [start], [])
  {
    ReachesSelf(marks, start);
  }

  lemma VisitedInside(marks: seq<Mark>, start: nat, visited: set<nat>, queue: seq<nat>, result: seq<nat>)
    requires Searching(marks, start, visited, queue, result) && queue != []
    ensures visited <= IdSet(marks) + {start} && queue[|queue| - 1] in IdSet(marks) + {start}
  {
    assert queue[|queue| - 1] in queue;
  }

  lemma {:induction false} WithoutExact(marks: seq<Mark>, ids: set<nat>, m: Mark)
    ensures m in Without(marks, ids) <==> m in marks && m.id !in ids
  {
    if marks != [] {
      WithoutExact(marks[1..], ids, m);
      assert marks == [marks[0]] + marks[1..];
    }
  }

  lemma {:induction false} WithoutKeepsUnique(marks: seq<Mark>, ids: set<nat>)
    requires UniqueIds(marks)
    ensures UniqueIds(Without(marks, ids))
  {
    if marks != [] {
      WithoutKeepsUnique(marks[1..], ids);
      var rest := Without(marks[1..], ids);
      forall j | 0 <= j < |rest| ensures rest[j].id != marks[0].id {
        WithoutExact(marks[1..], ids, rest[j]);
        var k :| 0 <= k < |marks[1..]| && marks[1..][k] == rest[j];
        assert marks[0].id != marks[k + 1].id;
      }
    }
  }

  lemma {:induction false} AgedOrigin(marks: seq<Mark>, k: nat)
    requires k < |Aged(marks)|
    ensures exists i :: 0 <= i < |marks| && marks[i].remainingTurns > 1
                        && Aged(marks)[k] == marks[i].(remainingTurns := marks[i].remainingTurns - 1)
  {
    var first: nat := if marks[0].remainingTurns <= 1 then 0 else 1;
    if k >= first {
      AgedOrigin(marks[1..], k - first);
      var i :| 0 <= i < |marks[1..]| && marks[1..][i].remainingTurns > 1
               && Aged(marks[1..])[k - first] == marks[1..][i].(remainingTurns := marks[1..][i].remainingTurns - 1);
      assert marks[i + 1] == marks[1..][i];
    } else {
      assert marks[0].remainingTurns > 1;
    }
  }

  lemma {:induction false} AgedKeepsUnique(marks: seq<Mark>)
    requires UniqueIds(marks)
    ensures UniqueIds(Aged(marks))
  {
    if marks != [] {
      AgedKeepsUnique(marks[1..]);
      var rest := Aged(marks[1..]);
      forall j | 0 <= j < |rest| ensures rest[j].id != marks[0].id {
        AgedOrigin(marks[1..], j);
        var i :| 0 <= i < |marks[1..]| && marks[1..][i].remainingTurns > 1
                 && rest[j] == marks[1..][i].(remainingTurns := marks[1..][i].remainingTurns - 1);
        assert marks[0].id != marks[i + 1].id;
      }
    }
  }

  // ---- Triggering a cell ----

  lemma {:induction false} TrapIdsExact(marks: seq<Mark>, cell: Cell, id: nat)
    ensures id in TrapIdsOn(marks, cell) <==>
            exists i :: 0 <= i < |marks| && marks[i].id == id && marks[i].markType == Trap && cell in marks[i].zoneCells
  {
    if marks != [] {
      TrapIdsExact(marks[1..], cell, id);
      if exists i :: 0 <= i < |marks| && marks[i].id == id && marks[i].markType == Trap && cell in marks[i].zoneCells {
        var i :| 0 <= i < |marks| && marks[i].id == id && marks[i].markType == Trap && cell in marks[i].zoneCells;
        if i > 0 {
          assert marks[1..][i - 1] == marks[i];
        }
      }
      if id in TrapIdsOn(marks[1..], cell) {
        var k :| 0 <= k < |marks[1..]| && marks[1..][k].id == id && marks[1..][k].markType == Trap &&
                cell in marks[1..][k].zoneCells;
        assert marks[k + 1] == marks[1..][k];
      }
    }
  }

  /** id belongs to the network of some trap in the list. */
  ghost predicate Touched(marks: seq<Mark>, traps: seq<nat>, id: nat) {
    exists k :: 0 <= k < |traps| && Reaches(marks, traps[k], id)
  }

  lemma {:induction false} ReachedHasId(marks: seq<Mark>, a: nat, b: nat)
    requires Reaches(marks, a, b) && a in IdSet(marks)
    ensures b in IdSet(marks)
  {
    hide Marks.Linked;
    var path :| IsChain(marks, path, a, b);
    if |path| > 1 {
      assert Marks.Linked(marks, path[|path| - 1 - 1], path[|path| - 1]);
      LinkedHasId(marks, path[|path| - 2], b);
    }
  }

  /** The ids of every network that one of the traps belongs to, each once. */
  method CollectNetworks(manager: MarkManager, traps: seq<nat>) returns (all: seq<nat>)
    requires manager.Valid()
    ensures NoRepeats(all) && forall id :: id in all <==> Touched(manager.marks, traps, id)
  {
    hide Reaches;
    all := [];
    for i := 0 to |traps|
      invariant NoRepeats(all)
      invariant forall id :: id in all <==> exists k :: 0 <= k < i && Reaches(manager.marks, traps[k], id)
    {
      var connected := manager.ConnectedTraps(traps[i]);
      ghost var before := all;
      for j := 0 to |connected|
        invariant NoRepeats(all)
        invariant forall id :: id in all <==> id in before || id in connected[..j]
      {
        if connected[j] !in all {
          all := all + [connected[j]];
        }
      }
    }
  }

  lemma {:induction false} WithoutTwice(marks: seq<Mark>, a: set<nat>, b: set<nat>)
    ensures Without(Without(marks, a), b) == Without(marks, a + b)
  {
    if marks != [] {
      WithoutTwice(marks[1..], a, b);
      var rest := Without(marks[1..], a);
      if marks[0].id in a {
        assert Without(marks, a) == rest;
      } else {
        assert Without(marks, a) == [marks[0]] + rest;
      }
    }
  }

  lemma {:induction false} WithoutNone(marks: seq<Mark>)
    ensures Without(marks, {}) == marks
  {
    if marks != [] {
      WithoutNone(marks[1..]);
    }
  }

  ghost function SetOf(ids: seq<nat>): set<nat> {
    set i | 0 <= i < |ids| :: ids[i]
  }

  lemma SetOfMembers(ids: seq<nat>)
    ensures forall id :: id in SetOf(ids) <==> id in ids
  {
  }

  method RemoveAll(manager: MarkManager, ids: seq<nat>)
    requires manager.Valid()
    modifies manager
    ensures manager.Valid() && manager.marks == Without(old(manager.marks), SetOf(ids))
  {
    WithoutNone(manager.marks);
    assert SetOf(ids[..0]) == {};
    for i := 0 to |ids|
      invariant manager.Valid() && manager.marks == Without(old(manager.marks), SetOf(ids[..i]))
    {
      WithoutTwice(old(manager.marks), SetOf(ids[..i]), {ids[i]});
      SetOfNext(ids, i);
      manager.RemoveMark(ids[i]);
    }
    assert ids[..|ids|] == ids;
  }

  lemma SetOfNext(ids: seq<nat>, i: nat)
    requires i < |ids|
    ensures SetOf(ids[..i + 1]) == SetOf(ids[..i]) + {ids[i]}
  {
    SetOfMembers(ids[..i]);
    SetOfMembers(ids[..i + 1]);
    assert ids[..i + 1] == ids[..i] + [ids[i]];
  }

  /** The marks with the given ids, in that order. */
  method LookUpAll(manager: MarkManager, ids: seq<nat>) returns (found: seq<Mark>)
    requires manager.Valid() && forall k :: 0 <= k < |ids| ==> ids[k] in IdSet(manager.marks)
    ensures |found| == |ids| && forall k :: 0 <= k < |ids| ==> found[k] in manager.marks && found[k].id == ids[k]
  {
    found := [];
    for i := 0 to |ids|
      invariant |found| == i && forall k :: 0 <= k < i ==> found[k] in manager.marks && found[k].id == ids[k]
    {
      var mark := manager.FindMark(ids[i]);
      FindSome(manager.marks, ids[i]);
      found := found + [mark.value];
    }
  }

  lemma TouchedIsPresent(marks: seq<Mark>, cell: Cell, id: nat)
    requires Touched(marks, TrapIdsOn(marks, cell), id)
    ensures id in IdSet(marks)
  {
    hide Reaches;
    var traps := TrapIdsOn(marks, cell);
    var k :| 0 <= k < |traps| && Reaches(marks, traps[k], id);
    TrapIdsExact(marks, cell, traps[k]);
    ReachedHasId(marks, traps[k], id);
  }

  lemma CellIsCleared(marks: seq<Mark>, cell: Cell, ids: set<nat>)
    requires forall id :: id in TrapIdsOn(marks, cell) ==> id in ids
    ensures TrapIdsOn(Without(marks, ids), cell) == []
  {
    var left := TrapIdsOn(Without(marks, ids), cell);
    if left != [] {
      TrapIdsExact(Without(marks, ids), cell, left[0]);
      var kept := Without(marks, ids);
      var i :| 0 <= i < |kept| && kept[i].id == left[0] && kept[i].markType == Trap && cell in kept[i].zoneCells;
      WithoutExact(marks, ids, kept[i]);
      var j :| 0 <= j < |marks| && marks[j] == kept[i];
      TrapIdsExact(marks, cell, left[0]);
    }
  }

  /** A fighter steps on a cell: every trap of the networks it touches fires once and is gone; nothing else changes. */
  method TriggerTrapsOnCell(manager: MarkManager, cell: Cell) returns (fired: seq<Mark>)
    requires manager.Valid()
    modifies manager
    ensures manager.Valid()
    ensures forall i, j :: 0 <= i < j < |fired| ==> fired[i].id != fired[j].id
    ensures forall m :: m in fired <==>
              m in old(manager.marks) && Touched(old(manager.marks), TrapIdsOn(old(manager.marks), cell), m.id)
    ensures forall m :: m in manager.marks <==>
              m in old(manager.marks) && !Touched(old(manager.marks), TrapIdsOn(old(manager.marks), cell), m.id)
    ensures TrapIdsOn(manager.marks, cell) == []
  {
    hide Touched, TrapIdsOn, Without, IdSet;
    ghost var before := manager.marks;
    var traps := manager.TrapsOnCell(cell);
    if traps == [] {
      NothingTouched(before);
      return [];
    }
    var all := CollectNetworks(manager, traps);
    forall k | 0 <= k < |all| ensures all[k] in IdSet(before) {
      TouchedIsPresent(before, cell, all[k]);
    }
    fired := LookUpAll(manager, all);
    SameMarks(before, all, fired);
    RemoveAll(manager, all);
    ghost var gone := SetOf(all);
    SetOfMembers(all);
    forall m ensures m in manager.marks <==> m in before && m.id !in gone {
      WithoutExact(before, gone, m);
    }
    forall id | id in TrapIdsOn(before, cell) ensures id in gone {
      TrapTouchesItself(before, traps, id);
    }
    CellIsCleared(before, cell, gone);
  }

  lemma NothingTouched(marks: seq<Mark>)
    ensures forall id :: !Touched(marks, [], id)
  {
  }

  lemma TrapTouchesItself(marks: seq<Mark>, traps: seq<nat>, id: nat)
    requires id in traps
    ensures Touched(marks, traps, id)
  {
    ReachesSelf(marks, id);
  }

  /** With unique ids, the marks found for a list of ids are exactly the marks having them. */
  lemma SameMarks(marks: seq<Mark>, ids: seq<nat>, found: seq<Mark>)
    requires UniqueIds(marks) && NoRepeats(ids)
    requires |found| == |ids| && forall k :: 0 <= k < |ids| ==> found[k] in marks && found[k].id == ids[k]
    ensures forall m :: m in found <==> m in marks && m.id in ids
    ensures forall i, j :: 0 <= i < j < |found| ==> found[i].id != found[j].id
  {
    forall m | m in marks && m.id in ids ensures m in found {
      var k :| 0 <= k < |ids| && ids[k] == m.id;
      var i :| 0 <= i < |marks| && marks[i] == m;
      var j :| 0 <= j < |marks| && marks[j] == found[k];
      assert i == j;
    }
  }
}
