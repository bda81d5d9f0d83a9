/** A map on which a wrapped move makes find_path return a path that is not shortest: row 0 and cell 14. */
module WrappedMap {
  import opened Common
  import opened Grid
  import opened Walk
  import opened Search
  import opened SearchResults
  import opened Pathfinding
  import opened PathfindingResults

  function RowMap(): Cells {
    seq(MAP_CELLS_COUNT, c => CellData(c <= 14, false, true))
  }

  const START: Cell := 8
  const END: Cell := 14

  function TheEnv(): Env {
    Env(RowMap(), START, END, None)
  }

  lemma OpenCells(c: Cell)
    ensures RowMap()[c].IsWalkable() <==> c <= 14
  {
  }

  lemma RowTargets(c: Cell, d: nat)
    requires 1 <= c <= 8 && d < 8
    ensures NeighbourAt(c, d) ==
            if d == 0 then Some(c + 1) else if d == 1 then Some(c + 14) else if d == 2 then Some(c + 28)
            else if d == 3 then Some(c + 13) else if d == 4 then Some(c - 1) else None
  {
    hide CellCoord, CoordToCellId;
    RowCoord(c);
    RowIds(c, d);
  }

  lemma RowCoord(c: Cell)
    requires c <= 13
    ensures CellCoord(c) == Coord(c, c)
  {
  }

  lemma EndCoord()
    ensures CellCoord(END) == Coord(1, 0)
  {
  }

  lemma RowIds(c: Cell, d: nat)
    requires 1 <= c <= 8 && d < 8
    ensures CoordToCellId(c + DirDx(d), c + DirDy(d)) ==
            if d == 0 then Some(c + 1) else if d == 1 then Some(c + 14) else if d == 2 then Some(c + 28)
            else if d == 3 then Some(c + 13) else if d == 4 then Some(c - 1) else None
  {
    hide CellCoord;
  }

  /** East, West and (from cell 1) South-West are the only directions with a walkable target. */
  lemma RowMoves(c: Cell, d: nat)
    requires 1 <= c <= 8 && d < 8
    ensures d == 0 ==> NeighbourAt(c, d) == Some(c + 1) && Passable(RowMap(), c, c + 1, d)
    ensures d == 4 ==> NeighbourAt(c, d) == Some(c - 1) && Passable(RowMap(), c, c - 1, d)
    ensures d == 3 && c == 1 ==> NeighbourAt(c, d) == Some(END) && Passable(RowMap(), c, END, d)
    ensures d != 0 && d != 4 && !(d == 3 && c == 1) ==>
              NeighbourAt(c, d).None? || !Passable(RowMap(), c, NeighbourAt(c, d).value, d)
  {
    hide RowMap, SideOpen, NeighbourAt;
    RowTargets(c, d);
    if NeighbourAt(c, d).Some? {
      OpenCells(NeighbourAt(c, d).value);
    }
    if d == 3 && c == 1 {
      OpenSide();
    }
  }

  lemma OpenSide()
    ensures SideOpen(RowMap(), 1, 4)
  {
  }

  lemma RowEstimates(c: Cell)
    requires c <= 13
    ensures Heuristic(c, END) == if c == 0 then 1 else c
  {
    hide CellCoord;
    RowCoord(c);
    EndCoord();
  }

  function RelaxDir(env: Env, s: State, c: Cell, d: nat): State
    requires d < 8
  {
    match NeighbourAt(c, d)
    case None => s
    case Some(n) => Relax(env, s, c, n, d)
  }

  lemma RelaxAllByDir(env: Env, s: State, c: Cell, k: nat)
    requires k < 8
    ensures AreDirections(NeighboursUpTo(c, k)) && AreDirections(NeighboursUpTo(c, k + 1))
    ensures RelaxAll(env, s, c, NeighboursUpTo(c, k + 1)) ==
            RelaxDir(env, RelaxAll(env, s, c, NeighboursUpTo(c, k)), c, k)
  {
    hide Relax, NeighbourAt;
    NeighboursAreDirections(c, k);
    NeighboursAreDirections(c, k + 1);
    match NeighbourAt(c, k)
    case None =>
    case Some(n) =>
      assert (NeighboursUpTo(c, k) + [(n, k)])[..|NeighboursUpTo(c, k)|] == NeighboursUpTo(c, k);
  }

  /** Expanding a cell of the row offers East, then (from cell 1) the end, then West. */
  lemma RowExpansion(s: State, c: Cell)
    requires 1 <= c <= 8
    ensures AreDirections(NeighboursUpTo(c, 8))
    ensures var east := Relax(TheEnv(), s, c, c + 1, 0);
            var south := if c == 1 then Relax(TheEnv(), east, c, END, 3) else east;
            RelaxAll(TheEnv(), s, c, NeighboursUpTo(c, 8)) == Relax(TheEnv(), south, c, c - 1, 4)
  {
    hide RowMap, NeighbourAt, Passable, NeighboursUpTo, RelaxAll, Heuristic;
    var env := TheEnv();
    RelaxNoneUpTo(env, s, c);
    var d := 0;
    while d < 8
      invariant 0 <= d <= 8 && AreDirections(NeighboursUpTo(c, d))
      invariant RelaxAll(env, s, c, NeighboursUpTo(c, d)) == ExpandedTo(s, c, d)
    {
      RowMoves(c, d);
      RelaxAllByDir(env, s, c, d);
      d := d + 1;
    }
  }

  ghost function ExpandedTo(s: State, c: Cell, d: nat): State
    requires 1 <= c <= 8
  {
    var east := if d >= 1 then Relax(TheEnv(), s, c, c + 1, 0) else s;
    var south := if d >= 4 && c == 1 then Relax(TheEnv(), east, c, END, 3) else east;
    if d >= 5 then Relax(TheEnv(), south, c, c - 1, 4) else south
  }

  lemma RelaxNoneUpTo(env: Env, s: State, c: Cell)
    ensures AreDirections(NeighboursUpTo(c, 0)) && RelaxAll(env, s, c, NeighboursUpTo(c, 0)) == s
  {
  }

  /** After j pops the search has closed 8, 7, ..., 9 - j and reached 8 - j; East of the start waits with a larger f. */
  ghost predicate Marched(s: State, j: nat) {
    && j <= 7
    && (forall c: Cell :: s.closed[c] <==> 8 - j < c <= 8)
    && (forall c: Cell :: c < 8 - j || c == END ==> s.g[c] == INFINITY)
    && s.g[8 - j] == j
    && (j > 0 ==> s.g[9] == 1)
    && (j == 0 ==> s.g[9] == INFINITY)
    && s.open == multiset{Node(8 - j, 8)} + if j > 0 then multiset{Node(9, 10)} else multiset{}
  }

  ghost predicate Arrived(s: State) {
    && s.g[END] == 8
    && s.open == multiset{Node(END, 8), Node(0, 9), Node(9, 10)}
  }

  lemma MarchStarts()
    ensures Marched(Initial(TheEnv()), 0)
  {
    hide RowMap, Heuristic;
    RowEstimates(8);
  }

  lemma NextPop(s: State, j: nat, n: Node)
    requires Marched(s, j) && IsMin(s.open, n)
    ensures n == Node(8 - j, 8)
  {
    assert Node(8 - j, 8) in s.open;
  }

  /** The pop in the row, spelled out as three relaxations. */
  lemma RowPop(s: State, j: nat)
    requires Marched(s, j)
    ensures var c := 8 - j;
            var shut := s.(open := s.open - multiset{Node(c, 8)}, closed := s.closed[c := true]);
            var east := Relax(TheEnv(), shut, c, c + 1, 0);
            var south := if c == 1 then Relax(TheEnv(), east, c, END, 3) else east;
            Pop(TheEnv(), s, Node(c, 8)) == Relax(TheEnv(), south, c, c - 1, 4)
  {
    hide RowMap, Heuristic, NeighboursUpTo, RelaxAll, Relax;
    var c := 8 - j;
    RowExpansion(s.(open := s.open - multiset{Node(c, 8)}, closed := s.closed[c := true]), c);
  }

  /** East of the current cell: fresh at the start, closed afterwards. */
  lemma EastOffer(s: State, j: nat)
    requires Marched(s, j)
    ensures var c := 8 - j;
            var shut := s.(open := s.open - multiset{Node(c, 8)}, closed := s.closed[c := true]);
            Relax(TheEnv(), shut, c, c + 1, 0) ==
            if j > 0 then shut
            else shut.(g := shut.g[9 := 1], came := shut.came[9 := 8], open := multiset{Node(9, 10)})
  {
    hide RowMap, Heuristic, NeighbourAt, Passable;
    RowMoves(8 - j, 0);
    RowEstimates(9);
    EnvEnd();
  }

  lemma WestOffer(t: State, c: Cell)
    requires 1 <= c <= 8 && !t.closed[c - 1] && t.g[c - 1] == INFINITY && t.g[c] == 8 - c
    ensures Relax(TheEnv(), t, c, c - 1, 4) ==
            t.(g := t.g[c - 1 := 9 - c], came := t.came[c - 1 := c],
               open := t.open + multiset{Node(c - 1, if c == 1 then 9 else 8)})
  {
    hide RowMap, Heuristic, NeighbourAt;
    RowMoves(c, 4);
    RowEstimates(c - 1);
    EnvEnd();
  }

  lemma SouthOffer(t: State)
    requires !t.closed[END] && t.g[END] == INFINITY && t.g[1] == 7
    ensures Relax(TheEnv(), t, 1, END, 3) ==
            t.(g := t.g[END := 8], came := t.came[END := 1], open := t.open + multiset{Node(END, 8)})
  {
    hide RowMap, Heuristic, NeighbourAt;
    RowMoves(1, 3);
    EndEstimate();
    EnvEnd();
  }

  lemma MarchStep(s: State, j: nat)
    requires Marched(s, j) && j < 7
    ensures Marched(Pop(TheEnv(), s, Node(8 - j, 8)), j + 1)
  {
    hide RowMap, Heuristic, NeighbourAt, Passable, Pop, Relax, Marched;
    var c := 8 - j;
    RowPop(s, j);
    EastOffer(s, j);
    NextMarched(s, j);
    WestOffer(AfterEast(s, j), c);
  }

  /** The state after the current cell is closed and its East neighbour offered. */
  ghost function AfterEast(s: State, j: nat): State
    requires j <= 7
  {
    var c := 8 - j;
    var shut := s.(open := s.open - multiset{Node(c, 8)}, closed := s.closed[c := true]);
    if j > 0 then shut
    else shut.(g := shut.g[9 := 1], came := shut.came[9 := 8], open := multiset{Node(9, 10)})
  }

  lemma NextMarched(s: State, j: nat)
    requires Marched(s, j) && j < 7
    ensures var t := AfterEast(s, j);
            var c := 8 - j;
            && !t.closed[c - 1] && t.g[c - 1] == INFINITY && t.g[c] == 8 - c
            && Marched(t.(g := t.g[c - 1 := 9 - c], came := t.came[c - 1 := c],
                          open := t.open + multiset{Node(c - 1, 8)}), j + 1)
  {
    var t := AfterEast(s, j);
    assert t.open == multiset{Node(9, 10)};
  }

  lemma LastMarch(s: State)
    requires Marched(s, 7)
    ensures Arrived(Pop(TheEnv(), s, Node(1, 8)))
  {
    hide RowMap, Heuristic, NeighbourAt, Passable, Pop, Relax;
    RowPop(s, 7);
    EastOffer(s, 7);
    var east := AfterEast(s, 7);
    SouthOffer(east);
    WestOffer(Relax(TheEnv(), east, 1, END, 3), 1);
  }

  lemma EndEstimate()
    ensures Heuristic(END, END) == 0
  {
  }

  /** Every run walks West along the row: ties never arise. */
  lemma {:induction false} RunMarches(trace: seq<Node>)
    requires IsTrace(TheEnv(), trace)
    ensures var s := StateAfter(TheEnv(), trace);
            if |trace| <= 7 then Marched(s, |trace|) else |trace| == 8 && Arrived(s)
  {
    hide RowMap, Heuristic, Pop, Initial, Marched, Arrived, TheEnv, IsTrace;
    if trace == [] {
      MarchStarts();
    } else {
      TracePrefix(TheEnv(), trace);
      EnvEnd();
      var before, n := trace[..|trace| - 1], trace[|trace| - 1];
      RunMarches(before);
      var s := StateAfter(TheEnv(), before);
      if |before| <= 7 {
        NextPop(s, |before|, n);
        if |before| < 7 {
          MarchStep(s, |before|);
        } else {
          LastMarch(s);
        }
      } else {
        ArrivedPopsEnd(s, n);
        assert false;
      }
    }
  }

  lemma EnvEnd()
    ensures TheEnv().end == END && TheEnv().start == START && TheEnv().maxCost == None
  {
  }

  lemma ArrivedPopsEnd(s: State, n: Node)
    requires Arrived(s) && IsMin(s.open, n)
    ensures n.cell == END
  {
    assert Node(END, 8) in s.open;
  }

  function Shortcut(): seq<Cell> {
    [8, 9, 10, 11, 12, 13, 14]
  }

  lemma EastMove(c: Cell)
    requires 8 <= c <= 13
    ensures Edge(RowMap(), c, c + 1)
  {
    hide RowMap, SideOpen;
    assert CellCoord(c) == Coord(c, c);
    OpenCells(c + 1);
    assert NeighbourAt(c, 0) == Some(c + 1);
  }

  /** The map has a wrapped move, from cell 13 East to cell 14. */
  lemma ShortcutIsWalk()
    ensures IsWalk(RowMap(), Shortcut(), START, END)
    ensures !NoWrap(RowMap())
  {
    hide RowMap, Edge, SideOpen;
    var w := Shortcut();
    forall i | 0 < i < |w| ensures Edge(RowMap(), w[i - 1], w[i]) {
      assert w[i - 1] == 7 + i && w[i] == 8 + i;
      EastMove(w[i - 1]);
    }
    OpenCells(14);
    assert NeighbourAt(13, 0) == Some(14) && Passable(RowMap(), 13, 14, 0);
  }

  /** The wrapped move is the one step at which the shortcut bends: every other step lowers the estimate by one at
      most. */
  lemma ShortcutBends(i: nat)
    requires 0 < i < |Shortcut()|
    ensures Heuristic(Shortcut()[i - 1], END) <= 1 + Heuristic(Shortcut()[i], END) <==> i != 6
    ensures !Straight(Shortcut(), END)
  {
    hide Heuristic;
    var w := Shortcut();
    forall c: Cell | 8 <= c <= 13 ensures Heuristic(c, END) == c {
      RowEstimates(c);
    }
    EndEstimate();
    assert w[6 - 1] == 13 && w[6] == END && w[i - 1] == 7 + i && w[i] == 8 + i;
  }

  /** find_path always answers with eight moves here although six moves suffice. */
  lemma FindPathNotShortest(r: Option<seq<nat>>)
    requires FindsPath(RowMap(), START, END, None, r)
    ensures r.Some? && |r.value| == 9
    ensures IsWalk(RowMap(), Shortcut(), START, END) && |Shortcut()| == 7
  {
    hide RowMap, Edge, Inv, Marched, Arrived, TracesBack, IsTrace, StateAfter, IsWalk;
    ShortcutIsWalk();
    OpenCells(END);
    var env := TheEnv();
    match r
    case None =>
      var trace :| IsTrace(env, trace) && StateAfter(env, trace).open == multiset{};
      RunMarches(trace);
      NeverEmpty(StateAfter(env, trace), |trace|);
    case Some(path) =>
      var trace, n :| IsTrace(env, trace) && IsMin(StateAfter(env, trace).open, n) && n.cell == env.end
                      && TracesBack(StateAfter(env, trace).came, env.start, env.end, path);
      var s := StateAfter(env, trace);
      RunMarches(trace);
      RunKeepsInv(env, trace);
      if |trace| <= 7 {
        NextPop(s, |trace|, n);
        assert false;
      }
      ArrivedScore(s);
      TracedPathIsAnswer(env, s, path);
  }

  lemma NeverEmpty(s: State, j: nat)
    requires Marched(s, j) || Arrived(s)
    ensures s.open != multiset{}
  {
    if Marched(s, j) {
      assert Node(8 - j, 8) in s.open;
    } else {
      assert Node(END, 8) in s.open;
    }
  }

  lemma ArrivedScore(s: State)
    requires Arrived(s)
    ensures s.g[END] == 8
  {
  }
}
