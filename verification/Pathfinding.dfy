/** find_path and validate_path: the array and heap code, tied to the runs of the search. */
module Pathfinding {
  import opened Common
  import opened Grid
  import opened Walk
  import opened Search
  import opened SearchResults

  /** What find_path may return: the two early exits, then any run of the search. */
  ghost predicate FindsPath(cells: Cells, start: nat, end: nat, maxCost: Option<nat>, r: Option<seq<nat>>)
    requires MayCall(cells, start, end)
  {
    if start == end then r == Some([start])
    else if end >= MAP_CELLS_COUNT || !cells[end].IsWalkable() then r == None
    else match r
      case None => Returns(Env(cells, start, end, maxCost), None)
      case Some(path) =>
        (forall i :: 0 <= i < |path| ==> path[i] < MAP_CELLS_COUNT) &&
                Returns(Env(cells, start, end, maxCost), Some(path))
  }

  /** The start is used as an index only when the search itself begins. */
  predicate MayCall(cells: Cells, start: nat, end: nat) {
    start != end && end < MAP_CELLS_COUNT && cells[end].IsWalkable() ==> start < MAP_CELLS_COUNT
  }

  /** Removes an entry of minimal f; which one among ties is left open. */
  method PopMin(open: multiset<Node>) returns (n: Node, rest: multiset<Node>)
    requires open != multiset{}
    ensures IsMin(open, n) && rest == open - multiset{n}
  {
    MinExists(open);
    n :| n in open && forall m | m in open :: n.f <= m.f;
    rest := open - multiset{n};
  }

  lemma {:induction false} MinExists(open: multiset<Node>)
    requires open != multiset{}
    ensures exists n :: IsMin(open, n)
    decreases |open|
  {
    var m :| m in open;
    var rest := open - multiset{m};
    assert open == rest + multiset{m};
    if rest == multiset{} {
      assert IsMin(open, m);
    } else {
      MinExists(rest);
      var n :| IsMin(rest, n);
      SmallerIsMin(rest, m, n);
    }
  }

  lemma SmallerIsMin(rest: multiset<Node>, m: Node, n: Node)
    requires IsMin(rest, n)
    ensures IsMin(rest + multiset{m}, if n.f <= m.f then n else m)
  {
  }

  function Reverse(path: seq<Cell>): (r: seq<Cell>)
    ensures |r| == |path| && forall i :: 0 <= i < |path| ==> r[i] == path[|path| - 1 - i]
  {
    seq(|path|, i requires 0 <= i < |path| => path[|path| - 1 - i])
  }

  /** The part of the backward walk collected so far, last cell first. */
  ghost predicate Collected(s: State, start: Cell, end: Cell, path: seq<Cell>, current: Cell) {
    && (path == [] ==> current == end)
    && (path != [] ==> path[0] == end && s.came[path[|path| - 1]] == current)
    && (forall i :: 0 <= i < |path| ==> path[i] != start)
    && (forall i :: 0 < i < |path| ==> s.came[path[i - 1]] == path[i])
  }

  lemma ReachedHasParent(env: Env, s: State, c: Cell)
    requires Inv(env, s) && s.g[c] != INFINITY && c != env.start
    ensures s.came[c] < MAP_CELLS_COUNT && s.g[s.came[c]] != INFINITY && s.g[c] == s.g[s.came[c]] + 1
  {
    hide Edge, Heuristic, ClosedCount;
    ClosedAtMost(s.closed);
    assert CellInv(env, s, c);
    assert CellInv(env, s, s.came[c]);
  }

  lemma CollectedTracesBack(s: State, start: Cell, end: Cell, path: seq<Cell>)
    requires Collected(s, start, end, path, start)
    ensures TracesBack(s.came, start, end, Reverse(path + [start]))
  {
    var whole := path + [start];
    var r := Reverse(whole);
    forall i | 0 < i < |r| ensures r[i] != start && s.came[r[i]] == r[i - 1] {
      assert r[i] == path[|path| - i];
      assert r[i - 1] == whole[|path| - i + 1];
    }
  }

  /** Follows came_from from end; each step lowers the g_score by one, so the walk stops. */
  method Reconstruct(came: array<nat>, start: Cell, end: Cell, ghost env: Env, ghost s: State)
    returns (path: seq<Cell>)
    requires start == env.start && end == env.end
    requires came[..] == s.came && Inv(env, s) && s.g[end] != INFINITY
    ensures TracesBack(s.came, start, end, path)
  {
    hide Inv;
    path := [];
    var current: Cell := end;
    while current != start
      invariant s.g[current] != INFINITY && Collected(s, start, end, path, current)
      decreases s.g[current]
    {
      path := path + [current];
      ReachedHasParent(env, s, current);
      assert came[current] == s.came[current];
      current := came[current];
    }
    path := path + [start];
    CollectedTracesBack(s, start, end, path[..|path| - 1]);
    assert path[..|path| - 1] + [start] == path;
    path := Reverse(path);
  }

  ghost predicate Holds(g: array<nat>, came: array<nat>, closed: array<bool>, open: multiset<Node>, s: State)
    reads g, came, closed
  {
    g[..] == s.g && came[..] == s.came && closed[..] == s.closed && open == s.open
  }

  /** Offers one neighbour to the expanded cell c, whose g_score is currentG. */
  method Offer(g: array<nat>, came: array<nat>, closed: array<bool>, open0: multiset<Node>, env: Env,
               c: Cell, currentG: nat, n: Cell, dir: nat, ghost s: State)
    returns (open: multiset<Node>)
    requires dir < 8 && g != came && Holds(g, came, closed, open0, s) && currentG == s.g[c]
    modifies g, came
    ensures Holds(g, came, closed, open, Relax(env, s, c, n, dir))
  {
    hide Passable, Heuristic;
    open := open0;
    assert closed[n] == s.closed[n] && g[n] == s.g[n];
    if closed[n] {
      return;
    }
    if !Passable(env.cells, c, n, dir) {
      return;
    }
    var tentativeG := currentG + 1;
    if tentativeG < g[n] {
      g[n] := tentativeG;
      came[n] := c;
      open := open + multiset{Node(n, tentativeG + Heuristic(n, env.end))};
    }
  }

  lemma RelaxAllStep(env: Env, s: State, c: Cell, nbrs: seq<(Cell, nat)>, j: nat)
    requires j < |nbrs| && AreDirections(nbrs)
    ensures AreDirections(nbrs[..j]) && AreDirections(nbrs[..j + 1])
    ensures RelaxAll(env, s, c, nbrs[..j + 1]) == Relax(env, RelaxAll(env, s, c, nbrs[..j]), c, nbrs[j].0, nbrs[j].1)
  {
    hide Relax;
    assert nbrs[..j + 1][..j] == nbrs[..j];
  }

  /** One pass over the neighbours of an expanded cell. */
  method Expand(g: array<nat>, came: array<nat>, closed: array<bool>, open0: multiset<Node>, env: Env,
                c: Cell, ghost s: State)
    returns (open: multiset<Node>)
    requires g != came && Holds(g, came, closed, open0, s) && s.closed[c]
    modifies g, came
    ensures AreDirections(NeighboursUpTo(c, 8))
    ensures Holds(g, came, closed, open, RelaxAll(env, s, c, NeighboursUpTo(c, 8)))
  {
    hide Passable, Heuristic, NeighboursUpTo, Relax, Holds, RelaxAll;
    open := open0;
    var currentG := ReadScore(g, came, closed, open0, c, s);
    var nbrs := CellNeighbours(c);
    NeighboursAreDirections(c, 8);
    RelaxNone(env, s, c);
    for j := 0 to |nbrs|
      invariant AreDirections(nbrs[..j])
      invariant Holds(g, came, closed, open, RelaxAll(env, s, c, nbrs[..j]))
      invariant RelaxAll(env, s, c, nbrs[..j]).g[c] == currentG && RelaxAll(env, s, c, nbrs[..j]).closed == s.closed
    {
      ghost var t := RelaxAll(env, s, c, nbrs[..j]);
      RelaxAllStep(env, s, c, nbrs, j);
      RelaxImproves(env, t, c, nbrs[j].0, nbrs[j].1);
      open := Offer(g, came, closed, open, env, c, currentG, nbrs[j].0, nbrs[j].1, t);
    }
    assert nbrs[..|nbrs|] == nbrs;
  }

  lemma RelaxNone(env: Env, s: State, c: Cell)
    ensures RelaxAll(env, s, c, []) == s
  {
  }

  method ReadScore(g: array<nat>, came: array<nat>, closed: array<bool>, open: multiset<Node>, c: Cell, ghost s: State)
    returns (score: nat)
    requires Holds(g, came, closed, open, s)
    ensures score == s.g[c]
  {
    score := g[c];
    assert g[..][c] == s.g[c];
  }

  /** Progress of one pop: a cell is closed, or the heap shrinks. */
  lemma PopProgress(env: Env, s: State, n: Node)
    requires Inv(env, s) && n in s.open && n.cell != env.end
    ensures s.closed[n.cell] ==> Pop(env, s, n).closed == s.closed && |Pop(env, s, n).open| < |s.open|
    ensures !s.closed[n.cell] ==> ClosedCount(s.closed) < ClosedCount(Pop(env, s, n).closed)
    ensures ClosedCount(Pop(env, s, n).closed) <= MAP_CELLS_COUNT
  {
    hide Inv, Pop, ClosedCount;
    PopKeepsInv(env, s, n);
    ClosedAtMost(Pop(env, s, n).closed);
    if !s.closed[n.cell] {
      CloseOne(s.closed, n.cell);
    }
  }

  lemma TraceExtends(env: Env, trace: seq<Node>, n: Node)
    requires IsTrace(env, trace) && IsMin(StateAfter(env, trace).open, n) && n.cell != env.end
    ensures IsTrace(env, trace + [n])
    ensures StateAfter(env, trace + [n]) == Pop(env, StateAfter(env, trace), n)
  {
    hide Pop, Initial, IsMin;
    var longer := trace + [n];
    assert longer[..|longer| - 1] == trace;
    TraceExtendsStates(env, trace, n);
  }

  lemma TraceExtendsStates(env: Env, trace: seq<Node>, n: Node)
    requires IsTrace(env, trace) && IsMin(StateAfter(env, trace).open, n) && n.cell != env.end
    ensures IsTrace(env, trace + [n])
  {
    hide Pop, Initial, IsMin, StateAfter;
    var longer := trace + [n];
    forall i | 0 <= i < |longer|
      ensures IsMin(StateAfter(env, longer[..i]).open, longer[i]) && longer[i].cell != env.end
    {
      if i < |trace| {
        assert longer[..i] == trace[..i];
      } else {
        assert longer[..i] == trace;
      }
    }
  }

  /** The body of the main loop: what happens to an entry that is not the destination. */
  method Process(g: array<nat>, came: array<nat>, closed: array<bool>, open0: multiset<Node>, env: Env,
                 n: Node, ghost s: State)
    returns (open: multiset<Node>)
    requires g != came && Holds(g, came, closed, open0, s.(open := s.open - multiset{n}))
    modifies g, came, closed
    ensures Holds(g, came, closed, open, Pop(env, s, n))
  {
    hide Heuristic, NeighboursUpTo, RelaxAll, CellCoord;
    open := open0;
    var c := n.cell;
    assert closed[..][c] == s.closed[c] && g[..][c] == s.g[c];
    if closed[c] {
      return;
    }
    closed[c] := true;
    var currentG := g[c];
    if env.maxCost.Some? && currentG >= env.maxCost.value {
      return;
    }
    open := Expand(g, came, closed, open, env, c,
                   s.(open := s.open - multiset{n}, closed := s.closed[c := true]));
  }

  lemma InitialHolds(env: Env, g: array<nat>, came: array<nat>, closed: array<bool>, open: multiset<Node>)
    requires g.Length == MAP_CELLS_COUNT && came.Length == MAP_CELLS_COUNT && closed.Length == MAP_CELLS_COUNT
    requires forall c: Cell :: g[c] == if c == env.start then 0 else INFINITY
    requires forall c: Cell :: came[c] == NOWHERE && !closed[c]
    requires open == multiset{Node(env.start, Heuristic(env.start, env.end))}
    ensures Holds(g, came, closed, open, Initial(env))
  {
    hide Heuristic;
  }

  /** The arrays and the heap before the first turn. */
  method Start(env: Env) returns (g: array<nat>, came: array<nat>, closed: array<bool>, open: multiset<Node>)
    ensures fresh(g) && fresh(came) && fresh(closed) && g != came && Holds(g, came, closed, open, Initial(env))
  {
    hide Heuristic, Holds, Initial;
    g := new nat[MAP_CELLS_COUNT](i => if i == env.start then 0 else INFINITY);
    came := new nat[MAP_CELLS_COUNT](_ => NOWHERE);
    closed := new bool[MAP_CELLS_COUNT](_ => false);
    open := multiset{Node(env.start, Heuristic(env.start, env.end))};
    InitialHolds(env, g, came, closed, open);
  }

  /** The shortest-path search of the map. */
  method FindPath(cells: Cells, start: nat, end: nat, maxCost: Option<nat>) returns (r: Option<seq<nat>>)
    requires MayCall(cells, start, end)
    ensures FindsPath(cells, start, end, maxCost, r)
  {
    hide Returns, CellData.IsWalkable;
    if start == end {
      return Some([start]);
    }
    if end >= MAP_CELLS_COUNT || !cells[end].IsWalkable() {
      return None;
    }
    var path := SearchLoop(Env(cells, start, end, maxCost));
    return path;
  }

  /** The main loop. */
  method SearchLoop(env: Env) returns (r: Option<seq<Cell>>)
    requires env.start != env.end
    ensures Returns(env, r)
  {
    hide Heuristic, Inv, Pop, StateAfter, IsTrace, Holds, Initial, TracesBack, ClosedCount;
    var g, came, closed, open := Start(env);
    ghost var trace: seq<Node> := [];
    EmptyTrace(env);
    ClosedAtMost(StateAfter(env, trace).closed);
    while open != multiset{}
      invariant IsTrace(env, trace) && Holds(g, came, closed, open, StateAfter(env, trace))
      invariant ClosedCount(StateAfter(env, trace).closed) <= MAP_CELLS_COUNT
      decreases MAP_CELLS_COUNT - ClosedCount(StateAfter(env, trace).closed), |StateAfter(env, trace).open|
    {
      ghost var s := StateAfter(env, trace);
      RunKeepsInv(env, trace);
      HoldsOpen(g, came, closed, open, s);
      var n, rest := PopMin(open);
      if n.cell == env.end {
        PoppedIsReached(env, s, n);
        var path := ReconstructHeld(g, came, closed, open, env, s);
        return Some(path);
      }
      HoldsRest(g, came, closed, open, s, n);
      open := Process(g, came, closed, rest, env, n, s);
      TraceExtends(env, trace, n);
      PopProgress(env, s, n);
      trace := trace + [n];
    }
    HoldsOpen(g, came, closed, open, StateAfter(env, trace));
    return None;
  }

  lemma EmptyTrace(env: Env)
    ensures IsTrace(env, []) && StateAfter(env, []) == Initial(env)
  {
  }

  lemma HoldsOpen(g: array<nat>, came: array<nat>, closed: array<bool>, open: multiset<Node>, s: State)
    requires Holds(g, came, closed, open, s)
    ensures open == s.open
  {
  }

  lemma HoldsRest(g: array<nat>, came: array<nat>, closed: array<bool>, open: multiset<Node>, s: State, n: Node)
    requires Holds(g, came, closed, open, s)
    ensures Holds(g, came, closed, open - multiset{n}, s.(open := s.open - multiset{n}))
  {
  }

  method ReconstructHeld(g: array<nat>, came: array<nat>, closed: array<bool>, open: multiset<Node>, env: Env,
                         ghost s: State)
    returns (path: seq<Cell>)
    requires Holds(g, came, closed, open, s) && Inv(env, s) && s.g[env.end] != INFINITY
    ensures TracesBack(s.came, env.start, env.end, path)
  {
    path := Reconstruct(came, env.start, env.end, env, s);
  }
}
