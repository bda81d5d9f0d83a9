/** The A* search as a transition system over (g_score, came_from, closed, open), and what every run keeps. */
module Search {
  import opened Common
  import opened Grid
  import opened Walk

  const INFINITY := 0xFFFF_FFFF
  const NOWHERE := 0xFFFF

  datatype Env = Env(cells: Cells, start: Cell, end: Cell, maxCost: Option<nat>)

  datatype Node = Node(cell: Cell, f: nat)

  datatype Raw = Raw(g: seq<nat>, came: seq<nat>, closed: seq<bool>, open: multiset<Node>)

  type State = s: Raw |
    |s.g| == MAP_CELLS_COUNT && |s.came| == MAP_CELLS_COUNT && |s.closed| == MAP_CELLS_COUNT
    witness Raw(seq(MAP_CELLS_COUNT, _ => 0), seq(MAP_CELLS_COUNT, _ => 0),
                seq(MAP_CELLS_COUNT, _ => false), multiset{})

  predicate WithinBudget(env: Env, g: nat) {
    env.maxCost.Some? ==> g < env.maxCost.value
  }

  // ---- Transitions ----

  function Initial(env: Env): State {
    Raw(seq(MAP_CELLS_COUNT, _ => INFINITY)[env.start := 0], seq(MAP_CELLS_COUNT, _ => NOWHERE),
        seq(MAP_CELLS_COUNT, _ => false), multiset{Node(env.start, Heuristic(env.start, env.end))})
  }

  /** Offer neighbour n of the cell c being expanded. */
  function Relax(env: Env, s: State, c: Cell, n: Cell, d: nat): State
    requires d < 8
  {
    if s.closed[n] || !Passable(env.cells, c, n, d) || s.g[n] <= s.g[c] + 1 then s
    else
      s.(g := s.g[n := s.g[c] + 1],
         came := s.came[n := c],
         open := s.open + multiset{Node(n, s.g[c] + 1 + Heuristic(n, env.end))})
  }

  predicate AreDirections(nbrs: seq<(Cell, nat)>) {
    forall i :: 0 <= i < |nbrs| ==> nbrs[i].1 < 8
  }

  function RelaxAll(env: Env, s: State, c: Cell, nbrs: seq<(Cell, nat)>): State
    requires AreDirections(nbrs)
  {
    if nbrs == [] then s
    else
      var last := |nbrs| - 1;
      Relax(env, RelaxAll(env, s, c, nbrs[..last]), c, nbrs[last].0, nbrs[last].1)
  }

  lemma {:induction false} NeighboursAreDirections(c: Cell, k: nat)
    requires k <= 8
    ensures AreDirections(NeighboursUpTo(c, k))
  {
    hide NeighbourAt;
    if k > 0 {
      NeighboursAreDirections(c, k - 1);
    }
  }

  /** Take entry n off the heap; an unclosed cell is closed and, within the budget, expanded. */
  function Pop(env: Env, s: State, n: Node): State {
    var rest := s.(open := s.open - multiset{n});
    if s.closed[n.cell] then rest
    else
      var shut := rest.(closed := s.closed[n.cell := true]);
      if !WithinBudget(env, s.g[n.cell]) then shut
      else
        NeighboursAreDirections(n.cell, 8);
        RelaxAll(env, shut, n.cell, NeighboursUpTo(n.cell, 8))
  }

  ghost predicate IsMin(open: multiset<Node>, n: Node) {
    n in open && forall m :: m in open ==> n.f <= m.f
  }

  // ---- Runs: the sequence of popped entries determines the state ----

  function StateAfter(env: Env, trace: seq<Node>): State {
    if trace == [] then Initial(env)
    else Pop(env, StateAfter(env, trace[..|trace| - 1]), trace[|trace| - 1])
  }

  // ---- Scores only improve, and a predecessor is replaced only by a better one ----

  ghost predicate OnlyBetter(s: State, t: State) {
    && (forall c: Cell :: t.g[c] <= s.g[c] && (t.g[c] == s.g[c] ==> t.came[c] == s.came[c]))
    && forall c: Cell :: s.closed[c] ==> t.closed[c]
  }

  lemma {:induction false} RelaxAllImproves(env: Env, s: State, c: Cell, nbrs: seq<(Cell, nat)>)
    requires AreDirections(nbrs)
    ensures OnlyBetter(s, RelaxAll(env, s, c, nbrs))
  {
    hide Passable, Heuristic;
    if nbrs != [] {
      RelaxAllImproves(env, s, c, nbrs[..|nbrs| - 1]);
    }
  }

  lemma PopImproves(env: Env, s: State, n: Node)
    ensures OnlyBetter(s, Pop(env, s, n))
  {
    hide Passable, Heuristic, RelaxAll, NeighboursUpTo;
    if !s.closed[n.cell] && WithinBudget(env, s.g[n.cell]) {
      NeighboursAreDirections(n.cell, 8);
      var shut := s.(open := s.open - multiset{n}, closed := s.closed[n.cell := true]);
      RelaxAllImproves(env, shut, n.cell, NeighboursUpTo(n.cell, 8));
    }
  }

  /** Along every run: of two predecessors that offer the same score the earlier one stays. */
  lemma {:induction false} RunImproves(env: Env, trace: seq<Node>, i: nat)
    requires i <= |trace|
    ensures OnlyBetter(StateAfter(env, trace[..i]), StateAfter(env, trace))
    decreases |trace|
  {
    hide Pop, Initial;
    if i < |trace| {
      var before := trace[..|trace| - 1];
      assert before[..i] == trace[..i];
      RunImproves(env, before, i);
      PopImproves(env, StateAfter(env, before), trace[|trace| - 1]);
    } else {
      assert trace[..i] == trace;
    }
  }

  /** Every popped entry had minimal f (ties are open) and none was the destination. */
  ghost predicate IsTrace(env: Env, trace: seq<Node>) {
    forall i :: 0 <= i < |trace| ==> IsMin(StateAfter(env, trace[..i]).open, trace[i]) && trace[i].cell != env.end
  }

  /** path follows came_from back from end to start. */
  ghost predicate TracesBack(came: seq<nat>, start: Cell, end: Cell, path: seq<Cell>)
    requires |came| == MAP_CELLS_COUNT
  {
    && path != []
    && path[0] == start
    && path[|path| - 1] == end
    && forall i :: 0 < i < |path| ==> path[i] != start && came[path[i]] == path[i - 1]
  }

  /** Some run of the search ends with answer r. */
  ghost predicate Returns(env: Env, r: Option<seq<Cell>>) {
    match r
    case None => exists trace :: IsTrace(env, trace) && StateAfter(env, trace).open == multiset{}
    case Some(path) => exists trace, n ::
      && IsTrace(env, trace)
      && IsMin(StateAfter(env, trace).open, n)
      && n.cell == env.end
      && TracesBack(StateAfter(env, trace).came, env.start, env.end, path)
  }

  // ---- Invariants on every map ----

  function ClosedCount(closed: seq<bool>): nat {
    if closed == [] then 0
    else ClosedCount(closed[..|closed| - 1]) + if closed[|closed| - 1] then 1 else 0
  }

  lemma {:induction false} CloseOne(closed: seq<bool>, i: nat)
    requires i < |closed| && !closed[i]
    ensures ClosedCount(closed[i := true]) == ClosedCount(closed) + 1
    ensures ClosedCount(closed) < |closed|
  {
    var last := |closed| - 1;
    if i == last {
      assert closed[i := true][..last] == closed[..last];
      ClosedAtMost(closed[..last]);
    } else {
      assert closed[i := true][..last] == closed[..last][i := true];
      CloseOne(closed[..last], i);
    }
  }

  lemma {:induction false} ClosedAtMost(closed: seq<bool>)
    ensures ClosedCount(closed) <= |closed|
  {
    if closed != [] {
      ClosedAtMost(closed[..|closed| - 1]);
    }
  }

  /** A reached cell other than the start hangs one step below an expanded cell. */
  ghost predicate Linked(env: Env, s: State, c: Cell) {
    && s.came[c] < MAP_CELLS_COUNT
    && s.closed[s.came[c]]
    && WithinBudget(env, s.g[s.came[c]])
    && s.g[c] == s.g[s.came[c]] + 1
    && Edge(env.cells, s.came[c], c)
  }

  ghost predicate CellInv(env: Env, s: State, c: Cell) {
    && (s.closed[c] ==> s.g[c] < ClosedCount(s.closed))
    && (s.g[c] != INFINITY ==> s.g[c] <= ClosedCount(s.closed))
    && (s.g[c] != INFINITY && !s.closed[c] ==> Node(c, s.g[c] + Heuristic(c, env.end)) in s.open)
    && (s.g[c] != INFINITY && c != env.start ==> Linked(env, s, c))
  }

  ghost predicate EntryInv(env: Env, s: State, n: Node) {
    s.g[n.cell] != INFINITY && s.g[n.cell] + Heuristic(n.cell, env.end) <= n.f
  }

  ghost predicate Inv(env: Env, s: State) {
    && s.g[env.start] == 0
    && !s.closed[env.end]
    && (forall c: Cell :: CellInv(env, s, c))
    && (forall n :: n in s.open ==> EntryInv(env, s, n))
  }

  /** The moves out of a are accounted for: each target is closed or at most one step further. */
  ghost predicate Offered(env: Env, s: State, a: Cell, b: Cell) {
    s.closed[b] || s.g[b] <= s.g[a] + 1
  }

  ghost predicate Frontier(env: Env, s: State, a: Cell) {
    s.closed[a] && WithinBudget(env, s.g[a]) ==>
      forall b: Cell :: Edge(env.cells, a, b) ==> Offered(env, s, a, b)
  }

  /** How a stretch of relaxations from c may change the state. */
  ghost predicate Improves(s: State, t: State) {
    && t.closed == s.closed
    && (forall b: Cell :: t.g[b] <= s.g[b])
    && (forall b: Cell :: s.closed[b] ==> t.g[b] == s.g[b])
  }

  lemma RelaxImproves(env: Env, s: State, c: Cell, n: Cell, d: nat)
    requires d < 8
    ensures Improves(s, Relax(env, s, c, n, d))
    ensures Passable(env.cells, c, n, d) && s.closed[c] ==> Offered(env, Relax(env, s, c, n, d), c, n)
  {
    hide Passable, Heuristic;
  }

  lemma RelaxKeepsInv(env: Env, s: State, c: Cell, n: Cell, d: nat)
    requires Inv(env, s) && s.closed[c] && WithinBudget(env, s.g[c])
    requires d < 8 && NeighbourAt(c, d) == Some(n)
    ensures Inv(env, Relax(env, s, c, n, d))
  {
    hide Passable, Heuristic, NeighbourAt, ClosedCount, CellInv, EntryInv;
    var t := Relax(env, s, c, n, d);
    if t != s {
      assert Edge(env.cells, c, n);
      RelaxKeepsStart(env, s, c, n, d);
      forall b: Cell ensures CellInv(env, t, b) {
        assert CellInv(env, s, b) && CellInv(env, s, c);
        RelaxKeepsCell(env, s, c, n, d, b);
      }
      forall m | m in t.open ensures EntryInv(env, t, m) {
        RelaxKeepsEntry(env, s, c, n, d, m);
      }
    }
  }

  lemma RelaxKeepsStart(env: Env, s: State, c: Cell, n: Cell, d: nat)
    requires d < 8 && s.g[env.start] == 0
    ensures Relax(env, s, c, n, d).g[env.start] == 0
  {
    hide Passable, Heuristic;
  }

  lemma RelaxKeepsCell(env: Env, s: State, c: Cell, n: Cell, d: nat, b: Cell)
    requires s.closed[c] && WithinBudget(env, s.g[c])
    requires d < 8 && Edge(env.cells, c, n)
    requires CellInv(env, s, b) && CellInv(env, s, c)
    requires Relax(env, s, c, n, d) != s
    ensures CellInv(env, Relax(env, s, c, n, d), b)
  {
    hide Passable, Heuristic, Edge, ClosedCount;
    ClosedAtMost(s.closed);
  }

  lemma RelaxKeepsEntry(env: Env, s: State, c: Cell, n: Cell, d: nat, m: Node)
    requires d < 8 && s.closed[c] && CellInv(env, s, c)
    requires m in s.open ==> EntryInv(env, s, m)
    requires m in Relax(env, s, c, n, d).open
    ensures EntryInv(env, Relax(env, s, c, n, d), m)
  {
    hide Passable, Heuristic, ClosedCount;
    ClosedAtMost(s.closed);
  }

  /** A stretch of relaxations from c: the invariant stays and every passable neighbour is offered. */
  lemma {:induction false} RelaxAllKeepsInv(env: Env, s: State, c: Cell, k: nat)
    requires Inv(env, s) && s.closed[c] && WithinBudget(env, s.g[c])
    requires k <= 8
    ensures AreDirections(NeighboursUpTo(c, k))
    ensures var t := RelaxAll(env, s, c, NeighboursUpTo(c, k));
            && Inv(env, t) && Improves(s, t)
            && forall b: Cell, d: nat ::
                 d < k && NeighbourAt(c, d) == Some(b) && Passable(env.cells, c, b, d) ==> Offered(env, t, c, b)
  {
    hide Passable, Heuristic, NeighbourAt, ClosedCount, Inv, Relax;
    NeighboursAreDirections(c, k);
    if k > 0 {
      RelaxAllKeepsInv(env, s, c, k - 1);
      var nbrs := NeighboursUpTo(c, k - 1);
      match NeighbourAt(c, k - 1)
      case None =>
      case Some(n) =>
        var t := RelaxAll(env, s, c, nbrs);
        assert (nbrs + [(n, k - 1)])[..|nbrs|] == nbrs;
        RelaxKeepsInv(env, t, c, n, k - 1);
        RelaxImproves(env, t, c, n, k - 1);
    }
  }

  /** Closing the popped cell keeps the invariant; only then is it expanded. */
  lemma CloseKeepsInv(env: Env, s: State, n: Node)
    requires Inv(env, s) && n in s.open && n.cell != env.end && !s.closed[n.cell]
    ensures Inv(env, s.(open := s.open - multiset{n}, closed := s.closed[n.cell := true]))
  {
    hide Heuristic, Edge, ClosedCount;
    CloseOne(s.closed, n.cell);
    ClosedAtMost(s.closed);
    assert EntryInv(env, s, n);
    var t := s.(open := s.open - multiset{n}, closed := s.closed[n.cell := true]);
    forall b: Cell ensures CellInv(env, t, b) {
      assert CellInv(env, s, b);
    }
    forall m | m in t.open ensures EntryInv(env, t, m) {
      assert EntryInv(env, s, m);
    }
  }

  /** Dropping an entry of a closed cell keeps the invariant. */
  lemma DropKeepsInv(env: Env, s: State, n: Node)
    requires Inv(env, s) && s.closed[n.cell]
    ensures Inv(env, s.(open := s.open - multiset{n}))
  {
    hide Heuristic, Edge, ClosedCount;
    var t := s.(open := s.open - multiset{n});
    forall b: Cell ensures CellInv(env, t, b) {
      assert CellInv(env, s, b);
    }
    forall m | m in t.open ensures EntryInv(env, t, m) {
      assert EntryInv(env, s, m);
    }
  }

  lemma ImprovesKeepsFrontier(env: Env, s: State, t: State, a: Cell)
    requires Improves(s, t) && Frontier(env, s, a)
    ensures Frontier(env, t, a)
  {
    hide Edge;
  }

  lemma PopKeepsFrontier(env: Env, s: State, n: Node, a: Cell)
    requires Inv(env, s) && n in s.open && n.cell != env.end && Frontier(env, s, a)
    ensures Frontier(env, Pop(env, s, n), a)
  {
    hide Heuristic, NeighbourAt, ClosedCount, NeighboursUpTo, Passable, RelaxAll, Inv;
    if !s.closed[n.cell] && WithinBudget(env, s.g[n.cell]) {
      CloseKeepsInv(env, s, n);
      var t := s.(open := s.open - multiset{n}, closed := s.closed[n.cell := true]);
      RelaxAllKeepsInv(env, t, n.cell, 8);
      if a != n.cell {
        assert Frontier(env, t, a);
        ImprovesKeepsFrontier(env, t, Pop(env, s, n), a);
      }
    }
  }

  lemma PopKeepsInv(env: Env, s: State, n: Node)
    requires Inv(env, s) && n in s.open && n.cell != env.end
    ensures Inv(env, Pop(env, s, n))
    ensures s.closed[n.cell] ==> Pop(env, s, n) == s.(open := s.open - multiset{n})
    ensures !s.closed[n.cell] ==> Improves(s.(closed := s.closed[n.cell := true]), Pop(env, s, n))
  {
    hide Heuristic, NeighbourAt, ClosedCount, NeighboursUpTo, Passable, RelaxAll, Inv;
    if s.closed[n.cell] {
      DropKeepsInv(env, s, n);
    } else {
      CloseKeepsInv(env, s, n);
      var t := s.(open := s.open - multiset{n}, closed := s.closed[n.cell := true]);
      if WithinBudget(env, s.g[n.cell]) {
        RelaxAllKeepsInv(env, t, n.cell, 8);
      }
    }
  }

  lemma InitialInv(env: Env)
    requires env.start != env.end
    ensures Inv(env, Initial(env))
  {
    hide Heuristic, Edge;
    var s := Initial(env);
    forall c: Cell ensures CellInv(env, s, c) {}
  }

  /** Every reachable state satisfies the invariant and the frontier property. */
  lemma {:induction false} RunKeepsInv(env: Env, trace: seq<Node>)
    requires env.start != env.end && IsTrace(env, trace)
    ensures Inv(env, StateAfter(env, trace))
    ensures forall a: Cell :: Frontier(env, StateAfter(env, trace), a)
  {
    hide Heuristic, Pop, Inv, Initial;
    if trace == [] {
      InitialInv(env);
      InitialFrontier(env);
    } else {
      TracePrefix(env, trace);
      var before := trace[..|trace| - 1];
      RunKeepsInv(env, before);
      var s, n := StateAfter(env, before), trace[|trace| - 1];
      PopKeepsInv(env, s, n);
      forall a: Cell ensures Frontier(env, Pop(env, s, n), a) {
        PopKeepsFrontier(env, s, n, a);
      }
    }
  }

  lemma InitialFrontier(env: Env)
    ensures forall a: Cell :: Frontier(env, Initial(env), a)
  {
    hide Heuristic, Edge;
  }

  lemma TracePrefix(env: Env, trace: seq<Node>)
    requires IsTrace(env, trace) && trace != []
    ensures IsTrace(env, trace[..|trace| - 1])
    ensures IsMin(StateAfter(env, trace[..|trace| - 1]).open, trace[|trace| - 1])
    ensures trace[|trace| - 1].cell != env.end
  {
    hide Pop, Initial, StateAfter;
    var before := trace[..|trace| - 1];
    forall i | 0 <= i < |before|
      ensures IsMin(StateAfter(env, before[..i]).open, before[i]) && before[i].cell != env.end
    {
      assert before[..i] == trace[..i];
    }
  }
}
