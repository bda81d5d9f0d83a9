/** What every run of the search returns: soundness, completeness, and optimality among straight walks. */
module SearchResults {
  import opened Common
  import opened Grid
  import opened Walk
  import opened Search

  ghost predicate NoRepeats(path: seq<Cell>) {
    forall i, j :: 0 <= i < j < |path| ==> path[i] != path[j]
  }

  /** path answers the question: a repeat-free usable walk inside the budget. */
  ghost predicate IsAnswer(env: Env, path: seq<Cell>) {
    && IsWalk(env.cells, path, env.start, env.end)
    && NoRepeats(path)
    && (env.maxCost.Some? ==> |path| - 1 <= env.maxCost.value)
  }

  // ---- Soundness, on every map ----

  /** Tracing back from a reached cell, the i-th cell of the path has g_score exactly i. */
  lemma {:induction false} ScoreIsPosition(env: Env, s: State, path: seq<Cell>, i: nat)
    requires Inv(env, s) && TracesBack(s.came, env.start, env.end, path)
    requires i < |path| && s.g[env.end] != INFINITY
    ensures s.g[path[i]] != INFINITY && s.g[path[i]] == s.g[env.end] - (|path| - 1 - i)
    ensures i > 0 ==> Edge(env.cells, path[i - 1], path[i]) && WithinBudget(env, s.g[path[i - 1]])
    decreases |path| - i
  {
    hide Edge, Heuristic, ClosedCount;
    if i + 1 < |path| {
      ScoreIsPosition(env, s, path, i + 1);
      assert CellInv(env, s, path[i + 1]) && CellInv(env, s, path[i]);
      ClosedAtMost(s.closed);
    }
    assert CellInv(env, s, path[i]);
  }

  lemma TracedPathIsAnswer(env: Env, s: State, path: seq<Cell>)
    requires Inv(env, s) && TracesBack(s.came, env.start, env.end, path)
    requires env.start != env.end && s.g[env.end] != INFINITY
    ensures IsAnswer(env, path) && |path| - 1 == s.g[env.end]
  {
    hide Edge, Inv;
    ScoreIsPosition(env, s, path, 0);
    assert s.g[env.start] == 0 by { StartScore(env, s); }
    assert |path| - 1 == s.g[env.end];
    forall i | 0 < i < |path| ensures Edge(env.cells, path[i - 1], path[i]) {
      ScoreIsPosition(env, s, path, i);
    }
    forall i, j | 0 <= i < j < |path| ensures path[i] != path[j] {
      ScoreIsPosition(env, s, path, i);
      ScoreIsPosition(env, s, path, j);
    }
    ScoreIsPosition(env, s, path, |path| - 1);
    ScoreIsPosition(env, s, path, |path| - 2);
  }

  lemma StartScore(env: Env, s: State)
    requires Inv(env, s)
    ensures s.g[env.start] == 0
  {
  }

  /** Whatever the map, a returned path is a usable, repeat-free walk within the budget. */
  lemma Sound(env: Env, path: seq<Cell>)
    requires env.start != env.end && Returns(env, Some(path))
    ensures IsAnswer(env, path)
  {
    hide IsAnswer, Inv, StateAfter, IsTrace;
    var trace, n :| IsTrace(env, trace) && IsMin(StateAfter(env, trace).open, n) && n.cell == env.end
                    && TracesBack(StateAfter(env, trace).came, env.start, env.end, path);
    RunKeepsInv(env, trace);
    PoppedIsReached(env, StateAfter(env, trace), n);
    TracedPathIsAnswer(env, StateAfter(env, trace), path);
  }

  lemma PoppedIsReached(env: Env, s: State, n: Node)
    requires Inv(env, s) && n in s.open
    ensures s.g[n.cell] != INFINITY && s.g[n.cell] + Heuristic(n.cell, env.end) <= n.f
  {
    hide Heuristic;
    assert EntryInv(env, s, n);
  }

  // ---- Completeness, on every map ----

  /** The first cell of w that is not closed; all cells before it are. */
  lemma {:induction false} FirstUnclosed(s: State, w: seq<Cell>, k: nat) returns (i: nat)
    requires k < |w| && !s.closed[w[|w| - 1]]
    requires forall j :: 0 <= j < k ==> s.closed[w[j]]
    ensures i < |w| && !s.closed[w[i]]
    ensures forall j :: 0 <= j < i ==> s.closed[w[j]]
    decreases |w| - k
  {
    if s.closed[w[k]] {
      i := FirstUnclosed(s, w, k + 1);
    } else {
      i := k;
    }
  }

  /** The step of a walk that leaves the closed set lands on a cell with a fresh heap entry. */
  lemma FrontierEntry(env: Env, s: State, w: seq<Cell>, b: Cell, i: nat)
    requires Inv(env, s) && IsWalk(env.cells, w, env.start, b)
    requires i < |w| && !s.closed[w[i]]
    requires i > 0 ==> s.closed[w[i - 1]] && WithinBudget(env, s.g[w[i - 1]]) && Frontier(env, s, w[i - 1])
    ensures s.g[w[i]] != INFINITY
    ensures Node(w[i], s.g[w[i]] + Heuristic(w[i], env.end)) in s.open
    ensures i == 0 ==> s.g[w[i]] == 0
    ensures i > 0 ==> s.g[w[i]] <= s.g[w[i - 1]] + 1
  {
    hide Edge, Heuristic, ClosedCount;
    ClosedAtMost(s.closed);
    assert CellInv(env, s, w[i]);
    if i > 0 {
      assert CellInv(env, s, w[i - 1]);
      assert Offered(env, s, w[i - 1], w[i]);
    }
  }

  /** Without a budget the answer None means that no walk to the destination exists. */
  lemma Complete(env: Env, w: seq<Cell>)
    requires env.start != env.end && env.maxCost.None? && Returns(env, None)
    ensures !IsWalk(env.cells, w, env.start, env.end)
  {
    hide Inv, StateAfter, IsTrace, Edge;
    var trace :| IsTrace(env, trace) && StateAfter(env, trace).open == multiset{};
    RunKeepsInv(env, trace);
    var s := StateAfter(env, trace);
    if IsWalk(env.cells, w, env.start, env.end) {
      EndIsOpen(env, s);
      var i := FirstUnclosed(s, w, 0);
      FrontierEntry(env, s, w, env.end, i);
    }
  }

  lemma EndIsOpen(env: Env, s: State)
    requires Inv(env, s)
    ensures !s.closed[env.end]
  {
  }

  // ---- Optimality among straight walks, on every map ----

  /** Closed cells are final: no straight walk reaches one in fewer steps than its g_score. */
  ghost predicate Final(env: Env, s: State, c: Cell) {
    s.closed[c] ==> forall w :: IsWalk(env.cells, w, env.start, c) && Straight(w, env.end) ==> s.g[c] <= |w| - 1
  }

  ghost predicate Frontiers(env: Env, s: State) {
    forall a: Cell :: Frontier(env, s, a)
  }

  ghost predicate AllFinal(env: Env, s: State) {
    forall a: Cell :: Final(env, s, a)
  }

  /** A straight walk that stays within the budget and ends outside the closed set crosses the heap on the way. */
  lemma CrossesHeap(env: Env, s: State, w: seq<Cell>, b: Cell) returns (i: nat)
    requires Inv(env, s) && Frontiers(env, s) && AllFinal(env, s)
    requires IsWalk(env.cells, w, env.start, b) && Straight(w, env.end) && !s.closed[b]
    requires env.maxCost.Some? ==> |w| - 1 <= env.maxCost.value
    ensures i < |w| && s.g[w[i]] <= i
    ensures Node(w[i], s.g[w[i]] + Heuristic(w[i], env.end)) in s.open
  {
    hide Inv, Edge, Heuristic, Straight;
    i := FirstUnclosed(s, w, 0);
    if i > 0 {
      WalkPrefix(env.cells, w, env.start, b, i);
      StraightPrefix(env.end, w, i);
      assert Final(env, s, w[i - 1]);
      assert s.g[w[i - 1]] <= |w[..i]| - 1;
      assert Frontier(env, s, w[i - 1]);
    }
    FrontierEntry(env, s, w, b, i);
  }

  /** An unclosed cell of minimal f already has at most the length of its shortest straight walk. */
  lemma MinimumIsFinal(env: Env, s: State, n: Node, w: seq<Cell>)
    requires Inv(env, s) && Frontiers(env, s) && AllFinal(env, s)
    requires IsMin(s.open, n) && !s.closed[n.cell] && n.cell != env.start
    requires IsWalk(env.cells, w, env.start, n.cell) && Straight(w, env.end)
    ensures s.g[n.cell] <= |w| - 1
  {
    hide Inv, Edge, Heuristic, IsWalk, Straight, Frontiers, AllFinal;
    PoppedIsReached(env, s, n);
    if |w| - 1 < s.g[n.cell] {
      ScoreInBudget(env, s, n.cell);
      var i := CrossesHeap(env, s, w, n.cell);
      HeuristicAlong(env.end, w, i);
      WalkEnds(env, w, n.cell);
    }
  }

  lemma ScoreInBudget(env: Env, s: State, c: Cell)
    requires Inv(env, s) && s.g[c] != INFINITY && c != env.start
    ensures env.maxCost.Some? ==> s.g[c] <= env.maxCost.value
  {
    hide Edge, Heuristic, ClosedCount;
    assert CellInv(env, s, c);
  }

  lemma PopKeepsFinal(env: Env, s: State, n: Node)
    requires Inv(env, s) && Frontiers(env, s) && AllFinal(env, s)
    requires IsMin(s.open, n) && n.cell != env.end
    ensures AllFinal(env, Pop(env, s, n))
  {
    hide Inv, Edge, Heuristic, IsWalk, Straight, Frontiers, Pop;
    PopKeepsInv(env, s, n);
    var t := Pop(env, s, n);
    forall c: Cell ensures Final(env, t, c) {
      assert Final(env, s, c);
      if c == n.cell && !s.closed[c] {
        forall w | IsWalk(env.cells, w, env.start, c) && Straight(w, env.end) ensures s.g[c] <= |w| - 1 {
          if c == env.start {
            StartScore(env, s);
            WalkEnds(env, w, c);
          } else {
            MinimumIsFinal(env, s, n, w);
          }
        }
      }
    }
  }

  lemma WalkEnds(env: Env, w: seq<Cell>, c: Cell)
    requires IsWalk(env.cells, w, env.start, c)
    ensures |w| > 0 && w[|w| - 1] == c
  {
  }

  lemma {:induction false} RunKeepsFinal(env: Env, trace: seq<Node>)
    requires env.start != env.end && IsTrace(env, trace)
    ensures AllFinal(env, StateAfter(env, trace))
  {
    hide Inv, Edge, Heuristic, IsWalk, Straight, Frontier, Pop, IsTrace;
    if trace != [] {
      TracePrefix(env, trace);
      var before := trace[..|trace| - 1];
      RunKeepsFinal(env, before);
      RunKeepsInv(env, before);
      PopKeepsFinal(env, StateAfter(env, before), trace[|trace| - 1]);
    }
  }

  /** On every map no straight walk, inside or outside the budget, is shorter than a returned path. */
  lemma Optimal(env: Env, path: seq<Cell>, w: seq<Cell>)
    requires env.start != env.end && Returns(env, Some(path))
    requires IsWalk(env.cells, w, env.start, env.end) && Straight(w, env.end)
    ensures |path| <= |w|
  {
    hide Inv, StateAfter, IsTrace, Straight, IsWalk, TracesBack, Frontier, Final, Heuristic;
    var trace, n :| IsTrace(env, trace) && IsMin(StateAfter(env, trace).open, n) && n.cell == env.end
                    && TracesBack(StateAfter(env, trace).came, env.start, env.end, path);
    var s := StateAfter(env, trace);
    RunKeepsInv(env, trace);
    RunKeepsFinal(env, trace);
    PoppedIsReached(env, s, n);
    TracedPathIsAnswer(env, s, path);
    EndIsOpen(env, s);
    MinimumIsFinal(env, s, n, w);
  }

  /** On every map the answer None means that no straight walk within the budget exists. */
  lemma BudgetComplete(env: Env, w: seq<Cell>)
    requires env.start != env.end && Returns(env, None)
    requires env.maxCost.Some? ==> |w| - 1 <= env.maxCost.value
    ensures !(IsWalk(env.cells, w, env.start, env.end) && Straight(w, env.end))
  {
    hide Inv, StateAfter, IsTrace, Straight, IsWalk, Frontier, Final, Heuristic;
    var trace :| IsTrace(env, trace) && StateAfter(env, trace).open == multiset{};
    var s := StateAfter(env, trace);
    RunKeepsInv(env, trace);
    RunKeepsFinal(env, trace);
    if IsWalk(env.cells, w, env.start, env.end) && Straight(w, env.end) {
      EndIsOpen(env, s);
      var i := CrossesHeap(env, s, w, env.end);
    }
  }
}
