// Memoised minimum-move search (dp): the best solution from a board is the
// best over its neighbours of one more move, failures are cached as None, and
// no guard against revisiting is needed because every move lowers the
// potential.

module Dp {
  import opened Wrappers
  import opened Board
  import opened Moves
  import opened Paths

  /** A result of dp: the number of moves and the boards visited. */
  datatype Solution = Solution(steps: nat, path: seq<State>)

  /** The fold step of the loop: a solution from a neighbour replaces the
      current best only when it is strictly shorter, so the first of equally
      short options is kept. */
  function Improve(s: State, best: Option<Solution>, result: Option<Solution>): Option<Solution>
  {
    match result
    case None => best
    case Some(sol) =>
      if best.None? || sol.steps + 1 < best.value.steps then Some(Solution(sol.steps + 1, [s] + sol.path))
      else best
  }

  /** The result dp computes for s, as a function: the goal itself in zero
      moves, otherwise the fold of Improve over all neighbours in order. */
  function Best(s: State, goal: State): Option<Solution>
    decreases Potential(s), 1
  {
    if s == goal then Some(Solution(0, [s]))
    else BestAmong(s, goal, |Neighbors(s)|)
  }

  /** The fold over the first k neighbours of s. */
  function BestAmong(s: State, goal: State, k: nat): Option<Solution>
    requires k <= |Neighbors(s)|
    decreases Potential(s), 0, k
  {
    if k == 0 then None
    else
      var n := Neighbors(s)[k - 1];
      NeighborPotential(s, n);
      Improve(s, BestAmong(s, goal, k - 1), Best(n, goal))
  }

  /** sol describes a walk of sol.steps moves from s to goal. */
  predicate Describes(sol: Solution, s: State, goal: State)
  {
    |sol.path| == sol.steps + 1 && PathFromTo(sol.path, s, goal)
  }

  lemma {:induction false} BestSound(s: State, goal: State)
    ensures Best(s, goal).Some? ==> Describes(Best(s, goal).value, s, goal)
    decreases Potential(s), 1
  {
    if s != goal {
      BestAmongSound(s, goal, |Neighbors(s)|);
    } else {
      assert PathFromTo([s], s, goal);
    }
  }

  lemma {:induction false} BestAmongSound(s: State, goal: State, k: nat)
    requires k <= |Neighbors(s)|
    ensures BestAmong(s, goal, k).Some? ==> Describes(BestAmong(s, goal, k).value, s, goal)
    decreases Potential(s), 0, k
  {
    if k > 0 {
      var n := Neighbors(s)[k - 1];
      NeighborPotential(s, n);
      BestAmongSound(s, goal, k - 1);
      BestSound(n, goal);
      var r := Best(n, goal);
      if r.Some? && BestAmong(s, goal, k) != BestAmong(s, goal, k - 1) {
        PathCons(s, r.value.path);
      }
    }
  }

  /** The fold over more neighbours is never worse. */
  lemma {:induction false} BestAmongCovers(s: State, goal: State, k: nat, i: nat)
    requires i < k <= |Neighbors(s)| && Best(Neighbors(s)[i], goal).Some?
    ensures BestAmong(s, goal, k).Some?
    ensures BestAmong(s, goal, k).value.steps <= Best(Neighbors(s)[i], goal).value.steps + 1
  {
    if i < k - 1 {
      BestAmongCovers(s, goal, k - 1, i);
    }
  }

  /** No walk from s to goal has fewer moves than Best says, and any walk
      means Best finds one. */
  lemma {:induction false} BestOptimal(s: State, goal: State, p: seq<State>)
    requires PathFromTo(p, s, goal)
    ensures Best(s, goal).Some? && Best(s, goal).value.steps + 1 <= |p|
    decreases Potential(s)
  {
    if s != goal {
      assert |p| >= 2;
      var n := p[1];
      assert n in Neighbors(s);
      NeighborPotential(s, n);
      PathPrefixFrom(p, 1);
      BestOptimal(n, goal, p[1..]);
      var i :| 0 <= i < |Neighbors(s)| && Neighbors(s)[i] == n;
      BestAmongCovers(s, goal, |Neighbors(s)|, i);
    }
  }

  /** dp returns None exactly when goal cannot be reached. */
  lemma BestNoneIffUnreachable(s: State, goal: State)
    ensures Best(s, goal).None? <==> !Reachable(s, goal)
  {
    BestSound(s, goal);
    if p :| PathFromTo(p, s, goal) {
      BestOptimal(s, goal, p);
    }
  }

  /** Neighbour i of s is the one the fold over the first k picks: its
      solution is at least as short as every other and strictly shorter than
      every earlier one. */
  ghost predicate FirstMinimal(s: State, goal: State, k: nat, i: nat)
  {
    && i < k <= |Neighbors(s)|
    && var r := Best(Neighbors(s)[i], goal);
    && r.Some?
    && BestAmong(s, goal, k) == Some(Solution(r.value.steps + 1, [s] + r.value.path))
    && (forall j :: 0 <= j < k && Best(Neighbors(s)[j], goal).Some? ==>
          r.value.steps <= Best(Neighbors(s)[j], goal).value.steps)
    && (forall j :: 0 <= j < i && Best(Neighbors(s)[j], goal).Some? ==>
          r.value.steps < Best(Neighbors(s)[j], goal).value.steps)
  }

  /** When the k-th neighbour does not improve the fold, the earlier pick stays. */
  lemma FirstMinimalKept(s: State, goal: State, k: nat, i: nat)
    requires 0 < k <= |Neighbors(s)| && FirstMinimal(s, goal, k - 1, i)
    requires BestAmong(s, goal, k) == BestAmong(s, goal, k - 1)
    ensures FirstMinimal(s, goal, k, i)
  {
    var ns := Neighbors(s);
    var steps := Best(ns[i], goal).value.steps;
    var last := Best(ns[k - 1], goal);
    assert BestAmong(s, goal, k) == Improve(s, BestAmong(s, goal, k - 1), last);
    assert last.Some? ==> steps <= last.value.steps;
  }

  /** When the k-th neighbour improves the fold, it becomes the pick. */
  lemma FirstMinimalNew(s: State, goal: State, k: nat)
    requires 0 < k <= |Neighbors(s)|
    requires BestAmong(s, goal, k) != BestAmong(s, goal, k - 1)
    ensures FirstMinimal(s, goal, k, k - 1)
  {
    var ns := Neighbors(s);
    var prev := BestAmong(s, goal, k - 1);
    var last := Best(ns[k - 1], goal);
    assert BestAmong(s, goal, k) == Improve(s, prev, last);
    assert last.Some? && (prev.None? || last.value.steps + 1 < prev.value.steps);
    forall j | 0 <= j < k - 1 && Best(ns[j], goal).Some?
      ensures last.value.steps < Best(ns[j], goal).value.steps
    {
      BestAmongCovers(s, goal, k - 1, j);
    }
  }

  lemma {:induction false} BestAmongFirstMinimal(s: State, goal: State, k: nat)
    requires k <= |Neighbors(s)| && BestAmong(s, goal, k).Some?
    ensures exists i :: FirstMinimal(s, goal, k, i)
  {
    if BestAmong(s, goal, k) == BestAmong(s, goal, k - 1) {
      BestAmongFirstMinimal(s, goal, k - 1);
      var i :| FirstMinimal(s, goal, k - 1, i);
      FirstMinimalKept(s, goal, k, i);
    } else {
      FirstMinimalNew(s, goal, k);
    }
  }

  /** The tie-break of dp: its path goes through the first neighbour, in
      generation order, whose solution is shortest. */
  lemma BestTieBreak(s: State, goal: State)
    requires s != goal && Best(s, goal).Some?
    ensures exists i :: FirstMinimal(s, goal, |Neighbors(s)|, i)
  {
    BestAmongFirstMinimal(s, goal, |Neighbors(s)|);
  }

  /** The memo table, owned by the caller and filled in place by every level
      of the recursion. */
  class Memo {
    var entries: map<State, Option<Solution>>

    constructor()
      ensures entries == map[]
    {
      entries := map[];
    }

  }

  /** Every cached result is the right one for its board. */
  ghost predicate Cached(entries: map<State, Option<Solution>>, goal: State)
  {
    forall k :: k in entries ==> entries[k] == Best(k, goal)
  }

  /** entries1 keeps every entry of entries0 unchanged, and holds goal only
      if entries0 did. */
  ghost predicate Keeps(entries0: map<State, Option<Solution>>, entries1: map<State, Option<Solution>>, goal: State)
  {
    && (forall k :: k in entries0 ==> k in entries1 && entries1[k] == entries0[k])
    && (goal in entries1 ==> goal in entries0)
  }

  lemma KeepsTransitive(e0: map<State, Option<Solution>>, e1: map<State, Option<Solution>>,
                        e2: map<State, Option<Solution>>, goal: State)
    requires Keeps(e0, e1, goal) && Keeps(e1, e2, goal)
    ensures Keeps(e0, e2, goal)
  {
  }

  /** Storing the right result for a board that is not the goal keeps the
      cache right. */
  lemma StoreCached(entries: map<State, Option<Solution>>, goal: State, s: State)
    requires Cached(entries, goal) && s != goal
    ensures Cached(entries[s := Best(s, goal)], goal)
    ensures Keeps(entries, entries[s := Best(s, goal)], goal)
  {
  }

  /** The loop's best and best_path read as one optional solution. */
  function Current(best: Option<nat>, bestPath: seq<State>): Option<Solution>
  {
    if best.None? then None else Some(Solution(best.value, bestPath))
  }

  /** One iteration of the loop of dp is one step of the fold. */
  lemma FoldStep(s: State, goal: State, j: nat, best: Option<nat>, bestPath: seq<State>,
                 result: Option<Solution>, best': Option<nat>, bestPath': seq<State>)
    requires j < |Neighbors(s)| && Current(best, bestPath) == BestAmong(s, goal, j)
    requires result == Best(Neighbors(s)[j], goal)
    requires Current(best', bestPath') == Improve(s, Current(best, bestPath), result)
    ensures Current(best', bestPath') == BestAmong(s, goal, j + 1)
  {
  }

  /** dp: returns the best solution from state, reusing and extending the
      memo; existing entries are never changed, state gets an entry unless it
      is the goal, and the goal never gets one. */
  method Dp(state: State, goal: State, memo: Memo) returns (r: Option<Solution>)
    requires Cached(memo.entries, goal)
    modifies memo
    decreases Potential(state)
    ensures r == Best(state, goal)
    ensures Cached(memo.entries, goal)
    ensures Keeps(old(memo.entries), memo.entries, goal)
    ensures state != goal ==> state in memo.entries
  {
    if state == goal {
      return Some(Solution(0, [state]));
    }
    if state in memo.entries {
      return memo.entries[state];
    }
    var best: Option<nat> := None;
    var bestPath: seq<State> := [];
    var neighbors := GetNeighbors(state);
    for j := 0 to |neighbors|
      invariant Cached(memo.entries, goal)
      invariant Keeps(old(memo.entries), memo.entries, goal)
      invariant Current(best, bestPath) == BestAmong(state, goal, j)
    {
      var next := neighbors[j];
      NeighborPotential(state, next);
      ghost var entries0 := memo.entries;
      var result := Dp(next, goal, memo);
      KeepsTransitive(old(memo.entries), entries0, memo.entries, goal);
      ghost var best0, bestPath0 := best, bestPath;
      if result.Some? {
        var steps, path := result.value.steps, result.value.path;
        if best.None? || steps + 1 < best.value {
          best := Some(steps + 1);
          bestPath := [state] + path;
        }
      }
      FoldStep(state, goal, j, best0, bestPath0, result, best, bestPath);
    }
    r := if best.Some? then Some(Solution(best.value, bestPath)) else None;
    StoreCached(memo.entries, goal, state);
    KeepsTransitive(old(memo.entries), memo.entries, memo.entries[state := r], goal);
    memo.entries := memo.entries[state := r];
  }

  /** The top-level call with an empty memo. A solution is a shortest walk
      from initial to goal with steps counting its moves; None means goal is
      unreachable. */
  method DpSolve(initial: State, goal: State) returns (r: Option<Solution>)
    ensures r.Some? ==> |r.value.path| == r.value.steps + 1 && PathFromTo(r.value.path, initial, goal)
    ensures r.Some? ==> forall p :: PathFromTo(p, initial, goal) ==> r.value.steps + 1 <= |p|
    ensures r.None? <==> !Reachable(initial, goal)
    ensures initial == goal ==> r == Some(Solution(0, [initial]))
  {
    var memo := new Memo();
    r := Dp(initial, goal, memo);
    BestSound(initial, goal);
    BestNoneIffUnreachable(initial, goal);
    forall p | PathFromTo(p, initial, goal) ensures r.Some? && r.value.steps + 1 <= |p| {
      BestOptimal(initial, goal, p);
    }
  }
}
