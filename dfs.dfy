// Depth-first search (dfs): a recursive search that shares one visited set
// across the whole search. A board is marked before it is descended into and
// is never unmarked, so each board is searched at most once; the search is
// still complete, because a failed board has all its neighbours marked.

module Dfs {
  import opened Wrappers
  import opened Board
  import opened Moves
  import opened Paths

  /** The visited set that every level of the recursion updates in place,
      with a ghost set of the boards the search has been called on. */
  class VisitedSet {
    var members: set<State>
    ghost var searched: set<State>

    constructor(initial: State)
      ensures members == {initial} && searched == {}
    {
      members := {initial};
      searched := {};
    }
  }

  /** What a search call gives back: its result and the visited set after it. */
  datatype Outcome = Outcome(result: Option<seq<State>>, members: set<State>)

  /** The search from state with visited set V, as dfs runs it: goal returns
      path; otherwise the neighbours are tried in get_neighbors order. */
  function Search(state: State, goal: State, path: seq<State>, V: set<State>): Outcome
    decreases Potential(state), 1, 0
  {
    if state == goal then Outcome(Some(path), V)
    else SearchFrom(state, goal, path, 0, V)
  }

  /** The loop of dfs from the j-th neighbour on: a marked neighbour is
      skipped; an unmarked one is marked and searched, and the first success
      is the result. */
  function SearchFrom(state: State, goal: State, path: seq<State>, j: nat, V: set<State>): Outcome
    decreases Potential(state), 0, |Neighbors(state)| - j
  {
    if j >= |Neighbors(state)| then Outcome(None, V)
    else
      var next := Neighbors(state)[j];
      if next in V then SearchFrom(state, goal, path, j + 1, V)
      else
        NeighborPotential(state, next);
        var o := Search(next, goal, path + [next], V + {next});
        if o.result.Some? then o else SearchFrom(state, goal, path, j + 1, o.members)
  }

  /** One step of SearchFrom: skip a marked neighbour, or search an unmarked
      one and stop at its success. */
  lemma SearchFromStep(state: State, goal: State, path: seq<State>, j: nat, V: set<State>)
    requires j < |Neighbors(state)|
    ensures var next := Neighbors(state)[j];
      && (next in V ==> SearchFrom(state, goal, path, j, V) == SearchFrom(state, goal, path, j + 1, V))
      && (next !in V ==>
            var o := Search(next, goal, path + [next], V + {next});
            SearchFrom(state, goal, path, j, V) ==
              if o.result.Some? then o else SearchFrom(state, goal, path, j + 1, o.members))
  {
  }

  /** All neighbours of x are in V: x has been fully expanded against V. */
  ghost predicate Expanded(x: State, V: set<State>)
  {
    forall y :: y in Neighbors(x) ==> y in V
  }

  lemma ExpandedMonotone(x: State, V: set<State>, W: set<State>)
    requires Expanded(x, V) && V <= W
    ensures Expanded(x, W)
  {
  }

  /** Every board marked since members0 is not the goal and is fully expanded. */
  ghost predicate Exhausted(members0: set<State>, members: set<State>, goal: State)
  {
    forall x :: x in members && x !in members0 ==> x != goal && Expanded(x, members)
  }

  /** A failed recursive call on next keeps the caller's failure facts. */
  lemma ExhaustedStep(members0: set<State>, membersBefore: set<State>, next: State,
                      members: set<State>, goal: State)
    requires Exhausted(members0, membersBefore, goal) && members0 <= membersBefore
    requires membersBefore + {next} <= members
    requires next != goal && Expanded(next, members)
    requires Exhausted(membersBefore + {next}, members, goal)
    ensures Exhausted(members0, members, goal)
  {
    forall x | x in members && x !in members0 ensures x != goal && Expanded(x, members) {
      if x in membersBefore {
        ExpandedMonotone(x, membersBefore, members);
      }
    }
  }

  /** A path found from a neighbour extends to one from state. */
  lemma FoundThroughNeighbor(state: State, next: State, goal: State, path: seq<State>, p: seq<State>)
    requires next in Neighbors(state)
    requires |p| >= |path| + 1 && p[..|path| + 1] == path + [next]
    requires PathFromTo([next] + p[|path| + 1..], next, goal)
    ensures p[..|path|] == path && PathFromTo([state] + p[|path|..], state, goal)
  {
    assert p[..|path|] == p[..|path| + 1][..|path|];
    assert p[|path|..] == [next] + p[|path| + 1..];
    PathCons(state, [next] + p[|path| + 1..]);
  }

  /** The loop invariant of dfs: the visited set only grew, state and every
      newly marked board has been searched, and every newly marked board has
      failed. */
  ghost predicate SoFar(members0: set<State>, searched0: set<State>, state: State, goal: State,
                        members: set<State>, searched: set<State>)
  {
    && members0 <= members
    && searched0 + {state} <= searched <= members
    && members - members0 <= searched
    && Exhausted(members0, members, goal)
  }

  /** A failed recursive call on a newly marked neighbour keeps the loop invariant. */
  lemma SoFarStep(members0: set<State>, searched0: set<State>, state: State, goal: State,
                  membersBefore: set<State>, searchedBefore: set<State>, next: State,
                  members: set<State>, searched: set<State>)
    requires SoFar(members0, searched0, state, goal, membersBefore, searchedBefore)
    requires membersBefore + {next} <= members
    requires searchedBefore + {next} <= searched <= members
    requires members - (membersBefore + {next}) <= searched
    requires next != goal && Expanded(next, members)
    requires Exhausted(membersBefore + {next}, members, goal)
    ensures SoFar(members0, searched0, state, goal, members, searched)
  {
    ExhaustedStep(members0, membersBefore, next, members, goal);
  }

  /** The search from state, which the caller has marked and which has not
      been searched before: every call, the recursive ones included, is on a
      new board. A result extends path by a walk from state to goal; goal
      itself returns path unchanged. The visited set only grows, and every
      board it gains is searched. On failure, state and every newly marked
      board is not the goal and has all its neighbours marked. The result
      and the final visited set are those of Search, so the neighbours are
      tried in get_neighbors order and the first success is returned. */
  method Dfs(state: State, goal: State, path: seq<State>, visited: VisitedSet)
    returns (r: Option<seq<State>>)
    requires state in visited.members && state !in visited.searched
    requires visited.searched <= visited.members
    modifies visited
    decreases Potential(state)
    ensures old(visited.members) <= visited.members
    ensures old(visited.searched) + {state} <= visited.searched <= visited.members
    ensures visited.members - old(visited.members) <= visited.searched
    ensures state == goal ==> r == Some(path)
    ensures r.Some? ==>
      && |r.value| >= |path| && r.value[..|path|] == path
      && PathFromTo([state] + r.value[|path|..], state, goal)
    ensures r.None? ==> state != goal && Expanded(state, visited.members)
    ensures r.None? ==> Exhausted(old(visited.members), visited.members, goal)
    ensures Outcome(r, visited.members) == Search(state, goal, path, old(visited.members))
  {
    visited.searched := visited.searched + {state};
    if state == goal {
      assert path[|path|..] == [];
      assert PathFromTo([state], state, goal);
      return Some(path);
    }
    var neighbors := GetNeighbors(state);
    ghost var members0, searched0 := old(visited.members), old(visited.searched);
    for j := 0 to |neighbors|
      invariant SoFar(members0, searched0, state, goal, visited.members, visited.searched)
      invariant forall k :: 0 <= k < j ==> neighbors[k] in visited.members
      invariant SearchFrom(state, goal, path, j, visited.members) == Search(state, goal, path, members0)
    {
      var next := neighbors[j];
      SearchFromStep(state, goal, path, j, visited.members);
      if next !in visited.members {
        ghost var membersBefore, searchedBefore := visited.members, visited.searched;
        visited.members := visited.members + {next};
        NeighborPotential(state, next);
        var result := Dfs(next, goal, path + [next], visited);
        if result.Some? {
          FoundThroughNeighbor(state, next, goal, path, result.value);
          return result;
        }
        SoFarStep(members0, searched0, state, goal, membersBefore, searchedBefore, next,
                  visited.members, visited.searched);
      }
    }
    return None;
  }

  /** The top-level call with the visited set {initial}. A found path runs
      from initial to goal without repeating a board. Every board of the
      final visited set was searched, each once. On failure that set holds
      initial, not goal, and is closed under moves, so goal is unreachable.
      The result is that of Search from initial with the visited set {initial}. */
  method DfsSearch(initial: State, goal: State)
    returns (r: Option<seq<State>>, visitedOut: set<State>, ghost searched: set<State>)
    ensures r.Some? ==> PathFromTo(r.value, initial, goal) && NoDup(r.value)
    ensures r.None? <==> !Reachable(initial, goal)
    ensures initial == goal ==> r == Some([initial])
    ensures r.None? ==> initial in visitedOut && goal !in visitedOut && NeighborsIn(visitedOut, visitedOut)
    ensures initial in visitedOut && searched == visitedOut
    ensures Outcome(r, visitedOut) == Search(initial, goal, [initial], {initial})
  {
    var visited := new VisitedSet(initial);
    r := Dfs(initial, goal, [initial], visited);
    visitedOut := visited.members;
    searched := visited.searched;
    if r.Some? {
      assert r.value == [initial] + r.value[1..];
      PathNoDup(r.value);
    } else {
      forall u, v | u in visitedOut && v in Neighbors(u) ensures v in visitedOut {
        assert Exhausted({initial}, visitedOut, goal);
      }
      ClosedExcludesUnreachable(visitedOut, initial, goal);
    }
  }
}
