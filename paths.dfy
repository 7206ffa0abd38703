// Paths in the move graph, reachability, and the acyclicity that the
// potential gives: every move lowers it, so no board comes back.

module Paths {
  import opened Board
  import opened Moves

  /** Each consecutive pair is one move. */
  predicate IsPath(p: seq<State>)
  {
    |p| >= 1 && forall k :: 0 <= k < |p| - 1 ==> p[k + 1] in Neighbors(p[k])
  }

  predicate PathFromTo(p: seq<State>, s: State, t: State)
  {
    IsPath(p) && p[0] == s && p[|p| - 1] == t
  }

  ghost predicate Reachable(s: State, t: State)
  {
    exists p :: PathFromTo(p, s, t)
  }

  predicate NoDup(p: seq<State>)
  {
    forall i, j :: 0 <= i < j < |p| ==> p[i] != p[j]
  }

  /** Every neighbour of every member of S lies in V. */
  ghost predicate NeighborsIn(S: set<State>, V: set<State>)
  {
    forall u, v :: u in S && v in Neighbors(u) ==> v in V
  }

  /** The boards one move away from some member of S. */
  ghost function Successors(S: set<State>): set<State>
  {
    set u, v | u in S && v in Neighbors(u) :: v
  }

  /** The boards reachable from s in at most k moves. */
  ghost function Within(s: State, k: nat): set<State>
  {
    if k == 0 then {s} else Within(s, k - 1) + Successors(Within(s, k - 1))
  }

  lemma {:induction false} WithinMonotone(s: State, a: nat, b: nat)
    requires a <= b
    ensures Within(s, a) <= Within(s, b)
  {
    if a < b {
      WithinMonotone(s, a, b - 1);
      assert Within(s, b) == Within(s, b - 1) + Successors(Within(s, b - 1));
    }
  }

  /** A board within d+1 moves is within d moves or one move from such a board. */
  lemma WithinStep(s: State, d: nat, u: State)
    requires u in Within(s, d + 1)
    ensures u in Within(s, d) || exists w :: w in Within(s, d) && u in Neighbors(w)
  {
  }

  lemma PathPrefix(p: seq<State>, k: nat)
    requires IsPath(p) && 1 <= k <= |p|
    ensures IsPath(p[..k])
  {
  }

  /** Dropping the first i boards of a path leaves a path. */
  lemma PathPrefixFrom(p: seq<State>, i: nat)
    requires IsPath(p) && i < |p|
    ensures IsPath(p[i..])
  {
    var q := p[i..];
    forall k | 0 <= k < |q| - 1 ensures q[k + 1] in Neighbors(q[k]) {
      assert q[k] == p[i + k] && q[k + 1] == p[i + k + 1];
    }
  }

  /** A path of k moves ends within k moves of its start. */
  lemma {:induction false} PathWithin(p: seq<State>)
    requires IsPath(p)
    ensures p[|p| - 1] in Within(p[0], |p| - 1)
  {
    if |p| > 1 {
      var q := p[..|p| - 1];
      PathPrefix(p, |p| - 1);
      PathWithin(q);
      assert p[|p| - 1] in Neighbors(q[|q| - 1]);
    }
  }

  /** A set that holds s and is closed under moves holds every board reachable from s. */
  lemma {:induction false} ClosedHoldsPath(V: set<State>, p: seq<State>)
    requires IsPath(p) && p[0] in V && NeighborsIn(V, V)
    ensures p[|p| - 1] in V
  {
    if |p| > 1 {
      PathPrefix(p, |p| - 1);
      ClosedHoldsPath(V, p[..|p| - 1]);
      assert p[|p| - 2] in V;
    }
  }

  lemma ClosedExcludesUnreachable(V: set<State>, s: State, t: State)
    requires s in V && t !in V && NeighborsIn(V, V)
    ensures !Reachable(s, t)
  {
    if p :| PathFromTo(p, s, t) {
      ClosedHoldsPath(V, p);
    }
  }

  /** Along a path the potential drops by at least one per move. */
  lemma {:induction false} PathPotential(p: seq<State>, i: nat, j: nat)
    requires IsPath(p) && i <= j < |p|
    ensures Potential(p[j]) + (j - i) <= Potential(p[i])
  {
    if i < j {
      PathPotential(p, i, j - 1);
      assert p[j] in Neighbors(p[j - 1]);
      NeighborPotential(p[j - 1], p[j]);
    }
  }

  /** No path visits a board twice; in particular no board is reachable from
      itself by one or more moves. */
  lemma PathNoDup(p: seq<State>)
    requires IsPath(p)
    ensures NoDup(p)
  {
    forall i, j | 0 <= i < j < |p| ensures p[i] != p[j] {
      PathPotential(p, i, j);
    }
  }

  lemma NoCycle(p: seq<State>, s: State)
    requires PathFromTo(p, s, s)
    ensures |p| == 1
  {
    PathNoDup(p);
  }

  lemma PathSnoc(p: seq<State>, t: State)
    requires IsPath(p) && t in Neighbors(p[|p| - 1])
    ensures IsPath(p + [t])
  {
  }

  lemma PathCons(s: State, p: seq<State>)
    requires IsPath(p) && p[0] in Neighbors(s)
    ensures IsPath([s] + p)
  {
    var q := [s] + p;
    forall k | 0 <= k < |q| - 1 ensures q[k + 1] in Neighbors(q[k]) {
      if k > 0 {
        assert q[k] == p[k - 1] && q[k + 1] == p[k];
      }
    }
  }
}
