// Tabular Q-learning over the move graph (Q_learning.py): the table maps a
// board and one of its successors to a value, actions are chosen
// epsilon-greedily, and a trained table is rolled out greedily into a path.
// Random draws are parameters: a real compared against epsilon, and an index
// oracle that stands for random.choice. Values are exact reals.

module QLearning {
  import opened Wrappers
  import opened Board
  import opened Moves
  import opened Paths

  /** The table: for a board, the value of moving to each successor. */
  type Table = map<State, map<State, real>>

  /** The step bound of one episode and of the rollout. */
  const MaxSteps: nat := 100

  /** The reward for reaching the goal. */
  const GoalReward: real := 10.0

  /** is_terminal: the goal, or a board without moves. */
  predicate IsTerminal(s: State, goal: State)
  {
    s == goal || |Neighbors(s)| == 0
  }

  /** A board is terminal exactly when it is the goal or no piece has a legal move. */
  lemma TerminalIffNoMove(s: State, goal: State)
    ensures IsTerminal(s, goal) <==> s == goal || forall m :: !Legal(s, m)
  {
    if |Neighbors(s)| == 0 {
      forall m | Legal(s, m) ensures false {
        NeighborsExact(s, Apply(s, m));
      }
    } else {
      NeighborsExact(s, Neighbors(s)[0]);
    }
  }

  /** A value looked up with 0 for a missing board or successor. */
  function QValue(q: Table, s: State, a: State): real
  {
    if s in q && a in q[s] then q[s][a] else 0.0
  }

  /** The largest value over a non-empty list of successors. */
  function MaxQ(q: Table, s: State, actions: seq<State>): (m: real)
    requires |actions| > 0
    ensures forall a :: a in actions ==> QValue(q, s, a) <= m
    ensures exists a :: a in actions && QValue(q, s, a) == m
  {
    if |actions| == 1 then QValue(q, s, actions[0])
    else
      var v := QValue(q, s, actions[0]);
      var rest := MaxQ(q, s, actions[1..]);
      assert forall a :: a in actions ==> a == actions[0] || a in actions[1..];
      if v >= rest then v else rest
  }

  /** The successors whose value (0 when missing) equals m, in list order. */
  function Maximisers(q: Table, s: State, actions: seq<State>, m: real): (r: seq<State>)
    ensures forall a :: a in r <==> a in actions && QValue(q, s, a) == m
  {
    if |actions| == 0 then []
    else
      var rest := Maximisers(q, s, actions[1..], m);
      assert forall a :: a in actions ==> a == actions[0] || a in actions[1..];
      if QValue(q, s, actions[0]) == m then [actions[0]] + rest else rest
  }

  /** The greedy candidates: every successor of largest value. */
  function BestActions(q: Table, s: State, actions: seq<State>): (r: seq<State>)
    requires |actions| > 0
    ensures |r| > 0
    ensures forall a :: a in r ==> a in actions
    ensures forall a, b :: a in r && b in actions ==> QValue(q, s, b) <= QValue(q, s, a)
    ensures forall a :: a in actions && (forall b :: b in actions ==> QValue(q, s, b) <= QValue(q, s, a)) ==> a in r
  {
    var m := MaxQ(q, s, actions);
    var r := Maximisers(q, s, actions, m);
    var a :| a in actions && QValue(q, s, a) == m;
    assert a in r;
    r
  }

  /** choose_action: None when there is no move; otherwise, when the draw is
      below epsilon, any successor the oracle picks, and else a successor of
      largest value. */
  function ChooseAction(q: Table, s: State, epsilon: real, draw: real, pick: nat): (r: Option<State>)
    ensures r.None? <==> |Neighbors(s)| == 0
    ensures r.Some? ==> r.value in Neighbors(s)
    ensures r.Some? && !(draw < epsilon) ==>
      forall b :: b in Neighbors(s) ==> QValue(q, s, b) <= QValue(q, s, r.value)
  {
    var actions := Neighbors(s);
    if |actions| == 0 then None
    else if draw < epsilon then Some(actions[pick % |actions|])
    else
      var best := BestActions(q, s, actions);
      Some(best[pick % |best|])
  }

  /** The exploration branch can pick every successor. */
  lemma ExploreReachesEvery(q: Table, s: State, epsilon: real, draw: real, a: State)
    requires a in Neighbors(s) && draw < epsilon
    ensures exists pick: nat :: ChooseAction(q, s, epsilon, draw, pick) == Some(a)
  {
    var i :| 0 <= i < |Neighbors(s)| && Neighbors(s)[i] == a;
    assert i % |Neighbors(s)| == i;
    assert ChooseAction(q, s, epsilon, draw, i) == Some(a);
  }

  /** The value of the best follow-up move from next: 0 when next is terminal. */
  function NextMax(q: Table, next: State, goal: State): real
  {
    if IsTerminal(next, goal) then 0.0 else MaxQ(q, next, Neighbors(next))
  }

  /** The table with the entry for (s, a) created as 0 where missing. */
  function Touched(q: Table, s: State, a: State): Table
  {
    var row := if s in q then q[s] else map[];
    if a in row then q else q[s := row[a := 0.0]]
  }

  /** The Q-learning rule: move current toward reward plus the discounted
      follow-up value m, by the fraction alpha. */
  function Learn(current: real, reward: real, m: real, alpha: real, gamma: real): real
  {
    current + alpha * (reward + gamma * m - current)
  }

  /** The table update_Q leaves behind. */
  function Updated(q: Table, s: State, a: State, reward: real, next: State,
                   alpha: real, gamma: real, goal: State): Table
  {
    var q1 := Touched(q, s, a);
    q1[s := q1[s][a := Learn(q1[s][a], reward, NextMax(q1, next, goal), alpha, gamma)]]
  }

  /** Creating an entry as 0 changes no value. */
  lemma TouchedSameValues(q: Table, s: State, a: State)
    ensures forall x, y :: QValue(Touched(q, s, a), x, y) == QValue(q, x, y)
  {
  }

  lemma {:induction false} MaxQSameValues(q: Table, q': Table, s: State, actions: seq<State>)
    requires |actions| > 0
    requires forall a :: a in actions ==> QValue(q, s, a) == QValue(q', s, a)
    ensures MaxQ(q, s, actions) == MaxQ(q', s, actions)
  {
    if |actions| > 1 {
      MaxQSameValues(q, q', s, actions[1..]);
    }
  }

  /** update_Q: the entry for (s, a) becomes old + alpha * (reward + gamma *
      m - old), where m is 0 for a terminal next board and otherwise the
      largest value among next's successors; every other value is unchanged,
      and the keys grow by exactly (s, a). */
  lemma UpdatedEntries(q: Table, s: State, a: State, reward: real, next: State,
                       alpha: real, gamma: real, goal: State)
    ensures var r := Updated(q, s, a, reward, next, alpha, gamma, goal);
      && s in r && a in r[s]
      && r[s][a] == Learn(QValue(q, s, a), reward, NextMax(q, next, goal), alpha, gamma)
      && (forall x, y :: (x, y) != (s, a) ==> QValue(r, x, y) == QValue(q, x, y))
      && (forall x :: x in r <==> x in q || x == s)
      && (forall x, y :: x in r && y in r[x] <==> (x in q && y in q[x]) || (x, y) == (s, a))
  {
    TouchedSameValues(q, s, a);
    if !IsTerminal(next, goal) {
      MaxQSameValues(q, Touched(q, s, a), next, Neighbors(next));
    }
  }

  /** The next-move term is 0 for a terminal board and otherwise the largest
      value among next's successors, which some successor attains. */
  lemma NextMaxBounds(q: Table, next: State, goal: State)
    ensures IsTerminal(next, goal) ==> NextMax(q, next, goal) == 0.0
    ensures !IsTerminal(next, goal) ==>
      && (forall b :: b in Neighbors(next) ==> QValue(q, next, b) <= NextMax(q, next, goal))
      && (exists b :: b in Neighbors(next) && QValue(q, next, b) == NextMax(q, next, goal))
  {
    if !IsTerminal(next, goal) {
      var m := MaxQ(q, next, Neighbors(next));
    }
  }

  /** Every key of the table is a non-terminal board and one of its successors. */
  ghost predicate WellKeyed(q: Table, goal: State)
  {
    forall s {:trigger q[s]} :: s in q ==> !IsTerminal(s, goal) && forall a :: a in q[s] ==> a in Neighbors(s)
  }

  lemma UpdatedWellKeyed(q: Table, s: State, a: State, reward: real, next: State,
                         alpha: real, gamma: real, goal: State)
    requires WellKeyed(q, goal) && !IsTerminal(s, goal) && a in Neighbors(s)
    ensures WellKeyed(Updated(q, s, a, reward, next, alpha, gamma, goal), goal)
  {
    var r := Updated(q, s, a, reward, next, alpha, gamma, goal);
    UpdatedEntries(q, s, a, reward, next, alpha, gamma, goal);
    forall x | x in r ensures !IsTerminal(x, goal) && forall y :: y in r[x] ==> y in Neighbors(x) {
      forall y | y in r[x] ensures y in Neighbors(x) {
        assert (x in q && y in q[x]) || (x, y) == (s, a);
      }
    }
  }

  /** Every stored value is at least 0. */
  ghost predicate NonNegative(q: Table)
  {
    forall s, a :: s in q && a in q[s] ==> q[s][a] >= 0.0
  }

  /** A learning step from non-negative values with a non-negative reward,
      alpha in [0, 1] and gamma >= 0 gives a non-negative value. */
  lemma LearnNonNegative(current: real, reward: real, m: real, alpha: real, gamma: real)
    requires current >= 0.0 && reward >= 0.0 && m >= 0.0 && 0.0 <= alpha <= 1.0 && gamma >= 0.0
    ensures Learn(current, reward, m, alpha, gamma) >= 0.0
  {
    assert Learn(current, reward, m, alpha, gamma) == (1.0 - alpha) * current + alpha * (reward + gamma * m);
    assert gamma * m >= 0.0;
    assert (1.0 - alpha) * current >= 0.0;
    assert alpha * (reward + gamma * m) >= 0.0;
  }

  /** update_Q with a non-negative reward, alpha in [0, 1] and gamma >= 0
      keeps every stored value non-negative. */
  lemma UpdatedNonNegative(q: Table, s: State, a: State, reward: real, next: State,
                           alpha: real, gamma: real, goal: State)
    requires NonNegative(q) && reward >= 0.0 && 0.0 <= alpha <= 1.0 && gamma >= 0.0
    ensures NonNegative(Updated(q, s, a, reward, next, alpha, gamma, goal))
  {
    var r := Updated(q, s, a, reward, next, alpha, gamma, goal);
    UpdatedEntries(q, s, a, reward, next, alpha, gamma, goal);
    var m := NextMax(q, next, goal);
    NextMaxBounds(q, next, goal);
    if !IsTerminal(next, goal) {
      var b :| b in Neighbors(next) && QValue(q, next, b) == m;
    }
    LearnNonNegative(QValue(q, s, a), reward, m, alpha, gamma);
    forall x, y | x in r && y in r[x] ensures r[x][y] >= 0.0 {
      if (x, y) != (s, a) {
        assert QValue(r, x, y) == QValue(q, x, y);
      }
    }
  }

  /** What training keeps of the table: well keyed, and non-negative when
      sign says that alpha and gamma keep the sign. */
  ghost predicate Kept(q: Table, goal: State, sign: bool)
  {
    WellKeyed(q, goal) && (sign ==> NonNegative(q))
  }

  /** One update with a reward of 0 or GoalReward at a non-terminal board and
      one of its successors keeps what training keeps. */
  lemma UpdatedKept(q: Table, s: State, a: State, reward: real, next: State,
                    alpha: real, gamma: real, goal: State, sign: bool)
    requires Kept(q, goal, sign) && !IsTerminal(s, goal) && a in Neighbors(s)
    requires sign ==> 0.0 <= alpha <= 1.0 && gamma >= 0.0
    requires reward == 0.0 || reward == GoalReward
    ensures Kept(Updated(q, s, a, reward, next, alpha, gamma, goal), goal, sign)
  {
    UpdatedWellKeyed(q, s, a, reward, next, alpha, gamma, goal);
    if sign {
      UpdatedNonNegative(q, s, a, reward, next, alpha, gamma, goal);
    }
  }

  /** The Q table, updated in place by update_Q. */
  class QTable {
    var table: Table

    constructor()
      ensures table == map[]
    {
      table := map[];
    }

    /** update_Q: creates the entry for (state, action) as 0 where missing,
        then moves it toward reward plus the discounted best follow-up value. */
    method UpdateQ(state: State, action: State, reward: real, nextState: State,
                   alpha: real, gamma: real, goal: State)
      modifies this
      ensures table == Updated(old(table), state, action, reward, nextState, alpha, gamma, goal)
    {
      if state !in table {
        table := table[state := map[]];
      }
      if action !in table[state] {
        table := table[state := table[state][action := 0.0]];
      }
      ghost var touched := table;
      assert touched == Touched(old(table), state, action);
      var maxQNext: real;
      if IsTerminal(nextState, goal) {
        maxQNext := 0.0;
      } else {
        var actionsNext := GetNeighbors(nextState);
        if |actionsNext| == 0 {
          // A non-terminal board has a move, so this branch is dead.
          assert false;
          maxQNext := 0.0;
        } else {
          maxQNext := MaxQ(table, nextState, actionsNext);
        }
      }
      assert maxQNext == NextMax(touched, nextState, goal);
      var current := table[state][action];
      table := table[state := table[state][action := Learn(current, reward, maxQNext, alpha, gamma)]];
    }
  }

  /** The epsilon decay after an episode: never below minEpsilon. */
  function Decay(epsilon: real, minEpsilon: real, decayRate: real): (r: real)
    ensures r >= minEpsilon && r >= epsilon * decayRate
    ensures r == minEpsilon || r == epsilon * decayRate
  {
    if minEpsilon >= epsilon * decayRate then minEpsilon else epsilon * decayRate
  }

  /** The reward for a move to next: GoalReward for the goal, 0 otherwise. */
  function Reward(next: State, goal: State): (r: real)
    ensures r == GoalReward <==> next == goal
    ensures r == 0.0 <==> next != goal
  {
    if next == goal then GoalReward else 0.0
  }

  /** An episode's walk so far: from initial along moves, through
      non-terminal boards only, up to its last board. */
  ghost predicate EpisodeWalk(trace: seq<State>, initial: State, goal: State)
  {
    && |trace| > 0 && trace[0] == initial && IsPath(trace)
    && forall k :: 0 <= k < |trace| - 1 ==> !IsTerminal(trace[k], goal)
  }

  /** A move from the walk's non-terminal last board extends the walk. */
  lemma EpisodeWalkStep(trace: seq<State>, initial: State, goal: State, next: State)
    requires EpisodeWalk(trace, initial, goal)
    requires !IsTerminal(trace[|trace| - 1], goal) && next in Neighbors(trace[|trace| - 1])
    ensures EpisodeWalk(trace + [next], initial, goal)
  {
    PathSnoc(trace, next);
    var t := trace + [next];
    forall k | 0 <= k < |t| - 1 ensures !IsTerminal(t[k], goal) {
      assert t[k] == trace[k];
    }
  }

  /** One pass of the episode loop from a non-terminal board: choose an
      action and update the table for it with its reward; the action is a
      successor and the table keeps what training keeps. */
  method EpisodeStep(table: QTable, state: State, goal: State, epsilon: real, alpha: real, gamma: real,
                     draw: real, pick: nat, ghost sign: bool)
    returns (nextState: State)
    requires !IsTerminal(state, goal) && Kept(table.table, goal, sign)
    requires sign ==> 0.0 <= alpha <= 1.0 && gamma >= 0.0
    modifies table
    ensures Some(nextState) == ChooseAction(old(table.table), state, epsilon, draw, pick)
    ensures table.table == Updated(old(table.table), state, nextState, Reward(nextState, goal), nextState,
                                   alpha, gamma, goal)
    ensures nextState in Neighbors(state) && Kept(table.table, goal, sign)
  {
    var action := ChooseAction(table.table, state, epsilon, draw, pick);
    if action.None? {
      // A non-terminal board has a move, so this branch is dead.
      assert false;
      return state;
    }
    nextState := action.value;
    var reward := Reward(nextState, goal);
    UpdatedKept(table.table, state, nextState, reward, nextState, alpha, gamma, goal, sign);
    table.UpdateQ(state, nextState, reward, nextState, alpha, gamma, goal);
  }

  /** One episode of q_learning from initial: the walk goes on until a
      terminal board or MaxSteps moves, updating the table at each move; the
      table stays well keyed, and non-negative when alpha is in [0, 1] and
      gamma >= 0. */
  method Episode(table: QTable, initial: State, goal: State, epsilon: real, alpha: real, gamma: real,
                 draw: nat -> real, pick: nat -> nat, ghost sign: bool)
    returns (steps: nat, ghost trace: seq<State>)
    requires Kept(table.table, goal, sign) && (sign ==> 0.0 <= alpha <= 1.0 && gamma >= 0.0)
    modifies table
    ensures Kept(table.table, goal, sign)
    ensures steps <= MaxSteps
    ensures |trace| == steps + 1 && EpisodeWalk(trace, initial, goal)
    ensures steps < MaxSteps ==> IsTerminal(trace[steps], goal)
  {
    var state := initial;
    steps := 0;
    trace := [initial];
    while !IsTerminal(state, goal) && steps < MaxSteps
      invariant steps <= MaxSteps
      invariant Kept(table.table, goal, sign)
      invariant |trace| == steps + 1 && trace[steps] == state
      invariant EpisodeWalk(trace, initial, goal)
      decreases MaxSteps - steps
    {
      var nextState := EpisodeStep(table, state, goal, epsilon, alpha, gamma, draw(steps), pick(steps), sign);
      EpisodeWalkStep(trace, initial, goal, nextState);
      trace := trace + [nextState];
      state := nextState;
      steps := steps + 1;
    }
  }

  /** q_learning: runs the episodes from an empty table, decaying epsilon
      after each; every key of the result is a non-terminal board and one of
      its successors, and every value is non-negative when alpha is in [0, 1]
      and gamma >= 0. The oracles are indexed by episode and step. */
  method Train(initial: State, goal: State, draw: (nat, nat) -> real, pick: (nat, nat) -> nat,
               episodes: nat := 50000, alpha: real := 0.1, gamma: real := 0.9,
               epsilon: real := 0.5, minEpsilon: real := 0.01, decayRate: real := 0.999)
    returns (q: Table)
    ensures WellKeyed(q, goal)
    ensures 0.0 <= alpha <= 1.0 && gamma >= 0.0 ==> NonNegative(q)
  {
    ghost var sign := 0.0 <= alpha <= 1.0 && gamma >= 0.0;
    var table := new QTable();
    var eps := epsilon;
    for ep := 0 to episodes
      invariant Kept(table.table, goal, sign)
    {
      var steps, trace := Episode(table, initial, goal, eps, alpha, gamma,
                                  (step: nat) => draw(ep, step), (step: nat) => pick(ep, step), sign);
      eps := Decay(eps, minEpsilon, decayRate);
    }
    q := table.table;
  }

  /** A value looked up with None (minus infinity) for a missing entry, as
      the rollout does when it computes the maximum. */
  function QValueOrNone(q: Table, s: State, a: State): Option<real>
  {
    if s in q && a in q[s] then Some(q[s][a]) else None
  }

  /** The maximum the rollout computes: None (minus infinity) when no
      successor has an entry, and otherwise the largest stored value. */
  function MaxQOrNone(q: Table, s: State, actions: seq<State>): (m: Option<real>)
    ensures m.None? <==> forall a :: a in actions ==> QValueOrNone(q, s, a).None?
    ensures m.Some? ==> exists a :: a in actions && QValueOrNone(q, s, a) == m
    ensures forall a :: a in actions && QValueOrNone(q, s, a).Some? ==>
      m.Some? && QValueOrNone(q, s, a).value <= m.value
  {
    if |actions| == 0 then None
    else
      var v := QValueOrNone(q, s, actions[0]);
      var rest := MaxQOrNone(q, s, actions[1..]);
      assert forall a :: a in actions ==> a == actions[0] || a in actions[1..];
      if v.None? then rest
      else if rest.None? || v.value >= rest.value then v
      else rest
  }

  /** The candidates of the rollout as written: the maximum is taken with a
      missing entry as minus infinity, the comparison with a missing entry
      as 0. */
  function BestActionsAsWritten(q: Table, s: State, actions: seq<State>): seq<State>
  {
    var m := MaxQOrNone(q, s, actions);
    if m.None? then [] else Maximisers(q, s, actions, m.value)
  }

  /** The rollout's candidate list is empty exactly when no successor of the
      board has an entry, so random.choice fails there. */
  lemma AsWrittenEmptyIff(q: Table, s: State, actions: seq<State>)
    ensures |BestActionsAsWritten(q, s, actions)| == 0 <==>
      forall a :: a in actions ==> QValueOrNone(q, s, a).None?
  {
    var m := MaxQOrNone(q, s, actions);
    if m.Some? {
      var a :| a in actions && QValueOrNone(q, s, a) == m;
      assert a in BestActionsAsWritten(q, s, actions);
    }
  }

  /** With an empty table the rollout from "R_G" (goal elsewhere) has moves
      but no candidates. */
  lemma AsWrittenEmptyExample()
    ensures var s := [Red, Empty, Green];
      && |Neighbors(s)| == 2
      && BestActionsAsWritten(map[], s, Neighbors(s)) == []
  {
    RedEmptyGreen();
    AsWrittenEmptyIff(map[], [Red, Empty, Green], Neighbors([Red, Empty, Green]));
  }

  /** Where a successor has an entry, and either every successor has one or
      every stored value is non-negative, the candidates as written are the
      candidates of BestActions. */
  lemma AsWrittenAgrees(q: Table, s: State, actions: seq<State>)
    requires exists a :: a in actions && QValueOrNone(q, s, a).Some?
    requires (forall a :: a in actions ==> QValueOrNone(q, s, a).Some?) ||
             (forall a :: a in actions && QValueOrNone(q, s, a).Some? ==> QValueOrNone(q, s, a).value >= 0.0)
    ensures BestActionsAsWritten(q, s, actions) == BestActions(q, s, actions)
  {
    var m := MaxQOrNone(q, s, actions);
    var a :| a in actions && QValueOrNone(q, s, a) == m;
    assert QValue(q, s, a) == m.value;
    forall b | b in actions ensures QValue(q, s, b) <= m.value {
      if QValueOrNone(q, s, b).None? {
        assert QValue(q, s, b) == 0.0;
      }
    }
    var best := MaxQ(q, s, actions);
    var c :| c in actions && QValue(q, s, c) == best;
    assert m.value == best;
  }

  /** A second difference, without an exception: at "R_G" with -1 stored
      for "_RG" and no entry for "RG_", the rollout as written picks "_RG",
      the only candidate, while BestActions holds only "RG_". */
  lemma AsWrittenDiffersExample()
    ensures var s := [Red, Empty, Green];
      var q := map[s := map[[Empty, Red, Green] := -1.0]];
      && BestActionsAsWritten(q, s, Neighbors(s)) == [[Empty, Red, Green]]
      && BestActions(q, s, Neighbors(s)) == [[Red, Green, Empty]]
  {
    var s, a, b := [Red, Empty, Green], [Empty, Red, Green], [Red, Green, Empty];
    var q := map[s := map[a := -1.0]];
    RedEmptyGreen();
    assert Neighbors(s) == [a, b] && a != b;
    assert QValueOrNone(q, s, a) == Some(-1.0) && QValueOrNone(q, s, b) == None;
    assert QValue(q, s, a) == -1.0 && QValue(q, s, b) == 0.0;
    assert [a, b][1..] == [b];
    assert MaxQOrNone(q, s, [b]) == None;
    assert MaxQOrNone(q, s, [a, b]) == Some(-1.0);
    assert Maximisers(q, s, [b], -1.0) == [];
    assert MaxQ(q, s, [a, b]) == 0.0;
    assert Maximisers(q, s, [b], 0.0) == [b];
  }

  /** A rollout so far: a walk from initial, goal only at its end, and each
      move to a successor of largest value. */
  ghost predicate Rollout(q: Table, initial: State, goal: State, path: seq<State>)
  {
    && IsPath(path) && path[0] == initial
    && (forall k :: 0 <= k < |path| - 1 ==> path[k] != goal)
    && (forall k :: 0 <= k < |path| - 1 ==>
          forall b :: b in Neighbors(path[k]) ==> QValue(q, path[k], b) <= QValue(q, path[k], path[k + 1]))
  }

  /** A greedy move from a non-goal end extends a rollout by a new board. */
  lemma RolloutStep(q: Table, initial: State, goal: State, path: seq<State>, next: State)
    requires Rollout(q, initial, goal, path) && path[|path| - 1] != goal
    requires |Neighbors(path[|path| - 1])| > 0
    requires next in BestActions(q, path[|path| - 1], Neighbors(path[|path| - 1]))
    ensures next !in path
    ensures Rollout(q, initial, goal, path + [next])
  {
    var p := path + [next];
    PathSnoc(path, next);
    PathNoDup(p);
    forall k | 0 <= k < |path| ensures path[k] != next {
      assert p[k] == path[k] && p[|path|] == next;
    }
    forall k | 0 <= k < |p| - 1
      ensures p[k] != goal
      ensures forall b :: b in Neighbors(p[k]) ==> QValue(q, p[k], b) <= QValue(q, p[k], p[k + 1])
    {
      if k < |path| - 1 {
        assert p[k] == path[k] && p[k + 1] == path[k + 1];
      } else {
        assert p[k] == path[|path| - 1] && p[k + 1] == next;
      }
    }
  }

  /** extract_policy, with the candidates of BestActions: a walk from
      initial along greedy moves of at most MaxSteps moves, without repeated
      boards, holding goal only at its end, and ending at a terminal board
      unless the step bound stopped it. The cycle guard never fires. */
  method ExtractPolicy(q: Table, initial: State, goal: State, pick: nat -> nat)
    returns (path: seq<State>)
    ensures IsPath(path) && path[0] == initial && |path| <= MaxSteps + 1 && NoDup(path)
    ensures forall k :: 0 <= k < |path| - 1 ==> path[k] != goal
    ensures forall k :: 0 <= k < |path| - 1 ==>
      forall b :: b in Neighbors(path[k]) ==> QValue(q, path[k], b) <= QValue(q, path[k], path[k + 1])
    ensures |path| <= MaxSteps ==> IsTerminal(path[|path| - 1], goal)
  {
    path := [initial];
    var state := initial;
    var visited := {initial};
    for step := 0 to MaxSteps
      invariant |path| == step + 1 && path[step] == state
      invariant Rollout(q, initial, goal, path)
      invariant forall x :: x in visited <==> x in path
    {
      if state == goal {
        break;
      }
      var actions := GetNeighbors(state);
      if |actions| == 0 {
        break;
      }
      var bestActions := BestActions(q, state, actions);
      var nextState := bestActions[pick(step) % |bestActions|];
      RolloutStep(q, initial, goal, path, nextState);
      if nextState in visited {
        // Every move lowers the potential, so no board comes back.
        assert false;
        break;
      }
      path := path + [nextState];
      state := nextState;
      visited := visited + {state};
    }
    PathNoDup(path);
  }
}
