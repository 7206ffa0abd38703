# Toads and frogs: a verified model of the puzzle solvers

The repository solves one-dimensional Chinese checkers (toads and frogs) on a
row of cells. Each cell holds a red piece `R`, a green piece `G` or nothing
`_`. A red piece moves right and a green piece moves left. A piece either steps
into the adjacent empty cell, or jumps over exactly one occupied cell into the
empty cell beyond it. Four scripts each carry an identical copy of this
successor rule, `get_neighbors`, and put one solver on top of it:

- breadth-first shortest path (`bfs.py`);
- recursive depth-first search with one shared visited set (`dfs.py`);
- memoised minimum-move recursion (`dp.py`);
- tabular Q-learning with an epsilon-greedy trainer and a greedy rollout
  (`Q_learning.py`).

The Dafny project models all of these. It is organised as follows:

- `board.dfy`: modules `Wrappers` and `Board`. A board is a `seq<Cell>` and
  its string form is handled by `Show`/`Read`. The file also defines the
  potential: the sum over red pieces at i of n-1-i, plus the sum over green
  pieces at i of i. It also defines the finite set of all boards of a given
  length.
- `moves.dfy`: module `Moves`. `get_neighbors` is the loop method
  `GetNeighbors`. It is proved against the specification function
  `Neighbors`, which is in turn related to a declarative predicate `Legal`
  on moves.
- `paths.dfy`: module `Paths`. Defines paths, reachability, the boards within
  k moves, and the consequences of the potential: no board is reachable from
  itself.
- `bfs.dfy`, `dfs.dfy`, `dp.dfy`: the three searches as imperative methods.
  - `Bfs` uses a `seq` queue and a `set` of visited boards.
  - `Dfs` is a recursive method over a `VisitedSet` object that every level
    updates in place.
  - `Dp` is a recursive method over a `Memo` object whose map every level
    extends. It is proved against a specification function `Best`.
- `qlearning.dfy`: module `QLearning`.
  - The table is a `map<State, map<State, real>>` held by a `QTable` object.
    Its method `UpdateQ` is `update_Q`.
  - The episode loop, the training loop and the rollout are methods.
  - Random draws are parameters. `draw` is the real compared with epsilon.
    `pick` is an index oracle standing for `random.choice`; it is taken
    modulo the length of the candidate list.

The whole move graph is acyclic, because every move lowers the potential by
1 or 2. That potential is the termination measure of `Dfs`, `Dp` and `Best`.
It also shows that the rollout's cycle guard never fires.

## Model

| member | source | states |
|---|---|---|
| Board.ReadShow | bfs.py:10-21 | reading the string form of a board gives the board back |
| Board.ShowRead | bfs.py:10-21 | every string over R, G, _ is the string form of the board it reads as |
| Board.Show | bfs.py:21 | the string form has one symbol per cell, cell by cell |
| Board.Read | bfs.py:10 | a board read from a string has the string's length |
| Board.PotentialUpdate | bfs.py:18-20 | overwriting one cell changes the potential by exactly the difference of the two cells' weights |
| Board.InAllBoards | bfs.py:55 | every board of length n lies in the finite set of boards of length n (the universe that bounds the bfs loop) |
| Moves.GetNeighbors | bfs.py:5-44 | the append loop, with its two separate step and jump tests per colour, returns exactly `Neighbors(s)`, the list whose contents and order the lemmas below characterise. The copies at dfs.py:2-43, dp.py:2-41 and Q_learning.py:4-43 are the same loop, so they return the same list in the same order |
| Moves.MovesAtExact | bfs.py:14-42 | the moves generated for the piece at i are exactly the legal moves whose origin is i |
| Moves.MovesBeforeExact | bfs.py:13-42 | the moves generated for the pieces below k are exactly the legal moves with origin below k |
| Moves.MovesExact | bfs.py:13-42 | a move is generated if and only if it is legal (both directions) |
| Moves.NeighborsAreTargets | bfs.py:13-42 | the k-th neighbour is the board that the k-th generated move leads to |
| Moves.NeighborsExact | bfs.py:13-42 | a board is a neighbour if and only if some legal move leads to it (both directions) |
| Moves.LegalMoveShape | bfs.py:14-41 | a move keeps the length and the multiset of cells, so the counts of R, G and _ are kept. It changes exactly two cells. A red piece goes right by 1 or 2, a green piece left by 1 or 2. A jumped-over cell is occupied and unchanged |
| Moves.LegalMovePotential | bfs.py:17-41 | a move lowers the potential by the distance travelled, which is 1 or 2 |
| Moves.NeighborFacts | bfs.py:17-41 | every neighbour has the board's length and pieces |
| Moves.NeighborPotential | bfs.py:17-41 | every neighbour has a potential lower by 1 or 2, so no move sequence returns to a board |
| Moves.OneMovePerPiece | bfs.py:17-23 | a piece never has both a step and a jump (the step needs the next cell empty, the jump needs it occupied) |
| Moves.NeighborsOrdered | bfs.py:13-41 | neighbours come out in strictly increasing order of the index of the moved piece |
| Moves.RedEmptyGreen | bfs.py:13-41 | on `R_G` the neighbours are exactly `_RG` then `RG_` |
| Paths.PathPotential | bfs.py:17-41 | along a path the potential drops by at least one per move |
| Paths.PathNoDup | bfs.py:17-41 | no path repeats a board |
| Paths.NoCycle | bfs.py:17-41 | a path from a board back to itself has no move |
| Paths.ClosedExcludesUnreachable | dfs.py:55-64 | a set that holds s, lacks t and is closed under moves proves t unreachable from s |
| Paths.PathWithin | bfs.py:55-63 | a path of k moves ends within k moves of its start |
| Bfs.Bfs | bfs.py:46-65 | a found path runs from initial to goal, repeats no board, and has no more moves than any path from initial to goal. `initial == goal` gives `[initial]`. None is returned if and only if goal is unreachable. The loop terminates because the visited set grows inside the finite universe or the queue shrinks |
| Bfs.EnqueueUnvisited | bfs.py:60-63 | after the pass, every neighbour is visited. Exactly the previously unvisited ones are marked and appended, once each, with the path extended by them. The old queue is a prefix of the new one, and the appended part is `NewEntries`: the neighbours in `get_neighbors` order, skipping each one that was visited or appeared earlier in the list. That order decides which of several shortest paths `bfs` returns |
| Bfs.InvariantInit | bfs.py:51-53 | the queue `[(initial, [initial])]` with `visited = {initial}` satisfies the loop invariant: every queued path is shortest, lengths along the queue grow by at most one, everything within the head's distance is visited, and expanded boards have all their neighbours visited |
| Bfs.ExpansionKeepsInvariant | bfs.py:56-63 | dequeuing a non-goal head and enqueuing its unvisited neighbours keeps the loop invariant |
| Bfs.FoundIsShortest | bfs.py:56-58 | a dequeued goal carries a shortest path without repeats, and `[initial]` when initial is the goal |
| Bfs.InvariantExhausted | bfs.py:55-65 | an empty queue means the visited set is closed under moves and lacks the goal, so the goal is unreachable |
| Dfs.Dfs | dfs.py:45-64 | requires that the caller has marked the board and that it has never been searched, and this holds at every recursive call, so each board is searched at most once. The visited set only grows, and every board it gains is searched. `state == goal` returns `path` unchanged. A result extends `path` by a walk from state to goal. On failure, state and every newly marked board is not the goal and has all its neighbours marked. The result and the final visited set are those of `Search` started from the old visited set, so the neighbours are tried in `get_neighbors` order and the first success is returned |
| Dfs.FoundThroughNeighbor | dfs.py:61-63 | a walk found from a neighbour, appended to `path + [next]`, is a walk from state that keeps `path` as a prefix |
| Dfs.DfsSearch | dfs.py:71-72 | a top-level result is a path from initial to goal without repeats, `[initial]` when initial is the goal. None is returned if and only if goal is unreachable. The final visited set was searched board by board, holds initial, and on failure lacks goal and is closed under moves. The result and the final visited set are those of `Search` from initial with only initial marked, which pins the walk returned |
| Dp.Dp | dp.py:43-77 | the result equals `Best(state, goal)`. Every memo entry stays equal to `Best` of its key. Existing entries are never changed, state gets an entry unless it is the goal, and the goal never gets one |
| Dp.BestSound | dp.py:54-73 | a solution `(steps, path)` has `path[0] == state`, `path[-1] == goal`, `len(path) == steps + 1`, and neighbour steps throughout |
| Dp.BestOptimal | dp.py:64-73 | every walk from state to goal means a solution exists with at most as many moves |
| Dp.BestNoneIffUnreachable | dp.py:61-76 | the result is None if and only if goal is unreachable |
| Dp.BestAmongCovers | dp.py:65-73 | after the loop has seen neighbour i, the best so far is at most one more than neighbour i's steps |
| Dp.BestTieBreak | dp.py:71-73 | the chosen path goes through a neighbour whose solution is shortest and strictly shorter than every earlier neighbour's, so the first of equally short options wins |
| Dp.FirstMinimalNew | dp.py:71-73 | a neighbour that passes the strict `<` test is shorter than all neighbours before it |
| Dp.FirstMinimalKept | dp.py:71 | a neighbour that fails the strict `<` test leaves the earlier choice in place |
| Dp.FoldStep | dp.py:65-73 | one loop iteration is one step of the fold that defines `Best` |
| Dp.StoreCached | dp.py:76 | storing `Best` for a non-goal board keeps every entry correct and changes no existing entry |
| Dp.DpSolve | dp.py:84-85 | a call with an empty memo returns a shortest walk with steps counting its moves, None if and only if goal is unreachable, and `(0, [goal])` when the initial board is the goal |
| QLearning.TerminalIffNoMove | Q_learning.py:45-55 | `IsTerminal`, the model of `is_terminal`, holds for a board if and only if it is the goal or no piece has a legal move |
| QLearning.MaxQ | Q_learning.py:72-73 | the maximum over a non-empty successor list (missing values 0) bounds every value and is attained |
| QLearning.Maximisers | Q_learning.py:74 | the filtered list holds exactly the successors whose value equals the given maximum |
| QLearning.BestActions | Q_learning.py:71-75 | the greedy candidates are non-empty successors, each of largest value, and include every successor of largest value |
| QLearning.ChooseAction | Q_learning.py:57-75 | returns None if and only if there is no move, otherwise a successor. In the exploit branch, the successor's value is the maximum |
| QLearning.ExploreReachesEvery | Q_learning.py:68-69 | in the explore branch every successor can be chosen |
| QLearning.QTable.UpdateQ | Q_learning.py:77-97 | the new table is `Updated(old table, …)`, i.e. the entry is created as 0 where missing and then learned. The branch at lines 92-93 is dead |
| QLearning.UpdatedEntries | Q_learning.py:82-97 | after the update, `Q[state][action]` exists and equals `old + alpha*(reward + gamma*m - old)`, where m is `NextMax`. No other value changes, and the keys grow by exactly `(state, action)` |
| QLearning.NextMaxBounds | Q_learning.py:87-95 | m is 0 for a terminal next board, and otherwise the attained maximum over its successors (missing values 0) |
| QLearning.MaxQSameValues | Q_learning.py:95 | the maximum depends only on the values, so creating the 0 entry first does not change it |
| QLearning.UpdatedWellKeyed | Q_learning.py:118-127 | an update at a non-terminal board with one of its successors keeps every key a non-terminal board and one of its successors |
| QLearning.Reward | Q_learning.py:125 | the reward is 10 if and only if the next board is the goal, and 0 otherwise |
| QLearning.Decay | Q_learning.py:133 | the new epsilon is `max(min_epsilon, epsilon*decay_rate)`, so it is never below `min_epsilon` |
| QLearning.UpdatedNonNegative | Q_learning.py:97 | with stored values at least 0, a reward at least 0, alpha in [0, 1] and gamma at least 0, every value after the update is at least 0 |
| QLearning.EpisodeStep | Q_learning.py:119-127 | one pass of the episode loop from a non-terminal board: the action is what `ChooseAction` returns for the old table, so it is one of the board's successors. The new table is `Updated` of the old one with reward `Reward(action)` and the action as the next board, as `update_Q` computes it. The table stays well keyed, and also keeps every value at least 0 when the caller's flag says alpha is in [0, 1] and gamma is at least 0 |
| QLearning.Episode | Q_learning.py:114-130 | an episode makes at most 100 moves, from initial along successors, through non-terminal boards only. It stops early only at a terminal board, so fewer than 100 moves means the last board is terminal. It keeps the table well keyed. When the ghost flag `sign` is set, which the caller may do only with alpha in [0, 1] and gamma at least 0, it also keeps every value at least 0 |
| QLearning.Train | Q_learning.py:99-138 | every key pair `(s, a)` of the trained table has s non-terminal and a a successor of s. With alpha in [0, 1] and gamma at least 0, which the default arguments 0.1 and 0.9 satisfy, every value is at least 0 |
| QLearning.MaxQOrNone | Q_learning.py:155-156 | the rollout's maximum (missing values minus infinity) is minus infinity exactly when no successor has an entry, and otherwise the attained largest stored value |
| QLearning.AsWrittenEmptyIff | Q_learning.py:155-158 | `BestActionsAsWritten`, the candidate list of lines 155-157 as written, is empty if and only if no successor of the board has an entry |
| QLearning.AsWrittenEmptyExample | Q_learning.py:155-158 | with an empty table, `R_G` has two moves but no candidates |
| QLearning.AsWrittenAgrees | Q_learning.py:155-157 | when some successor has an entry, and either every successor has one or no stored value is negative, the candidates as written are exactly those of `BestActions` |
| QLearning.AsWrittenDiffersExample | Q_learning.py:155-157 | at `R_G` with -1 stored for `_RG` and no entry for `RG_`, the candidates as written are `[_RG]` and those of `BestActions` are `[RG_]` |
| QLearning.RolloutStep | Q_learning.py:158-164 | a greedy move from a non-goal board leads to a board not yet on the path, and extends the rollout |
| QLearning.ExtractPolicy | Q_learning.py:140-165 | the path starts at initial, moves only to successors of largest value, never repeats a board, and has at most 101 boards. It holds goal only as its last element. It ends at a terminal board unless the step cap stopped it. The cycle guard never fires |

## Left out

- The demo `main()` functions, the `__main__` blocks and all printing are left out (bfs.py:67-81, dfs.py:66-82, dp.py:79-96, Q_learning.py:135-137, 167-183). They are fixed demo instances and I/O. The top-level calls inside them are kept: `Dfs.DfsSearch` is the call at dfs.py:71-72 with its fresh visited set, and `Dp.DpSolve` is the call at dp.py:84-85 with its empty memo. `QLearning.Train` takes the default arguments of Q_learning.py:99 as default parameter values.
- Randomness is left out. `random.random()` is the parameter `draw` and `random.choice` is the index oracle `pick`. There are no claims about probabilities or about whether training converges.
- Floating point is not modelled: values, alpha, gamma and epsilon are exact reals, and `-float('inf')` is `None`.
- `collections.deque`, Python sets and dictionaries become `seq`, `set` and `map`. Their performance is not modelled.
- Input validation is not modelled, because the code does none. Boards are sequences over three cell values; the string form is only related to them by `Show` and `Read`.
- Moves.GetNeighbors: the four textual copies of `get_neighbors` are one method. The specification functions `MovesAt` and `PieceNeighbors` write the step test and the jump test as one choice; the loop keeps the source's two separate tests, and its invariant proves the two forms equal.
- Dfs.Dfs: the requirement that the board was never searched before refers to a ghost set. It is the statement that dfs is entered at most once per board, and it is never a condition on the real inputs. The `visited` set in the code is the object's `members`.
- Dfs.Dfs: dfs is modelled as written, with one visited set shared by the whole search. Such a search is sometimes described as able to miss a reachable goal that was first seen on a dead-end branch. The model shows it cannot: `DfsSearch` returns None exactly when the goal is unreachable, because a failed board has all its neighbours marked.
- QLearning.ExtractPolicy: the rollout is modelled with the corrected candidate list `BestActions`, which differs from the code as written in two ways. First, the code raises an exception on a board with moves but no entries in Q; see Findings. Second, on a board where a successor has no entry and the stored values are all negative, the code picks among the stored successors, while `BestActions` picks among the missing ones (`AsWrittenDiffersExample`). `AsWrittenAgrees` shows the two agree whenever some successor has an entry and either every successor has one or no stored value is negative. `Train` is proved to produce tables without negative values when alpha is in [0, 1] and gamma is at least 0, but `ExtractPolicy` accepts any table.
- QLearning.Train: states only which keys the trained table can hold, not its values. The values are the result of the random episodes.
- QLearning.Episode: states the shape of the walk, where it stops, the keys of the table and the sign of its values. Each pass states its own update through `EpisodeStep`, but the table at the end of the episode is not written as the composition of those updates.
- QLearning.ChooseAction: the uniform distribution of `random.choice` is replaced by an arbitrary pick from the same candidate list.
- QLearning.QTable.UpdateQ: the update expression is the function `Learn`, which is `old + alpha*(reward + gamma*m - old)`.

## Findings

| source | as written | input that shows it | evidently intended | confidence | as-written member | corrected member |
|---|---|---|---|---|---|---|
| Q_learning.py:155-158 | Taking the maximum, line 155 counts a missing entry as minus infinity. Comparing with it, line 157 counts a missing entry as 0. | A board with moves but no entry in Q, e.g. `R_G` with an empty table. The maximum is minus infinity, no successor's value (0) equals it, and `random.choice([])` raises. | Both lookups use the same default, 0, as `choose_action` does. The candidate list is then never empty. | high; not executed | QLearning.AsWrittenEmptyExample | QLearning.BestActions |
