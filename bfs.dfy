// Breadth-first search for a shortest sequence of moves (bfs): a queue of
// (board, path) pairs and a visited set that a board joins when it is queued.

module Bfs {
  import opened Wrappers
  import opened Board
  import opened Moves
  import opened Paths

  /** A queue element: a board and the path by which it was reached. */
  datatype Entry = Entry(state: State, path: seq<State>)

  /** The entry's path leads from initial to its board, and no path with
      fewer moves does. */
  ghost predicate Shortest(initial: State, e: Entry)
  {
    && PathFromTo(e.path, initial, e.state)
    && (|e.path| >= 2 ==> e.state !in Within(initial, |e.path| - 2))
  }

  /** Path lengths along the queue never decrease and span at most two values. */
  predicate Layered(q: seq<Entry>)
  {
    && (forall i, j :: 0 <= i < j < |q| ==> |q[i].path| <= |q[j].path|)
    && (forall i :: 0 <= i < |q| ==> |q[i].path| <= |q[0].path| + 1)
  }

  ghost function States(q: seq<Entry>): set<State>
  {
    set e | e in q :: e.state
  }

  /** Once every board of the current layer has been expanded, the whole next
      layer has been seen. */
  lemma NextLayerVisited(initial: State, d: nat, visited: set<State>, processed: set<State>, q: seq<Entry>)
    requires Within(initial, d) <= visited
    requires visited <= processed + States(q)
    requires NeighborsIn(processed, visited)
    requires forall e :: e in q ==> Shortest(initial, e) && |e.path| >= d + 2
    ensures Within(initial, d + 1) <= visited
  {
    forall u | u in Within(initial, d + 1) ensures u in visited {
      WithinStep(initial, d, u);
      if u !in Within(initial, d) {
        var w :| w in Within(initial, d) && u in Neighbors(w);
        if w !in processed {
          NotQueued(initial, d, w, q);
        }
      }
    }
  }

  /** A board within d moves is not waiting in a queue whose paths all have
      more than d moves. */
  lemma NotQueued(initial: State, d: nat, w: State, q: seq<Entry>)
    requires w in Within(initial, d)
    requires forall e :: e in q ==> Shortest(initial, e) && |e.path| >= d + 2
    ensures w !in States(q)
  {
    if w in States(q) {
      var e :| e in q && e.state == w;
      var k: nat := |e.path| - 2;
      WithinMonotone(initial, d, k);
    }
  }

  /** The loop invariant of bfs. Every queued path is a shortest one, path
      lengths along the queue grow by at most one, everything within the head's
      distance has been seen, and every seen board is expanded or queued. */
  ghost predicate Invariant(initial: State, goal: State, queue: seq<Entry>, visited: set<State>, processed: set<State>)
  {
    && visited <= AllBoards(|initial|) && initial in visited
    && (forall e :: e in queue ==> e.state in visited && Shortest(initial, e))
    && Layered(queue)
    && (|queue| > 0 ==> Within(initial, |queue[0].path| - 1) <= visited)
    && visited <= processed + States(queue)
    && NeighborsIn(processed, visited)
    && goal !in processed
  }

  /** The dequeued goal comes with a shortest path. */
  lemma FoundIsShortest(initial: State, goal: State, current: Entry)
    requires Shortest(initial, current) && current.state == goal
    ensures PathFromTo(current.path, initial, goal) && NoDup(current.path)
    ensures forall p :: PathFromTo(p, initial, goal) ==> |current.path| <= |p|
    ensures Reachable(initial, goal)
    ensures initial == goal ==> current.path == [initial]
  {
    forall p | PathFromTo(p, initial, goal) ensures |current.path| <= |p| {
      PathWithin(p);
      if |p| < |current.path| {
        WithinMonotone(initial, |p| - 1, |current.path| - 2);
      }
    }
    PathNoDup(current.path);
    if initial == goal {
      assert PathFromTo([initial], initial, goal);
      assert current.path == [initial];
    }
  }

  /** The boards queued by an expansion carry shortest paths: each is one
      move from the head, whose path is shortest, and was not yet visited,
      so it is not within the head's distance. */
  lemma NewEntriesShortest(initial: State, current: Entry, visited0: set<State>,
                           queue0: seq<Entry>, queue: seq<Entry>, visited: set<State>)
    requires Shortest(initial, current)
    requires Within(initial, |current.path| - 1) <= visited0
    requires EnqueuedPass(current.path, Neighbors(current.state), queue0, visited0, queue, visited)
    ensures forall i :: |queue0| <= i < |queue| ==> Shortest(initial, queue[i])
  {
    var d := |current.path| - 1;
    forall i | |queue0| <= i < |queue| ensures Shortest(initial, queue[i]) {
      var e := queue[i];
      var next := e.state;
      assert e.path == current.path + [next];
      assert next in Neighbors(current.state) && next !in visited0;
      assert |e.path| - 2 == d;
      assert next !in Within(initial, d);
      PathSnoc(current.path, next);
    }
  }

  /** After an expansion the visited boards all lie in the universe. */
  lemma VisitedStillInUniverse(n: nat, current: State, visited0: set<State>, visited: set<State>)
    requires visited0 <= AllBoards(n) && current in visited0
    requires forall x :: x in visited ==> x in visited0 || x in Neighbors(current)
    ensures visited <= AllBoards(n)
  {
    forall x | x in visited ensures x in AllBoards(n) {
      if x !in visited0 {
        NeighborFacts(current, x);
        AllBoardsLength(n, current);
        InAllBoards(x);
      }
    }
  }

  /** After an expansion the queued entries are still visited and shortest. */
  lemma QueueStillShortest(initial: State, goal: State, oldQueue: seq<Entry>,
                           visited0: set<State>, processed0: set<State>,
                           queue: seq<Entry>, visited: set<State>)
    requires Invariant(initial, goal, oldQueue, visited0, processed0)
    requires |oldQueue| > 0
    requires EnqueuedPass(oldQueue[0].path, Neighbors(oldQueue[0].state), oldQueue[1..], visited0, queue, visited)
    ensures forall e :: e in queue ==> e.state in visited && Shortest(initial, e)
  {
    var queue0 := oldQueue[1..];
    assert oldQueue[0] in oldQueue;
    assert Within(initial, |oldQueue[0].path| - 1) <= visited0;
    NewEntriesShortest(initial, oldQueue[0], visited0, queue0, queue, visited);
    forall e | e in queue ensures e.state in visited && Shortest(initial, e) {
      var i :| 0 <= i < |queue| && queue[i] == e;
      if i < |queue0| {
        assert e == oldQueue[i + 1];
      }
    }
  }

  /** After an expansion the queue is still layered, starting no shorter. */
  lemma QueueStillLayered(oldQueue: seq<Entry>, neighbors: seq<State>,
                          visited0: set<State>, queue: seq<Entry>, visited: set<State>)
    requires Layered(oldQueue) && |oldQueue| > 0
    requires EnqueuedPass(oldQueue[0].path, neighbors, oldQueue[1..], visited0, queue, visited)
    ensures Layered(queue)
    ensures forall e :: e in queue ==> |oldQueue[0].path| <= |e.path| <= |oldQueue[0].path| + 1
  {
    var queue0 := oldQueue[1..];
    var level := |oldQueue[0].path|;
    forall i | 0 <= i < |queue| ensures level <= |queue[i].path| <= level + 1 {
      if i < |queue0| {
        assert queue[i] == oldQueue[i + 1];
      }
    }
    forall i, j | 0 <= i < j < |queue| ensures |queue[i].path| <= |queue[j].path| {
      if j < |queue0| {
        assert queue[i] == oldQueue[i + 1] && queue[j] == oldQueue[j + 1];
      } else if i < |queue0| {
        assert queue[i] == oldQueue[i + 1];
      }
    }
  }

  /** After an expansion every visited board is expanded or queued. */
  lemma VisitedStillCovered(initial: State, goal: State, oldQueue: seq<Entry>,
                            visited0: set<State>, processed0: set<State>,
                            queue: seq<Entry>, visited: set<State>)
    requires Invariant(initial, goal, oldQueue, visited0, processed0)
    requires |oldQueue| > 0
    requires EnqueuedPass(oldQueue[0].path, Neighbors(oldQueue[0].state), oldQueue[1..], visited0, queue, visited)
    ensures visited <= processed0 + {oldQueue[0].state} + States(queue)
    ensures NeighborsIn(processed0 + {oldQueue[0].state}, visited)
  {
    var current, queue0 := oldQueue[0], oldQueue[1..];
    forall x | x in visited ensures x in processed0 + {current.state} + States(queue) {
      if x in visited0 && x !in processed0 {
        var e :| e in oldQueue && e.state == x;
        if e != current {
          assert e in queue0;
          assert e in queue;
        }
      } else if x !in visited0 {
        var i :| |queue0| <= i < |queue| && queue[i].state == x;
        assert queue[i] in queue;
      }
    }
  }

  /** Expanding the head of the queue keeps the invariant. */
  lemma ExpansionKeepsInvariant(initial: State, goal: State, oldQueue: seq<Entry>,
                                visited0: set<State>, processed0: set<State>,
                                queue: seq<Entry>, visited: set<State>)
    requires Invariant(initial, goal, oldQueue, visited0, processed0)
    requires |oldQueue| > 0 && oldQueue[0].state != goal
    requires EnqueuedPass(oldQueue[0].path, Neighbors(oldQueue[0].state), oldQueue[1..], visited0, queue, visited)
    ensures Invariant(initial, goal, queue, visited, processed0 + {oldQueue[0].state})
  {
    var processed := processed0 + {oldQueue[0].state};
    var level := |oldQueue[0].path|;
    VisitedStillInUniverse(|initial|, oldQueue[0].state, visited0, visited);
    QueueStillShortest(initial, goal, oldQueue, visited0, processed0, queue, visited);
    QueueStillLayered(oldQueue, Neighbors(oldQueue[0].state), visited0, queue, visited);
    VisitedStillCovered(initial, goal, oldQueue, visited0, processed0, queue, visited);
    WithinStillVisited(initial, level, visited0, queue, visited, processed);
  }

  /** The head's layer stays seen: either the head is at the same distance as
      before, or the previous layer has been fully expanded. */
  lemma WithinStillVisited(initial: State, level: nat, visited0: set<State>,
                           queue: seq<Entry>, visited: set<State>, processed: set<State>)
    requires level >= 1 && Within(initial, level - 1) <= visited0 <= visited
    requires forall e :: e in queue ==> Shortest(initial, e) && level <= |e.path| <= level + 1
    requires Layered(queue)
    requires visited <= processed + States(queue)
    requires NeighborsIn(processed, visited)
    ensures |queue| > 0 ==> Within(initial, |queue[0].path| - 1) <= visited
  {
    if |queue| > 0 {
      assert queue[0] in queue;
      var d := |queue[0].path| - 1;
      if d == level - 1 {
        assert Within(initial, d) <= visited0;
      } else {
        LayeredAbove(queue, level + 1);
        NextLayerVisited(initial, level - 1, visited, processed, queue);
        assert d == (level - 1) + 1;
      }
    }
  }

  lemma LayeredAbove(q: seq<Entry>, d: nat)
    requires Layered(q) && |q| > 0 && |q[0].path| == d
    ensures forall e :: e in q ==> |e.path| >= d
  {
    forall e | e in q ensures |e.path| >= d {
      var i :| 0 <= i < |q| && q[i] == e;
      if i > 0 {
        assert |q[0].path| <= |q[i].path|;
      }
    }
  }

  lemma FewerUnvisited(u: set<State>, a: set<State>, b: set<State>)
    requires a <= b <= u && a != b
    ensures |u - b| < |u - a|
  {
    var x :| x in b && x !in a;
    assert u - b <= (u - a) - {x};
    assert |u - b| <= |(u - a) - {x}|
    by {
      var big := (u - a) - {x};
      assert big == (u - b) + (big - (u - b));
    }
  }

  /** What one pass over the neighbours does: each neighbour ends up visited;
      the ones not visited before are marked and queued, in order, each once,
      with the path extended by them; nothing else changes. */
  ghost predicate EnqueuedPass(path: seq<State>, neighbors: seq<State>,
                           queue: seq<Entry>, visited: set<State>,
                           queue': seq<Entry>, visited': set<State>)
  {
    && visited <= visited'
    && (forall x :: x in neighbors ==> x in visited')
    && (forall x :: x in visited' ==> x in visited || x in neighbors)
    && |queue'| >= |queue| && queue'[..|queue|] == queue
    && (forall i :: |queue| <= i < |queue'| ==>
         && queue'[i].path == path + [queue'[i].state]
         && queue'[i].state in neighbors && queue'[i].state in visited' && queue'[i].state !in visited)
    && (forall i, j :: |queue| <= i < j < |queue'| ==> queue'[i].state != queue'[j].state)
    && (forall x :: x in visited' && x !in visited ==> exists i :: |queue| <= i < |queue'| && queue'[i].state == x)
    && (visited' == visited ==> queue' == queue)
  }

  lemma EnqueuedNone(path: seq<State>, queue: seq<Entry>, visited: set<State>)
    ensures EnqueuedPass(path, [], queue, visited, queue, visited)
  {
  }

  /** A neighbour that is already visited changes nothing. */
  lemma EnqueuedSkip(path: seq<State>, neighbors: seq<State>, next: State,
                     queue: seq<Entry>, visited: set<State>, queue': seq<Entry>, visited': set<State>)
    requires EnqueuedPass(path, neighbors, queue, visited, queue', visited') && next in visited'
    ensures EnqueuedPass(path, neighbors + [next], queue, visited, queue', visited')
  {
  }

  /** A neighbour not yet visited is marked and queued with the extended path. */
  lemma EnqueuedAdd(path: seq<State>, neighbors: seq<State>, next: State,
                    queue: seq<Entry>, visited: set<State>, queue': seq<Entry>, visited': set<State>)
    requires EnqueuedPass(path, neighbors, queue, visited, queue', visited') && next !in visited'
    ensures EnqueuedPass(path, neighbors + [next], queue, visited,
                     queue' + [Entry(next, path + [next])], visited' + {next})
  {
    var q := queue' + [Entry(next, path + [next])];
    assert q[..|queue|] == queue'[..|queue|];
    forall x | x in visited' + {next} && x !in visited
      ensures exists i :: |queue| <= i < |q| && q[i].state == x
    {
      if x == next {
        assert q[|q| - 1].state == x;
      } else {
        var i :| |queue| <= i < |queue'| && queue'[i].state == x;
        assert q[i].state == x;
      }
    }
  }

  /** The entries one pass queues, in neighbour order: every neighbour that
      is neither visited nor earlier in the list, with the path extended by it. */
  function NewEntries(path: seq<State>, neighbors: seq<State>, visited: set<State>): seq<Entry>
  {
    if |neighbors| == 0 then []
    else
      var before, next := neighbors[..|neighbors| - 1], neighbors[|neighbors| - 1];
      if next in visited || next in before then NewEntries(path, before, visited)
      else NewEntries(path, before, visited) + [Entry(next, path + [next])]
  }

  /** One more neighbour extends the queued entries exactly as NewEntries does. */
  lemma NewEntriesStep(path: seq<State>, neighbors: seq<State>, next: State,
                       queue: seq<Entry>, visited: set<State>, queue': seq<Entry>, visited': set<State>)
    requires EnqueuedPass(path, neighbors, queue, visited, queue', visited')
    requires queue'[|queue|..] == NewEntries(path, neighbors, visited)
    ensures next in visited' ==> queue'[|queue|..] == NewEntries(path, neighbors + [next], visited)
    ensures next !in visited' ==>
      (queue' + [Entry(next, path + [next])])[|queue|..] == NewEntries(path, neighbors + [next], visited)
  {
    var all := neighbors + [next];
    assert all[..|all| - 1] == neighbors && all[|all| - 1] == next;
    assert next in visited' <==> next in visited || next in neighbors;
    assert (queue' + [Entry(next, path + [next])])[|queue|..] == queue'[|queue|..] + [Entry(next, path + [next])];
  }

  /** The for loop over the neighbours of the dequeued board. A board is
      queued only when it was not visited before, and is marked visited as it
      is queued, so no board is queued twice. */
  method EnqueueUnvisited(path: seq<State>, neighbors: seq<State>, queue: seq<Entry>, visited: set<State>)
    returns (queue': seq<Entry>, visited': set<State>)
    ensures EnqueuedPass(path, neighbors, queue, visited, queue', visited')
    ensures queue'[|queue|..] == NewEntries(path, neighbors, visited)
  {
    queue', visited' := queue, visited;
    EnqueuedNone(path, queue, visited);
    for j := 0 to |neighbors|
      invariant EnqueuedPass(path, neighbors[..j], queue, visited, queue', visited')
      invariant queue'[|queue|..] == NewEntries(path, neighbors[..j], visited)
    {
      var next := neighbors[j];
      assert neighbors[..j + 1] == neighbors[..j] + [next];
      NewEntriesStep(path, neighbors[..j], next, queue, visited, queue', visited');
      if next !in visited' {
        EnqueuedAdd(path, neighbors[..j], next, queue, visited, queue', visited');
        visited' := visited' + {next};
        queue' := queue' + [Entry(next, path + [next])];
      } else {
        EnqueuedSkip(path, neighbors[..j], next, queue, visited, queue', visited');
      }
    }
    assert neighbors[..|neighbors|] == neighbors;
  }

  /** A found path runs from initial to goal with the fewest possible moves
      and repeats no board; None means goal is unreachable. */
  method Bfs(initial: State, goal: State) returns (r: Option<seq<State>>)
    ensures r.Some? ==> PathFromTo(r.value, initial, goal) && NoDup(r.value)
    ensures r.Some? ==> forall p :: PathFromTo(p, initial, goal) ==> |r.value| <= |p|
    ensures r.None? <==> !Reachable(initial, goal)
    ensures initial == goal ==> r == Some([initial])
  {
    ghost var universe := AllBoards(|initial|);
    InvariantInit(initial, goal);
    var queue := [Entry(initial, [initial])];
    var visited := {initial};
    ghost var processed: set<State> := {};
    while |queue| > 0
      invariant Invariant(initial, goal, queue, visited, processed)
      decreases |universe - visited|, |queue|
    {
      ghost var oldQueue := queue;
      var current := queue[0];
      queue := queue[1..];
      if current.state == goal {
        FoundIsShortest(initial, goal, current);
        return Some(current.path);
      }
      ghost var processed0 := processed;
      processed := processed + {current.state};
      var neighbors := GetNeighbors(current.state);
      ghost var visited0, queue0 := visited, queue;
      queue, visited := EnqueueUnvisited(current.path, neighbors, queue, visited);
      ExpansionKeepsInvariant(initial, goal, oldQueue, visited0, processed0, queue, visited);
      if visited != visited0 {
        FewerUnvisited(universe, visited0, visited);
      }
    }
    InvariantExhausted(initial, goal, visited, processed);
    return None;
  }

  lemma InvariantInit(initial: State, goal: State)
    ensures Invariant(initial, goal, [Entry(initial, [initial])], {initial}, {})
  {
    InAllBoards(initial);
    assert States([Entry(initial, [initial])]) == {initial};
    assert Within(initial, 0) == {initial};
  }

  /** With the queue empty, the visited set is closed under moves and
      excludes the goal, so the goal is unreachable. */
  lemma InvariantExhausted(initial: State, goal: State, visited: set<State>, processed: set<State>)
    requires Invariant(initial, goal, [], visited, processed)
    ensures !Reachable(initial, goal)
  {
    assert States([]) == {};
    assert visited <= processed;
    assert NeighborsIn(visited, visited);
    ClosedExcludesUnreachable(visited, initial, goal);
  }
}
