/** bfs: breadth-first search over a FIFO queue of whole paths. The goal is
    tested when a neighbour is generated, neighbours are enqueued without a
    visited check, and a city is marked visited only after it is expanded. */
module BreadthFirst {
  import opened Walks

  /** Some queued path ends at y and has at most n entries. */
  ghost predicate InQueue(queue: seq<seq<Loc>>, y: Loc, n: nat)
  {
    exists j :: 0 <= j < |queue| && |queue[j]| > 0 && Last(queue[j]) == y && |queue[j]| <= n
  }

  /** Every queued path is a walk from start to a non-goal location with an entry. */
  ghost predicate QueueOk(adj: Adjacency, start: Loc, goal: Loc, queue: seq<seq<Loc>>)
  {
    forall j :: 0 <= j < |queue| ==>
      IsWalk(adj, queue[j]) && queue[j][0] == start && Last(queue[j]) in adj && Last(queue[j]) != goal
  }

  /** Queued paths are in level order: non-decreasing in length, and no longer
      than the head by more than one location. */
  ghost predicate LevelOrder(queue: seq<seq<Loc>>)
  {
    (forall i, j :: 0 <= i <= j < |queue| ==> |queue[i]| <= |queue[j]|) &&
    (forall j :: 0 <= j < |queue| ==> |queue[j]| <= |queue[0]| + 1)
  }

  /** depth[x] is the length of the path along which x was expanded. Expanded
      locations were reached by shortest walks, and each unexpanded neighbour of
      an expanded location waits in the queue at most one step deeper. */
  ghost predicate Frontier(adj: Adjacency, start: Loc, visited: set<Loc>, queue: seq<seq<Loc>>, depth: map<Loc, nat>)
  {
    visited <= adj.Keys && depth.Keys == visited &&
    (start in visited || InQueue(queue, start, 1)) &&
    (forall x, y :: x in visited && y in adj[x] && y !in visited ==> InQueue(queue, y, depth[x] + 1)) &&
    (forall x :: x in visited ==> NoShorterWalk(adj, start, x, depth[x]))
  }

  ghost predicate BfsInv(adj: Adjacency, start: Loc, goal: Loc, visited: set<Loc>, queue: seq<seq<Loc>>, depth: map<Loc, nat>)
  {
    QueueOk(adj, start, goal, queue) && LevelOrder(queue) &&
    Frontier(adj, start, visited, queue, depth) && goal !in visited
  }

  /** The first unexpanded location on any walk from start is the end of a
      queued path no longer than the walk up to it. */
  lemma {:induction false} FirstUnvisited(adj: Adjacency, start: Loc, goal: Loc, visited: set<Loc>,
                                          queue: seq<seq<Loc>>, depth: map<Loc, nat>, w: seq<Loc>)
    returns (i: nat, j: nat)
    requires BfsInv(adj, start, goal, visited, queue, depth)
    requires IsWalk(adj, w) && w[0] == start && Last(w) !in visited
    ensures i < |w| && j < |queue| && |queue[j]| > 0 && Last(queue[j]) == w[i] && |queue[j]| <= i + 1
    decreases |w|
  {
    if |w| == 1 {
      i := 0;
      j :| 0 <= j < |queue| && |queue[j]| > 0 && Last(queue[j]) == start && |queue[j]| <= 1;
    } else {
      var prefix := w[..|w| - 1];
      SliceWalk(adj, w, 0, |w| - 1);
      if Last(prefix) !in visited {
        i, j := FirstUnvisited(adj, start, goal, visited, queue, depth, prefix);
      } else {
        var x := Last(prefix);
        assert Edge(adj, w[|w| - 2], w[|w| - 1]);
        assert WalkBetween(adj, prefix, start, x);
        assert InQueue(queue, Last(w), depth[x] + 1);
        i := |w| - 1;
        j :| 0 <= j < |queue| && |queue[j]| > 0 && Last(queue[j]) == Last(w) && |queue[j]| <= depth[x] + 1;
      }
    }
  }

  /** Every walk from start to goal has more locations than the head path. */
  lemma GoalBeyondHead(adj: Adjacency, start: Loc, goal: Loc, visited: set<Loc>,
                       queue: seq<seq<Loc>>, depth: map<Loc, nat>)
    requires BfsInv(adj, start, goal, visited, queue, depth) && |queue| > 0
    ensures NoShorterWalk(adj, start, goal, |queue[0]| + 1)
  {
    forall w | WalkBetween(adj, w, start, goal)
      ensures |w| >= |queue[0]| + 1
    {
      var i, j := FirstUnvisited(adj, start, goal, visited, queue, depth, w);
      assert i < |w| - 1;
    }
  }

  /** The head path is a shortest walk to its last location when that location
      is still unexpanded. */
  lemma HeadShortest(adj: Adjacency, start: Loc, goal: Loc, visited: set<Loc>,
                     queue: seq<seq<Loc>>, depth: map<Loc, nat>)
    requires BfsInv(adj, start, goal, visited, queue, depth) && |queue| > 0
    requires Last(queue[0]) !in visited
    ensures NoShorterWalk(adj, start, Last(queue[0]), |queue[0]|)
  {
    forall w | WalkBetween(adj, w, start, Last(queue[0]))
      ensures |w| >= |queue[0]|
    {
      var i, j := FirstUnvisited(adj, start, goal, visited, queue, depth, w);
    }
  }

  /** Once every location reachable through the expanded ones is expanded, an
      empty queue means the goal cannot be reached. */
  lemma ReachableNeedsQueue(adj: Adjacency, start: Loc, goal: Loc, visited: set<Loc>,
                            queue: seq<seq<Loc>>, depth: map<Loc, nat>)
    requires BfsInv(adj, start, goal, visited, queue, depth)
    ensures Reachable(adj, start, goal) ==> |queue| > 0
  {
    if Reachable(adj, start, goal) {
      var w :| WalkBetween(adj, w, start, goal);
      var i, j := FirstUnvisited(adj, start, goal, visited, queue, depth, w);
    }
  }

  /** Until start is expanded, the head of the queue is the one-location path [start]. */
  lemma StartFirst(adj: Adjacency, start: Loc, goal: Loc, visited: set<Loc>,
                   queue: seq<seq<Loc>>, depth: map<Loc, nat>)
    requires BfsInv(adj, start, goal, visited, queue, depth) && |queue| > 0
    ensures start in visited || queue[0] == [start]
  {
    if start !in visited {
      var j :| 0 <= j < |queue| && |queue[j]| > 0 && Last(queue[j]) == start && |queue[j]| <= 1;
      assert |queue[0]| <= |queue[j]|;
      assert queue[0][0] == start;
    }
  }

  /** Dequeuing a path whose last city is already visited keeps the invariant. */
  lemma SkipKeepsInv(adj: Adjacency, start: Loc, goal: Loc, visited: set<Loc>,
                     queue: seq<seq<Loc>>, depth: map<Loc, nat>)
    requires BfsInv(adj, start, goal, visited, queue, depth) && |queue| > 0
    requires Last(queue[0]) in visited
    ensures BfsInv(adj, start, goal, visited, queue[1..], depth)
  {
    var rest := queue[1..];
    StartFirst(adj, start, goal, visited, queue, depth);
    forall x, y | x in visited && y in adj[x] && y !in visited
      ensures InQueue(rest, y, depth[x] + 1)
    {
      QueuedStays(queue, rest, y, depth[x] + 1);
    }
  }

  /** One extension of path per neighbour, in list order. */
  function Extensions(path: seq<Loc>, nbs: seq<Loc>): (r: seq<seq<Loc>>)
    ensures |r| == |nbs| && forall k :: 0 <= k < |nbs| ==> r[k] == path + [nbs[k]]
  {
    seq(|nbs|, k requires 0 <= k < |nbs| => path + [nbs[k]])
  }

  lemma ExpandKeepsQueue(adj: Adjacency, start: Loc, goal: Loc, queue: seq<seq<Loc>>, next: seq<seq<Loc>>)
    requires Closed(adj) && QueueOk(adj, start, goal, queue) && LevelOrder(queue) && |queue| > 0
    requires forall n :: n in adj[Last(queue[0])] ==> n != goal
    requires next == queue[1..] + Extensions(queue[0], adj[Last(queue[0])])
    ensures QueueOk(adj, start, goal, next) && LevelOrder(next)
  {
    var head := queue[0];
    var nbs := adj[Last(head)];
    forall j | 0 <= j < |next|
      ensures IsWalk(adj, next[j]) && next[j][0] == start && Last(next[j]) in adj && Last(next[j]) != goal
      ensures |head| <= |next[j]| <= |head| + 1
    {
      if j < |queue| - 1 {
        assert next[j] == queue[j + 1];
      } else {
        var k := j - (|queue| - 1);
        assert next[j] == head + [nbs[k]];
        assert nbs[k] in nbs;
        ExtendWalk(adj, head, nbs[k]);
      }
    }
    forall i, j | 0 <= i <= j < |next|
      ensures |next[i]| <= |next[j]|
    {
      if j < |queue| - 1 {
        assert next[i] == queue[i + 1] && next[j] == queue[j + 1];
      } else {
        var k := j - (|queue| - 1);
        assert next[j] == head + [nbs[k]];
      }
    }
  }

  /** After expanding the head, every unvisited neighbour of the expanded city
      ends a queued path one location longer than the head. */
  lemma ExpandQueuesNeighbours(adj: Adjacency, queue: seq<seq<Loc>>, next: seq<seq<Loc>>, y: Loc)
    requires |queue| > 0 && |queue[0]| > 0 && Last(queue[0]) in adj && y in adj[Last(queue[0])]
    requires next == queue[1..] + Extensions(queue[0], adj[Last(queue[0])])
    ensures InQueue(next, y, |queue[0]| + 1)
  {
    var nbs := adj[Last(queue[0])];
    var k :| 0 <= k < |nbs| && nbs[k] == y;
    assert next[|queue| - 1 + k] == queue[0] + [nbs[k]];
  }

  /** Paths other than the head stay queued after expanding or skipping it. */
  lemma QueuedStays(queue: seq<seq<Loc>>, next: seq<seq<Loc>>, y: Loc, n: nat)
    requires |queue| > 0 && |queue[0]| > 0 && InQueue(queue, y, n) && Last(queue[0]) != y
    requires queue[1..] <= next
    ensures InQueue(next, y, n)
  {
    var j :| 0 <= j < |queue| && |queue[j]| > 0 && Last(queue[j]) == y && |queue[j]| <= n;
    assert next[j - 1] == queue[j];
  }

  lemma ExpandKeepsFrontier(adj: Adjacency, start: Loc, goal: Loc, visited: set<Loc>,
                            queue: seq<seq<Loc>>, depth: map<Loc, nat>, next: seq<seq<Loc>>)
    requires BfsInv(adj, start, goal, visited, queue, depth) && |queue| > 0
    requires Last(queue[0]) !in visited
    requires next == queue[1..] + Extensions(queue[0], adj[Last(queue[0])])
    ensures Frontier(adj, start, visited + {Last(queue[0])}, next, depth[Last(queue[0]) := |queue[0]|])
  {
    var head := queue[0];
    var x := Last(head);
    var visited' := visited + {x};
    var depth' := depth[x := |head|];
    HeadShortest(adj, start, goal, visited, queue, depth);
    StartFirst(adj, start, goal, visited, queue, depth);
    assert queue[1..] <= next;
    forall v, y | v in visited' && y in adj[v] && y !in visited'
      ensures InQueue(next, y, depth'[v] + 1)
    {
      if v == x {
        ExpandQueuesNeighbours(adj, queue, next, y);
      } else {
        QueuedStays(queue, next, y, depth[v] + 1);
      }
    }
  }

  /** The cities expanded so far, in order: exactly the visited ones, none
      twice, each with an entry and reachable from start. */
  ghost predicate ExpansionLog(adj: Adjacency, start: Loc, visited: set<Loc>, expanded: seq<Loc>)
  {
    (forall x :: x in visited <==> x in expanded) && NoDup(expanded) &&
    forall k :: 0 <= k < |expanded| ==> expanded[k] in adj && Reachable(adj, start, expanded[k])
  }

  lemma LogExpansion(adj: Adjacency, start: Loc, visited: set<Loc>, expanded: seq<Loc>, path: seq<Loc>)
    requires ExpansionLog(adj, start, visited, expanded)
    requires IsWalk(adj, path) && path[0] == start && Last(path) in adj && Last(path) !in visited
    ensures ExpansionLog(adj, start, visited + {Last(path)}, expanded + [Last(path)])
  {
    assert WalkBetween(adj, path, start, Last(path));
    var next := expanded + [Last(path)];
    forall k | 0 <= k < |next|
      ensures next[k] in adj && Reachable(adj, start, next[k])
    {
      if k < |expanded| {
        assert next[k] == expanded[k];
      }
    }
  }

  /** Expanding the head path of the queue keeps the invariant and records the
      expansion; the expanded city was unvisited, so fewer cities remain. */
  lemma ExpandKeepsInv(adj: Adjacency, start: Loc, goal: Loc, visited: set<Loc>, queue: seq<seq<Loc>>,
                       depth: map<Loc, nat>, expanded: seq<Loc>, next: seq<seq<Loc>>)
    requires Closed(adj) && BfsInv(adj, start, goal, visited, queue, depth) && |queue| > 0
    requires ExpansionLog(adj, start, visited, expanded)
    requires Last(queue[0]) !in visited && goal !in adj[Last(queue[0])]
    requires next == queue[1..] + Extensions(queue[0], adj[Last(queue[0])])
    ensures BfsInv(adj, start, goal, visited + {Last(queue[0])}, next, depth[Last(queue[0]) := |queue[0]|])
    ensures ExpansionLog(adj, start, visited + {Last(queue[0])}, expanded + [Last(queue[0])])
    ensures |adj.Keys - (visited + {Last(queue[0])})| < |adj.Keys - visited|
  {
    var city := Last(queue[0]);
    ExpandKeepsQueue(adj, start, goal, queue, next);
    ExpandKeepsFrontier(adj, start, goal, visited, queue, depth, next);
    LogExpansion(adj, start, visited, expanded, queue[0]);
    assert adj.Keys - (visited + {city}) == (adj.Keys - visited) - {city};
  }

  /** A goal generated from the head path ends a shortest walk from start. */
  lemma GoalFromHead(adj: Adjacency, start: Loc, goal: Loc, visited: set<Loc>,
                     queue: seq<seq<Loc>>, depth: map<Loc, nat>)
    requires BfsInv(adj, start, goal, visited, queue, depth) && |queue| > 0
    requires goal in adj[Last(queue[0])]
    ensures WalkBetween(adj, queue[0] + [goal], start, goal)
    ensures NoShorterWalk(adj, start, goal, |queue[0] + [goal]|) && NoDup(queue[0] + [goal])
    ensures Reachable(adj, start, goal)
  {
    GoalBeyondHead(adj, start, goal, visited, queue, depth);
    ExtendWalk(adj, queue[0], goal);
    assert WalkBetween(adj, queue[0] + [goal], start, goal);
    ShortestWalkIsSimple(adj, queue[0] + [goal]);
  }

  /** The for loop over the neighbours of the dequeued path: each extension is
      appended to the queue, and the loop stops at the first neighbour equal to
      goal. */
  method EnqueueNeighbours(queue: seq<seq<Loc>>, path: seq<Loc>, neighbors: seq<Loc>, goal: Loc)
    returns (next: seq<seq<Loc>>, found: bool)
    ensures found <==> goal in neighbors
    ensures !found ==> next == queue + Extensions(path, neighbors)
  {
    next := queue;
    var i := 0;
    while i < |neighbors|
      invariant 0 <= i <= |neighbors|
      invariant next == queue + Extensions(path, neighbors[..i])
      invariant goal !in neighbors[..i]
    {
      var neighbor := neighbors[i];
      var newPath := path + [neighbor];
      next := next + [newPath];
      if neighbor == goal {
        return next, true;
      }
      assert neighbors[..i + 1] == neighbors[..i] + [neighbor];
      assert Extensions(path, neighbors[..i + 1]) == Extensions(path, neighbors[..i]) + [newPath];
      i := i + 1;
    }
    assert neighbors[..i] == neighbors;
    found := false;
  }

  /** bfs(graph, start, goal). The result is a shortest walk from start to
      goal, and nothing is returned exactly when goal cannot be reached. The
      ghost result lists the expanded cities: each at most once, each reachable. */
  method Bfs(adj: Adjacency, start: Loc, goal: Loc) returns (r: Option<seq<Loc>>, ghost expanded: seq<Loc>)
    requires Closed(adj)
    requires start != goal ==> start in adj
    ensures start == goal ==> r == Some([start])
    ensures r.Some? ==> WalkBetween(adj, r.value, start, goal)
    ensures r.Some? ==> NoShorterWalk(adj, start, goal, |r.value|) && NoDup(r.value)
    ensures r.None? <==> !Reachable(adj, start, goal)
    ensures NoDup(expanded)
    ensures forall k :: 0 <= k < |expanded| ==> expanded[k] in adj && Reachable(adj, start, expanded[k])
  {
    var visited: set<Loc> := {};
    var queue: seq<seq<Loc>> := [[start]];
    expanded := [];
    if start == goal {
      assert WalkBetween(adj, [start], start, goal);
      return Some([start]), expanded;
    }
    ghost var depth: map<Loc, nat> := map[];
    assert InQueue(queue, start, 1) by {
      assert Last(queue[0]) == start;
    }
    while |queue| > 0
      invariant BfsInv(adj, start, goal, visited, queue, depth)
      invariant ExpansionLog(adj, start, visited, expanded)
      decreases |adj.Keys - visited|, |queue|
    {
      ghost var before := queue;
      var path := queue[0];
      queue := queue[1..];
      var city := path[|path| - 1];
      if city !in visited {
        var neighbors := adj[city];
        var found;
        queue, found := EnqueueNeighbours(queue, path, neighbors, goal);
        if found {
          GoalFromHead(adj, start, goal, visited, before, depth);
          return Some(path + [goal]), expanded;
        }
        ExpandKeepsInv(adj, start, goal, visited, before, depth, expanded, queue);
        visited := visited + {city};
        depth := depth[city := |path|];
        expanded := expanded + [city];
      } else {
        SkipKeepsInv(adj, start, goal, visited, before, depth);
      }
    }
    ReachableNeedsQueue(adj, start, goal, visited, queue, depth);
    return None, expanded;
  }
}
