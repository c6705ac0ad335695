/** brute_force_search: recursive backtracking over simple paths. The path
    so far is passed down and rebuilt (`path + [start]`), never mutated, so the
    search is a pair of mutually recursive functions: Search for one call and
    Explore for its loop over the current location's neighbours. */
module BruteForce {
  import opened Walks

  /** Every location the map mentions, as a key or as a neighbour. */
  ghost function Nodes(adj: Adjacency): set<Loc>
  {
    adj.Keys + set k, n | k in adj && n in adj[k] :: n
  }

  ghost function Elems(s: seq<Loc>): set<Loc>
  {
    set x | x in s
  }

  /** The number of mentioned locations not yet on the path: it bounds the
      remaining recursion depth. */
  ghost function Measure(adj: Adjacency, path: seq<Loc>): nat
  {
    |Nodes(adj) - Elems(path)|
  }

  lemma MeasureShrinks(adj: Adjacency, path: seq<Loc>, k: Loc, n: Loc)
    requires Edge(adj, k, n) && n !in path
    ensures Measure(adj, path + [n]) < Measure(adj, path)
  {
    var rest := Nodes(adj) - Elems(path);
    assert n in rest;
    assert Nodes(adj) - Elems(path + [n]) == rest - {n};
  }

  /** q is a path from s to t along adjacency-list entries, repeats no location,
      and after its first location visits nothing in avoid. */
  predicate SimpleRoute(adj: Adjacency, q: seq<Loc>, s: Loc, t: Loc, avoid: seq<Loc>)
  {
    WalkBetween(adj, q, s, t) && NoDup(q) && forall i :: 1 <= i < |q| ==> q[i] !in avoid
  }

  /** One call brute_force_search(graph, start, goal, path). A result extends
      the given path by a simple route from start to goal that avoids it. */
  function Search(adj: Adjacency, start: Loc, goal: Loc, path: seq<Loc>): (r: Option<seq<Loc>>)
    ensures r.Some? ==> (|r.value| > |path| && r.value[..|path|] == path
      && SimpleRoute(adj, r.value[|path|..], start, goal, path))
    decreases Measure(adj, path + [start]), 1
  {
    var p := path + [start];
    if start == goal then
      assert p[|path|..] == [start];
      Some(p)
    else if start !in adj then
      None
    else
      var r := Explore(adj, goal, p, adj[start]);
      if r.Some? then
        PrependStart(adj, path, start, goal, r.value);
        r
      else
        None
  }

  /** The for loop over the neighbours nbs of the path's last location: the
      first neighbour not on the path whose search succeeds. */
  function Explore(adj: Adjacency, goal: Loc, p: seq<Loc>, nbs: seq<Loc>): (r: Option<seq<Loc>>)
    requires |p| > 0 && forall n :: n in nbs ==> Edge(adj, Last(p), n)
    ensures r.Some? ==> (|r.value| > |p| && r.value[..|p|] == p && r.value[|p|] in nbs
      && r.value[|p|] !in p && SimpleRoute(adj, r.value[|p|..], r.value[|p|], goal, p))
    decreases Measure(adj, p), 0, |nbs|
  {
    if nbs == [] then
      None
    else if nbs[0] !in p then
      MeasureShrinks(adj, p, Last(p), nbs[0]);
      var r := Search(adj, nbs[0], goal, p);
      if r.Some? then r else Explore(adj, goal, p, nbs[1..])
    else
      Explore(adj, goal, p, nbs[1..])
  }

  /** A route found from a neighbour of start, prefixed by start, is a route from start. */
  lemma PrependStart(adj: Adjacency, path: seq<Loc>, start: Loc, goal: Loc, r: seq<Loc>)
    requires |r| > |path| + 1 && r[..|path| + 1] == path + [start]
    requires Edge(adj, start, r[|path| + 1]) && r[|path| + 1] !in path + [start]
    requires SimpleRoute(adj, r[|path| + 1..], r[|path| + 1], goal, path + [start])
    ensures |r| > |path| && r[..|path|] == path && SimpleRoute(adj, r[|path|..], start, goal, path)
  {
    var q := r[|path|..];
    var tail := r[|path| + 1..];
    assert q == [start] + tail;
    forall i | 0 <= i < |q| - 1
      ensures Edge(adj, q[i], q[i + 1])
    {
      if i > 0 {
        assert q[i] == tail[i - 1] && q[i + 1] == tail[i];
      }
    }
    forall i, j | 0 <= i < j < |q|
      ensures q[i] != q[j]
    {
      if i > 0 {
        assert q[i] == tail[i - 1] && q[j] == tail[j - 1];
      } else {
        assert q[j] == tail[j - 1];
        assert tail[j - 1] !in path + [start];
      }
    }
    forall i | 1 <= i < |q|
      ensures q[i] !in path
    {
      assert q[i] == tail[i - 1];
    }
  }

  /** brute_force_search(graph, start, goal) with the default empty path: any
      result is a simple path from start to goal. */
  function BruteForceSearch(adj: Adjacency, start: Loc, goal: Loc): (r: Option<seq<Loc>>)
    ensures r.Some? ==> WalkBetween(adj, r.value, start, goal) && NoDup(r.value)
  {
    var r := Search(adj, start, goal, []);
    assert r.Some? ==> r.value[0..] == r.value;
    r
  }

  /** start == goal returns the path extended by start without looking at the
      graph; a start with no adjacency entry otherwise yields nothing. */
  lemma SearchEdgeCases(adj: Adjacency, start: Loc, goal: Loc, path: seq<Loc>)
    ensures start == goal ==> Search(adj, start, goal, path) == Some(path + [start])
    ensures start != goal && start !in adj ==> Search(adj, start, goal, path) == None
  {
  }

  /** Completeness: whenever a simple route from start to goal avoiding the
      path exists, the search finds one. */
  lemma {:induction false} SearchComplete(adj: Adjacency, start: Loc, goal: Loc, path: seq<Loc>, q: seq<Loc>)
    requires SimpleRoute(adj, q, start, goal, path)
    ensures Search(adj, start, goal, path).Some?
    decreases Measure(adj, path + [start]), 1
  {
    if start != goal {
      var p := path + [start];
      var tail := q[1..];
      assert Edge(adj, q[0], q[1]);
      forall i | 0 <= i < |tail| - 1
        ensures Edge(adj, tail[i], tail[i + 1])
      {
        assert tail[i] == q[i + 1] && tail[i + 1] == q[i + 2];
      }
      forall i | 0 <= i < |tail|
        ensures tail[i] !in p
      {
        assert tail[i] == q[i + 1];
        assert q[i + 1] != q[0];
      }
      forall i, j | 0 <= i < j < |tail|
        ensures tail[i] != tail[j]
      {
        assert tail[i] == q[i + 1] && tail[j] == q[j + 1];
      }
      ExploreComplete(adj, goal, p, adj[start], tail);
    }
  }

  lemma {:induction false} ExploreComplete(adj: Adjacency, goal: Loc, p: seq<Loc>, nbs: seq<Loc>, q: seq<Loc>)
    requires |p| > 0 && forall n :: n in nbs ==> Edge(adj, Last(p), n)
    requires |q| > 0 && q[0] in nbs && q[0] !in p && SimpleRoute(adj, q, q[0], goal, p)
    ensures Explore(adj, goal, p, nbs).Some?
    decreases Measure(adj, p), 0, |nbs|
  {
    if nbs[0] == q[0] {
      MeasureShrinks(adj, p, Last(p), nbs[0]);
      SearchComplete(adj, nbs[0], goal, p, q);
    } else if nbs[0] in p || Search(adj, nbs[0], goal, p).None? {
      ExploreComplete(adj, goal, p, nbs[1..], q);
    }
  }

  lemma {:induction false} DistinctElems(s: seq<Loc>)
    requires NoDup(s)
    ensures |Elems(s)| == |s|
  {
    if s != [] {
      var n := |s| - 1;
      DistinctElems(s[..n]);
      assert Elems(s) == Elems(s[..n]) + {s[n]};
      assert s[n] !in Elems(s[..n]);
    }
  }

  /** A route never has more locations than the graph mentions, plus its start:
      the recursion is at most that deep. */
  lemma RouteLengthBound(adj: Adjacency, q: seq<Loc>, s: Loc, t: Loc, avoid: seq<Loc>)
    requires SimpleRoute(adj, q, s, t, avoid)
    ensures |q| <= |Nodes(adj)| + 1
  {
    var tail := q[1..];
    forall i | 0 <= i < |tail|
      ensures tail[i] in Nodes(adj)
    {
      assert Edge(adj, q[i], q[i + 1]) && tail[i] == q[i + 1];
    }
    assert NoDup(tail) by {
      forall i, j | 0 <= i < j < |tail| ensures tail[i] != tail[j] {
        assert tail[i] == q[i + 1] && tail[j] == q[j + 1];
      }
    }
    DistinctElems(tail);
    SubsetSize(Elems(tail), Nodes(adj));
  }

  lemma SubsetSize(a: set<Loc>, b: set<Loc>)
    requires a <= b
    ensures |a| <= |b|
  {
    assert b == a + (b - a);
    assert a * (b - a) == {};
  }

  /** brute_force_search returns None exactly when goal cannot be reached from
      start at all: any walk can be shortened to a simple one, which the search
      is complete for. */
  lemma BruteForceFindsIffReachable(adj: Adjacency, start: Loc, goal: Loc)
    ensures BruteForceSearch(adj, start, goal).Some? <==> Reachable(adj, start, goal)
  {
    if Reachable(adj, start, goal) {
      var w :| WalkBetween(adj, w, start, goal);
      var v := SimplifyWalk(adj, w);
      SearchComplete(adj, start, goal, [], v);
    }
  }
}
