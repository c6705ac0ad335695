/** The undirected adjacency-list graph (class Graph of Search_Methods.py)
    and the loop that builds it from a loaded adjacency dictionary. */
module Graphs {
  import opened Walks

  /** The neighbour list of k, empty when k has no entry. */
  function Neighbours(adj: Adjacency, k: Loc): seq<Loc>
  {
    if k in adj then adj[k] else []
  }

  /** Each unordered pair is recorded symmetrically: b occurs in a's list as often
      as a occurs in b's (a self-loop puts a into its own list twice per edge). */
  ghost predicate Undirected(adj: Adjacency)
  {
    forall a, b :: a in adj && b in adj ==> multiset(adj[a])[b] == multiset(adj[b])[a]
  }

  /** The invariant every graph built by add_edge keeps. */
  ghost predicate WellFormed(adj: Adjacency)
  {
    Closed(adj) && Undirected(adj)
  }

  /** The adjacency list after add_edge(a, b): both ends become keys, b is appended
      to a's list and a to b's list, and nothing else changes. There is no
      deduplication. */
  function WithEdge(adj: Adjacency, a: Loc, b: Loc): (r: Adjacency)
    ensures r.Keys == adj.Keys + {a, b}
    ensures a != b ==> r[a] == Neighbours(adj, a) + [b] && r[b] == Neighbours(adj, b) + [a]
    ensures a == b ==> r[a] == Neighbours(adj, a) + [a, a]
    ensures forall k :: k in adj && k != a && k != b ==> r[k] == adj[k]
  {
    var withA := if a in adj then adj else adj[a := []];
    var withB := if b in withA then withA else withA[b := []];
    var appendedB := withB[a := withB[a] + [b]];
    appendedB[b := appendedB[b] + [a]]
  }

  class Graph {
    var adjacency: Adjacency

    ghost predicate Valid()
      reads this
    {
      WellFormed(adjacency)
    }

    constructor ()
      ensures adjacency == map[] && Valid()
    {
      adjacency := map[];
    }

    /** add_edge: creates the missing keys, then appends each end to the other's list. */
    method AddEdge(a: Loc, b: Loc)
      modifies this
      ensures adjacency == WithEdge(old(adjacency), a, b)
      ensures old(Valid()) ==> Valid()
    {
      if a !in adjacency {
        adjacency := adjacency[a := []];
      }
      if b !in adjacency {
        adjacency := adjacency[b := []];
      }
      adjacency := adjacency[a := adjacency[a] + [b]];
      adjacency := adjacency[b := adjacency[b] + [a]];
      WithEdgeKeepsWellFormed(old(adjacency), a, b);
    }
  }

  /** In a closed, undirected map the symmetry extends to locations without an entry. */
  lemma NeighboursSymmetric(adj: Adjacency, x: Loc, y: Loc)
    requires WellFormed(adj)
    ensures multiset(Neighbours(adj, x))[y] == multiset(Neighbours(adj, y))[x]
  {
    if x in adj && y !in adj {
      assert y !in adj[x];
    } else if x !in adj && y in adj {
      assert x !in adj[y];
    }
  }

  /** Each list after add_edge(a, b) is the old list followed by what the call appends. */
  lemma WithEdgeAppendsExtra(adj: Adjacency, a: Loc, b: Loc, x: Loc)
    requires x in WithEdge(adj, a, b)
    ensures WithEdge(adj, a, b)[x] == Neighbours(adj, x) + Extra(a, b, x)
  {
  }

  /** What add_edge appends is itself symmetric. */
  lemma ExtraSymmetric(a: Loc, b: Loc, x: Loc, y: Loc)
    ensures multiset(Extra(a, b, x))[y] == multiset(Extra(a, b, y))[x]
  {
    if a == b {
      assert multiset(Extra(a, b, x))[y] == if x == a && y == a then 2 else 0;
      assert multiset(Extra(a, b, y))[x] == if x == a && y == a then 2 else 0;
    } else {
      assert multiset(Extra(a, b, x))[y] == if (x == a && y == b) || (x == b && y == a) then 1 else 0;
      assert multiset(Extra(a, b, y))[x] == if (x == a && y == b) || (x == b && y == a) then 1 else 0;
    }
  }

  /** add_edge keeps the graph closed and undirected. */
  lemma WithEdgeKeepsWellFormed(adj: Adjacency, a: Loc, b: Loc)
    ensures WellFormed(adj) ==> WellFormed(WithEdge(adj, a, b))
  {
    if WellFormed(adj) {
      var r := WithEdge(adj, a, b);
      forall x, y | x in r && y in r[x]
        ensures y in r
      {
        WithEdgeAppendsExtra(adj, a, b, x);
        if y !in Extra(a, b, x) {
          assert y in Neighbours(adj, x);
        }
      }
      forall x, y | x in r && y in r
        ensures multiset(r[x])[y] == multiset(r[y])[x]
      {
        NeighboursSymmetric(adj, x, y);
        WithEdgeAppendsExtra(adj, a, b, x);
        WithEdgeAppendsExtra(adj, a, b, y);
        ExtraSymmetric(a, b, x, y);
      }
    }
  }

  /** What add_edge(a, b) appends to k's list. */
  function Extra(a: Loc, b: Loc, k: Loc): seq<Loc>
  {
    if a == b && k == a then [a, a]
    else if k == a then [b]
    else if k == b then [a]
    else []
  }

  /** add_edge never deduplicates: a repeated call appends the other end again. */
  lemma RepeatedEdgeNotDeduplicated(adj: Adjacency, a: Loc, b: Loc)
    ensures a != b ==> WithEdge(WithEdge(adj, a, b), a, b)[a] == Neighbours(adj, a) + [b, b]
    ensures a != b ==> WithEdge(WithEdge(adj, a, b), a, b)[b] == Neighbours(adj, b) + [a, a]
    ensures WithEdge(adj, a, a)[a] == Neighbours(adj, a) + [a, a]
  {
    var once := WithEdge(adj, a, b);
    if a != b {
      assert Neighbours(once, a) == Neighbours(adj, a) + [b];
      assert Neighbours(once, b) == Neighbours(adj, b) + [a];
    }
  }

  /** The (city, neighbour) pairs of one dictionary entry, in list order. */
  function PairsOf(city: Loc, neighbours: seq<Loc>): (r: seq<(Loc, Loc)>)
    ensures |r| == |neighbours|
    ensures forall k :: 0 <= k < |r| ==> r[k] == (city, neighbours[k])
  {
    seq(|neighbours|, k requires 0 <= k < |neighbours| => (city, neighbours[k]))
  }

  /** The add_edge calls of the construction loop, in order, for a dictionary
      given as its items in iteration order. */
  function EdgesOf(items: seq<(Loc, seq<Loc>)>): seq<(Loc, Loc)>
  {
    if items == [] then []
    else EdgesOf(items[..|items| - 1]) + PairsOf(Last(items).0, Last(items).1)
  }

  /** The adjacency list after the given add_edge calls, starting from adj. */
  function AddEdges(adj: Adjacency, edges: seq<(Loc, Loc)>): Adjacency
  {
    if edges == [] then adj
    else WithEdge(AddEdges(adj, edges[..|edges| - 1]), Last(edges).0, Last(edges).1)
  }

  /** Every entry of the dictionary turns into one add_edge call. */
  lemma {:induction false} EdgesOfListsEveryPair(items: seq<(Loc, seq<Loc>)>, i: nat, k: nat)
    requires i < |items| && k < |items[i].1|
    ensures (items[i].0, items[i].1[k]) in EdgesOf(items)
  {
    var n := |items| - 1;
    if i < n {
      EdgesOfListsEveryPair(items[..n], i, k);
    } else {
      assert PairsOf(items[n].0, items[n].1)[k] == (items[i].0, items[i].1[k]);
    }
  }

  /** Every add_edge call leaves an edge in both directions, and later calls
      only append, so it stays. */
  lemma {:induction false} AddEdgesRecordsEdges(adj: Adjacency, edges: seq<(Loc, Loc)>)
    ensures forall e :: e in edges ==>
      Edge(AddEdges(adj, edges), e.0, e.1) && Edge(AddEdges(adj, edges), e.1, e.0)
  {
    if edges != [] {
      var n := |edges| - 1;
      var before := AddEdges(adj, edges[..n]);
      var r := AddEdges(adj, edges);
      AddEdgesRecordsEdges(adj, edges[..n]);
      forall e | e in edges
        ensures Edge(r, e.0, e.1) && Edge(r, e.1, e.0)
      {
        if e in edges[..n] {
          assert Neighbours(before, e.0) <= r[e.0];
          assert Neighbours(before, e.1) <= r[e.1];
        } else {
          assert e == edges[n];
        }
      }
    }
  }

  /** Any sequence of add_edge calls keeps a graph closed and undirected. */
  lemma {:induction false} AddEdgesKeepsWellFormed(adj: Adjacency, edges: seq<(Loc, Loc)>)
    requires WellFormed(adj)
    ensures WellFormed(AddEdges(adj, edges))
  {
    if edges != [] {
      AddEdgesKeepsWellFormed(adj, edges[..|edges| - 1]);
      WithEdgeKeepsWellFormed(AddEdges(adj, edges[..|edges| - 1]), Last(edges).0, Last(edges).1);
    }
  }

  /** The keys after the calls are the old keys and the ends of the calls. */
  lemma {:induction false} AddEdgesKeys(adj: Adjacency, edges: seq<(Loc, Loc)>)
    ensures forall c :: c in AddEdges(adj, edges) <==>
      c in adj || exists e :: e in edges && (c == e.0 || c == e.1)
  {
    if edges != [] {
      var n := |edges| - 1;
      AddEdgesKeys(adj, edges[..n]);
      assert edges == edges[..n] + [edges[n]];
    }
  }

  lemma AddEdgesSnoc(adj: Adjacency, edges: seq<(Loc, Loc)>, e: (Loc, Loc))
    ensures AddEdges(adj, edges + [e]) == WithEdge(AddEdges(adj, edges), e.0, e.1)
  {
    assert (edges + [e])[..|edges|] == edges;
  }

  lemma EdgesOfSnoc(items: seq<(Loc, seq<Loc>)>, i: nat)
    requires i < |items|
    ensures EdgesOf(items[..i + 1]) == EdgesOf(items[..i]) + PairsOf(items[i].0, items[i].1)
  {
    assert items[..i + 1][..i] == items[..i];
  }

  lemma PairsOfSnoc(city: Loc, neighbours: seq<Loc>, j: nat)
    requires j < |neighbours|
    ensures PairsOf(city, neighbours[..j + 1]) == PairsOf(city, neighbours[..j]) + [(city, neighbours[j])]
  {
  }

  /** The module-level construction loop: add_edge(city, neighbour) for every
      neighbour of every city, in dictionary order. */
  method BuildGraph(items: seq<(Loc, seq<Loc>)>) returns (g: Graph)
    ensures fresh(g)
    ensures g.adjacency == AddEdges(map[], EdgesOf(items))
    ensures g.Valid()
  {
    g := new Graph();
    ghost var done: seq<(Loc, Loc)> := [];
    var i := 0;
    while i < |items|
      invariant 0 <= i <= |items|
      invariant done == EdgesOf(items[..i])
      invariant g.adjacency == AddEdges(map[], done)
    {
      var city := items[i].0;
      var neighbours := items[i].1;
      ghost var before := done;
      var j := 0;
      assert PairsOf(city, neighbours[..0]) == [];
      while j < |neighbours|
        invariant 0 <= j <= |neighbours|
        invariant done == before + PairsOf(city, neighbours[..j])
        invariant g.adjacency == AddEdges(map[], done)
      {
        g.AddEdge(city, neighbours[j]);
        AddEdgesSnoc(map[], done, (city, neighbours[j]));
        PairsOfSnoc(city, neighbours, j);
        done := done + [(city, neighbours[j])];
        j := j + 1;
      }
      EdgesOfSnoc(items, i);
      assert neighbours[..j] == neighbours;
      i := i + 1;
    }
    assert items[..i] == items;
    BuiltGraphProperties(items);
  }

  /** The graph built from a dictionary is closed and undirected, holds every
      listed pair in both directions, and has exactly the ends of those pairs as
      keys (a city listed with no neighbours gets no entry). */
  lemma BuiltGraphProperties(items: seq<(Loc, seq<Loc>)>)
    ensures WellFormed(AddEdges(map[], EdgesOf(items)))
    ensures forall i, k :: 0 <= i < |items| && 0 <= k < |items[i].1| ==>
      Edge(AddEdges(map[], EdgesOf(items)), items[i].0, items[i].1[k]) &&
      Edge(AddEdges(map[], EdgesOf(items)), items[i].1[k], items[i].0)
    ensures forall c :: c in AddEdges(map[], EdgesOf(items)) <==>
      exists e :: e in EdgesOf(items) && (c == e.0 || c == e.1)
  {
    AddEdgesKeepsWellFormed(map[], EdgesOf(items));
    AddEdgesRecordsEdges(map[], EdgesOf(items));
    AddEdgesKeys(map[], EdgesOf(items));
    forall i, k | 0 <= i < |items| && 0 <= k < |items[i].1|
      ensures (items[i].0, items[i].1[k]) in EdgesOf(items)
    {
      EdgesOfListsEveryPair(items, i, k);
    }
  }
}
