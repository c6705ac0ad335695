/** Locations, adjacency maps and walks: the vocabulary shared by the graph
    and by both route-finding strategies. */
module Walks {

  /** A location is an opaque name (the source uses city names). */
  type Loc = string

  /** The adjacency list: each location's neighbours, in insertion order. */
  type Adjacency = map<Loc, seq<Loc>>

  datatype Option<+T> = None | Some(value: T)

  function Last<T>(s: seq<T>): T
    requires |s| > 0
  {
    s[|s| - 1]
  }

  /** b is listed among a's neighbours. */
  predicate Edge(adj: Adjacency, a: Loc, b: Loc)
  {
    a in adj && b in adj[a]
  }

  /** Every listed neighbour is itself a key of the map. */
  predicate Closed(adj: Adjacency)
  {
    forall a, b :: a in adj && b in adj[a] ==> b in adj
  }

  /** A non-empty sequence whose consecutive entries are adjacency-list entries. */
  predicate IsWalk(adj: Adjacency, w: seq<Loc>)
  {
    |w| > 0 && forall i :: 0 <= i < |w| - 1 ==> Edge(adj, w[i], w[i + 1])
  }

  predicate WalkBetween(adj: Adjacency, w: seq<Loc>, s: Loc, t: Loc)
  {
    IsWalk(adj, w) && w[0] == s && Last(w) == t
  }

  /** No location occurs twice. */
  predicate NoDup(s: seq<Loc>)
  {
    forall i, j :: 0 <= i < j < |s| ==> s[i] != s[j]
  }

  ghost predicate Reachable(adj: Adjacency, s: Loc, t: Loc)
  {
    exists w :: WalkBetween(adj, w, s, t)
  }

  /** Every walk from s to t has at least n entries (n - 1 edges). */
  ghost predicate NoShorterWalk(adj: Adjacency, s: Loc, t: Loc, n: nat)
  {
    forall w :: WalkBetween(adj, w, s, t) ==> |w| >= n
  }

  /** Extending a walk by an adjacency-list entry of its last location gives a walk. */
  lemma ExtendWalk(adj: Adjacency, w: seq<Loc>, b: Loc)
    requires IsWalk(adj, w) && Edge(adj, Last(w), b)
    ensures IsWalk(adj, w + [b]) && (w + [b])[0] == w[0] && Last(w + [b]) == b
  {
    var v := w + [b];
    forall i | 0 <= i < |v| - 1
      ensures Edge(adj, v[i], v[i + 1])
    {
      if i < |w| - 1 {
        assert v[i] == w[i] && v[i + 1] == w[i + 1];
      }
    }
  }

  /** Any contiguous slice of a walk is a walk. */
  lemma SliceWalk(adj: Adjacency, w: seq<Loc>, i: nat, j: nat)
    requires IsWalk(adj, w) && i < j <= |w|
    ensures IsWalk(adj, w[i..j])
  {
    var v := w[i..j];
    forall k | 0 <= k < |v| - 1
      ensures Edge(adj, v[k], v[k + 1])
    {
      assert v[k] == w[i + k] && v[k + 1] == w[i + k + 1];
    }
  }

  /** Cutting out the loop between two occurrences of one location keeps a walk
      with the same ends, strictly shorter. */
  lemma CutLoop(adj: Adjacency, w: seq<Loc>, i: nat, j: nat)
    requires IsWalk(adj, w) && i < j < |w| && w[i] == w[j]
    ensures IsWalk(adj, w[..i] + w[j..])
    ensures (w[..i] + w[j..])[0] == w[0] && Last(w[..i] + w[j..]) == Last(w)
    ensures |w[..i] + w[j..]| < |w|
  {
    var v := w[..i] + w[j..];
    forall k | 0 <= k < |v| - 1
      ensures Edge(adj, v[k], v[k + 1])
    {
      if k < i - 1 {
        assert v[k] == w[k] && v[k + 1] == w[k + 1];
      } else if k == i - 1 {
        assert v[k] == w[i - 1] && v[k + 1] == w[j] == w[i];
      } else {
        assert v[k] == w[k - i + j] && v[k + 1] == w[k - i + j + 1];
      }
    }
  }

  /** Every walk can be shortened to a walk without repeated locations
      between the same two ends. */
  lemma {:induction false} SimplifyWalk(adj: Adjacency, w: seq<Loc>) returns (v: seq<Loc>)
    requires IsWalk(adj, w)
    ensures WalkBetween(adj, v, w[0], Last(w)) && NoDup(v) && |v| <= |w|
    decreases |w|
  {
    if NoDup(w) {
      v := w;
    } else {
      var i, j :| 0 <= i < j < |w| && w[i] == w[j];
      CutLoop(adj, w, i, j);
      v := SimplifyWalk(adj, w[..i] + w[j..]);
    }
  }

  /** A walk that no walk between the same ends undercuts repeats no location. */
  lemma ShortestWalkIsSimple(adj: Adjacency, w: seq<Loc>)
    requires IsWalk(adj, w) && NoShorterWalk(adj, w[0], Last(w), |w|)
    ensures NoDup(w)
  {
    forall i, j | 0 <= i < j < |w|
      ensures w[i] != w[j]
    {
      LoopCanBeCut(adj, w, i, j);
    }
  }

  lemma LoopCanBeCut(adj: Adjacency, w: seq<Loc>, i: nat, j: nat)
    requires IsWalk(adj, w) && i < j < |w|
    ensures w[i] == w[j] ==> WalkBetween(adj, w[..i] + w[j..], w[0], Last(w)) && |w[..i] + w[j..]| < |w|
  {
    if w[i] == w[j] {
      CutLoop(adj, w, i, j);
    }
  }
}
