# Route finding over an undirected city graph

A Dafny model of the search core of `Search_Methods.py`. That core is an
undirected adjacency-list graph of cities (`class Graph` with `add_edge`), the
module-level loop that fills the graph from a loaded adjacency dictionary, and
two route-finding strategies over it:

- `brute_force_search`: recursive backtracking over simple paths;
- `bfs`: breadth-first search over a FIFO queue of whole paths.

Files:

- `walks.dfy` (module `Walks`): locations (`Loc = string`), the adjacency map
  `map<Loc, seq<Loc>>`, `Option`, and the specification vocabulary. A walk is a
  non-empty sequence whose consecutive entries are adjacency-list entries.
  `Reachable` means some walk joins two locations. `NoShorterWalk` bounds the
  length of every walk between two locations from below. `NoDup` means no
  location repeats. The module also shows that any walk can be shortened to a
  simple one, and that a shortest walk is simple.
- `graph.dfy` (module `Graphs`): `class Graph`, whose field `adjacency` is the
  dictionary that `add_edge` updates in place, and `BuildGraph`, the
  construction loop. `WithEdge` is the pure function that `AddEdge` is proved
  against. Two invariants hold for every built graph: every listed neighbour
  is a key (`Closed`), and each pair occurs equally often in both lists
  (`Undirected`).
- `brute_force.dfy` (module `BruteForce`): `brute_force_search` as two mutually
  recursive functions. `Search` is one call and `Explore` is its `for` loop
  over neighbours. Termination is by the number of mentioned locations not yet
  on the path.
- `bfs.dfy` (module `BreadthFirst`): `bfs` as an imperative method with a
  `seq` queue of paths and a `set` of visited cities. `EnqueueNeighbours` is
  its inner `for` loop. The loop invariants are the level order of the queue
  and the frontier property of breadth-first search.

The searches take the graph's adjacency dictionary (`graph.adjacency_list`)
as an immutable value. They never modify it.

Two behaviours of the code shape the model:

- `bfs` indexes `graph.adjacency_list[city]` directly (`Search_Methods.py:99`)
  and raises `KeyError` for a missing key. `Bfs` therefore requires that
  `start` is a key when `start != goal`, and that every listed neighbour is a
  key (`Closed`). Every graph built by `add_edge` satisfies the second
  condition (`BuildGraph` ensures the graph invariant `Valid`, and
  `BuiltGraphProperties` states it for the built dictionary).
- A city listed in the dictionary with an empty neighbour list gets no entry
  in the built graph, because the construction loop only calls `add_edge` per
  neighbour. `BuiltGraphProperties` states the exact key set.

## Model

| member | source | states |
|---|---|---|
| `Graphs.Graph.constructor` | Search_Methods.py:39-40 | a new graph has an empty adjacency dictionary and satisfies the graph invariant |
| `Graphs.Graph.AddEdge` | Search_Methods.py:43-49 | `add_edge(a, b)` leaves the dictionary equal to `WithEdge` of the old one (see that row), and keeps the closed/undirected graph invariant |
| `Graphs.WithEdge` | Search_Methods.py:43-49 | the keys become the old keys plus `a` and `b`; `b` is appended at the end of `a`'s list and `a` at the end of `b`'s list (a self-loop appends `a` twice to its own list); every other entry is unchanged |
| `Graphs.WithEdgeKeepsWellFormed` | Search_Methods.py:43-49 | adding an edge to a closed, undirected dictionary keeps it closed and undirected (each pair counted equally in both lists) |
| `Graphs.RepeatedEdgeNotDeduplicated` | Search_Methods.py:48-49 | there is no deduplication: adding the same pair twice appends each end twice, and `add_edge(a, a)` appends `a` twice to `a`'s list |
| `Graphs.BuildGraph` | Search_Methods.py:56-59 | the construction loop leaves the graph equal to the fold of `add_edge` over every (city, neighbour) pair in dictionary order, and the built graph satisfies the closed/undirected invariant |
| `Graphs.BuiltGraphProperties` | Search_Methods.py:56-59 | a built graph is closed and undirected, holds every listed pair in both directions, and has exactly the ends of the listed pairs as keys |
| `Graphs.AddEdgesRecordsEdges` | Search_Methods.py:56-59 | after any sequence of `add_edge` calls, each call's pair is an adjacency entry in both directions |
| `BruteForce.Search` | Search_Methods.py:67-82 | a result extends the given path by a route from `start` to `goal` along adjacency entries, with no repeated location and nothing from the given path after `start` |
| `BruteForce.Explore` | Search_Methods.py:76-80 | the neighbour loop returns only an extension through a listed neighbour not already on the path, followed by a simple route from it to `goal` |
| `BruteForce.BruteForceSearch` | Search_Methods.py:67-82 | with the default empty path, a result starts at `start`, ends at `goal`, follows adjacency entries and repeats no location |
| `BruteForce.SearchEdgeCases` | Search_Methods.py:67-74 | `start == goal` returns the path extended by `start` without consulting the graph; otherwise a `start` without an entry returns `None` |
| `BruteForce.SearchComplete` | Search_Methods.py:76-82 | whenever a simple route from `start` to `goal` avoiding the given path exists, the search returns a path |
| `BruteForce.ExploreComplete` | Search_Methods.py:76-80 | the neighbour loop succeeds whenever a simple route through one of the remaining neighbours exists |
| `BruteForce.BruteForceFindsIffReachable` | Search_Methods.py:67-82 | with the default empty path, the search returns `None` exactly when no walk joins `start` to `goal` |
| `BruteForce.RouteLengthBound` | Search_Methods.py:76-78 | every route the search can build has at most one more location than the graph mentions, which bounds the recursion depth |
| `BreadthFirst.Bfs` | Search_Methods.py:87-110 | `start == goal` gives `[start]`; a result is a walk from `start` to `goal` that no other walk is shorter than, and it repeats no location; `None` is returned exactly when `goal` is unreachable; each expanded city is expanded once, has an entry and is reachable |
| `BreadthFirst.EnqueueNeighbours` | Search_Methods.py:100-106 | the neighbour loop stops early exactly when `goal` is a neighbour; otherwise it appends one extension of the path per neighbour, in list order |
| `BreadthFirst.GoalFromHead` | Search_Methods.py:100-106 | the path returned when `goal` is generated from the dequeued path is a shortest walk from `start` and repeats no location |
| `BreadthFirst.GoalBeyondHead` | Search_Methods.py:94-106 | while the search runs, every walk from `start` to `goal` is longer than the path at the head of the queue |
| `BreadthFirst.HeadShortest` | Search_Methods.py:94-99 | a dequeued path whose city is not yet visited is a shortest walk to that city |
| `BreadthFirst.FirstUnvisited` | Search_Methods.py:94-108 | the first unvisited location on any walk from `start` ends a queued path no longer than the walk up to it |
| `BreadthFirst.ReachableNeedsQueue` | Search_Methods.py:94-110 | if `goal` is reachable the queue is not empty, so an emptied queue means `goal` is unreachable |
| `BreadthFirst.ExpandKeepsInv` | Search_Methods.py:98-108 | expanding an unvisited city keeps the loop invariant, records the city once, and shrinks the set of unvisited keys |
| `BreadthFirst.SkipKeepsInv` | Search_Methods.py:94-98 | dequeuing a path whose city is already visited keeps the loop invariant |
| `BreadthFirst.StartFirst` | Search_Methods.py:89-96 | until `start` is visited, the head of the queue is the one-location path `[start]` |
| `Walks.SimplifyWalk` | Search_Methods.py:76-82 | a general fact about walks, supporting `BruteForceFindsIffReachable`: every walk can be shortened to one with the same ends and no repeated location, so the search's restriction to simple paths loses no reachable goal |
| `Walks.ShortestWalkIsSimple` | Search_Methods.py:100-106 | a general fact about walks, supporting `GoalFromHead`: a walk that no walk between the same ends undercuts repeats no location, so the shortest path `bfs` returns is simple |

## Left out

- `coordinates()` and `adjacencies()` (`Search_Methods.py:4-33`): file
  reading, CSV parsing and float conversion. `BuildGraph` receives the loaded
  dictionary instead, as a sequence of (city, neighbours) items in iteration
  order, because Dafny maps have no order.
- `Graph.display_graph` (`Search_Methods.py:52-54`) and the printing and demo
  code (`Search_Methods.py:62-63`, `112-131`): output only.
- The module-level globals (`Search_Methods.py:35-36`, `56`): the graph is an
  explicit input of the searches.
- Object identity and aliasing of the Python lists: paths and neighbour lists
  are values. This loses nothing, because `brute_force_search` rebuilds its
  path with `path + [start]` and `bfs` copies each path with `list(path)`
  before appending.
- The `KeyError` that `bfs` raises on a missing key: it is a precondition of
  `Bfs`, not a modelled error result.
- Python's recursion limit: `brute_force_search` (`Search_Methods.py:67-82`)
  recurses once per location on the path and would raise `RecursionError`
  beyond roughly a thousand nested calls. `Search` and `Explore` always
  return; `RouteLengthBound` bounds the depth by the number of locations.
