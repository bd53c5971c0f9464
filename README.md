# Degrees of separation: a verified model of the breadth-first search

`degrees.py` reads a table of people, a table of movies and a table of
"who starred in what", and answers how two people are connected through
movies: the shortest list of `(movie_id, person_id)` hops from one person
to another. This project models, in Dafny, the part that answers that
question.

- The star join of `load_data`. It fills each person's movie set and each
  movie's star set. This is the class `Graph.Database`.
- `neighbors_for_person`, as `Graph.NeighborsForPerson`.
- The search itself, in module `Search`:
  - `queue_neighbors` is `QueueNeighbors`.
  - `find_shortest_path` is `FindShortestPath`.
  - `shortest_path` is `ShortestPath`.
  - `WalkParents` is the parent-walking loop of `shortest_path`.
- The FIFO `QueueFrontier` of the repository's `util` module, as the class
  `Frontier.QueueFrontier`.

Tables are values (`Graph.Tables`, two maps from ids to id sets). A search
node (`util.Node`) lives in an arena, a sequence of `Arena.Node`. Each node
refers to its parent by an index that is always smaller than its own. The
frontier holds arena indices.

The proof of the search uses a ghost map, `expander`, from each checked
person to the node that expanded it. One loop invariant,
`SearchInvariant.SearchInv`, combines four facts:

- the arena is a forest of co-star hops rooted at the source;
- the checked list matches `expander`;
- frontier depths never decrease and span at most one level;
- nothing reachable is lost: every neighbour of the source or of a checked
  person is checked or queued no deeper than one hop below.

From the invariant the model proves three things about the search. A found
path is a chain to the target, repeats no person and is no longer than any
chain. The search gives up only when no chain exists. Each person is
expanded by at most one node.

The behaviour of the code is kept as written:

- The root nodes carry the source's own hops, so a returned path starts
  with a hop of the source, and its length is the number of movies linked.
- `neighbors_for_person(p)` contains `(m, p)` for each of `p`'s movies `m`,
  and so does the model's set (`NeighborsForPerson`).
- For a person with at least one movie, `shortest_path(p, p)` returns one
  hop `[(m, p)]`, not an empty list; the model does the same
  (`ShortestPath`'s last `ensures`).
- A `KeyError` in the star join is swallowed after the first `add`. So a
  row whose person is known and whose movie is not still adds the movie to
  the person's set, and the tables are then no longer closed (`AddStar`).

## Model

| member | source | states |
|---|---|---|
| Graph.NeighborsForPerson | degrees.py:184-194 | a hop `(m, q)` is in the result exactly when `m` is one of `p`'s movies and `q` is a star of `m`, which includes `p` itself |
| Graph.SymmetricIsClosed | degrees.py:44-52 | tables in which every person–movie link is recorded on both sides reference only ids that exist |
| Graph.SelfChain | degrees.py:100-126 | in symmetric tables a person with a movie `m` is not isolated and is linked to themself by the one-hop chain `[(m, p)]` |
| Graph.ReachableIsNotIsolated | degrees.py:104-107 | in symmetric tables a reachable target has a neighbour, so the early return on a target without neighbours never hides a path |
| Graph.Database.constructor | degrees.py:21-42 | after the people and movie files are read, the keys are the given ids, every movie set and star set is empty, and the tables are symmetric |
| Graph.Database.AddStar | degrees.py:47-52 | an unknown person changes nothing; a known person gets the movie; a known movie then gets the star; an unknown movie after a known person leaves the tables not closed; otherwise symmetry and closure are kept |
| Frontier.QueueFrontier.constructor | degrees.py:98 | a new frontier is empty |
| Frontier.QueueFrontier.Add | degrees.py:156 | `add` appends the node at the tail |
| Frontier.QueueFrontier.Empty | degrees.py:130 | `empty` is true exactly when no entry is pending |
| Frontier.QueueFrontier.Remove | degrees.py:133 | `remove` returns the head and leaves the rest in order; it needs a non-empty frontier |
| Arena.PathTo | degrees.py:115-124 | the path collected for a node ends with the node's own hop |
| Arena.Above | degrees.py:120-122 | the path to a node is the path to its parent, or nothing for a root, followed by the node's hop |
| Arena.PathToStable | degrees.py:153-156 | appending nodes to the arena leaves the path to every existing node unchanged |
| Arena.PathToIsChain | degrees.py:148-156 | in a forest of co-star hops rooted at the source, the path to any node is a chain from the source to the node's person |
| Arena.ExpandedPathDistinct | degrees.py:138-148 | the path to an expanding node passes only through persons that were expanded no later, and repeats no person |
| Arena.PathDistinct | degrees.py:136-142 | the path to a node whose person was never checked repeats no person |
| Seqs.Reversed | degrees.py:124 | `reverse` keeps the length |
| Seqs.ReversedAt | degrees.py:124 | after `reverse` element `i` of a list of `n` stands at position `n - 1 - i` |
| Seqs.ReversedSnoc | degrees.py:118-124 | reversing after an append puts the appended element first |
| SearchInvariant.Initial | degrees.py:109-130 | the roots seeded by `shortest_path`, queued in order with nothing checked, satisfy the loop invariant |
| SearchInvariant.QueuedInTail | degrees.py:133 | removing a head node of another person keeps a person queued at the same depth bound |
| SearchInvariant.QueuedKept | degrees.py:148-156 | growing the arena and appending to the queue keeps a person queued at the same depth bound |
| SearchInvariant.FrontierCutsChain | degrees.py:130-151 | any chain from the source to an unchecked person has a frontier node no deeper than the chain is long |
| SearchInvariant.HeadIsNearest | degrees.py:133 | the head of the frontier is no deeper than any chain to an unchecked person |
| SearchInvariant.ReachableKeepsFrontier | degrees.py:130-151 | while the target is reachable the frontier is not empty, so `None` means no chain exists |
| SearchInvariant.SkipStep | degrees.py:136-138 | dropping a head whose person is already checked keeps the invariant |
| SearchInvariant.FoundStep | degrees.py:140-142 | when the head holds the target, its path is a chain to the target, repeats no person and is no longer than any chain |
| SearchInvariant.LedgerExpandedOnce | degrees.py:144-145 | the checked list never holds the target, and children whose parents hold the same person share that parent |
| SearchInvariant.UncheckedShrinks | degrees.py:145 | checking a new person leaves fewer people unchecked, which bounds the loop |
| SearchInvariant.ExtendArena | degrees.py:148-156 | the children of the head keep the arena a forest, leave old nodes and depths alone, and sit one hop below the head |
| SearchInvariant.ExtendLedger | degrees.py:145-148 | appending the head's person to the checked list and recording its node keeps the ledger consistent |
| SearchInvariant.ExtendLevels | degrees.py:133-148 | removing the head and queueing its children keeps frontier depths ordered within one level |
| SearchInvariant.ExtendCovered | degrees.py:145-149 | after the expansion every neighbour of the source or of a checked person is checked or queued within its bound, and every checked person was expanded at its shortest distance |
| SearchInvariant.ExpandStep | degrees.py:144-149 | checking the head's person and queueing one child per neighbour keeps the whole loop invariant |
| Search.QueueNeighbors | degrees.py:153-156 | one new node per neighbour, each with the given parent, in fresh arena slots whose indices are appended to the frontier |
| Search.FindShortestPath | degrees.py:128-151 | a found node holds the target, and its path is a chain from the source that repeats no person and is as short as any chain; `None` comes only from an exhausted frontier with no chain at all; each person is expanded by at most one node |
| Search.WalkStep | degrees.py:120-122 | one step to the parent, collecting the parent's hop, keeps the path to the found node split into the path above the current node and the reversed collected hops |
| Search.WalkParents | degrees.py:116-122 | the collected hops, reversed, are the path from the root down to the node |
| Search.ShortestPath | degrees.py:87-126 | `None` exactly when the source or the target has no neighbour or no chain exists; otherwise a shortest chain from the source to the target with no repeated person; one hop for `p` to `p` in symmetric tables |

## Left out

- Reading `people.csv`, `movies.csv` and `stars.csv` is input and is not modelled. The names, titles, years and births only feed the output.
- The `names` index built by `load_data` is left out. It feeds only `person_id_for_name`.
- `person_id_for_name` and `main` are left out. They are console interaction: `input`, `print` and `sys.exit`.
- `StackFrontier` and `contains_state` of `util` are left out. The search never uses them.
- `util` is not part of this model, apart from the queue behaviour the search relies on: append at the tail and remove from the head.
- The order in which Python iterates a set is unspecified. `QueueNeighbors` and `NeighborsForPerson` choose elements arbitrarily, so the model's results hold for every order.
- The bare `except` around `referencesChecked.index` is modelled as a membership test. No other exception can occur there.
- Search.ShortestPath: requires closed tables, where every movie of a person and every star of a movie is a key. `degrees.py` only needs the keys the search actually looks up, and raises `KeyError` on any other.
- Search.FindShortestPath: requires an empty checked list and a frontier of roots seeded from the source, which is the only way `shortest_path` calls it. The Python `find_shortest_path` accepts any list and any frontier.
- Search.FindShortestPath: the proof that the search visits nodes in breadth-first order names the start person as a ghost parameter, which the Python `find_shortest_path` does not take.
- The third field of `util.Node`, the action, is always `None` in this code and is left out of `Arena.Node`.
- `find_shortest_path` appends to the caller's `referencesChecked` list in place. The model returns the final list instead. `shortest_path` never reads the list afterwards.
- The `is None` tests on the neighbour sets in `shortest_path` are left out. `neighbors_for_person` always returns a set.
