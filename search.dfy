/**
 * The breadth-first search of degrees.py: `queue_neighbors`,
 * `find_shortest_path` and `shortest_path`.
 */
module Search {
  import opened Wrappers
  import opened Seqs
  import opened Graph
  import opened Arena
  import opened Frontier
  import opened SearchInvariant

  /**
   * `queue_neighbors`: one new node per hop, all with the given parent,
   * stored in fresh arena slots and added to the tail of the frontier. The
   * order among the hops is that of set iteration, which is unspecified.
   */
  method QueueNeighbors(frontier: QueueFrontier<nat>, nodes: seq<Node>, neighbors: set<Hop>, parent: Option<nat>)
    returns (arena: seq<Node>)
    modifies frontier
    ensures |arena| == |nodes| + |neighbors| && arena[..|nodes|] == nodes
    ensures forall i :: |nodes| <= i < |arena| ==> arena[i].parent == parent && arena[i].state in neighbors
    ensures forall h :: h in neighbors ==> exists i :: |nodes| <= i < |arena| && arena[i].state == h
    ensures frontier.items == old(frontier.items) + Span(|nodes|, |arena|)
  {
    arena := nodes;
    var rest := neighbors;
    while rest != {}
      invariant rest <= neighbors
      invariant |arena| + |rest| == |nodes| + |neighbors|
      invariant |nodes| <= |arena| && arena[..|nodes|] == nodes
      invariant forall i :: |nodes| <= i < |arena| ==> arena[i].parent == parent && arena[i].state in neighbors - rest
      invariant forall h :: h in neighbors - rest ==> exists i :: |nodes| <= i < |arena| && arena[i].state == h
      invariant frontier.items == old(frontier.items) + Span(|nodes|, |arena|)
      decreases rest
    {
      var neighbor :| neighbor in rest;
      var newNode := Node(neighbor, parent);
      ghost var before, restBefore := arena, rest;
      arena := arena + [newNode];
      frontier.Add(|arena| - 1);
      rest := rest - {neighbor};
      forall h | h in neighbors - rest
        ensures exists i :: |nodes| <= i < |arena| && arena[i].state == h
      {
        if h == neighbor {
          assert arena[|arena| - 1].state == h;
        } else {
          assert h in neighbors - restBefore;
          var i :| |nodes| <= i < |before| && before[i].state == h;
          assert arena[i] == before[i];
        }
      }
    }
    assert neighbors - rest == neighbors;
  }

  /**
   * `find_shortest_path`: take nodes from the head of the frontier; skip a
   * node whose person is on the checked list; stop at a node of the target;
   * otherwise put its person on the list and queue that person's
   * neighbours below it. The frontier must hold the roots that
   * `shortest_path` seeds. A found node's path is a chain from the source to
   * the target that repeats no person and is as short as any such chain; no
   * node is found only when there is no such chain. Each person's neighbours
   * are queued by one node at most.
   */
  method FindShortestPath(t: Tables, ghost source: PersonId, target: PersonId, referencesChecked: seq<PersonId>,
                          frontier: QueueFrontier<nat>, nodes: seq<Node>)
    returns (found: Option<nat>, checked: seq<PersonId>, arena: seq<Node>)
    requires Closed(t)
    requires referencesChecked == []
    requires Seeded(t, source, nodes) && frontier.items == Span(0, |nodes|)
    modifies frontier
    ensures ArenaOk(arena) && |nodes| <= |arena| && arena[..|nodes|] == nodes
    ensures NoDuplicates(checked) && target !in checked
    ensures found.Some? ==> found.value < |arena| && arena[found.value].state.person == target
    ensures found.Some? ==> IsChainTo(t, source, PathTo(arena, found.value), target)
    ensures found.Some? ==> DistinctPersons(PathTo(arena, found.value))
    ensures found.Some? ==> forall c :: IsChainTo(t, source, c, target) ==> |PathTo(arena, found.value)| <= |c|
    ensures found.None? ==> frontier.items == [] && !Reachable(t, source, target)
    ensures ExpandedOnce(arena)
  {
    checked := referencesChecked;
    arena := nodes;
    ghost var expander: map<PersonId, nat> := map[];
    Initial(t, source, target, nodes);
    while !frontier.Empty()
      invariant SearchInv(t, source, target, arena, frontier.items, checked, expander)
      invariant |nodes| <= |arena| && arena[..|nodes|] == nodes
      decreases |t.people.Keys - expander.Keys|, |frontier.items|
    {
      ghost var queue := frontier.items;
      var currentNode := frontier.Remove();
      var currentNeighbor := arena[currentNode].state;
      if currentNeighbor.person in checked {
        SkipStep(t, source, target, arena, queue, checked, expander);
      } else {
        if currentNeighbor.person == target {
          FoundStep(t, source, target, arena, queue, checked, expander);
          LedgerExpandedOnce(arena, checked, expander, target);
          return Some(currentNode), checked, arena;
        }
        ghost var before, checkedBefore, expanderBefore := arena, checked, expander;
        checked := checked + [currentNeighbor.person];
        expander := expander[currentNeighbor.person := currentNode];
        UncheckedShrinks(t.people.Keys, expanderBefore, currentNeighbor.person, currentNode);
        var neighbors := NeighborsForPerson(t, currentNeighbor.person);
        arena := QueueNeighbors(frontier, arena, neighbors, Some(currentNode));
        ExpandStep(t, source, target, before, queue, checkedBefore, expanderBefore, currentNeighbor.person, neighbors, arena);
        PrefixOfPrefix(nodes, before, arena);
      }
    }
    ReachableKeepsFrontier(t, source, target, arena, frontier.items, checked, expander);
    LedgerExpandedOnce(arena, checked, expander, target);
    return None, checked, arena;
  }

  /**
   * `shortest_path`: the shortest list of (movie id, person id) pairs that
   * connects `source` to `target`, or `None`. It is `None` exactly when the
   * source or the target has no neighbour or no chain connects them. A
   * returned path is a chain from the source, with the root hop included
   * as its first element, ending at the target, with no person twice and no
   * chain shorter; in symmetric tables a person with a movie is connected
   * to themself by a single hop.
   */
  method ShortestPath(t: Tables, source: PersonId, target: PersonId) returns (path: Option<seq<Hop>>)
    requires Closed(t) && source in t.people && target in t.people
    ensures path.None? <==> Isolated(t, source) || Isolated(t, target) || !Reachable(t, source, target)
    ensures path.Some? ==> IsChainTo(t, source, path.value, target)
    ensures path.Some? ==> DistinctPersons(path.value)
    ensures path.Some? ==> forall c :: IsChainTo(t, source, c, target) ==> |path.value| <= |c|
    ensures Symmetric(t) && source == target && t.people[source] != {} ==> path.Some? && |path.value| == 1
  {
    if Symmetric(t) && source == target && t.people[source] != {} {
      SelfChain(t, source);
    }
    var referencesChecked: seq<PersonId> := [];
    var queueFrontier := new QueueFrontier<nat>();

    var sourceNeighbors := NeighborsForPerson(t, source);
    if |sourceNeighbors| == 0 {
      return None;
    }
    var targetNeighbors := NeighborsForPerson(t, target);
    if |targetNeighbors| == 0 {
      return None;
    }
    ghost var s :| s in sourceNeighbors;
    ghost var g :| g in targetNeighbors;
    assert CoStarred(t, source, s) && !Isolated(t, source);
    assert CoStarred(t, target, g) && !Isolated(t, target);

    var nodes := QueueNeighbors(queueFrontier, [], sourceNeighbors, None);
    var targetNode, _, arena := FindShortestPath(t, source, target, referencesChecked, queueFrontier, nodes);
    if targetNode.None? {
      return None;
    }

    var pathToTarget := WalkParents(arena, targetNode.value);
    path := Some(Reversed(pathToTarget));
    if Symmetric(t) && source == target && t.people[source] != {} {
      ghost var m :| IsChainTo(t, source, [Hop(m, source)], source);
    }
  }

  /**
   * The walk of `shortest_path` from a node up through its parents: the
   * hops from that node back to its root, so that reversing them gives the
   * path from the root down.
   */
  method WalkParents(arena: seq<Node>, node: nat) returns (pathToTarget: seq<Hop>)
    requires ArenaOk(arena) && node < |arena|
    ensures Reversed(pathToTarget) == PathTo(arena, node)
  {
    var current: nat := node;
    pathToTarget := [arena[current].state];
    while arena[current].parent.Some?
      invariant current < |arena|
      invariant PathTo(arena, node) == Above(arena, current) + Reversed(pathToTarget)
      decreases current
    {
      var parent := arena[current].parent.value;
      WalkStep(arena, node, current, pathToTarget);
      pathToTarget := pathToTarget + [arena[parent].state];
      current := parent;
    }
  }

  /** One step of the walk: moving to the parent and collecting its hop keeps the path to `node` split the same way. */
  lemma {:induction false} WalkStep(arena: seq<Node>, node: nat, current: nat, pathToTarget: seq<Hop>)
    requires ArenaOk(arena) && node < |arena| && current < |arena| && arena[current].parent.Some?
    requires PathTo(arena, node) == Above(arena, current) + Reversed(pathToTarget)
    ensures PathTo(arena, node) ==
      Above(arena, arena[current].parent.value) + Reversed(pathToTarget + [arena[arena[current].parent.value].state])
  {
    var parent := arena[current].parent.value;
    var hop := arena[parent].state;
    var above, rest := Above(arena, parent), Reversed(pathToTarget);
    assert Above(arena, current) == above + [hop];
    AppendAssoc(above, [hop], rest);
    ReversedSnoc(pathToTarget, hop);
  }
}
