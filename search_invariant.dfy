/**
 * The invariant of the breadth-first loop in `find_shortest_path` and the
 * lemmas that one iteration keeps it. Besides the arena, the frontier and
 * the checked list of the source, the invariant talks about a ghost map
 * `expander` from each checked person to the node that expanded it.
 */
module SearchInvariant {
  import opened Wrappers
  import opened Seqs
  import opened Graph
  import opened Arena

  /** Frontier entries are indices into the arena. */
  ghost predicate Indexes(nodes: seq<Node>, frontier: seq<nat>) {
    forall i :: 0 <= i < |frontier| ==> frontier[i] < |nodes|
  }

  /**
   * The checked list holds each person once, exactly the persons `expander`
   * records, each with a node of that person; every parent is its person's
   * recorded node, and the target is never checked.
   */
  ghost predicate Ledger(nodes: seq<Node>, checked: seq<PersonId>, expander: map<PersonId, nat>, target: PersonId) {
    && ArenaOk(nodes)
    && NoDuplicates(checked)
    && (forall x :: x in checked <==> x in expander)
    && (forall v :: v in expander ==> expander[v] < |nodes| && nodes[expander[v]].state.person == v)
    && ParentsExpand(nodes, expander)
    && target !in expander
  }

  /** The ledger's record of expanding nodes means each person was expanded by one node only. */
  lemma {:induction false} LedgerExpandedOnce(nodes: seq<Node>, checked: seq<PersonId>, expander: map<PersonId, nat>, target: PersonId)
    requires Ledger(nodes, checked, expander, target)
    ensures ExpandedOnce(nodes)
    ensures target !in checked
  {
  }

  /** Checking one more person leaves fewer people unchecked. */
  lemma {:induction false} UncheckedShrinks(people: set<PersonId>, expander: map<PersonId, nat>, p: PersonId, n: nat)
    requires p in people && p !in expander
    ensures |people - expander[p := n].Keys| < |people - expander.Keys|
  {
    assert people - expander.Keys == (people - expander[p := n].Keys) + {p};
  }

  /** Depths along the frontier never decrease and differ by at most one. */
  ghost predicate Levels(nodes: seq<Node>, frontier: seq<nat>)
    requires ArenaOk(nodes) && Indexes(nodes, frontier)
  {
    forall i, j :: 0 <= i <= j < |frontier| ==>
      Depth(nodes, frontier[i]) <= Depth(nodes, frontier[j]) <= Depth(nodes, frontier[i]) + 1
  }

  /** Some frontier entry holds a node of person `x` at depth at most `bound`. */
  ghost predicate Queued(nodes: seq<Node>, frontier: seq<nat>, x: PersonId, bound: int)
    requires ArenaOk(nodes) && Indexes(nodes, frontier)
  {
    exists i :: 0 <= i < |frontier| && nodes[frontier[i]].state.person == x && Depth(nodes, frontier[i]) <= bound
  }

  /**
   * Nothing is lost: each neighbour of the source, and each neighbour of a
   * checked person, is checked itself or waits in the frontier no deeper
   * than one hop below; and every checked person was expanded at its
   * shortest distance from the source.
   */
  ghost predicate Covered(t: Tables, source: PersonId, nodes: seq<Node>, frontier: seq<nat>, expander: map<PersonId, nat>)
    requires ArenaOk(nodes) && Indexes(nodes, frontier)
    requires forall v :: v in expander ==> expander[v] < |nodes|
  {
    && (forall h :: CoStarred(t, source, h) ==> h.person in expander || Queued(nodes, frontier, h.person, 1))
    && (forall v, h :: v in expander && CoStarred(t, v, h) ==>
          h.person in expander || Queued(nodes, frontier, h.person, Depth(nodes, expander[v]) + 1))
    && (forall v, c :: v in expander && IsChainTo(t, source, c, v) ==> Depth(nodes, expander[v]) <= |c|)
  }

  ghost predicate SearchInv(t: Tables, source: PersonId, target: PersonId, nodes: seq<Node>,
                            frontier: seq<nat>, checked: seq<PersonId>, expander: map<PersonId, nat>)
  {
    && Forest(t, source, nodes)
    && Indexes(nodes, frontier)
    && Ledger(nodes, checked, expander, target)
    && Levels(nodes, frontier)
    && Covered(t, source, nodes, frontier, expander)
  }

  /** The arena `shortest_path` seeds: one root per neighbour of the source. */
  ghost predicate Seeded(t: Tables, source: PersonId, nodes: seq<Node>) {
    && (forall i :: 0 <= i < |nodes| ==> nodes[i].parent.None? && CoStarred(t, source, nodes[i].state))
    && (forall h :: CoStarred(t, source, h) ==> exists i :: 0 <= i < |nodes| && nodes[i].state == h)
  }

  /** Removing a head of another person keeps `x` queued. */
  lemma {:induction false} QueuedInTail(nodes: seq<Node>, frontier: seq<nat>, x: PersonId, bound: int)
    requires ArenaOk(nodes) && Indexes(nodes, frontier) && Queued(nodes, frontier, x, bound)
    requires frontier != [] && nodes[frontier[0]].state.person != x
    ensures Indexes(nodes, frontier[1..]) && Queued(nodes, frontier[1..], x, bound)
  {
    var i :| 0 <= i < |frontier| && nodes[frontier[i]].state.person == x && Depth(nodes, frontier[i]) <= bound;
    assert frontier[1..][i - 1] == frontier[i];
  }

  /** Growing the arena and the queue behind it keeps `x` queued. */
  lemma {:induction false} QueuedKept(nodes: seq<Node>, longer: seq<Node>, queue: seq<nat>, extra: seq<nat>,
                                      x: PersonId, bound: int)
    requires ArenaOk(nodes) && Indexes(nodes, queue) && Queued(nodes, queue, x, bound)
    requires ArenaOk(longer) && |nodes| <= |longer| && Indexes(longer, queue + extra)
    requires forall k :: 0 <= k < |nodes| ==> longer[k] == nodes[k] && Depth(longer, k) == Depth(nodes, k)
    ensures Queued(longer, queue + extra, x, bound)
  {
    var i :| 0 <= i < |queue| && nodes[queue[i]].state.person == x && Depth(nodes, queue[i]) <= bound;
    assert (queue + extra)[i] == queue[i];
  }

  /** The seeded arena, queued in order, with nothing checked, satisfies the invariant. */
  lemma {:induction false} Initial(t: Tables, source: PersonId, target: PersonId, nodes: seq<Node>)
    requires Closed(t) && Seeded(t, source, nodes)
    ensures SearchInv(t, source, target, nodes, Span(0, |nodes|), [], map[])
  {
    var frontier := Span(0, |nodes|);
    assert ArenaOk(nodes);
    assert Forest(t, source, nodes);
    assert Indexes(nodes, frontier);
    assert Levels(nodes, frontier) by {
      forall i | 0 <= i < |nodes|
        ensures Depth(nodes, i) == 1
      {
      }
    }
    assert Ledger(nodes, [], map[], target);
    assert Covered(t, source, nodes, frontier, map[]) by {
      forall h | CoStarred(t, source, h)
        ensures Queued(nodes, frontier, h.person, 1)
      {
        var i :| 0 <= i < |nodes| && nodes[i].state == h;
        assert frontier[i] == i;
      }
    }
  }

  /**
   * A chain from the source to a person not yet checked crosses the
   * frontier: some frontier entry is no deeper than the chain is long.
   */
  lemma {:induction false} FrontierCutsChain(t: Tables, source: PersonId, target: PersonId, nodes: seq<Node>,
                          frontier: seq<nat>, checked: seq<PersonId>, expander: map<PersonId, nat>, c: seq<Hop>)
    requires SearchInv(t, source, target, nodes, frontier, checked, expander)
    requires IsChain(t, source, c) && c[|c| - 1].person !in expander
    ensures exists i :: 0 <= i < |frontier| && Depth(nodes, frontier[i]) <= |c|
  {
    var j := |c| - 1;
    while j > 0 && c[j - 1].person !in expander
      invariant 0 <= j < |c| && c[j].person !in expander
    {
      j := j - 1;
    }
    if j == 0 {
      assert Queued(nodes, frontier, c[0].person, 1);
    } else {
      var v := c[j - 1].person;
      assert CoStarred(t, v, c[j]);
      var prefix := c[..j];
      assert IsChainTo(t, source, prefix, v) by {
        forall i | 0 < i < |prefix|
          ensures CoStarred(t, prefix[i - 1].person, prefix[i])
        {
          assert prefix[i - 1] == c[i - 1] && prefix[i] == c[i];
        }
      }
      assert Queued(nodes, frontier, c[j].person, Depth(nodes, expander[v]) + 1);
    }
  }

  /** The head of the frontier is no deeper than any chain to a person not yet checked. */
  lemma {:induction false} HeadIsNearest(t: Tables, source: PersonId, target: PersonId, nodes: seq<Node>,
                      frontier: seq<nat>, checked: seq<PersonId>, expander: map<PersonId, nat>,
                      c: seq<Hop>, x: PersonId)
    requires SearchInv(t, source, target, nodes, frontier, checked, expander)
    requires IsChainTo(t, source, c, x) && x !in expander
    ensures frontier != [] && Depth(nodes, frontier[0]) <= |c|
  {
    FrontierCutsChain(t, source, target, nodes, frontier, checked, expander, c);
    var i :| 0 <= i < |frontier| && Depth(nodes, frontier[i]) <= |c|;
    assert Depth(nodes, frontier[0]) <= Depth(nodes, frontier[i]);
  }

  /** While the target is reachable the frontier is not empty. */
  lemma {:induction false} ReachableKeepsFrontier(t: Tables, source: PersonId, target: PersonId, nodes: seq<Node>,
                               frontier: seq<nat>, checked: seq<PersonId>, expander: map<PersonId, nat>)
    requires SearchInv(t, source, target, nodes, frontier, checked, expander)
    ensures Reachable(t, source, target) ==> frontier != []
  {
    if Reachable(t, source, target) {
      var c :| IsChainTo(t, source, c, target);
      HeadIsNearest(t, source, target, nodes, frontier, checked, expander, c, target);
    }
  }

  /** Dropping a head whose person is already checked keeps the invariant. */
  lemma {:induction false} SkipStep(t: Tables, source: PersonId, target: PersonId, nodes: seq<Node>,
                 frontier: seq<nat>, checked: seq<PersonId>, expander: map<PersonId, nat>)
    requires SearchInv(t, source, target, nodes, frontier, checked, expander)
    requires frontier != [] && nodes[frontier[0]].state.person in expander
    ensures SearchInv(t, source, target, nodes, frontier[1..], checked, expander)
  {
    forall x, b | Queued(nodes, frontier, x, b) && x !in expander
      ensures Queued(nodes, frontier[1..], x, b)
    {
      QueuedInTail(nodes, frontier, x, b);
    }
  }

  /** A head node of the target: its path is a shortest chain to the target and repeats no person. */
  lemma {:induction false} FoundStep(t: Tables, source: PersonId, target: PersonId, nodes: seq<Node>,
                  frontier: seq<nat>, checked: seq<PersonId>, expander: map<PersonId, nat>)
    requires SearchInv(t, source, target, nodes, frontier, checked, expander)
    requires frontier != [] && nodes[frontier[0]].state.person == target
    ensures IsChainTo(t, source, PathTo(nodes, frontier[0]), target)
    ensures DistinctPersons(PathTo(nodes, frontier[0]))
    ensures forall c :: IsChainTo(t, source, c, target) ==> |PathTo(nodes, frontier[0])| <= |c|
  {
    PathToIsChain(t, source, nodes, frontier[0]);
    PathDistinct(nodes, expander, frontier[0]);
    forall c | IsChainTo(t, source, c, target)
      ensures Depth(nodes, frontier[0]) <= |c|
    {
      HeadIsNearest(t, source, target, nodes, frontier, checked, expander, c, target);
    }
  }

  /**
   * Appending one child of node `cur` per neighbour of its person keeps the
   * forest, leaves old nodes and their depths alone, and puts every child
   * one hop below `cur`.
   */
  lemma {:induction false} ExtendArena(t: Tables, source: PersonId, nodes: seq<Node>, cur: nat, neighbors: set<Hop>, longer: seq<Node>)
    requires Closed(t) && Forest(t, source, nodes) && cur < |nodes|
    requires forall h :: h in neighbors ==> CoStarred(t, nodes[cur].state.person, h)
    requires |nodes| <= |longer| && longer[..|nodes|] == nodes
    requires forall i :: |nodes| <= i < |longer| ==> longer[i].parent == Some(cur) && longer[i].state in neighbors
    ensures Forest(t, source, longer)
    ensures forall k :: 0 <= k < |nodes| ==> longer[k] == nodes[k] && Depth(longer, k) == Depth(nodes, k)
    ensures forall i :: |nodes| <= i < |longer| ==> Depth(longer, i) == Depth(nodes, cur) + 1
  {
    forall i | 0 <= i < |longer| && longer[i].parent.Some?
      ensures longer[i].parent.value < i
    {
      if i < |nodes| {
        assert longer[i] == nodes[i];
      }
    }
    assert ArenaOk(longer);
    forall k | 0 <= k < |nodes|
      ensures longer[k] == nodes[k] && Depth(longer, k) == Depth(nodes, k)
    {
      assert longer[k] == nodes[k];
      PathToStable(nodes, longer, k);
    }
    forall i | |nodes| <= i < |longer|
      ensures Depth(longer, i) == Depth(nodes, cur) + 1
    {
      assert PathTo(longer, i) == PathTo(longer, cur) + [longer[i].state];
    }
  }

  /** Checking person `p` through node `cur` keeps the ledger of the grown arena. */
  lemma {:induction false} ExtendLedger(nodes: seq<Node>, checked: seq<PersonId>, expander: map<PersonId, nat>, target: PersonId,
                     cur: nat, p: PersonId, longer: seq<Node>)
    requires Ledger(nodes, checked, expander, target) && ArenaOk(longer)
    requires cur < |nodes| && p == nodes[cur].state.person && p !in expander && p != target
    requires |nodes| <= |longer| && forall k :: 0 <= k < |nodes| ==> longer[k] == nodes[k]
    requires forall i :: |nodes| <= i < |longer| ==> longer[i].parent == Some(cur)
    ensures Ledger(longer, checked + [p], expander[p := cur], target)
  {
    var checked' := checked + [p];
    var expander' := expander[p := cur];
    forall i, j | 0 <= i < j < |checked'|
      ensures checked'[i] != checked'[j]
    {
      if j < |checked| {
        assert checked'[i] == checked[i] && checked'[j] == checked[j];
      } else {
        assert checked'[i] == checked[i] && checked[i] in checked;
      }
    }
    forall v | v in expander'
      ensures expander'[v] < |longer| && longer[expander'[v]].state.person == v
    {
      if v != p {
        assert longer[expander[v]] == nodes[expander[v]];
      }
    }
    forall i | 0 <= i < |longer| && longer[i].parent.Some?
      ensures longer[longer[i].parent.value].state.person in expander'
      ensures expander'[longer[longer[i].parent.value].state.person] == longer[i].parent.value
    {
      var q := longer[i].parent.value;
      if i < |nodes| {
        assert longer[i] == nodes[i] && longer[q] == nodes[q];
      }
    }
  }

  /** Dropping the head and appending children one level below it keeps the frontier's levels. */
  lemma {:induction false} ExtendLevels(nodes: seq<Node>, frontier: seq<nat>, longer: seq<Node>)
    requires ArenaOk(nodes) && ArenaOk(longer) && Indexes(nodes, frontier) && Levels(nodes, frontier)
    requires frontier != [] && |nodes| <= |longer|
    requires forall k :: 0 <= k < |nodes| ==> Depth(longer, k) == Depth(nodes, k)
    requires forall i :: |nodes| <= i < |longer| ==> Depth(longer, i) == Depth(nodes, frontier[0]) + 1
    ensures Indexes(longer, frontier[1..] + Span(|nodes|, |longer|))
    ensures Levels(longer, frontier[1..] + Span(|nodes|, |longer|))
  {
    var n := |frontier| - 1;
    var added := Span(|nodes|, |longer|);
    var queue := frontier[1..] + added;
    var d := Depth(nodes, frontier[0]);
    forall i | 0 <= i < |queue|
      ensures queue[i] < |longer|
      ensures i < n ==> queue[i] == frontier[i + 1] && Depth(longer, queue[i]) == Depth(nodes, frontier[i + 1])
      ensures n <= i ==> Depth(longer, queue[i]) == d + 1
    {
      if i < n {
        assert queue[i] == frontier[i + 1];
      } else {
        assert queue[i] == added[i - n];
      }
    }
    assert Indexes(longer, queue);
    forall i, j | 0 <= i <= j < |queue|
      ensures Depth(longer, queue[i]) <= Depth(longer, queue[j]) <= Depth(longer, queue[i]) + 1
    {
      if j < n {
        assert Depth(nodes, frontier[i + 1]) <= Depth(nodes, frontier[j + 1]) <= Depth(nodes, frontier[i + 1]) + 1;
      } else if i < n {
        assert d <= Depth(nodes, frontier[i + 1]) <= d + 1;
      }
    }
  }

  /**
   * After checking the head's person `p` and queueing its children, nothing
   * is lost: the coverage facts hold of the grown arena and the new queue.
   */
  lemma {:induction false} ExtendCovered(t: Tables, source: PersonId, target: PersonId, nodes: seq<Node>,
                                         frontier: seq<nat>, checked: seq<PersonId>, expander: map<PersonId, nat>,
                                         p: PersonId, neighbors: set<Hop>, longer: seq<Node>)
    requires SearchInv(t, source, target, nodes, frontier, checked, expander)
    requires frontier != [] && p == nodes[frontier[0]].state.person && p !in expander
    requires forall h :: h in neighbors <==> CoStarred(t, p, h)
    requires ArenaOk(longer) && |nodes| <= |longer|
    requires forall k :: 0 <= k < |nodes| ==> longer[k] == nodes[k] && Depth(longer, k) == Depth(nodes, k)
    requires forall i :: |nodes| <= i < |longer| ==> Depth(longer, i) == Depth(nodes, frontier[0]) + 1
    requires forall h :: h in neighbors ==> exists i :: |nodes| <= i < |longer| && longer[i].state == h
    requires Indexes(longer, frontier[1..] + Span(|nodes|, |longer|))
    ensures Covered(t, source, longer, frontier[1..] + Span(|nodes|, |longer|), expander[p := frontier[0]])
  {
    var cur := frontier[0];
    var n := |frontier| - 1;
    var queue := frontier[1..] + Span(|nodes|, |longer|);
    var expander' := expander[p := cur];
    var d := Depth(nodes, cur);

    // What was queued for a person other than p is still queued.
    forall x, b | Queued(nodes, frontier, x, b) && x != p
      ensures Queued(longer, queue, x, b)
    {
      QueuedInTail(nodes, frontier, x, b);
      QueuedKept(nodes, longer, frontier[1..], Span(|nodes|, |longer|), x, b);
    }
    // Every neighbour of p is queued one hop below p's node.
    forall h | CoStarred(t, p, h)
      ensures Queued(longer, queue, h.person, d + 1)
    {
      var i :| |nodes| <= i < |longer| && longer[i].state == h;
      assert queue[n + (i - |nodes|)] == i;
    }
    // p's node is at p's shortest distance.
    forall c | IsChainTo(t, source, c, p)
      ensures d <= |c|
    {
      HeadIsNearest(t, source, target, nodes, frontier, checked, expander, c, p);
    }

    forall h | CoStarred(t, source, h) && h.person !in expander'
      ensures Queued(longer, queue, h.person, 1)
    {
      assert Queued(nodes, frontier, h.person, 1);
    }
    forall v, h | v in expander' && CoStarred(t, v, h) && h.person !in expander'
      ensures Queued(longer, queue, h.person, Depth(longer, expander'[v]) + 1)
    {
      if v != p {
        assert Queued(nodes, frontier, h.person, Depth(nodes, expander[v]) + 1);
      }
    }
    forall v, c | v in expander' && IsChainTo(t, source, c, v)
      ensures Depth(longer, expander'[v]) <= |c|
    {
    }
  }

  /**
   * Checking the head's person and queueing one child per neighbour, at the
   * tail and in new arena slots, keeps the invariant.
   */
  lemma {:induction false} ExpandStep(t: Tables, source: PersonId, target: PersonId, nodes: seq<Node>,
                                      frontier: seq<nat>, checked: seq<PersonId>, expander: map<PersonId, nat>,
                                      p: PersonId, neighbors: set<Hop>, longer: seq<Node>)
    requires Closed(t)
    requires SearchInv(t, source, target, nodes, frontier, checked, expander)
    requires frontier != [] && p == nodes[frontier[0]].state.person && p !in expander && p != target
    requires forall h :: h in neighbors <==> CoStarred(t, p, h)
    requires |nodes| <= |longer| && longer[..|nodes|] == nodes
    requires forall i :: |nodes| <= i < |longer| ==> longer[i].parent == Some(frontier[0]) && longer[i].state in neighbors
    requires forall h :: h in neighbors ==> exists i :: |nodes| <= i < |longer| && longer[i].state == h
    ensures SearchInv(t, source, target, longer, frontier[1..] + Span(|nodes|, |longer|),
                      checked + [p], expander[p := frontier[0]])
  {
    ExtendArena(t, source, nodes, frontier[0], neighbors, longer);
    ExtendLedger(nodes, checked, expander, target, frontier[0], p, longer);
    ExtendLevels(nodes, frontier, longer);
    ExtendCovered(t, source, target, nodes, frontier, checked, expander, p, neighbors, longer);
  }
}
