/**
 * Search nodes. A `util.Node` of the Python code holds a hop and a reference to
 * the node it was expanded from; here every node lives in an arena (a
 * sequence) and refers to its parent by index, always a smaller index.
 */
module Arena {
  import opened Wrappers
  import opened Graph

  datatype Node = Node(state: Hop, parent: Option<nat>)

  /** Every parent index is smaller than the index of its child. */
  ghost predicate ArenaOk(nodes: seq<Node>) {
    forall i :: 0 <= i < |nodes| && nodes[i].parent.Some? ==> nodes[i].parent.value < i
  }

  /** The states from the root down to node `i`: what walking its parents and reversing collects. */
  ghost function PathTo(nodes: seq<Node>, i: nat): (path: seq<Hop>)
    requires ArenaOk(nodes) && i < |nodes|
    ensures |path| > 0 && path[|path| - 1] == nodes[i].state
    decreases i
  {
    match nodes[i].parent
    case None => [nodes[i].state]
    case Some(k) => PathTo(nodes, k) + [nodes[i].state]
  }

  /** The path to the parent of node `i`, empty for a root. */
  ghost function Above(nodes: seq<Node>, i: nat): (path: seq<Hop>)
    requires ArenaOk(nodes) && i < |nodes|
    ensures PathTo(nodes, i) == path + [nodes[i].state]
  {
    match nodes[i].parent
    case None => []
    case Some(k) => PathTo(nodes, k)
  }

  /** The number of hops on the path to node `i`. */
  ghost function Depth(nodes: seq<Node>, i: nat): (d: nat)
    requires ArenaOk(nodes) && i < |nodes|
  {
    |PathTo(nodes, i)|
  }

  /** Roots hold hops of `source`; every other node holds a hop of its parent's person. */
  ghost predicate Forest(t: Tables, source: PersonId, nodes: seq<Node>) {
    && ArenaOk(nodes)
    && (forall i :: 0 <= i < |nodes| ==> nodes[i].state.person in t.people)
    && (forall i :: 0 <= i < |nodes| && nodes[i].parent.None? ==> CoStarred(t, source, nodes[i].state))
    && (forall i :: 0 <= i < |nodes| && nodes[i].parent.Some? ==>
          CoStarred(t, nodes[nodes[i].parent.value].state.person, nodes[i].state))
  }

  /**
   * Every parent is the one node recorded in `expander` for its person: a
   * person's neighbours are queued by one node only.
   */
  ghost predicate ParentsExpand(nodes: seq<Node>, expander: map<PersonId, nat>)
    requires ArenaOk(nodes)
  {
    forall i :: 0 <= i < |nodes| && nodes[i].parent.Some? ==>
      nodes[nodes[i].parent.value].state.person in expander &&
      expander[nodes[nodes[i].parent.value].state.person] == nodes[i].parent.value
  }

  /** Children whose parents hold the same person have the same parent: each person is expanded once. */
  ghost predicate ExpandedOnce(nodes: seq<Node>)
    requires ArenaOk(nodes)
  {
    forall i, j :: 0 <= i < |nodes| && 0 <= j < |nodes| && nodes[i].parent.Some? && nodes[j].parent.Some? ==>
      (nodes[nodes[i].parent.value].state.person == nodes[nodes[j].parent.value].state.person
       ==> nodes[i].parent == nodes[j].parent)
  }

  /** Appending nodes to the arena does not change the path to an old node. */
  lemma {:induction false} PathToStable(nodes: seq<Node>, longer: seq<Node>, i: nat)
    requires ArenaOk(nodes) && ArenaOk(longer)
    requires |nodes| <= |longer| && longer[..|nodes|] == nodes && i < |nodes|
    ensures PathTo(longer, i) == PathTo(nodes, i)
    decreases i
  {
    assert longer[i] == nodes[i];
    match nodes[i].parent
    case None =>
    case Some(k) => PathToStable(nodes, longer, k);
  }

  /** The path to any node of a forest is a chain from `source` to the node's person. */
  lemma {:induction false} PathToIsChain(t: Tables, source: PersonId, nodes: seq<Node>, i: nat)
    requires Forest(t, source, nodes) && i < |nodes|
    ensures IsChainTo(t, source, PathTo(nodes, i), nodes[i].state.person)
    decreases i
  {
    match nodes[i].parent
    case None =>
    case Some(k) =>
      PathToIsChain(t, source, nodes, k);
      var above := PathTo(nodes, k);
      var path := PathTo(nodes, i);
      assert path == above + [nodes[i].state];
      forall j | 0 < j < |path|
        ensures CoStarred(t, path[j - 1].person, path[j])
      {
        if j < |above| {
          assert path[j - 1] == above[j - 1] && path[j] == above[j];
        }
      }
  }

  /**
   * The path to a node that expanded its person passes only through expanded
   * persons, each recorded with a node no later than `k`, and repeats none.
   */
  lemma {:induction false} ExpandedPathDistinct(nodes: seq<Node>, expander: map<PersonId, nat>, k: nat)
    requires ArenaOk(nodes) && k < |nodes| && ParentsExpand(nodes, expander)
    requires nodes[k].state.person in expander && expander[nodes[k].state.person] == k
    ensures DistinctPersons(PathTo(nodes, k))
    ensures forall j :: 0 <= j < |PathTo(nodes, k)| ==>
      PathTo(nodes, k)[j].person in expander && expander[PathTo(nodes, k)[j].person] <= k
    decreases k
  {
    match nodes[k].parent
    case None =>
    case Some(q) =>
      ExpandedPathDistinct(nodes, expander, q);
      var above := PathTo(nodes, q);
      assert PathTo(nodes, k) == above + [nodes[k].state];
  }

  /** The path to a node whose person was never expanded repeats no person. */
  lemma {:induction false} PathDistinct(nodes: seq<Node>, expander: map<PersonId, nat>, i: nat)
    requires ArenaOk(nodes) && i < |nodes| && ParentsExpand(nodes, expander)
    requires nodes[i].state.person !in expander
    ensures DistinctPersons(PathTo(nodes, i))
  {
    match nodes[i].parent
    case None =>
    case Some(q) =>
      ExpandedPathDistinct(nodes, expander, q);
  }
}
