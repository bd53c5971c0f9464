/**
 * The first-in-first-out frontier the search keeps its pending nodes in
 * (`QueueFrontier` of the repository's `util` module).
 */
module Frontier {

  class QueueFrontier<T> {
    /** The pending entries, head first. */
    var items: seq<T>

    constructor ()
      ensures items == []
    {
      items := [];
    }

    /** `add`: append at the tail. */
    method Add(node: T)
      modifies this
      ensures items == old(items) + [node]
    {
      items := items + [node];
    }

    /** `empty`: whether nothing is pending. */
    function Empty(): (r: bool)
      reads this
      ensures r <==> items == []
    {
      |items| == 0
    }

    /** `remove`: take the head; the frontier must not be empty. */
    method Remove() returns (node: T)
      requires items != []
      modifies this
      ensures node == old(items)[0]
      ensures items == old(items)[1..]
    {
      node := items[0];
      items := items[1..];
    }
  }
}
