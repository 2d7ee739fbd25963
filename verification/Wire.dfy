/** The filesystem websocket of a migration. */
module Wire {

  /** As much of the items as a connection with this budget carries. */
  function Carried<T>(items: seq<T>, budget: nat): seq<T> {
    if budget < |items| then items[..budget] else items
  }

  /** What has been sent and not yet received, in order; the connection breaks after `budget` more sends. */
  class Connection<T> {
    var queue: seq<T>
    var budget: nat

    constructor (budget: nat)
      ensures queue == [] && this.budget == budget
    {
      queue, this.budget := [], budget;
    }

    method Send(item: T) returns (ok: bool)
      modifies this
      ensures ok == (old(budget) > 0)
      ensures queue == if ok then old(queue) + [item] else old(queue)
      ensures budget == if ok then old(budget) - 1 else 0
    {
      ok := budget > 0;
      if ok {
        queue, budget := queue + [item], budget - 1;
      }
    }
  }
}
