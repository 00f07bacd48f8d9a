/**
 * The earlier `SimpleQueue` of queuer/: the same FIFO over Python's
 * `queue.Queue`, without the active flag.
 */
module LegacyQueue {

  class SimpleQueue<T> {
    var items: seq<T>
    var unfinished: nat

    /** A new queue is empty. */
    constructor ()
      ensures items == [] && unfinished == 0
    {
      items := [];
      unfinished := 0;
    }

    method Enqueue(item: T)
      modifies this
      ensures items == old(items) + [item]
      ensures unfinished == old(unfinished) + 1
    {
      items := items + [item];
      unfinished := unfinished + 1;
    }

    /** Removes and returns the oldest item; the blocking wait becomes a precondition. */
    method Dequeue() returns (item: T)
      requires items != []
      modifies this
      ensures item == old(items)[0]
      ensures items == old(items)[1..]
      ensures unfinished == old(unfinished)
    {
      item := items[0];
      items := items[1..];
    }

    method Size() returns (n: nat)
      ensures n == |items|
    {
      n := |items|;
    }

    method IsEmpty() returns (empty: bool)
      ensures empty <==> |items| == 0
    {
      empty := items == [];
    }

    method TaskDone() returns (ok: bool)
      modifies this
      ensures items == old(items)
      ensures ok <==> old(unfinished) > 0
      ensures unfinished == if ok then old(unfinished) - 1 else old(unfinished)
    {
      ok := unfinished > 0;
      if ok {
        unfinished := unfinished - 1;
      }
    }
  }

  /**
   * FIFO order: enqueuing a sequence of items into a new queue and then
   * dequeuing as many times gives the items back in the order they went in,
   * and leaves the queue empty.
   */
  method FifoOrder<T>(xs: seq<T>) returns (ys: seq<T>)
    ensures ys == xs
  {
    var q := new SimpleQueue<T>();
    var i := 0;
    while i < |xs|
      invariant 0 <= i <= |xs|
      invariant q.items == xs[..i]
    {
      q.Enqueue(xs[i]);
      i := i + 1;
      assert xs[..i] == xs[..i - 1] + [xs[i - 1]];
    }
    ys := [];
    while |ys| < |xs|
      invariant |ys| <= |xs|
      invariant ys == xs[..|ys|]
      invariant q.items == xs[|ys|..]
    {
      var y := q.Dequeue();
      ys := ys + [y];
    }
    assert q.items == [];
  }
}
