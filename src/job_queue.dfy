/**
 * `SimpleQueue` of wis2downloader/queue: a FIFO over Python's
 * `queue.Queue` with an `active` flag.  Python's queue also counts the
 * tasks not yet marked done (`put` adds one, `task_done` takes one away and
 * raises `ValueError` at zero); that counter is `unfinished` here.  The
 * blocking `get` becomes the precondition that the queue is not empty.
 */
module JobQueue {

  class SimpleQueue<T> {
    var items: seq<T>
    var active: bool
    var unfinished: nat

    /** A new queue is empty and active. */
    constructor ()
      ensures items == [] && active && unfinished == 0
    {
      items := [];
      active := true;
      unfinished := 0;
    }

    /** Appends at the back; the active flag is untouched. */
    method Enqueue(item: T)
      modifies this
      ensures items == old(items) + [item]
      ensures |items| == |old(items)| + 1
      ensures active == old(active)
      ensures unfinished == old(unfinished) + 1
    {
      items := items + [item];
      unfinished := unfinished + 1;
    }

    /** Removes and returns the oldest item, and nothing else. */
    method Dequeue() returns (item: T)
      requires items != []
      modifies this
      ensures item == old(items)[0]
      ensures items == old(items)[1..]
      ensures old(items) == [item] + items
      ensures active == old(active) && unfinished == old(unfinished)
    {
      item := items[0];
      items := items[1..];
    }

    method Size() returns (n: nat)
      ensures n == |items|
    {
      n := |items|;
    }

    method IsEmpty() returns (empty: bool)
      ensures empty <==> |items| == 0
    {
      empty := items == [];
    }

    /** Marks one task done; the items held do not change. */
    method TaskDone() returns (ok: bool)
      modifies this
      ensures items == old(items) && active == old(active)
      ensures ok <==> old(unfinished) > 0
      ensures unfinished == if ok then old(unfinished) - 1 else old(unfinished)
    {
      ok := unfinished > 0;
      if ok {
        unfinished := unfinished - 1;
      }
    }

    /** Negates the active flag, so two toggles restore it. */
    method ToggleActive()
      modifies this
      ensures active == !old(active)
      ensures items == old(items) && unfinished == old(unfinished)
    {
      active := !active;
    }

    method IsActive() returns (a: bool)
      ensures a == active
    {
      a := active;
    }
  }
}
