/**
 * Python's `queue.Queue` as the uploader uses it: a FIFO of items plus the
 * count of unfinished tasks that `put` raises, `task_done` lowers and
 * `join` waits to see reach zero.
 */
module Queues {
  import opened Wrappers

  class Queue<T> {
    /** The items waiting in the queue, oldest first. */
    var items: seq<T>
    /** `unfinished_tasks`: items put and not yet reported done with `task_done`. */
    var unfinished: nat

    /** Every waiting item is also an unfinished task. */
    ghost predicate Valid()
      reads this
    {
      |items| <= unfinished
    }

    constructor ()
      ensures Valid()
      ensures items == [] && unfinished == 0
    {
      items := [];
      unfinished := 0;
    }

    /** `empty()`. */
    predicate IsEmpty()
      reads this
    {
      items == []
    }

    /** `put(x)`: appends `x` and counts one more unfinished task. */
    method Put(x: T)
      modifies this
      ensures items == old(items) + [x]
      ensures unfinished == old(unfinished) + 1
    {
      items := items + [x];
      unfinished := unfinished + 1;
    }

    /** `get_nowait()`: the oldest item, or None where Python raises `queue.Empty`. */
    method GetNowait() returns (r: Option<T>)
      modifies this
      ensures old(items) == [] ==> r == None && items == old(items)
      ensures old(items) != [] ==> r == Some(old(items)[0]) && items == old(items)[1..]
      ensures unfinished == old(unfinished)
    {
      if items == [] {
        r := None;
      } else {
        r := Some(items[0]);
        items := items[1..];
      }
    }

    /** `get()`, called only after `empty()` said there is an item, so it never blocks. */
    method Get() returns (x: T)
      requires items != []
      modifies this
      ensures x == old(items)[0] && items == old(items)[1..]
      ensures unfinished == old(unfinished)
    {
      x := items[0];
      items := items[1..];
    }

    /** `task_done()`; Python raises `ValueError` when no task is unfinished. */
    method TaskDone()
      requires unfinished > 0
      modifies this
      ensures unfinished == old(unfinished) - 1
      ensures items == old(items)
    {
      unfinished := unfinished - 1;
    }
  }
}
