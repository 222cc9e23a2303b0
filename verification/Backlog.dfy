/** The bounded drop-oldest buffer between producers and the flush task. Each method is one critical section. */
module Backlogs {

  datatype Queue<T> = Queue(items: seq<T>, full: bool)

  function Empty<T>(): Queue<T> { Queue([], false) }

  /** size >= max * 0.95, over exact rationals. */
  predicate AtWatermark(size: nat, max: nat) { 20 * size >= 19 * max }

  /** Evict the oldest entry at capacity, append, and raise the flag at the watermark. */
  function Added<T>(q: Queue<T>, max: nat, x: T): Queue<T>
    requires max >= 1
  {
    var kept := if |q.items| >= max then q.items[1..] else q.items;
    Queue(kept + [x], q.full || AtWatermark(|kept| + 1, max))
  }

  /** The entry an Add evicts, if any. */
  function Evicted<T>(q: Queue<T>, max: nat): seq<T>
    requires max >= 1
  {
    if |q.items| >= max then [q.items[0]] else []
  }

  datatype Op<T> = Add(entry: T) | Flush

  function Exec<T>(ops: seq<Op<T>>, max: nat): Queue<T>
    requires max >= 1
  {
    if ops == [] then Empty()
    else
      match ops[|ops| - 1]
      case Add(x) => Added(Exec(ops[..|ops| - 1], max), max, x)
      case Flush => Empty()
  }

  /** Everything added since the last Flush. */
  function SinceFlush<T>(ops: seq<Op<T>>): seq<T> {
    if ops == [] then []
    else
      match ops[|ops| - 1]
      case Add(x) => SinceFlush(ops[..|ops| - 1]) + [x]
      case Flush => []
  }

  function LastN<T>(s: seq<T>, n: nat): seq<T> {
    if |s| <= n then s else s[|s| - n..]
  }

  /** After any interleaving of adds and flushes the queue is exactly the newest min(n, max) of the n entries
      added since the last flush, in order, and the flag says exactly whether the watermark is reached. */
  lemma {:induction false} BacklogKeepsNewest<T>(ops: seq<Op<T>>, max: nat)
    requires max >= 1
    ensures var q := Exec(ops, max);
            && |q.items| == (if |SinceFlush(ops)| < max then |SinceFlush(ops)| else max)
            && q.items == SinceFlush(ops)[|SinceFlush(ops)| - |q.items|..]
            && (q.full <==> 20 * |q.items| >= 19 * max)
  {
    if ops != [] {
      BacklogKeepsNewest(ops[..|ops| - 1], max);
    }
  }

  class Backlog<T> {
    const maxSize: nat
    var queue: seq<T>
    var isFull: bool

    constructor (maxSize: nat)
      ensures this.maxSize == maxSize && Contents() == Empty()
    {
      this.maxSize := maxSize;
      queue, isFull := [], false;
    }

    function Contents(): Queue<T>
      reads this
    {
      Queue(queue, isFull)
    }

    method AddEntry(entry: T) returns (dropped: bool)
      requires maxSize >= 1
      modifies this
      ensures Contents() == Added(old(Contents()), maxSize, entry)
      ensures dropped <==> Evicted(old(Contents()), maxSize) != []
    {
      dropped := false;
      if |queue| >= maxSize {
        queue := queue[1..];
        dropped := true;
      }
      queue := queue + [entry];
      if 20 * |queue| >= 19 * maxSize {
        isFull := true;
      }
    }

    method FlushAll() returns (out: seq<T>)
      modifies this
      ensures out == old(queue) && Contents() == Empty()
    {
      isFull := false;
      out := queue;
      queue := [];
    }
  }
}
