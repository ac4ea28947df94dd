/** The bounded queue under the thread pool. Each method is the critical section the mutex makes atomic; a wait loop
    shows as the condition under which it lets the caller through. */
module BlockingQueue {
  class BlockingQueue<T> {
    const maxCount: int
    var queueCount: int
    var queue: seq<T>

    ghost predicate Valid()
      reads this
    {
      queueCount == |queue| && (queueCount <= maxCount || queue == [])
    }

    constructor (maxCount: int)
      ensures Valid() && queue == [] && this.maxCount == maxCount
    {
      this.maxCount := maxCount;
      queueCount, queue := 0, [];
    }

    method Offer(t: T) returns (ok: bool)
      requires Valid()
      modifies this
      ensures Valid()
      ensures ok <==> |old(queue)| < maxCount
      ensures queue == if ok then old(queue) + [t] else old(queue)
    {
      if queueCount >= maxCount {
        return false;
      }
      queue := queue + [t];
      queueCount := queueCount + 1;
      ok := true;
    }

    /** put, once its wait loop has seen room. */
    method Put(t: T)
      requires Valid() && queueCount < maxCount
      modifies this
      ensures Valid() && queue == old(queue) + [t]
    {
      queue := queue + [t];
      queueCount := queueCount + 1;
    }

    /** poll: `t0` is what the caller's variable held before. */
    method Poll(t0: T) returns (ok: bool, t: T)
      requires Valid()
      modifies this
      ensures Valid()
      ensures ok <==> old(queue) != []
      ensures if ok then old(queue) == [t] + queue else queue == old(queue) && t == t0
    {
      if queue == [] {
        return false, t0;
      }
      t := queue[0];
      queue := queue[1..];
      queueCount := queueCount - 1;
      ok := true;
    }

    /** take, once its wait loop has seen an element. */
    method Take() returns (t: T)
      requires Valid() && queue != []
      modifies this
      ensures Valid() && old(queue) == [t] + queue
    {
      t := queue[0];
      queue := queue[1..];
      queueCount := queueCount - 1;
    }

    /** The count can be overwritten from outside, which keeps it honest only when nothing changes. */
    method SetQueueCount(count: int)
      requires Valid()
      modifies `queueCount
      ensures Valid() <==> count == old(queueCount)
    {
      queueCount := count;
    }
  }
}
