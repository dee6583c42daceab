/** Runs of the message queue: putting back and taking again, and the
    cleanup of a queue that spans two segments. */
module QueueFindings {
  import opened Queues

  /** A message put back is the next one taken, and the queue is as it was
      before. */
  method UnpopThenPop<T(0)>(q: Queue<T>, x: T) returns (y: T)
    requires q.Valid()
    modifies q, q.segs[0]
    ensures q.Valid() && y == x && q.Contents == old(q.Contents)
  {
    q.Unpop(x);
    y := q.Pop();
  }

  /** A fresh queue holding the `n` messages `0` to `n - 1`, pushed in
      order. */
  method Filled(n: nat) returns (q: Queue<int>)
    ensures fresh(q) && q.Valid() && q.headindex == 0
    ensures q.Contents == seq(n, k => k)
  {
    q := new Queue<int>();
    var i := 0;
    while i < n
      invariant 0 <= i <= n
      invariant fresh(q) && q.Valid() && q.headindex == 0
      invariant forall k :: 0 <= k < |q.segs| ==> fresh(q.segs[k])
      invariant q.Contents == seq(i, k => k)
    {
      q.Push(i);
      i := i + 1;
    }
  }

  /** 1001 messages fill one segment and start a second; the cleanup as
      written frees only the first 1000 of them. */
  method CleanupLeaks() returns (queued: seq<int>, freed: seq<int>)
    ensures |queued| == 1001 && freed == queued[..1000]
  {
    var q := Filled(1001);
    queued := seq(1001, k => k);
    freed := q.Cleanup();
  }

  /** The same queue cleaned up with the index reset per segment: all 1001
      messages are freed. */
  method CleanupFixedFreesAll() returns (queued: seq<int>, freed: seq<int>)
    ensures |queued| == 1001 && freed == queued
  {
    var q := Filled(1001);
    queued := seq(1001, k => k);
    freed := q.CleanupFixed();
  }
}
