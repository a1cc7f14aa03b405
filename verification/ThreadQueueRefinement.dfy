/** The two views of the waitable queue joined: the heap under the mutex, and threads that take steps in any order. */
module ThreadQueueRefinement {
  import opened ThreadQueueSpec
  import opened ThreadQueue
  import ThreadQueueProtocol

  /**
   * Whatever threads do, the heap after the calls that took effect holds their queue: the same messages in order, as many
   * spare nodes, the same history, and whenever the mutex is free the same length.
   */
  method HeapOfRun(steps: seq<(int, ThreadQueueProtocol.Action)>) returns (q: WaitQueue)
    ensures fresh(q) && q.Valid()
    ensures var s := ThreadQueueProtocol.Run(steps);
      && q.Contents() == s.queue && q.msgpoolLength == s.pool && s.added == s.returned + q.Contents()
      && q.msgpoolLength <= Peak(s.calls) / 8 + 65
      && (s.holder == ThreadQueueProtocol.NOBODY ==> q.length == s.length)
  {
    hide ThreadQueueProtocol.Run, Replay, WaitQueue.Valid;
    var added, got;
    q, added, got := RunQueue(ThreadQueueProtocol.Run(steps).calls);
    ThreadQueueProtocol.CallsExplainRun(steps);
    ThreadQueueProtocol.FirstInFirstOut(steps);
    q.Lengths();
  }
}
