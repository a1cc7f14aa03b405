/** The waitable queue (immvibe/threadqueue.c) as its callers see it, one whole call after the other. */
module ThreadQueueSpec {
  const MSGPOOL_SIZE := 64

  /** What a caller puts in and gets out; `data` is an address, 0 for NULL. */
  datatype Message = Message(data: int, msgtype: int)

  /** A call that does not have to wait (any more); `canAllocate` is whether `malloc` succeeds. */
  datatype Op = AddOp(m: Message, canAllocate: bool) | GetOp(timedOut: bool)

  /** The messages queued, the number of spare nodes, and the history of messages added and returned. */
  datatype View = View(queue: seq<Message>, pool: nat, added: seq<Message>, got: seq<Message>)

  const EMPTY := View([], 0, [], [])

  /** The spare nodes after one more was released, for the length that the queue has by then. */
  function Released(pool: nat, length: nat): nat {
    var kept := if pool > length / 8 + MSGPOOL_SIZE then pool else pool + 1;
    if kept > length / 4 + MSGPOOL_SIZE * 10 then kept - 1 else kept
  }

  /**
   * A node released joins the pool unless the pool is more than an eighth of the length above 64, and leaves it one smaller
   * only when it is more than a quarter above 640: the two tests never both act.
   */
  lemma ReleasedIs(pool: nat, length: nat)
    ensures Released(pool, length) == pool + 1 <==> pool <= length / 8 + 64
    ensures Released(pool, length) == pool - 1 <==> pool > length / 4 + 640
    ensures Released(pool, length) == pool <==> length / 8 + 64 < pool <= length / 4 + 640
  {
  }

  function Apply(v: View, op: Op): View {
    match op
    case AddOp(m, canAllocate) =>
      if v.pool == 0 && !canAllocate then v
      else View(v.queue + [m], if v.pool == 0 then 0 else v.pool - 1, v.added + [m], v.got)
    case GetOp(timedOut) =>
      if timedOut || v.queue == [] then v
      else View(v.queue[1..], Released(v.pool, |v.queue| - 1), v.added, v.got + [v.queue[0]])
  }

  function Replay(ops: seq<Op>): View {
    if ops == [] then EMPTY else Apply(Replay(ops[..|ops| - 1]), ops[|ops| - 1])
  }

  function Max(a: nat, b: nat): nat {
    if a > b then a else b
  }

  /** The length of the queue after the first `i` calls. */
  function LengthAfter(ops: seq<Op>, i: nat): nat
    requires i <= |ops|
  {
    |Replay(ops[..i]).queue|
  }

  /** The largest length the queue ever had. */
  function Peak(ops: seq<Op>): (peak: nat)
    ensures forall i :: 0 <= i <= |ops| ==> LengthAfter(ops, i) <= peak
    ensures exists i :: 0 <= i <= |ops| && LengthAfter(ops, i) == peak
  {
    assert ops[..|ops|] == ops;
    if ops == [] then
      assert LengthAfter(ops, 0) == 0;
      0
    else
      var front := ops[..|ops| - 1];
      assert forall i :: 0 <= i <= |front| ==> front[..i] == ops[..i] && LengthAfter(front, i) == LengthAfter(ops, i);
      assert LengthAfter(ops, |ops|) == |Replay(ops).queue|;
      Max(Peak(front), |Replay(ops).queue|)
  }

  lemma ReplaySnoc(ops: seq<Op>, op: Op)
    ensures Replay(ops + [op]) == Apply(Replay(ops), op)
    ensures Peak(ops + [op]) == Max(Peak(ops), |Replay(ops + [op]).queue|)
  {
    assert (ops + [op])[..|ops|] == ops;
  }

  /** Over any calls the pool stays within an eighth of the largest length so far, plus 65. */
  lemma {:induction false} PoolBound(ops: seq<Op>)
    ensures Replay(ops).pool <= Peak(ops) / 8 + 65
  {
    if ops != [] {
      PoolBound(ops[..|ops| - 1]);
      assert ops[..|ops|] == ops && LengthAfter(ops, |ops|) <= Peak(ops);
    }
  }

  /** Over any calls what was added is what was returned and then what is still queued. */
  lemma {:induction false} AddedIsGotAndQueued(ops: seq<Op>)
    ensures Replay(ops).added == Replay(ops).got + Replay(ops).queue
  {
    if ops != [] {
      var v, op := Replay(ops[..|ops| - 1]), ops[|ops| - 1];
      AddedIsGotAndQueued(ops[..|ops| - 1]);
      if op.GetOp? && v.queue != [] {
        assert v.queue == [v.queue[0]] + v.queue[1..];
      }
    }
  }
}
