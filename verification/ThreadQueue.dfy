/**
 * The waitable queue of the vibration library (immvibe/threadqueue.c), seen from inside its mutex: a linked FIFO of
 * messages and a pool of spare nodes, both updated in place. `live` is the heap: `malloc` adds a node, `free` needs one.
 */
module ThreadQueue {
  import opened Lists
  import opened ThreadQueueSpec

  datatype Status = Success | NoMemory | TimedOut

  class MsgList {
    var msg: Message
    var next: MsgList?

    constructor ()
    {
      msg, next := Message(0, 0), null;
    }
  }

  // ---- Chains of nodes

  /** Each node points to the next and the last to none. */
  ghost predicate Chain(l: seq<MsgList>)
    reads l
  {
    && (l != [] ==> l[|l| - 1].next == null)
    && forall i :: 0 <= i < |l| - 1 ==> l[i].next == l[i + 1]
  }

  ghost function Head(l: seq<MsgList>): MsgList? {
    if l == [] then null else l[0]
  }

  ghost function Messages(l: seq<MsgList>): (ms: seq<Message>)
    reads l
    ensures |ms| == |l|
    ensures forall i :: 0 <= i < |l| ==> ms[i] == l[i].msg
  {
    if l == [] then [] else Messages(l[..|l| - 1]) + [l[|l| - 1].msg]
  }

  function DataOf(ms: seq<Message>): seq<int> {
    seq(|ms|, i requires 0 <= i < |ms| => ms[i].data)
  }

  lemma DataOfTail(l: seq<MsgList>)
    requires l != []
    ensures DataOf(Messages(l)) == [l[0].msg.data] + DataOf(Messages(l[1..]))
  {
  }

  lemma EmptyList()
    ensures DataOf(Messages([])) == [] && Members([]) == {}
  {
  }

  ghost function Members(l: seq<MsgList>): set<MsgList> {
    set e | e in l
  }

  lemma MembersOfTail(l: seq<MsgList>)
    requires l != [] && Distinct(l)
    ensures Members(l) == Members(l[1..]) + {l[0]} && l[0] !in Members(l[1..]) && Distinct(l[1..])
  {
    assert l == [l[0]] + l[1..];
  }

  lemma MembersOfCons(e: MsgList, l: seq<MsgList>)
    requires e !in Members(l) && Distinct(l)
    ensures Members([e] + l) == Members(l) + {e} && Distinct([e] + l)
  {
  }

  lemma MembersOfSnoc(l: seq<MsgList>, e: MsgList)
    requires e !in Members(l) && Distinct(l)
    ensures Members(l + [e]) == Members(l) + {e} && Distinct(l + [e])
  {
  }

  lemma {:induction false} MembersCount(l: seq<MsgList>)
    requires Distinct(l)
    ensures |Members(l)| == |l|
  {
    if l == [] {
      assert Members(l) == {};
    } else {
      var i := |l| - 1;
      MembersCount(l[..i]);
      assert l == l[..i] + [l[i]] && l[i] !in l[..i];
      assert Members(l) == Members(l[..i]) + {l[i]};
    }
  }

  /** Where a chain continues after its first node. */
  lemma ChainTail(l: seq<MsgList>)
    requires Chain(l) && l != []
    ensures Chain(l[1..]) && l[0].next == Head(l[1..])
  {
  }

  lemma ChainSnoc(l: seq<MsgList>, e: MsgList)
    requires l != [] && l[|l| - 1].next == e && e.next == null
    requires forall i :: 0 <= i < |l| - 1 ==> l[i].next == l[i + 1]
    ensures Chain(l + [e])
  {
  }

  twostate lemma ChainFrame(l: seq<MsgList>)
    requires old(Chain(l)) && forall e :: e in l ==> e.next == old(e.next)
    ensures Chain(l)
  {
  }

  twostate lemma MessagesFrame(l: seq<MsgList>)
    requires forall e :: e in l ==> e.msg == old(e.msg)
    ensures Messages(l) == old(Messages(l))
  {
  }

  class WaitQueue {
    var first: MsgList?
    var last: MsgList?
    var length: int
    var msgpool: MsgList?
    var msgpoolLength: int
    /** The nodes of the queue and of the pool in order, the nodes allocated, and the largest length there ever was. */
    ghost var queue: seq<MsgList>
    ghost var pool: seq<MsgList>
    ghost var live: set<MsgList>
    ghost var peak: nat

    /** The lists are what the counters say and share no node. */
    ghost predicate Shape()
      reads this, queue, pool
    {
      && Chain(queue) && first == Head(queue) && Chain(pool) && msgpool == Head(pool)
      && last == (if queue == [] then null else queue[|queue| - 1])
      && Distinct(queue) && Distinct(pool) && Members(queue) !! Members(pool)
      && length == |queue| && msgpoolLength == |pool|
    }

    /** Spare nodes hold nothing. */
    ghost predicate Spare()
      reads this, pool
    {
      forall e :: e in pool ==> e.msg == Message(0, 0)
    }

    /** No node is lost, and the pool stays within an eighth of the peak plus 65. */
    ghost predicate Valid()
      reads this, queue, pool
    {
      && Shape() && Spare()
      && live == Members(queue) + Members(pool)
      && length <= peak && msgpoolLength <= peak / 8 + MSGPOOL_SIZE + 1
    }

    ghost function Contents(): seq<Message>
      reads this, queue
    {
      Messages(queue)
    }

    /** The heap holds as many nodes as the two counters say. */
    lemma LiveNodes()
      requires Valid()
      ensures |live| == length + msgpoolLength
    {
      MembersCount(queue);
      MembersCount(pool);
      assert Members(queue) !! Members(pool);
    }

    constructor ()
      ensures Valid() && Contents() == [] && live == {} && msgpoolLength == 0 && peak == 0
    {
      first, last, length, msgpool, msgpoolLength := null, null, 0, null, 0;
      queue, pool, live, peak := [], [], {}, 0;
    }

    /** `free`, of a node that is allocated. */
    method Free(node: MsgList)
      requires node in live
      modifies this`live
      ensures live == old(live) - {node}
    {
      live := live - {node};
    }

    /** Take the first spare node; its contents are left as they are. */
    method TakeFromPool() returns (node: MsgList)
      requires Shape() && pool != []
      modifies this`msgpool, this`msgpoolLength, this`pool
      ensures Shape() && pool == old(pool)[1..] && msgpoolLength == old(msgpoolLength) - 1
      ensures node == old(msgpool) && old(Members(pool)) == Members(pool) + {node}
      ensures node !in Members(queue) + Members(pool)
    {
      hide Chain, Members, Distinct;
      ChainTail(pool);
      MembersOfTail(pool);
      node := msgpool;
      msgpool, msgpoolLength, pool := node.next, msgpoolLength - 1, pool[1..];
    }

    method PutInPool(node: MsgList)
      requires Shape() && node !in Members(queue) + Members(pool)
      modifies this`msgpool, this`msgpoolLength, this`pool, node
      ensures Shape() && pool == [node] + old(pool) && node.msg == Message(0, 0)
      ensures msgpoolLength == old(msgpoolLength) + 1 && Members(pool) == old(Members(pool)) + {node}
      ensures Contents() == old(Contents())
    {
      hide Distinct;
      node.msg := Message(0, 0);
      node.next := msgpool;
      msgpool, msgpoolLength := node, msgpoolLength + 1;
      MembersOfCons(node, pool);
      ChainFrame(queue);
      MessagesFrame(queue);
      pool := [node] + pool;
    }

    /** `get_msglist`: a spare node, else a new one, else null when `malloc` fails. */
    method GetMsglist(canAllocate: bool) returns (node: MsgList?)
      requires Valid()
      modifies this`msgpool, this`msgpoolLength, this`pool, this`live
      ensures Shape() && Spare() && fresh(live - old(live))
      ensures node == null <==> old(msgpool) == null && !canAllocate
      ensures if old(msgpool) != null then node == old(msgpool) && pool == old(pool)[1..]
              else pool == [] && (node != null ==> fresh(node))
      ensures live == Members(queue) + Members(pool) + if node == null then {} else {node}
      ensures node != null ==> node !in Members(queue) + Members(pool)
    {
      hide Chain, Distinct;
      if msgpool != null {
        node := TakeFromPool();
      } else if canAllocate {
        node := new MsgList();
        live := live + {node};
      } else {
        node := null;
      }
    }

    /** `release_msglist`: back to the pool unless that is large enough, and shrink a pool that is far too large. */
    method ReleaseMsglist(node: MsgList)
      requires Shape() && Spare() && node !in Members(queue) + Members(pool)
      requires live == Members(queue) + Members(pool) + {node}
      requires length <= peak && msgpoolLength <= peak / 8 + MSGPOOL_SIZE + 1
      modifies this`msgpool, this`msgpoolLength, this`pool, this`live, node
      ensures Valid() && Contents() == old(Contents()) && live <= old(live)
      ensures msgpoolLength == Released(old(msgpoolLength), length)
      ensures var kept := if old(msgpoolLength) > length / 8 + MSGPOOL_SIZE then old(pool) else [node] + old(pool);
        pool == if |kept| > length / 4 + MSGPOOL_SIZE * 10 then kept[1..] else kept
    {
      hide Chain, Distinct, Members, Messages;
      if msgpoolLength > length / 8 + MSGPOOL_SIZE {
        Free(node);
      } else {
        PutInPool(node);
      }
      if msgpoolLength > length / 4 + MSGPOOL_SIZE * 10 {
        var tmp := TakeFromPool();
        Free(tmp);
      }
    }

    /** Fill in a node outside both lists. */
    method SetMessage(node: MsgList, m: Message)
      requires Shape() && Spare() && node !in Members(queue) + Members(pool)
      modifies node
      ensures Shape() && Spare() && node.msg == m && node.next == null && Contents() == old(Contents())
    {
      hide Distinct;
      node.msg := m;
      node.next := null;
      ChainFrame(queue);
      ChainFrame(pool);
      MessagesFrame(queue);
    }

    /** Link a node with its message set behind the last one. */
    method LinkLast(node: MsgList)
      requires Shape() && Spare() && node !in Members(queue) + Members(pool) && node.next == null
      modifies this`first, this`last, this`length, this`queue, last
      ensures Shape() && Spare() && length == old(length) + 1
      ensures Members(queue) == old(Members(queue)) + {node}
      ensures Contents() == old(Contents()) + [node.msg]
    {
      hide Distinct;
      MembersOfSnoc(queue, node);
      if last == null {
        first, last := node, node;
      } else {
        LastIsMember();
        last.next := node;
        last := node;
        ChainSnoc(queue, node);
        ChainFrame(pool);
      }
      MessagesFrame(queue);
      assert Messages(queue + [node]) == Messages(queue) + [node.msg];
      length, queue := length + 1, queue + [node];
    }

    /** The same, keeping the largest length up to date. */
    method Append(node: MsgList)
      requires Shape() && Spare() && node !in Members(queue) + Members(pool) && node.next == null
      modifies this`first, this`last, this`length, this`queue, this`peak, last
      ensures Shape() && Spare() && length == old(length) + 1 && peak == Max(old(peak), length)
      ensures Members(queue) == old(Members(queue)) + {node}
      ensures Contents() == old(Contents()) + [node.msg]
    {
      hide Chain, Distinct, Members, Messages;
      LinkLast(node);
      peak := Max(peak, length);
    }

    lemma LastIsMember()
      requires Shape() && last != null
      ensures last in Members(queue) && last !in Members(pool) && last !in pool
      ensures forall i :: 0 <= i < |queue| - 1 ==> queue[i] != last
    {
      assert last in queue;
      assert forall e :: e in pool ==> e in Members(pool);
    }

    /** `thread_queue_add`. */
    method Add(m: Message, canAllocate: bool) returns (s: Status)
      requires Valid()
      modifies this, live
      ensures Valid() && fresh(live - old(live))
      ensures s == NoMemory <==> old(msgpoolLength) == 0 && !canAllocate
      ensures s == NoMemory || s == Success
      ensures Contents() == old(Contents()) + if s == Success then [m] else []
      ensures msgpoolLength == if old(msgpoolLength) == 0 then 0 else old(msgpoolLength) - 1
      ensures peak == Max(old(peak), |Contents()|)
    {
      hide Chain, Distinct, Messages, Members;
      var node := GetMsglist(canAllocate);
      if node == null {
        return NoMemory;
      }
      SetMessage(node, m);
      if last != null {
        LastIsMember();
      }
      Append(node);
      s := Success;
    }

    /** Unlink the first node of the queue. */
    method TakeFirst() returns (node: MsgList)
      requires Shape() && queue != []
      modifies this`first, this`last, this`length, this`queue
      ensures Shape() && length == old(length) - 1
      ensures node == old(first) && old(Members(queue)) == Members(queue) + {node}
      ensures node !in Members(queue) + Members(pool)
      ensures old(Contents()) == [node.msg] + Contents()
    {
      hide Chain, Members, Distinct;
      ChainTail(queue);
      MembersOfTail(queue);
      node := first;
      first, length, queue := node.next, length - 1, queue[1..];
      if first == null {
        last, length := null, 0;
      }
    }

    lemma Lengths()
      requires Valid()
      ensures (first == null <==> Contents() == []) && |Contents()| == length <= peak
    {
    }

    /** `thread_queue_get` once it stops waiting, either because its wait timed out or because there is a message. */
    method Get(timedOut: bool) returns (s: Status, m: Message, left: int)
      requires Valid() && (first == null ==> timedOut)
      modifies this, live
      ensures Valid() && live <= old(live)
      ensures timedOut ==> s == TimedOut && unchanged(this) && Contents() == old(Contents())
      ensures !timedOut ==> s == Success && old(Contents()) == [m] + Contents() && left == |Contents()|
      ensures peak == old(peak)
      ensures msgpoolLength == if timedOut then old(msgpoolLength) else Released(old(msgpoolLength), |Contents()|)
    {
      hide Chain, Distinct, Members, Messages;
      m, left := Message(0, 0), 0;
      if timedOut {
        return TimedOut, m, left;
      }
      var node := TakeFirst();
      s, m, left := Success, node.msg, length;
      ReleaseMsglist(node);
    }

    /** Free the nodes of one list, front to back, and their data when asked. */
    method FreeList(rec: MsgList?, freeData: bool, ghost l: seq<MsgList>) returns (ghost freed: seq<int>)
      requires Chain(l) && rec == Head(l) && Distinct(l) && Members(l) <= live
      modifies this`live
      ensures live == old(live) - Members(l)
      ensures freed == if freeData then DataOf(Messages(l)) else []
    {
      hide Chain, Members, Distinct, Messages, DataOf;
      freed := [];
      var rec := rec;
      ghost var rest, others := l, live - Members(l);
      while rec != null
        invariant Chain(rest) && rec == Head(rest) && Distinct(rest)
        invariant live == others + Members(rest) && others !! Members(rest)
        invariant freeData ==> freed + DataOf(Messages(rest)) == DataOf(Messages(l))
        invariant !freeData ==> freed == []
        decreases |rest|
      {
        ChainTail(rest);
        MembersOfTail(rest);
        DataOfTail(rest);
        var next := rec.next;
        if freeData {
          freed := freed + [rec.msg.data];
          assert freed[..|freed| - 1] + ([rec.msg.data] + DataOf(Messages(rest[1..]))) == freed + DataOf(Messages(rest[1..]));
        }
        Free(rec);
        rec, rest := next, rest[1..];
      }
      EmptyList();
    }

    /** `thread_queue_cleanup`: every node is freed, which `Free` allows only once, and the data of queued messages. */
    method Cleanup(freeData: bool) returns (ghost freed: seq<int>)
      requires Valid()
      modifies this`live
      ensures live == {}
      ensures freed == if freeData then DataOf(Contents()) + seq(|pool|, _ => 0) else []
    {
      hide Chain, Distinct, Members;
      freed := FreeList(first, freeData, queue);
      ghost var spare := FreeList(msgpool, freeData, pool);
      freed := freed + spare;
    }
  }

  // ---- Whole runs

  /** One call on a queue that looks like `v`, if it can proceed. */
  method Perform(q: WaitQueue, op: Op, ghost v: View) returns (s: Status, m: Message)
    requires q.Valid() && q.Contents() == v.queue && q.msgpoolLength == v.pool
    modifies q, q.live
    ensures q.Valid() && fresh(q.live - old(q.live))
    ensures q.Contents() == Apply(v, op).queue && q.msgpoolLength == Apply(v, op).pool
    ensures q.peak == Max(old(q.peak), |q.Contents()|)
    ensures Apply(v, op).added == v.added + if op.AddOp? && s == Success then [op.m] else []
    ensures Apply(v, op).got == v.got + if op.GetOp? && s == Success then [m] else []
  {
    hide Released;
    q.Lengths();
    s, m := TimedOut, Message(0, 0);
    match op
    case AddOp(m, canAllocate) => s := q.Add(m, canAllocate);
    case GetOp(timedOut) =>
      if timedOut || q.first != null {
        var left;
        s, m, left := q.Get(timedOut);
      }
  }

  /**
   * Any run of calls, each made when it can proceed: the heap holds what the calls say, the largest length is theirs, and
   * so the pool is within an eighth of it plus 65.
   */
  method RunQueue(ops: seq<Op>) returns (q: WaitQueue, added: seq<Message>, got: seq<Message>)
    ensures fresh(q) && q.Valid() && q.Contents() == Replay(ops).queue
    ensures added == Replay(ops).added == got + q.Contents() && got == Replay(ops).got
    ensures q.msgpoolLength == Replay(ops).pool <= Peak(ops) / 8 + 65 && q.peak == Peak(ops)
  {
    hide *;
    q := new WaitQueue();
    added, got := [], [];
    NothingReplayed(ops);
    for i := 0 to |ops|
      invariant fresh(q) && fresh(q.live) && q.Valid() && q.Contents() == Replay(ops[..i]).queue
      invariant added == Replay(ops[..i]).added && got == Replay(ops[..i]).got
      invariant q.msgpoolLength == Replay(ops[..i]).pool && q.peak == Peak(ops[..i])
    {
      assert ops[..i + 1] == ops[..i] + [ops[i]];
      ReplaySnoc(ops[..i], ops[i]);
      var s, m := Perform(q, ops[i], Replay(ops[..i]));
      if s == Success {
        added := added + if ops[i].AddOp? then [ops[i].m] else [];
        got := got + if ops[i].GetOp? then [m] else [];
      }
    }
    assert ops[..|ops|] == ops;
    PoolBound(ops);
    AddedIsGotAndQueued(ops);
  }

  lemma NothingReplayed(ops: seq<Op>)
    ensures Replay(ops[..0]) == View([], 0, [], []) && Peak(ops[..0]) == 0
  {
  }
}
