/** One socket's list of pending requests (libril/ril.cpp): singly linked through the requests, changed in place. */
module RilPendingList {
  import opened Lists

  class RequestInfo {
    const token: int
    const socket: int
    const local: bool
    var cancelled: bool
    var next: RequestInfo?

    constructor (token: int, socket: int, local: bool)
      ensures this.token == token && this.socket == socket && this.local == local && !cancelled
    {
      this.token, this.socket, this.local, cancelled, next := token, socket, local, false, null;
    }
  }

  /** Each request of `l` points to the one after it, the last to none. */
  ghost predicate Chain(l: seq<RequestInfo>)
    reads l
  {
    && (l != [] ==> l[|l| - 1].next == null)
    && forall i :: 0 <= i < |l| - 1 ==> l[i].next == l[i + 1]
  }

  ghost function From(l: seq<RequestInfo>, k: nat): RequestInfo? {
    if k < |l| then l[k] else null
  }

  class PendingList {
    var head: RequestInfo?
    ghost var requests: seq<RequestInfo>

    ghost predicate Valid()
      reads this, requests
    {
      Chain(requests) && Distinct(requests) && head == From(requests, 0)
    }

    constructor ()
      ensures Valid() && requests == []
    {
      head, requests := null, [];
    }

    /** The insertion in `processCommandBuffer` and `issueLocalRequest`. */
    method Insert(r: RequestInfo)
      requires Valid() && r !in requests
      modifies this, r`next
      ensures Valid() && requests == [r] + old(requests)
    {
      r.next := head;
      head := r;
      requests := [r] + requests;
    }

    /** `onCommandsSocketClosed`. */
    method CancelAll()
      requires Valid()
      modifies requests`cancelled
      ensures Valid() && forall r :: r in requests ==> r.cancelled
    {
      var cur := head;
      ghost var k := 0;
      while cur != null
        invariant Valid() && k <= |requests| && cur == From(requests, k)
        invariant forall i :: 0 <= i < k ==> requests[i].cancelled
        decreases |requests| - k
      {
        cur.cancelled := true;
        cur := cur.next;
        k := k + 1;
      }
    }

    /** `*ppCur = (*ppCur)->p_next`; `prev` owns the link `*ppCur`, the list itself when it is null. */
    method Unlink(prev: RequestInfo?, cur: RequestInfo, ghost k: nat)
      requires Valid() && k < |requests| && cur == requests[k]
      requires prev == if k == 0 then null else requests[k - 1]
      modifies this, requests`next
      ensures Valid() && requests == old(requests)[..k] + old(requests)[k + 1..]
    {
      if prev == null {
        head := cur.next;
      } else {
        prev.next := cur.next;
      }
      requests := requests[..k] + requests[k + 1..];
    }

    /** `checkAndDequeueRequestInfo`. */
    method Dequeue(r: RequestInfo?) returns (found: bool)
      requires Valid()
      modifies this, requests`next
      ensures Valid() && found == (r in old(requests))
      ensures !found ==> head == old(head) && requests == old(requests) && forall q :: q in old(requests) ==> q.next == old(q.next)
      ensures requests == if r == null then old(requests) else Without<RequestInfo>(old(requests), r)
    {
      found := false;
      if r == null {
        return;
      }
      var prev: RequestInfo?, cur := null, head;
      ghost var k := 0;
      while cur != null && cur != r
        invariant Valid() && k <= |requests| && cur == From(requests, k)
        invariant prev == if k == 0 then null else requests[k - 1]
        invariant r !in requests[..k]
        decreases |requests| - k
      {
        prev, cur, k := cur, cur.next, k + 1;
      }
      if cur == null {
        assert requests[..k] == requests;
        WithoutAbsent<RequestInfo>(requests, r);
      } else {
        WithoutAt<RequestInfo>(requests, k);
        Unlink(prev, cur, k);
        found := true;
      }
    }
  }
}
