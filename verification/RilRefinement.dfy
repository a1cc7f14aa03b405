/** The pending lists in the heap (`RilPendingList`) and the requests of `RilRequests` joined: any run, performed on the lists. */
module RilRefinement {
  import opened Lists
  import opened RilPendingList
  import opened RilRequests

  lemma OnlyFewer(l: seq<RequestInfo>, r: RequestInfo, m: seq<RequestInfo>)
    requires Distinct(l) && m == Without<RequestInfo>(l, r)
    ensures forall q :: q in m ==> q in l
  {
    WithoutIs<RequestInfo>(l, r);
  }

  /** The pending lists of all sockets, which share no request. */
  class PendingLists {
    const lists: seq<PendingList>
    ghost var known: set<RequestInfo>

    /** List `h` is well-formed and holds known requests only. */
    ghost predicate Fine(h: nat)
      requires h < |lists|
      reads this, lists, known
    {
      (forall r :: r in lists[h].requests ==> r in known) && lists[h].Valid()
    }

    ghost predicate Apart(h: nat, h': nat)
      requires h < |lists| && h' < |lists|
      reads lists
    {
      lists[h] != lists[h'] && forall r :: r in lists[h].requests ==> r !in lists[h'].requests
    }

    ghost predicate Valid()
      reads this, lists, known
    {
      && |lists| == SOCKETS
      && (forall h :: 0 <= h < SOCKETS ==> Fine(h))
      && forall h, h' :: 0 <= h < SOCKETS && 0 <= h' < SOCKETS && h != h' ==> Apart(h, h')
    }

    constructor ()
      ensures Valid() && fresh(this) && fresh(lists) && known == {}
      ensures forall h :: 0 <= h < SOCKETS ==> lists[h].requests == []
    {
      hide PendingList.Valid;
      var a := new PendingList();
      var b := new PendingList();
      var c := new PendingList();
      var d := new PendingList();
      lists, known := [a, b, c, d], {};
      new;
      assert lists[0] == a && lists[1] == b && lists[2] == c && lists[3] == d;
      assert forall h :: 0 <= h < SOCKETS ==> lists[h].requests == [] && lists[h].Valid();
      assert forall h, h' :: 0 <= h < SOCKETS && 0 <= h' < SOCKETS && h != h' ==> lists[h] != lists[h'];
    }

    method Insert(h: nat, r: RequestInfo)
      requires Valid() && h < SOCKETS && r !in known
      modifies this`known, lists[h], r`next
      ensures Valid() && known == old(known) + {r}
      ensures forall h' :: 0 <= h' < SOCKETS ==>
        lists[h'].requests == if h' == h then [r] + old(lists[h].requests) else old(lists[h'].requests)
    {
      hide PendingList.Valid;
      assert Fine(h);
      forall h' | 0 <= h' < SOCKETS && h' != h ensures Apart(h, h') && Apart(h', h) && Fine(h') && r !in lists[h'].requests {
      }
      lists[h].Insert(r);
      known := known + {r};
      forall h' | 0 <= h' < SOCKETS && h' != h ensures Apart(h, h') && Apart(h', h) && Fine(h') {
        assert old(Apart(h, h')) && old(Apart(h', h)) && old(Fine(h'));
      }
      forall i, j | 0 <= i < SOCKETS && 0 <= j < SOCKETS && i != j && i != h && j != h ensures Apart(i, j) {
        assert old(Apart(i, j));
      }
    }

    method Dequeue(h: nat, r: RequestInfo?) returns (found: bool)
      requires Valid() && h < SOCKETS
      modifies lists[h], lists[h].requests`next
      ensures Valid() && found == (r in old(lists[h].requests))
      ensures lists[h].requests == if r == null then old(lists[h].requests) else Without<RequestInfo>(old(lists[h].requests), r)
      ensures forall h' :: 0 <= h' < SOCKETS && h' != h ==> lists[h'].requests == old(lists[h'].requests)
    {
      assert Fine(h);
      OthersApart(h);
      DistinctWhenFine(h);
      found := lists[h].Dequeue(r);
      if r != null {
        OnlyFewer(old(lists[h].requests), r, lists[h].requests);
      }
      forall h' | 0 <= h' < SOCKETS && h' != h ensures Apart(h, h') && Apart(h', h) && Fine(h') {
        assert old(Apart(h, h')) && old(Apart(h', h)) && old(Fine(h'));
        assert forall q :: q in lists[h'].requests ==> q.next == old(q.next);
        assert forall i :: 0 <= i < |lists[h'].requests| ==> lists[h'].requests[i] in lists[h'].requests;
      }
      forall i, j | 0 <= i < SOCKETS && 0 <= j < SOCKETS && i != j && i != h && j != h ensures Apart(i, j) {
        assert old(Apart(i, j));
      }
    }

    lemma OthersApart(h: nat)
      requires Valid() && h < SOCKETS
      ensures forall h' :: 0 <= h' < SOCKETS && h' != h ==>
        lists[h'] != lists[h] && Fine(h') && forall r :: r in lists[h'].requests ==> r !in lists[h].requests
    {
      hide PendingList.Valid;
      forall h' | 0 <= h' < SOCKETS && h' != h
        ensures lists[h'] != lists[h] && Fine(h') && forall r :: r in lists[h'].requests ==> r !in lists[h].requests
      {
        assert Apart(h', h);
      }
    }

    lemma AreKnown()
      requires Valid()
      ensures forall h, r :: 0 <= h < SOCKETS && r in lists[h].requests ==> r in known
    {
      hide PendingList.Valid;
      forall h, r | 0 <= h < SOCKETS && r in lists[h].requests ensures r in known {
        assert Fine(h);
      }
    }

    lemma DistinctWhenFine(h: nat)
      requires h < |lists| && Fine(h)
      ensures Distinct(lists[h].requests)
    {
    }

    method CancelAll(h: nat)
      requires Valid() && h < SOCKETS
      modifies lists[h].requests`cancelled
      ensures Valid() && forall r :: r in lists[h].requests ==> r.cancelled
    {
      assert Fine(h);
      OthersApart(h);
      lists[h].CancelAll();
      forall h' | 0 <= h' < SOCKETS && h' != h ensures Apart(h, h') && Apart(h', h) && Fine(h') {
        assert old(Apart(h, h')) && old(Apart(h', h)) && old(Fine(h'));
      }
      forall i, j | 0 <= i < SOCKETS && 0 <= j < SOCKETS && i != j ensures Apart(i, j) {
        assert old(Apart(i, j));
      }
    }
  }

  // ---- Names and requests

  ghost predicate Injective(m: map<nat, RequestInfo>) {
    forall i, j :: i in m && j in m && m[i] == m[j] ==> i == j
  }

  /** A list of requests and the list of their names. */
  ghost predicate Listed(m: map<nat, RequestInfo>, l: seq<RequestInfo>, ids: seq<nat>) {
    |l| == |ids| && forall k :: 0 <= k < |l| ==> ids[k] in m && l[k] == m[ids[k]]
  }

  lemma ListedMember(m: map<nat, RequestInfo>, l: seq<RequestInfo>, ids: seq<nat>, id: nat)
    requires Injective(m) && Listed(m, l, ids) && id in m
    ensures m[id] in l <==> id in ids
  {
    if id in ids {
      var k :| 0 <= k < |ids| && ids[k] == id;
      assert l[k] == m[id];
    }
  }

  lemma ListedMore(m: map<nat, RequestInfo>, l: seq<RequestInfo>, ids: seq<nat>, id: nat, info: RequestInfo)
    requires Listed(m, l, ids) && id !in m
    ensures Listed(m[id := info], l, ids) && Listed(m[id := info], [info] + l, [id] + ids)
  {
  }

  /** Taking a request out of its list is taking its name out of the names. */
  lemma {:induction false} ListedWithout(m: map<nat, RequestInfo>, l: seq<RequestInfo>, ids: seq<nat>, id: nat)
    requires Injective(m) && Listed(m, l, ids) && id in m
    ensures Listed(m, Without<RequestInfo>(l, m[id]), Without(ids, id))
  {
    if ids != [] {
      ListedWithout(m, l[1..], ids[1..], id);
      if ids[0] == id {
        assert l[0] == m[id];
      } else {
        assert Without(ids, id) == [ids[0]] + Without(ids[1..], id);
        assert Without<RequestInfo>(l, m[id]) == [l[0]] + Without<RequestInfo>(l[1..], m[id]);
      }
    }
  }

  /** The requests allocated are those of the state; one refused as unsupported has no allocation. */
  ghost predicate Allocated(m: map<nat, RequestInfo>, requests: seq<Request>) {
    && Injective(m)
    && forall id :: id in m ==>
         && id < |requests|
         && m[id].token == requests[id].token && m[id].socket == requests[id].socket && m[id].local == requests[id].local
  }

  lemma AllocatedMore(m: map<nat, RequestInfo>, requests: seq<Request>, r: Request, info: RequestInfo)
    requires Allocated(m, requests) && info !in m.Values
    requires info.token == r.token && info.socket == r.socket && info.local == r.local
    ensures |requests| !in m && Allocated(m, requests + [r]) && Allocated(m[|requests| := info], requests + [r])
  {
  }

  lemma AllocatedOne(m: map<nat, RequestInfo>, requests: seq<Request>, id: nat)
    requires Allocated(m, requests) && id in m
    ensures Injective(m) && id < |requests| && m[id].socket == requests[id].socket
  {
  }

  /** libril's state: the lists, the requests by name, completions between their two sections, and the replies. */
  class Ril {
    const pending: PendingLists
    var infos: map<nat, RequestInfo>
    var count: nat
    var inHand: set<nat>
    var replies: seq<Reply>

    /** Exactly the requests cancelled in the state are marked. */
    ghost predicate Marked(cancelled: set<nat>)
      reads this, pending, pending.known
    {
      forall id :: id in infos ==> infos[id] in pending.known && (infos[id].cancelled <==> id in cancelled)
    }

    ghost predicate ListsAre(names: seq<seq<nat>>)
      reads this, pending, pending.lists
    {
      |pending.lists| == |names| == SOCKETS && forall h :: 0 <= h < SOCKETS ==> Listed(infos, pending.lists[h].requests, names[h])
    }

    /** The heap holds a state of the protocol. */
    ghost predicate Holds(s: State)
      reads this, pending, pending.lists, pending.known
    {
      && pending.Valid() && Allocated(infos, s.requests) && Marked(s.cancelled) && ListsAre(s.lists)
      && count == |s.requests| && inHand == s.taken && replies == s.replies && forall id :: id in inHand ==> id in infos
    }

    lemma RepliesOf(s: State)
      requires Holds(s)
      ensures replies == s.replies
    {
    }

    constructor ()
      ensures Holds(START) && infos == map[] && fresh(pending) && fresh(pending.lists) && pending.known == {}
    {
      pending := new PendingLists();
      infos, count, inHand, replies := map[], 0, {}, [];
    }

    /** A request is allocated and put in a list. */
    method Put(ghost s: State, r: Request, h: nat)
      requires Holds(s) && h < SOCKETS && |s.requests| !in s.cancelled
      modifies this`infos, this`count, pending`known, pending.lists
      ensures Holds(s.(requests := s.requests + [r], lists := s.lists[h := [|s.requests|] + s.lists[h]]))
      ensures fresh(pending.known - old(pending.known))
    {
      hide PendingLists.Valid, Listed, Allocated;
      var info := new RequestInfo(r.token, r.socket, r.local);
      AllocatedMore(infos, s.requests, r, info);
      forall h' | 0 <= h' < SOCKETS
        ensures Listed(infos[count := info], pending.lists[h'].requests, s.lists[h'])
        ensures Listed(infos[count := info], [info] + pending.lists[h'].requests, [count] + s.lists[h'])
      {
        ListedMore(infos, pending.lists[h'].requests, s.lists[h'], count, info);
      }
      pending.Insert(h, info);
      infos := infos[count := info];
      count := count + 1;
    }

    /** An unsupported command is answered at once and nothing is allocated. */
    method Refuse(ghost s: State, token: int, socket: nat)
      requires Holds(s)
      modifies this`count, this`replies
      ensures var reply := Reply(|s.requests|, token, socket);
        Holds(s.(requests := s.requests + [Request(token, socket, false)], replies := s.replies + [reply]))
    {
      hide PendingLists.Valid, Listed;
      replies := replies + [Reply(count, token, socket)];
      count := count + 1;
    }

    /** The first section of a completion: the request is looked for in the list of its socket. */
    method Take(n: nat, ghost s: State, id: nat)
      requires Holds(s)
      modifies this`inHand, pending.lists, pending.known`next
      ensures Holds(Step(n, s, Dequeue(id)))
    {
      hide PendingLists.Valid, Listed, ListOf, Allocated, Injective;
      pending.AreKnown();
      if id !in infos {
        NotListed(s, id);
        return;
      }
      var info := infos[id];
      AllocatedOne(infos, s.requests, id);
      var h := ListOf(n, info.socket);
      ListedMember(infos, pending.lists[h].requests, s.lists[h], id);
      ListedWithout(infos, pending.lists[h].requests, s.lists[h], id);
      var found := pending.Dequeue(h, info);
      if found {
        inHand := inHand + {id};
      } else {
        WithoutAbsent(s.lists[h], id);
      }
    }

    lemma NotListed(s: State, id: nat)
      requires Holds(s) && id !in infos
      ensures forall h :: 0 <= h < SOCKETS ==> id !in s.lists[h]
    {
      hide PendingLists.Valid;
      forall h | 0 <= h < SOCKETS ensures id !in s.lists[h] {
        assert Listed(infos, pending.lists[h].requests, s.lists[h]);
      }
    }

    /** The second section: the reply, unless the request is local or marked. */
    method Finish(n: nat, ghost s: State, id: nat)
      requires Holds(s)
      modifies this`inHand, this`replies
      ensures Holds(Step(n, s, Answer(id)))
    {
      hide PendingLists.Valid, Listed;
      if id !in inHand {
        return;
      }
      var info := infos[id];
      inHand := inHand - {id};
      if !info.local && !info.cancelled {
        replies := replies + [Reply(id, info.token, info.socket)];
      }
    }

    /** `onCommandsSocketClosed`. */
    method CloseSocket(n: nat, ghost s: State, socket: nat)
      requires Holds(s)
      modifies pending.known`cancelled
      ensures Holds(Step(n, s, Close(socket)))
    {
      hide PendingLists.Valid, Listed, ListOf;
      pending.AreKnown();
      var h := ListOf(n, socket);
      forall id | id in infos ensures infos[id] in pending.lists[h].requests <==> id in s.lists[h] {
        ListedMember(infos, pending.lists[h].requests, s.lists[h], id);
      }
      pending.CancelAll(h);
    }

    /** One lock-protected step, on the heap. */
    method Perform(n: nat, ghost s: State, a: Action)
      requires Holds(s) && Invariant(n, s)
      modifies this, pending`known, pending.lists, pending.known
      ensures Holds(Step(n, s, a)) && fresh(pending.known - old(pending.known))
    {
      hide PendingLists.Valid, Listed, Allocated, ListOf, LocalListOf, Without, Answered, Home, Pending;
      match a
      case Receive(token, socket, supported) =>
        if supported {
          Put(s, Request(token, socket, false), ListOf(n, socket));
        } else {
          Refuse(s, token, socket);
        }
      case IssueLocal(socket) => Put(s, Request(0xffffffff, socket, true), LocalListOf(n, socket));
      case Dequeue(id) => Take(n, s, id);
      case Answer(id) => Finish(n, s, id);
      case Close(socket) => CloseSocket(n, s, socket);
    }
  }

  /**
   * Whatever threads do, the linked lists hold after it the requests that the protocol says are pending, in order, the marks
   * are on those it says are cancelled, and the replies sent are its replies.
   */
  method HeapOfRun(n: nat, actions: seq<Action>) returns (r: Ril)
    ensures fresh(r) && r.Holds(Run(n, START, actions)) && r.replies == Run(n, START, actions).replies
  {
    hide Step, Invariant, PendingLists.Valid, Ril.Holds;
    r := new Ril();
    Reachable(n, []);
    for i := 0 to |actions|
      invariant fresh(r) && fresh(r.pending) && fresh(r.pending.lists) && fresh(r.pending.known)
      invariant r.Holds(Run(n, START, actions[..i])) && Invariant(n, Run(n, START, actions[..i]))
    {
      assert actions[..i + 1][..i] == actions[..i];
      r.Perform(n, Run(n, START, actions[..i]), actions[i]);
      Reachable(n, actions[..i + 1]);
    }
    assert actions[..|actions|] == actions;
    r.RepliesOf(Run(n, START, actions));
  }
}
