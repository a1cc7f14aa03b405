/** The event loop of `libril/ril_event.cpp`: two intrusive rings, a table of watched events, an fd set and its bound. */
module RilEventLoop {
  import opened Lists
  import opened RilTime

  const MAX_FD_EVENTS := 8

  class RilEvent {
    var next: RilEvent?
    var prev: RilEvent?
    var fd: int
    var index: int
    var persist: bool
    var timeout: TimeVal

    /** `ril_event_set` on a fresh event. */
    constructor (fd: int, persist: bool)
      ensures this.next == null && this.prev == null
      ensures this.fd == fd && this.index == -1 && this.persist == persist
    {
      this.next, this.prev, this.fd, this.index := null, null, fd, -1;
      this.persist, this.timeout := persist, TimeVal(0, 0);
    }
  }

  // ---- Rings

  ghost predicate Linked(a: RilEvent, b: RilEvent)
    reads a, b
  {
    a.next == b && b.prev == a
  }

  /** `head` and the events of `l`, in this order, form a circular doubly linked list. */
  ghost predicate Ring(head: RilEvent, l: seq<RilEvent>)
    reads head, l
  {
    && head !in l && Distinct(l)
    && Linked(if l == [] then head else l[|l| - 1], head)
    && Linked(head, if l == [] then head else l[0])
    && forall i :: 0 <= i < |l| - 1 ==> Linked(l[i], l[i + 1])
  }

  ghost function Node(head: RilEvent, l: seq<RilEvent>, k: nat): RilEvent
    requires k <= |l|
  {
    if k == |l| then head else l[k]
  }

  lemma EmptyRing(head: RilEvent)
    requires Linked(head, head)
    ensures Ring(head, [])
  {
  }

  lemma RingIsDistinct(head: RilEvent, l: seq<RilEvent>)
    requires Ring(head, l)
    ensures Distinct(l)
  {
  }

  lemma RingEventsAreLinked(head: RilEvent, l: seq<RilEvent>, e: RilEvent)
    requires Ring(head, l) && e in l
    ensures e.next != null
  {
    var i :| 0 <= i < |l| && l[i] == e;
    assert i == |l| - 1 || Linked(l[i], l[i + 1]);
  }

  lemma HeadAndTail(head: RilEvent, l: seq<RilEvent>)
    requires Ring(head, l) && l != []
    ensures head !in l && l[0] !in l[1..] && forall e :: e in l <==> e == l[0] || e in l[1..]
  {
    assert l == [l[0]] + l[1..];
  }

  lemma FirstNode(head: RilEvent, l: seq<RilEvent>)
    requires Ring(head, l)
    ensures head.next == Node(head, l, 0)
  {
  }

  lemma NextOfFirst(head: RilEvent, l: seq<RilEvent>)
    requires Ring(head, l) && l != []
    ensures l[0].next == Node(head, l[1..], 0)
  {
    assert |l| == 1 || Linked(l[0], l[1]);
  }

  lemma InsertMembers(l: seq<RilEvent>, k: nat, ev: RilEvent)
    requires k <= |l|
    ensures forall e :: e in l[..k] + [ev] + l[k..] <==> e == ev || e in l
  {
    assert l == l[..k] + l[k..];
  }

  /** A ring, given head first, none of whose links changed is still a ring. */
  twostate lemma RingFrame(nodes: seq<RilEvent>)
    requires nodes != [] && old(Ring(nodes[0], nodes[1..]))
    requires forall e :: e in nodes ==> e.next == old(e.next) && e.prev == old(e.prev)
    ensures Ring(nodes[0], nodes[1..])
  {
    var head, l := nodes[0], nodes[1..];
    assert forall i :: 0 <= i < |l| ==> l[i] == nodes[i + 1];
    forall i | 0 <= i < |l| - 1 ensures Linked(l[i], l[i + 1]) {
      assert l[i] in nodes && l[i + 1] in nodes && old(Linked(l[i], l[i + 1]));
    }
    assert head in nodes && (l != [] ==> l[0] in nodes && l[|l| - 1] in nodes);
  }

  /** Rings that share no node. */
  ghost predicate Apart(head: RilEvent, l: seq<RilEvent>, head': RilEvent, l': seq<RilEvent>) {
    && head != head' && head !in l' && head' !in l
    && forall e :: e in l ==> e !in l'
  }

  lemma ApartTail(head: RilEvent, l: seq<RilEvent>, head': RilEvent, l': seq<RilEvent>)
    requires Apart(head, l, head', l') && l' != []
    ensures Apart(head, l, head', l'[1..])
  {
  }

  lemma ApartSwap(head: RilEvent, l: seq<RilEvent>, head': RilEvent, l': seq<RilEvent>)
    requires Apart(head, l, head', l')
    ensures Apart(head', l', head, l)
  {
  }

  lemma ApartInsert(head: RilEvent, l: seq<RilEvent>, head': RilEvent, l': seq<RilEvent>, k: nat, ev: RilEvent)
    requires Apart(head, l, head', l') && k <= |l| && ev != head' && ev !in l'
    ensures Apart(head, l[..k] + [ev] + l[k..], head', l')
  {
    InsertMembers(l, k, ev);
  }

  ghost function Before(head: RilEvent, l: seq<RilEvent>, k: nat): RilEvent
    requires k <= |l|
  {
    if k == 0 then head else l[k - 1]
  }

  lemma RingLink(head: RilEvent, l: seq<RilEvent>, k: nat)
    requires Ring(head, l) && k <= |l|
    ensures Linked(Before(head, l, k), Node(head, l, k))
  {
  }

  lemma RingInserted(head: RilEvent, l: seq<RilEvent>, k: nat, ev: RilEvent)
    requires k <= |l| && head !in l && Distinct(l) && ev != head && ev !in l
    requires forall i :: 0 <= i <= |l| && i != k ==> Linked(Before(head, l, i), Node(head, l, i))
    requires Linked(Before(head, l, k), ev) && Linked(ev, Node(head, l, k))
    ensures Ring(head, l[..k] + [ev] + l[k..])
  {
    hide Linked;
    var m := l[..k] + [ev] + l[k..];
    forall i | 0 <= i <= |m| ensures Linked(Before(head, m, i), Node(head, m, i)) {
      if i > k + 1 {
        assert Linked(Before(head, l, i - 1), Node(head, l, i - 1));
      } else if i < k {
        assert Linked(Before(head, l, i), Node(head, l, i));
      }
    }
    assert Linked(Before(head, m, 0), Node(head, m, 0)) && Linked(Before(head, m, |m|), Node(head, m, |m|));
    forall i | 0 <= i < |m| - 1 ensures Linked(m[i], m[i + 1]) {
      assert Linked(Before(head, m, i + 1), Node(head, m, i + 1));
    }
  }

  lemma RingRemoved(head: RilEvent, l: seq<RilEvent>, k: nat)
    requires k < |l| && head !in l && Distinct(l)
    requires forall i :: 0 <= i <= |l| && i != k && i != k + 1 ==> Linked(Before(head, l, i), Node(head, l, i))
    requires Linked(Before(head, l, k), Node(head, l, k + 1))
    ensures Ring(head, l[..k] + l[k + 1..])
  {
    hide Linked;
    var m := l[..k] + l[k + 1..];
    forall i | 0 <= i <= |m| ensures Linked(Before(head, m, i), Node(head, m, i)) {
      if i > k {
        assert Linked(Before(head, l, i + 1), Node(head, l, i + 1));
      } else if i < k {
        assert Linked(Before(head, l, i), Node(head, l, i));
      }
    }
    assert Linked(Before(head, m, 0), Node(head, m, 0)) && Linked(Before(head, m, |m|), Node(head, m, |m|));
    forall i | 0 <= i < |m| - 1 ensures Linked(m[i], m[i + 1]) {
      assert Linked(Before(head, m, i + 1), Node(head, m, i + 1));
    }
  }

  /** Insert `ev` before the node `list`, the `k`-th of its ring; a ring apart from it is not touched. */
  method AddToList(ev: RilEvent, list: RilEvent, ghost head: RilEvent, ghost l: seq<RilEvent>, ghost k: nat,
                   ghost head': RilEvent, ghost l': seq<RilEvent>)
    requires Ring(head, l) && k <= |l| && list == Node(head, l, k)
    requires ev != head && ev !in l
    requires Ring(head', l') && Apart(head, l, head', l') && ev != head' && ev !in l'
    modifies {ev, head}`next, {ev, head}`prev, l`next, l`prev
    ensures Ring(head, l[..k] + [ev] + l[k..])
    ensures Ring(head', l')
  {
    ghost var other := [head'] + l';
    assert other[1..] == l';
    forall i | 0 <= i <= |l| ensures Linked(Before(head, l, i), Node(head, l, i)) {
      RingLink(head, l, i);
    }
    ev.next := list;
    ev.prev := list.prev;
    ev.prev.next := ev;
    list.prev := ev;
    RingFrame(other);
    forall i | 0 <= i <= |l| && i != k ensures Linked(Before(head, l, i), Node(head, l, i)) {
      assert old(Linked(Before(head, l, i), Node(head, l, i)));
    }
    RingInserted(head, l, k, ev);
  }

  /** Take `ev`, the `k`-th node, out of its ring; a ring apart from it is not touched. */
  method RemoveFromList(ev: RilEvent, ghost head: RilEvent, ghost l: seq<RilEvent>, ghost k: nat,
                        ghost head': RilEvent, ghost l': seq<RilEvent>)
    requires Ring(head, l) && k < |l| && ev == l[k]
    requires Ring(head', l') && Apart(head, l, head', l')
    modifies head`next, head`prev, l`next, l`prev
    ensures Ring(head, l[..k] + l[k + 1..])
    ensures Ring(head', l')
    ensures ev.next == null && ev.prev == null
  {
    ghost var other := [head'] + l';
    assert other[1..] == l';
    forall i | 0 <= i <= |l| ensures Linked(Before(head, l, i), Node(head, l, i)) {
      RingLink(head, l, i);
    }
    assert Linked(Before(head, l, k), ev) && Linked(ev, Node(head, l, k + 1));
    ev.next.prev := ev.prev;
    ev.prev.next := ev.next;
    ev.next := null;
    ev.prev := null;
    RingFrame(other);
    forall i | 0 <= i <= |l| && i != k && i != k + 1 ensures Linked(Before(head, l, i), Node(head, l, i)) {
      assert old(Linked(Before(head, l, i), Node(head, l, i)));
    }
    RingRemoved(head, l, k);
  }

  /** Take the first node of one ring out and append it to another. */
  method MoveFirst(ev: RilEvent, head': RilEvent, ghost head: RilEvent, ghost l: seq<RilEvent>, ghost l': seq<RilEvent>)
    requires Ring(head, l) && Ring(head', l') && Apart(head, l, head', l') && l != [] && ev == l[0]
    modifies {head, head'}`next, {head, head'}`prev, l`next, l`prev, l'`next, l'`prev
    ensures Ring(head, l[1..]) && Ring(head', l' + [ev]) && Apart(head, l[1..], head', l' + [ev])
  {
    hide Ring, Linked;
    assert l[..0] + l[1..] == l[1..] && l'[..|l'|] + [ev] + l'[|l'|..] == l' + [ev];
    HeadAndTail(head, l);
    RemoveFromList(ev, head, l, 0, head', l');
    AddToList(ev, head', head', l', |l'|, head, l[1..]);
  }

  // ---- Watched descriptors

  datatype Slot = Free | Fd(fd: int)

  /** Watched descriptors are non-negative and all different. */
  predicate DistinctFds(slots: seq<Slot>) {
    && (forall i :: 0 <= i < |slots| && slots[i].Fd? ==> slots[i].fd >= 0)
    && (forall i, j :: 0 <= i < j < |slots| && slots[i].Fd? ==> slots[i] != slots[j])
  }

  function FdSet(slots: seq<Slot>): set<int> {
    set i | 0 <= i < |slots| && slots[i].Fd? :: slots[i].fd
  }

  /** `nfds` is one above the largest descriptor; 0 or 1 when there is none. */
  predicate Bound(fds: set<int>, nfds: int) {
    && (forall fd :: fd in fds ==> 0 <= fd < nfds)
    && (if fds == {} then nfds == 0 || nfds == 1 else nfds - 1 in fds)
  }

  lemma FillSlot(slots: seq<Slot>, i: nat, fd: int, nfds: int)
    requires i < |slots| && slots[i] == Free && fd >= 0 && fd !in FdSet(slots)
    requires DistinctFds(slots) && Bound(FdSet(slots), nfds)
    ensures DistinctFds(slots[i := Fd(fd)]) && FdSet(slots[i := Fd(fd)]) == FdSet(slots) + {fd}
    ensures Bound(FdSet(slots) + {fd}, if fd >= nfds then fd + 1 else nfds)
  {
    var filled := slots[i := Fd(fd)];
    assert filled[i] == Fd(fd) && forall j :: 0 <= j < |slots| && j != i ==> filled[j] == slots[j];
    assert forall j :: 0 <= j < |slots| && slots[j].Fd? ==> slots[j].fd in FdSet(slots);
  }

  lemma ClearSlot(slots: seq<Slot>, i: nat)
    requires i < |slots| && slots[i].Fd? && DistinctFds(slots)
    ensures DistinctFds(slots[i := Free]) && FdSet(slots[i := Free]) == FdSet(slots) - {slots[i].fd}
  {
    var cleared := slots[i := Free];
    assert forall j :: 0 <= j < |slots| && j != i ==> cleared[j] == slots[j];
    assert forall j :: 0 <= j < |slots| && j != i && slots[j].Fd? ==> slots[j].fd != slots[i].fd;
  }

  /** The events of a table whose descriptors are in `rfds`, in slot order. */
  function Ready(table: seq<RilEvent?>, slots: seq<Slot>, rfds: set<int>): seq<RilEvent>
    requires |table| == |slots|
  {
    if table == [] then []
    else
      var i := |table| - 1;
      Ready(table[..i], slots[..i], rfds)
      + if table[i] != null && slots[i].Fd? && slots[i].fd in rfds then [table[i]] else []
  }

  /** A watched event that is not ready, or is ready but persists. */
  predicate StaysWatched(ev: RilEvent?, rfds: set<int>)
    reads ev
  {
    ev != null && (ev.fd in rfds ==> ev.persist)
  }

  lemma NothingReady(table: seq<RilEvent?>, slots: seq<Slot>, rfds: set<int>)
    requires |table| == |slots|
    ensures Ready(table[..0], slots[..0], rfds) == []
  {
  }

  lemma ReadyNext(table: seq<RilEvent?>, slots: seq<Slot>, rfds: set<int>, i: nat)
    requires |table| == |slots| && i < |table|
    ensures Ready(table[..i + 1], slots[..i + 1], rfds) == Ready(table[..i], slots[..i], rfds)
      + if table[i] != null && slots[i].Fd? && slots[i].fd in rfds then [table[i]] else []
  {
    assert table[..i + 1][..i] == table[..i] && slots[..i + 1][..i] == slots[..i];
  }

  lemma FdNotNegative(slots: seq<Slot>, i: nat)
    requires DistinctFds(slots) && i < |slots|
    ensures slots[i].Fd? ==> slots[i].fd >= 0
  {
  }

  lemma FdSetNext(slots: seq<Slot>)
    requires slots != [] && DistinctFds(slots)
    ensures var i := |slots| - 1;
      && FdSet(slots) == FdSet(slots[..i]) + (if slots[i].Fd? then {slots[i].fd} else {})
      && (slots[i].Fd? ==> slots[i].fd !in FdSet(slots[..i]))
      && DistinctFds(slots[..i])
  {
    var i := |slots| - 1;
    assert forall j :: 0 <= j < i ==> slots[..i][j] == slots[j];
  }

  lemma SubsetOfSameSize(a: set<int>, b: set<int>)
    requires a <= b && |a| >= |b|
    ensures a == b
  {
    assert b == a + (b - a) && |b| == |a| + |b - a|;
  }

  lemma OneMoreReady(before: set<int>, fd: int, rfds: set<int>)
    requires fd !in before
    ensures |(before + {fd}) * rfds| == |before * rfds| + if fd in rfds then 1 else 0
  {
    if fd in rfds {
      assert (before + {fd}) * rfds == before * rfds + {fd};
    } else {
      assert (before + {fd}) * rfds == before * rfds;
    }
  }

  lemma ReadyLast(table: seq<RilEvent?>, slots: seq<Slot>, rfds: set<int>)
    requires |table| == |slots| && table != []
    ensures var i := |table| - 1;
      |Ready(table, slots, rfds)| == |Ready(table[..i], slots[..i], rfds)|
        + if table[i] != null && slots[i].Fd? && slots[i].fd in rfds then 1 else 0
  {
  }

  /** One slot more: as many ready events more as ready descriptors. */
  lemma ReadyCountLast(slots: seq<Slot>, rfds: set<int>)
    requires slots != [] && DistinctFds(slots)
    ensures var i := |slots| - 1;
      && DistinctFds(slots[..i])
      && |FdSet(slots) * rfds| == |FdSet(slots[..i]) * rfds| + if slots[i].Fd? && slots[i].fd in rfds then 1 else 0
  {
    hide FdSet, DistinctFds;
    var i := |slots| - 1;
    FdSetNext(slots);
    if slots[i].Fd? {
      OneMoreReady(FdSet(slots[..i]), slots[i].fd, rfds);
    } else {
      assert FdSet(slots) == FdSet(slots[..i]);
    }
  }

  /** Distinct descriptors: there are as many ready events as ready descriptors. */
  lemma {:induction false} ReadyCount(table: seq<RilEvent?>, slots: seq<Slot>, rfds: set<int>)
    requires |table| == |slots| && DistinctFds(slots)
    requires forall j :: 0 <= j < |table| ==> (table[j] != null <==> slots[j].Fd?)
    ensures |Ready(table, slots, rfds)| == |FdSet(slots) * rfds|
  {
    if table == [] {
      assert FdSet(slots) * rfds == {};
    } else {
      hide FdSet, DistinctFds;
      var i := |table| - 1;
      ReadyCountLast(slots, rfds);
      ReadyLast(table, slots, rfds);
      ReadyCount(table[..i], slots[..i], rfds);
    }
  }

  /** Once as many events are ready as there are descriptors in `rfds`, no later slot is ready. */
  lemma {:induction false} ReadyAll(table: seq<RilEvent?>, slots: seq<Slot>, rfds: set<int>, i: nat)
    requires i <= |table| == |slots| && DistinctFds(slots)
    requires forall j :: 0 <= j < |table| ==> (table[j] != null <==> slots[j].Fd?)
    requires i == |table| || |Ready(table[..i], slots[..i], rfds)| >= |rfds|
    ensures Ready(table[..i], slots[..i], rfds) == Ready(table, slots, rfds)
    ensures forall j :: i <= j < |table| ==> !(table[j] != null && slots[j].fd in rfds)
    decreases |table| - i
  {
    if i == |table| {
      assert table[..i] == table && slots[..i] == slots;
    } else {
      ReadyCount(table[..i], slots[..i], rfds);
      SubsetOfSameSize(FdSet(slots[..i]) * rfds, rfds);
      assert slots[i].Fd? ==> slots[i].fd !in rfds;
      ReadyNext(table, slots, rfds, i);
      ReadyAll(table, slots, rfds, i + 1);
    }
  }

  const ALL_FREE: seq<Slot> := [Free, Free, Free, Free, Free, Free, Free, Free]

  lemma NothingWatched()
    ensures |ALL_FREE| == MAX_FD_EVENTS && forall i :: 0 <= i < MAX_FD_EVENTS ==> ALL_FREE[i] == Free
    ensures DistinctFds(ALL_FREE) && FdSet(ALL_FREE) == {} && Bound({}, 0)
  {
  }

  lemma BoundWithoutOther(fds: set<int>, fd: int, nfds: int)
    requires fd in fds && Bound(fds, nfds) && fd + 1 != nfds
    ensures Bound(fds - {fd}, nfds)
  {
    assert nfds - 1 in fds - {fd};
  }

  /** When the largest descriptor goes, the bound is found again from the largest that remains, 0 standing for none. */
  lemma BoundWithoutLargest(fds: set<int>, fd: int, largest: nat)
    requires fd in fds && Bound(fds, fd + 1)
    requires forall x :: x in fds - {fd} ==> x <= largest
    requires largest != 0 ==> largest in fds - {fd}
    ensures Bound(fds - {fd}, largest + 1)
  {
    if largest == 0 {
      assert forall x :: x in fds - {fd} ==> x == 0;
    }
  }

  /** No later timer is due before an earlier one. */
  ghost predicate Sorted(l: seq<RilEvent>)
    reads l
  {
    forall i, j :: 0 <= i < j < |l| ==> !TimerLess(l[j].timeout, l[i].timeout)
  }

  /** A sorted list whose deadlines did not change is still sorted. */
  twostate lemma SortedFrame(l: seq<RilEvent>)
    requires old(Sorted(l)) && forall e :: e in l ==> e.timeout == old(e.timeout)
    ensures Sorted(l)
  {
  }

  lemma SortedTail(l: seq<RilEvent>)
    requires l != [] && Sorted(l)
    ensures Sorted(l[1..])
  {
  }

  /** When the first timer of a sorted list is not due, none is. */
  lemma RestNotDue(l: seq<RilEvent>, now: TimeVal)
    requires l != [] && Sorted(l) && !TimerLess(l[0].timeout, now)
    ensures forall i :: 0 <= i < |l| ==> !TimerLess(l[i].timeout, now)
  {
    forall i | 0 <= i < |l| ensures !TimerLess(l[i].timeout, now) {
      if i > 0 {
        TimerOrder(now, l[0].timeout, l[i].timeout);
      }
    }
  }

  lemma SortedInsert(l: seq<RilEvent>, k: nat, ev: RilEvent)
    requires Sorted(l) && k <= |l|
    requires forall i :: 0 <= i < k ==> TimerLess(l[i].timeout, ev.timeout)
    requires forall i :: k <= i < |l| ==> !TimerLess(l[i].timeout, ev.timeout)
    ensures Sorted(l[..k] + [ev] + l[k..])
  {
  }

  /** What a callback may ask of the loop. */
  datatype Call = AddCall(ev: RilEvent) | DelCall(ev: RilEvent) | TimerCall(ev: RilEvent, tv: TimeVal, now: TimeVal)

  /** Whether a list of calls asks for a timer on `e`. */
  ghost predicate Asks(calls: seq<Call>, e: RilEvent) {
    exists c :: c in calls && c.TimerCall? && c.ev == e
  }

  ghost predicate AsksForNoTimer(calls: seq<Call>) {
    forall c :: c in calls ==> !c.TimerCall?
  }

  /** Whether any of the calls is about `e`. */
  ghost predicate Touches(calls: seq<Call>, e: RilEvent) {
    exists c :: c in calls && c.ev == e
  }

  lemma TouchesNot(calls: seq<Call>, e: RilEvent)
    requires !Touches(calls, e)
    ensures AddCall(e) !in calls && DelCall(e) !in calls && !Asks(calls, e)
  {
    assert AddCall(e).ev == DelCall(e).ev == e;
  }

  lemma AsksNothing()
    ensures AsksForNoTimer([]) && forall e :: !Asks([], e) && !Touches([], e)
  {
  }

  lemma AsksOne(c: Call)
    ensures forall e :: Asks([c], e) <==> c.TimerCall? && c.ev == e
    ensures forall e :: Touches([c], e) <==> c.ev == e
    ensures AsksForNoTimer([c]) <==> !c.TimerCall?
  {
    assert c in [c];
  }

  lemma AsksMore(calls: seq<Call>, more: seq<Call>)
    ensures forall e :: Asks(calls + more, e) <==> Asks(calls, e) || Asks(more, e)
    ensures forall e :: Touches(calls + more, e) <==> Touches(calls, e) || Touches(more, e)
    ensures AsksForNoTimer(calls + more) <==> AsksForNoTimer(calls) && AsksForNoTimer(more)
    ensures forall c :: c in calls + more <==> c in calls || c in more
  {
    assert forall c :: c in calls || c in more ==> c in calls + more;
  }

  /** The calls made when the first `n` callbacks have run. */
  function Made(callbacks: seq<seq<Call>>, n: nat): seq<Call> {
    Flat(callbacks[..if n < |callbacks| then n else |callbacks|])
  }

  lemma MadeNone(callbacks: seq<seq<Call>>)
    ensures Made(callbacks, 0) == []
  {
  }

  lemma MadeNext(callbacks: seq<seq<Call>>, n: nat)
    ensures Made(callbacks, n + 1) == Made(callbacks, n) + if n < |callbacks| then callbacks[n] else []
  {
    if n < |callbacks| {
      assert callbacks[..n + 1][..n] == callbacks[..n];
    }
  }

  /** One pass of the loop: what `select` returned, the time read after it, and what each callback does. */
  datatype Round = Round(n: int, interrupted: bool, rfds: set<int>, now: TimeVal, callbacks: seq<seq<Call>>)

  lemma FiredLater(from: nat, done: seq<RilEvent>, fired: seq<RilEvent>)
    requires from <= |done| && done <= fired
    ensures forall e :: e in done[from..] || e in fired[|done|..] ==> e in fired[from..]
  {
    assert fired[from..] == done[from..] + fired[|done|..];
  }

  lemma {:induction false} ReadyMember(table: seq<RilEvent?>, slots: seq<Slot>, rfds: set<int>, i: nat)
    requires i < |table| == |slots| && table[i] != null && slots[i].Fd? && slots[i].fd in rfds
    ensures table[i] in Ready(table, slots, rfds)
  {
    if i < |table| - 1 {
      ReadyMember(table[..|table| - 1], slots[..|table| - 1], rfds, i);
    }
  }

  lemma {:induction false} ReadyOnly(table: seq<RilEvent?>, slots: seq<Slot>, rfds: set<int>, e: RilEvent)
    requires |table| == |slots| && e in Ready(table, slots, rfds)
    ensures exists i :: 0 <= i < |table| && table[i] == e && slots[i].Fd? && slots[i].fd in rfds
  {
    var i := |table| - 1;
    if e in Ready(table[..i], slots[..i], rfds) {
      ReadyOnly(table[..i], slots[..i], rfds, e);
      var j :| 0 <= j < i && table[..i][j] == e && slots[..i][j].Fd? && slots[..i][j].fd in rfds;
      assert table[j] == e && slots[j].Fd?;
    } else {
      assert table[i] == e;
    }
  }

  /** Whether a callback of a pass deletes an event. */
  ghost predicate Deletes(callbacks: seq<seq<Call>>, e: RilEvent) {
    exists j :: 0 <= j < |callbacks| && DelCall(e) in callbacks[j]
  }

  lemma {:induction false} FlatMember<T>(ss: seq<seq<T>>, x: T)
    requires x in Flat(ss)
    ensures exists j :: 0 <= j < |ss| && x in ss[j]
  {
    if x !in ss[|ss| - 1] {
      FlatMember(ss[..|ss| - 1], x);
    }
  }

  lemma MadeDeletes(callbacks: seq<seq<Call>>, n: nat, e: RilEvent)
    requires !Deletes(callbacks, e)
    ensures DelCall(e) !in Made(callbacks, n)
  {
    if DelCall(e) in Made(callbacks, n) {
      FlatMember(callbacks[..if n < |callbacks| then n else |callbacks|], DelCall(e));
    }
  }

  /** Whether a callback of a pass makes any call about an event. */
  ghost predicate TouchedIn(callbacks: seq<seq<Call>>, e: RilEvent) {
    exists j :: 0 <= j < |callbacks| && Touches(callbacks[j], e)
  }

  lemma MadeTouches(callbacks: seq<seq<Call>>, n: nat, e: RilEvent)
    requires !TouchedIn(callbacks, e)
    ensures !Touches(Made(callbacks, n), e) && !Deletes(callbacks, e)
  {
    if Touches(Made(callbacks, n), e) {
      var c :| c in Made(callbacks, n) && c.ev == e;
      FlatMember(callbacks[..if n < |callbacks| then n else |callbacks|], c);
    }
    if j :| 0 <= j < |callbacks| && DelCall(e) in callbacks[j] {
      assert DelCall(e).ev == e && Touches(callbacks[j], e);
    }
  }

  ghost predicate Once(s: seq<RilEvent>, e: RilEvent) {
    e in s && forall i, j :: 0 <= i < j < |s| ==> !(s[i] == e && s[j] == e)
  }

  ghost predicate OnceInOne(a: seq<RilEvent>, b: seq<RilEvent>, e: RilEvent) {
    (e !in a && Once(b, e)) || (Once(a, e) && e !in b)
  }

  lemma OnceInDistinct(s: seq<RilEvent>, e: RilEvent)
    requires Distinct(s) && e in s
    ensures Once(s, e)
  {
  }

  lemma OnceMore(from: nat, done: seq<RilEvent>, fired: seq<RilEvent>)
    requires from <= |done| && done <= fired
    ensures forall e :: OnceInOne(done[from..], fired[|done|..], e) ==> Once(fired[from..], e)
  {
    var a, b := done[from..], fired[|done|..];
    assert fired[from..] == a + b;
    forall e | OnceInOne(a, b, e) ensures Once(a + b, e) {
      assert e in a || e in b;
    }
  }

  /** Whether a served round came after a deadline. */
  ghost predicate DueBy(rounds: seq<Round>, served: nat, deadline: TimeVal)
    requires served <= |rounds|
  {
    exists t :: 0 <= t < served && rounds[t].n >= 0 && TimerLess(deadline, rounds[t].now)
  }

  /** Whether a descriptor was ready in a served round. */
  ghost predicate ReadyBy(rounds: seq<Round>, served: nat, fd: int)
    requires served <= |rounds|
  {
    exists t :: 0 <= t < served && rounds[t].n >= 0 && fd in rounds[t].rfds
  }

  lemma TouchedWhenDeleted(rounds: seq<Round>, served: nat)
    requires served <= |rounds|
    ensures forall e :: DeletesBy(rounds, served, e) ==> TouchedBy(rounds, served, e)
  {
    forall e | DeletesBy(rounds, served, e) ensures TouchedBy(rounds, served, e) {
      var t :| 0 <= t < served && rounds[t].n >= 0 && Deletes(rounds[t].callbacks, e);
      var j :| 0 <= j < |rounds[t].callbacks| && DelCall(e) in rounds[t].callbacks[j];
      assert DelCall(e).ev == e && Touches(rounds[t].callbacks[j], e);
      assert TouchedIn(rounds[t].callbacks, e);
    }
  }

  /** Whether a callback of a served round deletes an event. */
  ghost predicate DeletesBy(rounds: seq<Round>, served: nat, e: RilEvent)
    requires served <= |rounds|
  {
    exists t :: 0 <= t < served && rounds[t].n >= 0 && Deletes(rounds[t].callbacks, e)
  }

  /** Whether a callback of a served round makes any call about an event. */
  ghost predicate TouchedBy(rounds: seq<Round>, served: nat, e: RilEvent)
    requires served <= |rounds|
  {
    exists t :: 0 <= t < served && rounds[t].n >= 0 && TouchedIn(rounds[t].callbacks, e)
  }

  lemma NothingServed(rounds: seq<Round>)
    ensures forall d :: !DueBy(rounds, 0, d)
    ensures forall fd :: !ReadyBy(rounds, 0, fd)
    ensures forall e :: !DeletesBy(rounds, 0, e) && !TouchedBy(rounds, 0, e)
  {
  }

  lemma NextRound(rounds: seq<Round>, served: nat)
    requires served < |rounds|
    ensures var r := rounds[served];
      && (forall d :: DueBy(rounds, served + 1, d) <==> DueBy(rounds, served, d) || (r.n >= 0 && TimerLess(d, r.now)))
      && (forall fd :: ReadyBy(rounds, served + 1, fd) <==> ReadyBy(rounds, served, fd) || (r.n >= 0 && fd in r.rfds))
      && (forall e :: DeletesBy(rounds, served + 1, e) <==> DeletesBy(rounds, served, e) || (r.n >= 0 && Deletes(r.callbacks, e)))
      && (forall e :: TouchedBy(rounds, served + 1, e) <==> TouchedBy(rounds, served, e) || (r.n >= 0 && TouchedIn(r.callbacks, e)))
  {
    hide TimerLess, Deletes, TouchedIn;
  }

  class EventLoop {
    const timerList: RilEvent
    const pendingList: RilEvent
    const watchTable: array<RilEvent?>
    var readFds: set<int>
    var nfds: int
    /** The events of the two rings, and every event the loop may touch. */
    ghost var timers: seq<RilEvent>
    ghost var pending: seq<RilEvent>
    ghost var events: set<RilEvent>
    /** The descriptors in the table. */
    ghost var slots: seq<Slot>
    /** Every event whose callback has run, in order. */
    ghost var fired: seq<RilEvent>

    ghost predicate Rings()
      reads this, events, timerList, pendingList
    {
      && (forall e :: e in timers ==> e in events) && (forall e :: e in pending ==> e in events)
      && timerList !in events && pendingList !in events && timerList != pendingList
      && Ring(timerList, timers) && Ring(pendingList, pending) && Apart(timerList, timers, pendingList, pending)
    }

    ghost predicate Timers()
      reads this, events
    {
      && (forall e :: e in timers ==> e in events && e.fd == -1 && e.timeout.Normal())
      && Sorted(timers)
    }

    /** Every slot of the table agrees with its event and with `slots`. */
    ghost predicate SlotsAgree()
      reads this, watchTable, events
    {
      && watchTable.Length == MAX_FD_EVENTS == |slots|
      && forall i :: 0 <= i < MAX_FD_EVENTS ==>
           && (watchTable[i] == null ==> slots[i] == Free)
           && (watchTable[i] != null ==>
                 watchTable[i] in events && watchTable[i].index == i && slots[i] == Fd(watchTable[i].fd))
    }

    ghost predicate Watch()
      reads this, watchTable, events
    {
      SlotsAgree() && DistinctFds(slots) && readFds == FdSet(slots) && Bound(readFds, nfds)
    }

    ghost predicate Valid()
      reads this, watchTable, events, timerList, pendingList
    {
      Rings() && Timers() && Watch()
    }

    /** `ril_event_init`. */
    constructor ()
      ensures Valid() && fresh(timerList) && fresh(pendingList) && fresh(watchTable) && watchTable.Length == 8
      ensures timers == [] && pending == [] && events == {} && fired == [] && readFds == {}
    {
      timerList := new RilEvent(-1, false);
      pendingList := new RilEvent(-1, false);
      watchTable := new RilEvent?[MAX_FD_EVENTS](_ => null);
      readFds, nfds := {}, 0;
      timers, pending, events, fired := [], [], {}, [];
      slots := ALL_FREE;
      new;
      NothingWatched();
      timerList.next, timerList.prev := timerList, timerList;
      pendingList.next, pendingList.prev := pendingList, pendingList;
      EmptyRing(timerList);
      EmptyRing(pendingList);
    }

    /** Make an event known to the loop. */
    ghost method Enroll(ev: RilEvent)
      requires Valid() && ev != timerList && ev != pendingList
      modifies this`events
      ensures Valid() && events == old(events) + {ev}
    {
      events := events + {ev};
    }

    /** `ril_event_add`: the first free slot, or nothing at all when the table is full. */
    method Add(ev: RilEvent)
      requires Watch() && ev in events && ev.index == -1 && ev.fd >= 0 && ev.fd !in readFds
      modifies this`readFds, this`nfds, this`slots, watchTable, ev`index
      ensures Watch()
      ensures Free !in old(slots) ==> slots == old(slots) && watchTable[..] == old(watchTable[..]) && ev.index == -1
      ensures Free in old(slots) ==>
        && 0 <= ev.index < MAX_FD_EVENTS && old(slots)[ev.index] == Free && Free !in old(slots)[..ev.index]
        && slots == old(slots)[ev.index := Fd(ev.fd)] && watchTable[..] == old(watchTable[..])[ev.index := ev]
    {
      for i := 0 to MAX_FD_EVENTS
        invariant slots == old(slots) && watchTable[..] == old(watchTable[..]) && readFds == old(readFds) && nfds == old(nfds)
        invariant ev.index == -1 && Free !in slots[..i]
      {
        if watchTable[i] == null {
          assert forall j :: 0 <= j < MAX_FD_EVENTS ==> watchTable[j] != ev;
          FillSlot(slots, i, ev.fd, nfds);
          watchTable[i] := ev;
          ev.index := i;
          slots := slots[i := Fd(ev.fd)];
          readFds := readFds + {ev.fd};
          if ev.fd >= nfds {
            nfds := ev.fd + 1;
          }
          return;
        }
      }
    }

    /** `removeWatch`: clear the slot and, when the largest descriptor goes, search the table for the next. */
    method RemoveWatch(ev: RilEvent, index: nat)
      requires Watch() && index < MAX_FD_EVENTS && watchTable[index] == ev
      modifies this`readFds, this`nfds, this`slots, watchTable, ev`index
      ensures Watch() && ev.index == -1
      ensures slots == old(slots)[index := Free] && watchTable[..] == old(watchTable[..])[index := null]
    {
      assert forall j :: 0 <= j < MAX_FD_EVENTS && j != index ==> watchTable[j] != ev;
      ClearSlot(slots, index);
      watchTable[index] := null;
      ev.index := -1;
      slots := slots[index := Free];
      readFds := readFds - {ev.fd};
      if ev.fd + 1 == nfds {
        var n := LargestWatched();
        BoundWithoutLargest(old(readFds), ev.fd, n);
        nfds := n + 1;
      } else {
        BoundWithoutOther(old(readFds), ev.fd, nfds);
      }
    }

    /** The loop of `removeWatch` over the table. */
    method LargestWatched() returns (n: int)
      requires SlotsAgree() && readFds == FdSet(slots)
      ensures n >= 0 && (n != 0 ==> n in readFds) && forall fd :: fd in readFds ==> fd <= n
    {
      n := 0;
      for i := 0 to MAX_FD_EVENTS
        invariant n >= 0 && (n != 0 ==> n in readFds)
        invariant forall j :: 0 <= j < i && slots[j].Fd? ==> slots[j].fd <= n
      {
        var rev := watchTable[i];
        if rev != null && rev.fd > n {
          n := rev.fd;
        }
      }
    }

    /** Stop watching, with the rings in view. */
    method Unwatch(ev: RilEvent, index: nat)
      requires Rings() && Timers() && Watch() && index < MAX_FD_EVENTS && watchTable[index] == ev
      modifies this`readFds, this`nfds, this`slots, watchTable, ev`index
      ensures Rings() && Timers() && Watch() && ev.index == -1
      ensures slots == old(slots)[index := Free] && watchTable[..] == old(watchTable[..])[index := null]
    {
      hide Ring, Linked, Sorted, TimerLess, DistinctFds, FdSet, Bound;
      RemoveWatch(ev, index);
      assert ([timerList] + timers)[1..] == timers && ([pendingList] + pending)[1..] == pending;
      RingFrame([timerList] + timers);
      RingFrame([pendingList] + pending);
      SortedFrame(timers);
    }

    /** `ril_event_del`: an event that is not watched is left alone. */
    method Del(ev: RilEvent)
      requires Watch() && (0 <= ev.index < MAX_FD_EVENTS ==> watchTable[ev.index] == ev)
      modifies this`readFds, this`nfds, this`slots, watchTable, ev`index
      ensures Watch()
      ensures 0 <= old(ev.index) < MAX_FD_EVENTS ==>
        ev.index == -1 && slots == old(slots)[old(ev.index) := Free] && watchTable[..] == old(watchTable[..])[old(ev.index) := null]
      ensures !(0 <= old(ev.index) < MAX_FD_EVENTS) ==>
        ev.index == old(ev.index) && slots == old(slots) && watchTable[..] == old(watchTable[..])
    {
      if ev.index < 0 || ev.index >= MAX_FD_EVENTS {
        return;
      }
      RemoveWatch(ev, ev.index);
    }

    /** The search of `ril_timer_add`: the first timer that is not due before `t`, or the list head. */
    method FindPlace(t: TimeVal) returns (list: RilEvent, ghost k: nat)
      requires Rings() && Sorted(timers)
      ensures k <= |timers| && list == Node(timerList, timers, k)
      ensures forall i :: 0 <= i < k ==> TimerLess(timers[i].timeout, t)
      ensures forall i :: k <= i < |timers| ==> !TimerLess(timers[i].timeout, t)
    {
      list, k := timerList.next, 0;
      while TimerLess(list.timeout, t) && list != timerList
        invariant k <= |timers| && list == Node(timerList, timers, k)
        invariant forall i :: 0 <= i < k ==> TimerLess(timers[i].timeout, t)
        decreases |timers| - k
      {
        assert k + 1 == |timers| || Linked(timers[k], timers[k + 1]);
        list := list.next;
        k := k + 1;
      }
      forall i | k <= i < |timers| ensures !TimerLess(timers[i].timeout, t) {
        if i > k {
          TimerOrder(t, timers[k].timeout, timers[i].timeout);
        }
      }
    }

    /** Link a timer before the `k`-th. */
    method LinkTimer(ev: RilEvent, list: RilEvent, ghost k: nat)
      requires Rings() && k <= |timers| && list == Node(timerList, timers, k)
      requires ev in events && ev !in timers && ev !in pending
      modifies this`timers, {ev, timerList}`next, {ev, timerList}`prev, timers`next, timers`prev
      ensures Rings() && timers == old(timers)[..k] + [ev] + old(timers)[k..]
    {
      hide Ring, Linked, Apart;
      InsertMembers(timers, k, ev);
      ApartInsert(timerList, timers, pendingList, pending, k, ev);
      AddToList(ev, list, timerList, timers, k, pendingList, pending);
      timers := timers[..k] + [ev] + timers[k..];
    }

    /** Put a timer with its deadline set in its place: after those due earlier, before all others. */
    method InsertTimer(ev: RilEvent) returns (ghost k: nat)
      requires Rings() && Timers() && ev in events && ev !in timers && ev !in pending
      requires ev.fd == -1 && ev.timeout.Normal()
      modifies this`timers, {ev, timerList}`next, {ev, timerList}`prev, timers`next, timers`prev
      ensures Rings() && Timers()
      ensures k <= |old(timers)| && timers == old(timers)[..k] + [ev] + old(timers)[k..]
      ensures forall i :: 0 <= i < k ==> TimerLess(old(timers)[i].timeout, ev.timeout)
      ensures forall i :: k <= i < |old(timers)| ==> !TimerLess(old(timers)[i].timeout, ev.timeout)
    {
      hide Ring, Sorted, TimerLess, Linked, Apart;
      var list;
      list, k := FindPlace(ev.timeout);
      SortedInsert(timers, k, ev);
      InsertMembers(timers, k, ev);
      LinkTimer(ev, list, k);
      SortedFrame(timers);
    }

    /** `ril_timer_add`. */
    method TimerAdd(ev: RilEvent, tv: TimeVal, now: TimeVal) returns (ghost k: nat)
      requires Rings() && Timers() && ev in events && ev.next == null && tv.Normal() && now.Normal()
      modifies this`timers, ev`fd, ev`timeout, {ev, timerList}`next, {ev, timerList}`prev, timers`next, timers`prev
      ensures Rings() && Timers()
      ensures ev.fd == -1 && ev.timeout == RilTime.TimerAdd(now, tv)
      ensures k <= |old(timers)| && timers == old(timers)[..k] + [ev] + old(timers)[k..]
      ensures forall i :: 0 <= i < k ==> TimerLess(old(timers[i].timeout), ev.timeout)
      ensures forall i :: k <= i < |old(timers)| ==> !TimerLess(old(timers[i].timeout), ev.timeout)
    {
      hide Ring, Sorted, TimerLess, Linked;
      if ev in timers {
        RingEventsAreLinked(timerList, timers, ev);
      }
      if ev in pending {
        RingEventsAreLinked(pendingList, pending, ev);
      }
      TimerArithmetic(now, tv);
      ev.fd := -1;
      ev.timeout := RilTime.TimerAdd(now, tv);
      SortedFrame(timers);
      k := InsertTimer(ev);
    }

    /** One turn of the loop of `processTimeouts`: the first timer becomes the last pending event. */
    method MoveFirstTimer(ev: RilEvent)
      requires Rings() && Timers() && timers != [] && ev == timers[0]
      modifies this`timers, this`pending
      modifies {timerList, pendingList}`next, {timerList, pendingList}`prev, timers`next, timers`prev, pending`next, pending`prev
      ensures Rings() && Timers()
      ensures timers == old(timers)[1..] && pending == old(pending) + [ev]
    {
      hide Ring, Linked, Sorted, TimerLess;
      ghost var t, p := timers, pending;
      HeadAndTail(timerList, t);
      MoveFirst(ev, pendingList, timerList, t, p);
      timers, pending := t[1..], p + [ev];
      SortedFrame(t);
      SortedTail(t);
    }

    /** `processTimeouts`: the timers due before `now`, which a sorted list has in front, become pending in order. */
    method ProcessTimeouts(now: TimeVal) returns (ghost k: nat)
      requires Rings() && Timers()
      modifies this`timers, this`pending
      modifies {timerList, pendingList}`next, {timerList, pendingList}`prev, timers`next, timers`prev, pending`next, pending`prev
      ensures Rings() && Timers()
      ensures k <= |old(timers)| && timers == old(timers)[k..] && pending == old(pending) + old(timers)[..k]
      ensures forall i :: 0 <= i < |old(timers)| ==> (i < k <==> TimerLess(old(timers)[i].timeout, now))
    {
      hide Ring, Linked, Sorted;
      k := 0;
      FirstNode(timerList, timers);
      var tev := timerList.next;
      while tev != timerList && TimerLess(tev.timeout, now)
        invariant Rings() && Timers() && tev == Node(timerList, timers, 0)
        invariant k <= |old(timers)| && timers == old(timers)[k..] && pending == old(pending) + old(timers)[..k]
        invariant forall i :: 0 <= i < k ==> TimerLess(old(timers)[i].timeout, now)
        decreases |timers|
      {
        NextOfFirst(timerList, timers);
        var next := tev.next;
        MoveFirstTimer(tev);
        tev := next;
        k := k + 1;
      }
      if timers != [] {
        RestNotDue(timers, now);
        assert forall i :: k <= i < |old(timers)| ==> old(timers)[i] == timers[i - k];
      }
    }

    /** Append an event to the pending list. */
    method MakePending(ev: RilEvent)
      requires Rings() && Timers() && Watch() && ev in events && ev !in timers && ev !in pending
      modifies this`pending, {ev, pendingList}`next, {ev, pendingList}`prev, pending`next, pending`prev
      ensures Rings() && Timers() && Watch()
      ensures pending == old(pending) + [ev]
    {
      hide Ring, Linked, Sorted, TimerLess, DistinctFds, FdSet, Bound;
      ghost var p := pending;
      assert p[..|p|] + [ev] + p[|p|..] == p + [ev];
      AddToList(ev, pendingList, pendingList, p, |p|, timerList, timers);
      pending := p + [ev];
      SortedFrame(timers);
    }

    /** One turn of the loop of `processReadReadies`: slot `i`. */
    method ProcessSlot(i: nat, rfds: set<int>) returns (hit: bool)
      requires Rings() && Timers() && Watch() && i < MAX_FD_EVENTS
      requires watchTable[i] != null ==> watchTable[i] !in pending
      modifies this`readFds, this`nfds, this`slots, this`pending, watchTable, events`index
      modifies events`next, events`prev, pendingList`next, pendingList`prev
      ensures Rings() && Timers() && Watch()
      ensures hit <==> old(watchTable[i] != null && watchTable[i].fd in rfds)
      ensures pending == old(pending) + if hit then [old(watchTable[i])] else []
      ensures watchTable[..] == old(watchTable[..])[i := if old(StaysWatched(watchTable[i], rfds)) then old(watchTable[i]) else null]
      ensures forall j :: 0 <= j < MAX_FD_EVENTS && j != i ==> slots[j] == old(slots)[j]
      ensures forall e :: e in events ==>
        e.index == if hit && e == old(watchTable[i]) && !e.persist then -1 else old(e.index)
    {
      hide Ring, Linked, Sorted, TimerLess, DistinctFds, FdSet, Bound;
      var rev := watchTable[i];
      FdNotNegative(slots, i);
      hit := rev != null && rev.fd in rfds;
      if hit {
        MakePending(rev);
        if !rev.persist {
          Unwatch(rev, i);
        }
      }
    }

    /** The ready events that do not persist have left the table. */
    twostate predicate OneShotsLeft(rfds: set<int>)
      reads this, watchTable, events
    {
      && watchTable.Length == MAX_FD_EVENTS
      && forall i :: 0 <= i < MAX_FD_EVENTS && old(watchTable[i]) != null ==>
           var e := old(watchTable[i]);
           e in events && (!old(e.persist) && old(e.fd) in rfds ==> watchTable[i] == null && e.index == -1)
    }

    /** `processReadReadies`: of the watched events, those whose descriptor is in `rfds` become pending in slot order, */
    /** and those that do not persist stop being watched. `n` is what `select` returned, at least the size of `rfds`. */
    method ProcessReadReadies(rfds: set<int>, n: int)
      requires Rings() && Timers() && Watch() && n >= |rfds|
      requires forall i :: 0 <= i < MAX_FD_EVENTS && watchTable[i] != null ==> watchTable[i] !in pending
      modifies this`readFds, this`nfds, this`slots, this`pending, watchTable, events`index
      modifies events`next, events`prev, pendingList`next, pendingList`prev
      ensures Rings() && Timers() && Watch()
      ensures pending == old(pending) + Ready(old(watchTable[..]), old(slots), rfds)
      ensures forall i :: 0 <= i < MAX_FD_EVENTS ==>
        watchTable[i] == if old(StaysWatched(watchTable[i], rfds)) then old(watchTable[i]) else null
      ensures OneShotsLeft(rfds)
      ensures forall e :: e in events ==> e.index == old(e.index) || e.index == -1
    {
      hide Ring, Linked, Sorted, TimerLess, DistinctFds, FdSet, Bound, Ready;
      ghost var table, fds := watchTable[..], slots;
      NothingReady(table, fds, rfds);
      var i, left := 0, n;
      while i < MAX_FD_EVENTS && left > 0
        invariant 0 <= i <= MAX_FD_EVENTS
        invariant Rings() && Timers() && Watch()
        invariant pending == old(pending) + Ready(table[..i], fds[..i], rfds)
        invariant left == n - |Ready(table[..i], fds[..i], rfds)|
        invariant forall j :: i <= j < MAX_FD_EVENTS ==> watchTable[j] == table[j] && slots[j] == fds[j]
        invariant forall j :: i <= j < MAX_FD_EVENTS && table[j] != null ==> table[j] !in pending
        invariant forall j :: 0 <= j < i ==>
          watchTable[j] == if old(StaysWatched(watchTable[j], rfds)) then table[j] else null
        invariant forall j :: 0 <= j < i && table[j] != null && !table[j].persist && table[j].fd in rfds ==>
          watchTable[j] == null && table[j].index == -1
        invariant forall e :: e in events ==> e.index == old(e.index) || e.index == -1
      {
        ReadyNext(table, fds, rfds, i);
        var hit := ProcessSlot(i, rfds);
        if hit {
          left := left - 1;
        }
        i := i + 1;
      }
      ReadyAll(table, fds, rfds, i);
    }

    ghost predicate Known(calls: seq<Call>)
      reads this
    {
      forall i :: 0 <= i < |calls| ==> calls[i].ev in events
    }

    /** Whether a call's event is in a state the callee allows: unwatched and, for a timer, unlinked. */
    predicate Legal(c: Call)
      requires watchTable.Length == MAX_FD_EVENTS
      reads this, watchTable, c.ev
    {
      match c
      case AddCall(ev) => ev.index == -1 && ev.fd >= 0 && ev.fd !in readFds
      case DelCall(ev) => 0 <= ev.index < MAX_FD_EVENTS && watchTable[ev.index] == ev
      case TimerCall(ev, tv, now) => ev.index == -1 && ev.next == null && tv.Normal() && now.Normal()
    }

    /** Rings and deadlines do not depend on what the watch table changes. */
    twostate lemma LinksUnchanged()
      requires old(Rings() && Timers())
      requires timers == old(timers) && pending == old(pending) && events == old(events)
      requires forall e :: e in events + {timerList, pendingList} ==>
        e.next == old(e.next) && e.prev == old(e.prev) && e.timeout == old(e.timeout) && e.fd == old(e.fd)
      ensures Rings() && Timers()
    {
      assert ([timerList] + timers)[1..] == timers && ([pendingList] + pending)[1..] == pending;
      RingFrame([timerList] + timers);
      RingFrame([pendingList] + pending);
      SortedFrame(timers);
    }

    method PerformAdd(ev: RilEvent)
      requires Valid() && ev in events && Legal(AddCall(ev))
      modifies this`readFds, this`nfds, this`slots, watchTable, ev`index
      ensures Valid()
      ensures if Free in old(slots)
              then 0 <= ev.index < MAX_FD_EVENTS && old(watchTable[..])[ev.index] == null
                && watchTable[..] == old(watchTable[..])[ev.index := ev]
              else watchTable[..] == old(watchTable[..])
    {
      hide Ring, Linked, Sorted, TimerLess, DistinctFds, FdSet, Bound;
      Add(ev);
      LinksUnchanged();
    }

    method PerformDel(ev: RilEvent)
      requires Valid() && ev in events && Legal(DelCall(ev))
      modifies this`readFds, this`nfds, this`slots, watchTable, ev`index
      ensures Valid() && ev.index == -1
      ensures watchTable[..] == old(watchTable[..])[old(ev.index) := null]
    {
      hide Ring, Linked, Sorted, TimerLess, DistinctFds, FdSet, Bound;
      Del(ev);
      LinksUnchanged();
    }

    method PerformTimer(ev: RilEvent, tv: TimeVal, now: TimeVal) returns (ghost k: nat)
      requires Valid() && ev in events && Legal(TimerCall(ev, tv, now))
      modifies this`timers, ev`fd, ev`timeout, {ev, timerList}`next, {ev, timerList}`prev, timers`next, timers`prev
      ensures Valid()
      ensures k <= |old(timers)| && timers == old(timers)[..k] + [ev] + old(timers)[k..]
      ensures ev !in old(timers) && ev.timeout == RilTime.TimerAdd(now, tv)
      ensures forall i :: 0 <= i < |old(timers)| ==> (i < k <==> TimerLess(old(timers[i].timeout), ev.timeout))
    {
      hide Ring, Linked, Sorted, TimerLess, DistinctFds, FdSet, Bound, Apart;
      if ev in timers {
        RingEventsAreLinked(timerList, timers, ev);
      }
      k := TimerAdd(ev, tv, now);
    }

    /** One call made by a callback, if it is legal: its event is watched, unwatched or queued, and nothing else is. */
    method Perform(c: Call) returns (ghost k: nat)
      requires Valid() && c.ev in events
      modifies this`timers, this`readFds, this`nfds, this`slots, watchTable, events, timerList
      ensures Valid()
      ensures forall e :: e in old(timers) ==> e in timers && e.timeout == old(e.timeout)
      ensures c.TimerCall? && old(Legal(c)) ==>
        && k <= |old(timers)| && timers == old(timers)[..k] + [c.ev] + old(timers)[k..]
        && c.ev.timeout == RilTime.TimerAdd(c.now, c.tv)
        && forall i :: 0 <= i < |old(timers)| ==> (i < k <==> TimerLess(old(timers[i].timeout), c.ev.timeout))
      ensures !(c.TimerCall? && old(Legal(c))) ==> timers == old(timers)
      ensures c.AddCall? && old(Legal(c)) && Free in old(slots) ==>
        0 <= c.ev.index < MAX_FD_EVENTS && watchTable[..] == old(watchTable[..])[c.ev.index := c.ev]
      ensures c.DelCall? && old(Legal(c)) ==> watchTable[..] == old(watchTable[..])[old(c.ev.index) := null]
      ensures c.TimerCall? || !old(Legal(c)) || (c.AddCall? && Free !in old(slots)) ==> watchTable[..] == old(watchTable[..])
      ensures forall i :: 0 <= i < MAX_FD_EVENTS && old(watchTable[i]) != null && c != DelCall(old(watchTable[i])) ==>
        watchTable[i] == old(watchTable[i]) && watchTable[i].fd == old(watchTable[i].fd)
      ensures forall i :: 0 <= i < MAX_FD_EVENTS && watchTable[i] != null && watchTable[i] != old(watchTable[i]) ==>
        c == AddCall(watchTable[i])
      ensures forall e :: e in events ==>
        && e.persist == old(e.persist)
        && ((e.fd == old(e.fd) && e.timeout == old(e.timeout)) || (c.TimerCall? && c.ev == e))
        && (e.index == old(e.index) || c.ev == e)
        && ((e.next == old(e.next) && e.prev == old(e.prev)) || c.ev == e || e in timers)
      ensures !old(Legal(c)) ==> unchanged(this) && unchanged(watchTable) && unchanged(events) && unchanged(timerList)
    {
      hide Ring, Linked, Sorted, TimerLess, DistinctFds, FdSet, Bound, Apart;
      k := 0;
      if Legal(c) {
        match c
        case AddCall(ev) => PerformAdd(ev);
        case DelCall(ev) => PerformDel(ev);
        case TimerCall(ev, tv, now) =>
          InsertMembers(timers, 0, ev);
          k := PerformTimer(ev, tv, now);
          InsertMembers(old(timers), k, ev);
      }
    }

    /** The timers after some calls, from `before`: none is lost or moved to another deadline, and new ones were asked for. */
    twostate predicate TimersKept(before: seq<RilEvent>, calls: seq<Call>)
      reads this, timers
    {
      && (forall e :: e in before ==> e in timers && e.timeout == old(e.timeout))
      && (forall e :: e in timers ==> e in before || Asks(calls, e))
      && (AsksForNoTimer(calls) ==> timers == before)
    }

    /** A table after some calls: an event leaves its slot and its descriptor only when deleted, and enters a slot only when added. */
    twostate predicate TableKept(table: seq<RilEvent?>, calls: seq<Call>)
      reads this, watchTable, events
    {
      && |table| == MAX_FD_EVENTS == watchTable.Length
      && (forall i :: 0 <= i < MAX_FD_EVENTS && table[i] != null && DelCall(table[i]) !in calls ==>
            watchTable[i] == table[i] && table[i] in events && table[i].fd == old(table[i].fd))
      && (forall i :: 0 <= i < MAX_FD_EVENTS && watchTable[i] != null && AddCall(watchTable[i]) !in calls ==> watchTable[i] == table[i])
    }

    /** No event's flag changes, and its descriptor and deadline only when it is made a timer. */
    twostate predicate FieldsKept(calls: seq<Call>)
      reads this, events
    {
      && events == old(events)
      && forall e :: e in events ==>
           e.persist == old(e.persist) && ((e.fd == old(e.fd) && e.timeout == old(e.timeout)) || Asks(calls, e))
    }

    /** An event that no call is about keeps its place. */
    twostate predicate IndexKept(calls: seq<Call>)
      reads this, events
    {
      events == old(events) && forall e :: e in events && !Touches(calls, e) ==> e.index == old(e.index)
    }

    /** The calls of one callback: queued timers stay queued, watched events stay watched unless a call unwatches them. */
    method RunCallback(calls: seq<Call>)
      requires Valid() && Known(calls)
      modifies this`timers, this`readFds, this`nfds, this`slots, watchTable, events, timerList
      ensures Valid() && TimersKept(old(timers), calls) && TableKept(old(watchTable[..]), calls) && FieldsKept(calls) && IndexKept(calls)
    {
      hide Ring, Linked, Sorted, TimerLess, DistinctFds, FdSet, Bound, Apart, Timers, Asks, AsksForNoTimer, Touches;
      AsksNothing();
      for i := 0 to |calls|
        invariant Valid() && TimersKept(old(timers), calls[..i]) && TableKept(old(watchTable[..]), calls[..i]) && FieldsKept(calls[..i])
        invariant IndexKept(calls[..i])
      {
        assert calls[..i + 1] == calls[..i] + [calls[i]];
        AsksMore(calls[..i], [calls[i]]);
        AsksOne(calls[i]);
        ghost var k := Perform(calls[i]);
      }
      assert calls[..|calls|] == calls;
    }

    /** Take the first pending event out and record that it fires. */
    method TakePending(ev: RilEvent)
      requires Valid() && pending != [] && ev == pending[0]
      modifies this`pending, this`fired, pending`next, pending`prev, pendingList`next, pendingList`prev
      ensures Valid() && pending == old(pending)[1..] && fired == old(fired) + [ev]
      ensures ev.next == null
    {
      hide Ring, Linked, Sorted, TimerLess, DistinctFds, FdSet, Bound, Apart, Distinct;
      ghost var p := pending;
      assert p[..0] + p[1..] == p[1..];
      HeadAndTail(pendingList, p);
      ApartTail(timerList, timers, pendingList, p);
      ApartSwap(timerList, timers, pendingList, p);
      RemoveFromList(ev, pendingList, p, 0, timerList, timers);
      pending, fired := p[1..], fired + [ev];
      SortedFrame(timers);
    }

    /** One turn of the loop of `firePending`. */
    method FireFirst(ev: RilEvent, calls: seq<Call>)
      requires Valid() && pending != [] && ev == pending[0] && Known(calls)
      modifies this`timers, this`pending, this`fired, this`readFds, this`nfds, this`slots
      modifies watchTable, events, timerList, pendingList
      ensures Valid() && pending == old(pending)[1..] && fired == old(fired) + [ev]
      ensures TimersKept(old(timers), calls) && TableKept(old(watchTable[..]), calls) && FieldsKept(calls) && IndexKept(calls)
    {
      hide Ring, Linked, Sorted, TimerLess, DistinctFds, FdSet, Bound, Apart;
      TakePending(ev);
      RunCallback(calls);
    }

    /** `firePending`: every pending event fires once, in order, whatever its callback asks of the loop. */
    method FirePending(callbacks: seq<seq<Call>>)
      requires Valid() && forall i :: 0 <= i < |callbacks| ==> Known(callbacks[i])
      modifies this`timers, this`pending, this`fired, this`readFds, this`nfds, this`slots
      modifies watchTable, events, timerList, pendingList
      ensures Valid() && pending == [] && fired == old(fired) + old(pending)
      ensures TimersKept(old(timers), Made(callbacks, |old(pending)|))
      ensures TableKept(old(watchTable[..]), Made(callbacks, |old(pending)|)) && FieldsKept(Made(callbacks, |old(pending)|))
      ensures IndexKept(Made(callbacks, |old(pending)|))
    {
      hide Ring, Linked, Sorted, TimerLess, DistinctFds, FdSet, Bound, Apart, Timers, Asks, AsksForNoTimer, Made, Touches;
      ghost var p := pending;
      FirstNode(pendingList, pending);
      MadeNone(callbacks);
      var ev, i := pendingList.next, 0;
      while ev != pendingList
        invariant Valid() && i <= |p| && pending == p[i..] && fired == old(fired) + p[..i]
        invariant ev == Node(pendingList, pending, 0)
        invariant TimersKept(old(timers), Made(callbacks, i))
        invariant TableKept(old(watchTable[..]), Made(callbacks, i)) && FieldsKept(Made(callbacks, i)) && IndexKept(Made(callbacks, i))
        decreases |pending|
      {
        NextOfFirst(pendingList, pending);
        var next := ev.next;
        var calls := if i < |callbacks| then callbacks[i] else [];
        MadeNext(callbacks, i);
        AsksMore(Made(callbacks, i), calls);
        FireFirst(ev, calls);
        i := i + 1;
        ev := next;
      }
    }

    /** `calcNextTimeout`: no wait without timers; otherwise the time to the first deadline, which is the earliest. */
    method CalcNextTimeout(now: TimeVal) returns (wait: bool, tv: TimeVal)
      requires Rings() && Timers() && now.Normal()
      ensures wait <==> timers != []
      ensures wait ==> tv.Normal()
      ensures wait ==> forall e :: e in timers ==>
        if e.timeout.Micros() > now.Micros() then now.Micros() + tv.Micros() <= e.timeout.Micros() else tv.Micros() == 0
      ensures wait && tv.Micros() > 0 ==> exists e :: e in timers && e.timeout.Micros() == now.Micros() + tv.Micros()
    {
      hide Ring, Linked;
      FirstNode(timerList, timers);
      var tev := timerList.next;
      wait, tv := tev != timerList, TimeVal(0, 0);
      if wait {
        TimerLessIsMicros(now, tev.timeout);
        if TimerLess(now, tev.timeout) {
          TimerArithmetic(tev.timeout, now);
          tv := TimerSub(tev.timeout, now);
        }
        forall e | e in timers ensures e.timeout.Micros() >= tev.timeout.Micros() {
          TimerLessIsMicros(e.timeout, tev.timeout);
        }
        assert tev in timers;
      }
    }

    /** The first two thirds of a pass: expired timers, then ready events, become pending. */
    method Gather(rfds: set<int>, n: int, now: TimeVal) returns (ghost due: nat)
      requires Valid() && pending == [] && n >= |rfds|
      modifies this`timers, this`pending, this`readFds, this`nfds, this`slots, watchTable
      modifies events`index, events`next, events`prev, {timerList, pendingList}`next, {timerList, pendingList}`prev
      ensures Valid()
      ensures due <= |old(timers)| && timers == old(timers)[due..]
      ensures forall i :: 0 <= i < |old(timers)| ==> (i < due <==> old(TimerLess(timers[i].timeout, now)))
      ensures pending == old(timers)[..due] + Ready(old(watchTable[..]), old(slots), rfds)
      ensures forall i :: 0 <= i < MAX_FD_EVENTS ==>
        watchTable[i] == if old(StaysWatched(watchTable[i], rfds)) then old(watchTable[i]) else null
      ensures OneShotsLeft(rfds)
      ensures forall e :: e in events ==> e.index == old(e.index) || e.index == -1
    {
      hide Ring, Linked, Sorted, TimerLess, Apart, DistinctFds, FdSet, Bound, Ready;
      due := ProcessTimeouts(now);
      forall i | 0 <= i < MAX_FD_EVENTS && watchTable[i] != null ensures watchTable[i] !in pending {
        FdNotNegative(slots, i);
      }
      ProcessReadReadies(rfds, n);
    }

    /** After a pass, with its calls: a ready event that does not persist is unwatched, and no event is anew but by a call. */
    twostate predicate OneShotsDone(rfds: set<int>, calls: seq<Call>)
      reads this, watchTable, events
    {
      && watchTable.Length == MAX_FD_EVENTS && events == old(events)
      && (forall i :: 0 <= i < MAX_FD_EVENTS && old(watchTable[i]) != null ==>
            var e := old(watchTable[i]);
            e in events && (!old(e.persist) && old(e.fd) in rfds && !Touches(calls, e) ==>
              e.index == -1 && forall j :: 0 <= j < MAX_FD_EVENTS ==> watchTable[j] != e))
      && (forall e :: e in events && old(e.index) == -1 && !Touches(calls, e) ==> e.index == -1)
    }

    /** One pass of the loop after a successful `select`: the `due` expired timers fire first, then what was ready, */
    /** each event once. Nothing is lost: the other timers stay queued and `table`, what stays watched, stays watched, */
    /** but for what the callbacks delete, and only what they ask for is new. */
    method RunPass(r: Round) returns (ghost due: nat, ghost table: seq<RilEvent?>)
      requires Valid() && pending == [] && r.n >= |r.rfds|
      requires forall i :: 0 <= i < |r.callbacks| ==> Known(r.callbacks[i])
      modifies this`timers, this`pending, this`fired, this`readFds, this`nfds, this`slots
      modifies watchTable, events, timerList, pendingList
      ensures Valid() && pending == []
      ensures due <= |old(timers)|
      ensures forall i :: 0 <= i < |old(timers)| ==> (i < due <==> old(TimerLess(timers[i].timeout, r.now)))
      ensures |table| == MAX_FD_EVENTS
      ensures forall i :: 0 <= i < MAX_FD_EVENTS ==>
        table[i] == if old(StaysWatched(watchTable[i], r.rfds)) then old(watchTable[i]) else null
      ensures var firing := old(timers)[..due] + Ready(old(watchTable[..]), old(slots), r.rfds);
        && Distinct(firing) && fired == old(fired) + firing
        && TimersKept(old(timers)[due..], Made(r.callbacks, |firing|))
        && TableKept(table, Made(r.callbacks, |firing|)) && FieldsKept(Made(r.callbacks, |firing|))
        && OneShotsDone(r.rfds, Made(r.callbacks, |firing|))
    {
      hide Ring, Linked, Sorted, TimerLess, Apart, DistinctFds, FdSet, Bound, Ready, Distinct, Asks, AsksForNoTimer, Made;
      due := Gather(r.rfds, r.n, r.now);
      table := watchTable[..];
      RingIsDistinct(pendingList, pending);
      FirePending(r.callbacks);
    }

    /** What a pass does for each event queued or watched before it. */
    twostate predicate Attended(r: Round)
      reads this, watchTable, events
    {
      && watchTable.Length == MAX_FD_EVENTS && old(fired) <= fired
      && (forall e :: e in old(timers) ==> e in events)
      && (forall e :: e in old(timers) ==>
            && (e in fired[|old(fired)|..] <==> old(TimerLess(e.timeout, r.now)))
            && (old(TimerLess(e.timeout, r.now)) || (e in timers && e.timeout == old(e.timeout))))
      && (forall i :: 0 <= i < MAX_FD_EVENTS && old(watchTable[i]) != null && !Deletes(r.callbacks, old(watchTable[i])) ==>
            var e := old(watchTable[i]);
            && (e in fired[|old(fired)|..] <==> old(e.fd) in r.rfds)
            && (old(StaysWatched(e, r.rfds)) ==>
                  watchTable[i] == e && e in events && e.fd == old(e.fd) && e.persist == old(e.persist)))
    }

    /** Neither watched nor queued. */
    ghost predicate Idle(e: RilEvent)
      reads this, watchTable, e
    {
      && watchTable.Length == MAX_FD_EVENTS && e.index == -1 && e !in timers
      && forall j :: 0 <= j < MAX_FD_EVENTS ==> watchTable[j] != e
    }

    /** What a pass does for the events that no call is about: a ready one-shot fires once and is idle, an idle one stays so. */
    twostate predicate OneShotsAttended(r: Round)
      reads this, watchTable, events
    {
      && watchTable.Length == MAX_FD_EVENTS && events == old(events) && old(fired) <= fired
      && (forall i :: 0 <= i < MAX_FD_EVENTS && old(watchTable[i]) != null ==>
            var e := old(watchTable[i]);
            e in events && (!TouchedIn(r.callbacks, e) && !old(e.persist) && old(e.fd) in r.rfds ==>
              Idle(e) && Once(fired[|old(fired)|..], e)))
      && (forall e :: e in events && old(Idle(e)) && !TouchedIn(r.callbacks, e) ==> Idle(e) && e !in fired[|old(fired)|..])
    }

    method AttendRound(r: Round)
      requires Valid() && pending == [] && r.n >= |r.rfds|
      requires forall i :: 0 <= i < |r.callbacks| ==> Known(r.callbacks[i])
      modifies this`timers, this`pending, this`fired, this`readFds, this`nfds, this`slots
      modifies watchTable, events, timerList, pendingList
      ensures Valid() && pending == [] && Attended(r) && OneShotsAttended(r)
    {
      hide Ring, Linked, Sorted, TimerLess, Apart, DistinctFds, FdSet, Bound, Ready, Distinct, Asks, AsksForNoTimer, Made, Deletes, Touches, TouchedIn, Once;
      ghost var queued, done, watched, fds := timers, fired, watchTable[..], slots;
      WhatFires(r);
      ghost var due, table := RunPass(r);
      ghost var firing := queued[..due] + Ready(watched, fds, r.rfds);
      assert fired[|done|..] == firing;
      forall e | e in queued ensures e in queued[..due] || e in queued[due..] {
        assert queued == queued[..due] + queued[due..];
      }
      forall i | 0 <= i < MAX_FD_EVENTS && watched[i] != null && !Deletes(r.callbacks, watched[i])
        ensures DelCall(watched[i]) !in Made(r.callbacks, |firing|)
      {
        MadeDeletes(r.callbacks, |firing|, watched[i]);
      }
      forall e | e in events && !TouchedIn(r.callbacks, e)
        ensures !Touches(Made(r.callbacks, |firing|), e) && AddCall(e) !in Made(r.callbacks, |firing|)
        ensures !Asks(Made(r.callbacks, |firing|), e)
      {
        MadeTouches(r.callbacks, |firing|, e);
        TouchesNot(Made(r.callbacks, |firing|), e);
      }
      forall e | e in firing ensures Once(firing, e) {
        OnceInDistinct(firing, e);
      }
    }

    /** Timers and watched events are told apart by their descriptors, so each fires for its own reason only. */
    lemma WhatFires(r: Round)
      requires Valid()
      ensures forall i, j :: 0 <= i < |timers| && 0 <= j < |timers| && timers[i] == timers[j] ==> i == j
      ensures forall e :: e in timers ==> e !in Ready(watchTable[..], slots, r.rfds)
      ensures forall i :: 0 <= i < MAX_FD_EVENTS && watchTable[i] != null ==>
        && watchTable[i] !in timers
        && (watchTable[i] in Ready(watchTable[..], slots, r.rfds) <==> watchTable[i].fd in r.rfds)
      ensures forall e :: e in Ready(watchTable[..], slots, r.rfds) ==> exists i :: 0 <= i < MAX_FD_EVENTS && watchTable[i] == e
    {
      hide Sorted, TimerLess, Apart, Bound, FdSet, Linked;
      var ready := Ready(watchTable[..], slots, r.rfds);
      forall i | 0 <= i < MAX_FD_EVENTS && watchTable[i] != null
        ensures watchTable[i].fd >= 0 && (watchTable[i] in ready <==> watchTable[i].fd in r.rfds)
      {
        FdNotNegative(slots, i);
        if watchTable[i].fd in r.rfds {
          ReadyMember(watchTable[..], slots, r.rfds, i);
        }
        if watchTable[i] in ready {
          ReadyOnly(watchTable[..], slots, r.rfds, watchTable[i]);
        }
      }
      forall e | e in timers && e in ready ensures false {
        ReadyOnly(watchTable[..], slots, r.rfds, e);
      }
      forall e | e in ready ensures exists i :: 0 <= i < MAX_FD_EVENTS && watchTable[i] == e {
        ReadyOnly(watchTable[..], slots, r.rfds, e);
      }
    }

    /** What a run does for each of them. */
    twostate predicate AttendedAll(rounds: seq<Round>, served: nat)
      requires served <= |rounds|
      reads this, watchTable, events
    {
      && watchTable.Length == MAX_FD_EVENTS && old(fired) <= fired
      && (forall e :: e in old(timers) ==>
            && (e in fired[|old(fired)|..] <==> DueBy(rounds, served, old(e.timeout)))
            && (DueBy(rounds, served, old(e.timeout)) || (e in timers && e in events && e.timeout == old(e.timeout))))
      && (forall i :: 0 <= i < MAX_FD_EVENTS && old(watchTable[i]) != null && !DeletesBy(rounds, served, old(watchTable[i])) ==>
            var e := old(watchTable[i]);
            && (e in fired[|old(fired)|..] <==> ReadyBy(rounds, served, old(e.fd)))
            && (old(e.persist) || !ReadyBy(rounds, served, old(e.fd)) ==>
                  watchTable[i] == e && e in events && e.fd == old(e.fd) && e.persist == old(e.persist)))
    }

    /** A one-shot that was ready in a served round, and that no call was about, has fired once and is watched no more. */
    twostate predicate OneShotsOver(rounds: seq<Round>, served: nat)
      requires served <= |rounds|
      reads this, watchTable, events
    {
      && watchTable.Length == MAX_FD_EVENTS && events == old(events) && old(fired) <= fired
      && forall i :: 0 <= i < MAX_FD_EVENTS && old(watchTable[i]) != null ==>
           var e := old(watchTable[i]);
           e in events && (!TouchedBy(rounds, served, e) && !old(e.persist) && ReadyBy(rounds, served, old(e.fd)) ==>
             Idle(e) && Once(fired[|old(fired)|..], e))
    }

    /** The descriptors waited for are those of the watched events. */
    lemma ReadFdsAre()
      requires Watch()
      ensures forall fd :: fd in readFds <==> exists j :: 0 <= j < MAX_FD_EVENTS && watchTable[j] != null && watchTable[j].fd == fd
    {
      forall fd | fd in readFds ensures exists j :: 0 <= j < MAX_FD_EVENTS && watchTable[j] != null && watchTable[j].fd == fd {
        var j :| 0 <= j < |slots| && slots[j].Fd? && slots[j].fd == fd;
        assert watchTable[j] != null;
      }
    }

    /** `ril_event_loop`, over any run: it returns when `select` fails other than by a signal, after `served` rounds. */
    /** A timer queued at the start has fired exactly if a served round came after its deadline, and is queued otherwise. */
    /** A watched event no callback deletes has fired exactly if it was ready, and is still watched if it was not or persists. */
    method Run(rounds: seq<Round>) returns (ghost served: nat)
      requires Valid() && pending == []
      requires forall i :: 0 <= i < |rounds| ==> rounds[i].n < 0 || rounds[i].n >= |rounds[i].rfds|
      requires forall i, j :: 0 <= i < |rounds| && 0 <= j < |rounds[i].callbacks| ==> Known(rounds[i].callbacks[j])
      modifies this`timers, this`pending, this`fired, this`readFds, this`nfds, this`slots
      modifies watchTable, events, timerList, pendingList
      ensures Valid() && pending == [] && old(fired) <= fired
      ensures served <= |rounds| && forall t :: 0 <= t < served ==> rounds[t].n >= 0 || rounds[t].interrupted
      ensures served < |rounds| ==> rounds[served].n < 0 && !rounds[served].interrupted
      ensures AttendedAll(rounds, served) && OneShotsOver(rounds, served)
      ensures forall fd :: fd in readFds <==> exists j :: 0 <= j < MAX_FD_EVENTS && watchTable[j] != null && watchTable[j].fd == fd
    {
      hide Ring, Linked, Sorted, TimerLess, DistinctFds, FdSet, Bound, Apart, Timers, DueBy, ReadyBy, Deletes, DeletesBy, TouchedIn, TouchedBy, Once, Idle;
      served := 0;
      NothingServed(rounds);
      for t := 0 to |rounds|
        invariant Valid() && pending == [] && served == t
        invariant forall t' :: 0 <= t' < t ==> rounds[t'].n >= 0 || rounds[t'].interrupted
        invariant AttendedAll(rounds, t) && OneShotsOver(rounds, t)
      {
        NextRound(rounds, t);
        TouchedWhenDeleted(rounds, t);
        if rounds[t].n < 0 {
          if rounds[t].interrupted {
            served := t + 1;
            continue;
          }
          ReadFdsAre();
          return;
        }
        ghost var done := fired;
        AttendRound(rounds[t]);
        FiredLater(|old(fired)|, done, fired);
        OnceMore(|old(fired)|, done, fired);
        served := t + 1;
      }
      ReadFdsAre();
    }
  }
}
