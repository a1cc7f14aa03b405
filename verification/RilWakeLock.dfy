/**
 * The partial wake lock around unsolicited responses (libril/ril.cpp): a message that must wake the phone takes the lock,
 * and a timer gives it back 200 ms later. Each function is one step; timers are fired by the event loop once overdue.
 */
module RilWakeLock {
  import opened Bytes
  import opened RilTime

  const WAKE_TIMEOUT := TimeVal(0, 200000)

  /** `UserCallbackInfo` of a wake timer; `cancelled` is "param != NULL". */
  class WakeTimer {
    const deadline: TimeVal
    var cancelled: bool

    constructor (now: TimeVal)
      requires now.Normal()
      ensures deadline == RilTime.TimerAdd(now, WAKE_TIMEOUT) && !cancelled
    {
      deadline, cancelled := RilTime.TimerAdd(now, WAKE_TIMEOUT), false;
    }
  }

  /** What `RIL_onUnsolicitedResponse` meets: whether the message wakes, whether its response function succeeds, the time. */
  datatype Message = Message(wake: bool, ok: bool, now: TimeVal)

  /** Whether the last lock taken was dropped by a failing message, after one more message. */
  function FailedAfter(failed: bool, m: Message): bool {
    if m.wake then !m.ok else failed
  }

  function FailedAfterAll(failed: bool, ms: seq<Message>): bool {
    if ms == [] then failed else FailedAfter(FailedAfterAll(failed, ms[..|ms| - 1]), ms[|ms| - 1])
  }

  /** After several messages, the lock counts as dropped exactly when the last of them that wakes failed. */
  lemma {:induction false} FailedAfterAllIff(failed: bool, ms: seq<Message>)
    ensures FailedAfterAll(failed, ms) <==>
      (exists i :: 0 <= i < |ms| && ms[i].wake && !ms[i].ok && (forall j :: i < j < |ms| ==> !ms[j].wake))
      || (failed && forall i :: 0 <= i < |ms| ==> !ms[i].wake)
  {
    if ms != [] {
      var l, m := ms[..|ms| - 1], ms[|ms| - 1];
      FailedAfterAllIff(failed, l);
      assert forall i :: 0 <= i < |l| ==> ms[i] == l[i];
      if m.wake && !m.ok {
        assert ms[|ms| - 1].wake;
      }
    }
  }

  class WakeLock {
    var held: bool
    var last: WakeTimer?
    var timers: set<WakeTimer>
    /** When the last timer was scheduled, and whether a failing message has dropped the lock since it was last taken. */
    ghost var scheduled: int
    ghost var failed: bool

    /** The last timer is queued and live, due 200 ms after it was scheduled; every other queued timer is cancelled. */
    ghost predicate Timers()
      reads this, timers
    {
      && (last != null ==>
        last in timers && !last.cancelled && last.deadline.Normal() && last.deadline.Micros() == scheduled + 200000)
      && forall t :: t in timers && t != last ==> t.cancelled
    }

    /** The lock is held exactly while a live timer is queued, except after a failing message. */
    ghost predicate Valid()
      reads this, timers
    {
      Timers() && (held <==> last != null && !failed)
    }

    constructor ()
      ensures Valid() && !held && !failed && timers == {}
    {
      held, last, timers, scheduled, failed := false, null, {}, 0, false;
    }

    /** Cancel the previous timer and queue a new one. */
    method Schedule(now: TimeVal)
      requires Timers() && now.Normal()
      modifies this`last, this`timers, this`scheduled, timers
      ensures Timers() && last != null && fresh(last) && timers == old(timers) + {last} && scheduled == now.Micros()
    {
      if last != null {
        last.cancelled := true;
      }
      TimerArithmetic(now, WAKE_TIMEOUT);
      last := new WakeTimer(now);
      timers, scheduled := timers + {last}, now.Micros();
    }

    /** `RIL_onUnsolicitedResponse` around a message that makes no others; a failing one drops the lock at once. */
    method Handle(m: Message)
      requires Timers() && m.now.Normal()
      modifies this, timers
      ensures Timers() && fresh(timers - old(timers)) && old(timers) <= timers
      ensures failed == FailedAfter(old(failed), m) && held == if m.wake then m.ok else old(held)
      ensures m.wake && m.ok ==> last != null && scheduled == m.now.Micros()
      ensures !(m.wake && m.ok) ==> last == old(last) && scheduled == old(scheduled)
    {
      if m.wake {
        held := true;
      }
      if !m.ok {
        if m.wake {
          held := false;
        }
      } else if m.wake {
        Schedule(m.now);
      }
      failed := FailedAfter(failed, m);
    }

    method OnUnsolicitedResponse(m: Message)
      requires Valid() && m.now.Normal()
      modifies this, timers
      ensures Valid() && fresh(timers - old(timers)) && old(timers) <= timers
      ensures failed == FailedAfter(old(failed), m)
      ensures m.wake && m.ok ==> held && last != null && scheduled == m.now.Micros()
      ensures !(m.wake && m.ok) ==> last == old(last) && scheduled == old(scheduled)
    {
      Handle(m);
    }

    /** The radio state message: it sends other messages after taking the lock and before queueing its own timer. */
    method OnRadioStateChanged(now: TimeVal, inner: seq<Message>)
      requires Valid() && now.Normal() && forall i :: 0 <= i < |inner| ==> inner[i].now.Normal()
      modifies this, timers
      ensures Valid() && fresh(timers - old(timers)) && old(timers) <= timers
      ensures failed == FailedAfterAll(false, inner)
      ensures last != null && scheduled == now.Micros() && (held <==> !failed)
    {
      held, failed := true, false;
      for i := 0 to |inner|
        invariant Timers() && fresh(timers - old(timers)) && old(timers) <= timers
        invariant failed == FailedAfterAll(false, inner[..i]) && (held <==> !failed)
      {
        Handle(inner[i]);
        assert inner[..i + 1][..i] == inner[..i];
      }
      assert inner[..|inner|] == inner;
      Schedule(now);
    }

    /** `userTimerCallback` with `wakeTimeoutCallback`, for an overdue timer: only the last one gives the lock back. */
    method Fire(t: WakeTimer, now: TimeVal) returns (released: bool)
      requires Valid() && t in timers && TimerLess(t.deadline, now) && now.Normal()
      modifies this`held, this`last, this`timers
      ensures Valid() && timers == old(timers) - {t}
      ensures released <==> t == old(last)
      ensures released ==> !held && now.Micros() > scheduled + 200000
      ensures !released ==> held == old(held) && last == old(last)
    {
      released := !t.cancelled;
      if released {
        TimerLessIsMicros(t.deadline, now);
        held := false;
      }
      if last != null && last == t {
        last := null;
      }
      timers := timers - {t};
    }

    /** A pass of the event loop over the overdue timers. */
    method Timeouts(now: TimeVal) returns (released: bool)
      requires Valid() && now.Normal()
      modifies this`held, this`last, this`timers
      ensures Valid() && timers == set t | t in old(timers) && !TimerLess(t.deadline, now)
      ensures released <==> old(last) != null && TimerLess(old(last).deadline, now)
      ensures released ==> !held && now.Micros() > scheduled + 200000
      ensures !released ==> held == old(held) && last == old(last)
    {
      released := false;
      var due := set t | t in timers && TimerLess(t.deadline, now);
      while due != {}
        invariant Valid() && due == (set t | t in timers && TimerLess(t.deadline, now))
        invariant timers - due == set t | t in old(timers) && !TimerLess(t.deadline, now)
        invariant released <==> last != old(last)
        invariant released ==> last == null && old(last) != null && TimerLess(old(last).deadline, now)
        invariant released ==> !held && now.Micros() > scheduled + 200000
        invariant !released ==> held == old(held)
        decreases due
      {
        var t :| t in due;
        var r := Fire(t, now);
        due, released := due - {t}, released || r;
      }
    }
  }

  datatype Step = Unsolicited(m: Message) | RadioState(now: TimeVal, inner: seq<Message>) | Tick(now: TimeVal)
  {
    predicate Normal() {
      match this
      case Unsolicited(m) => m.now.Normal()
      case RadioState(now, inner) => now.Normal() && forall i :: 0 <= i < |inner| ==> inner[i].now.Normal()
      case Tick(now) => now.Normal()
    }
  }

  /** The messages a step sends, each where it takes the lock. */
  function Sent(s: Step): seq<Message> {
    match s
    case Unsolicited(m) => [m]
    case RadioState(now, inner) => [Message(true, true, now)] + inner
    case Tick(_) => []
  }

  function AllSent(steps: seq<Step>): seq<Message> {
    if steps == [] then [] else AllSent(steps[..|steps| - 1]) + Sent(steps[|steps| - 1])
  }

  lemma {:induction false} FailedAfterConcat(failed: bool, a: seq<Message>, b: seq<Message>)
    ensures FailedAfterAll(failed, a + b) == FailedAfterAll(FailedAfterAll(failed, a), b)
  {
    if b == [] {
      assert a + b == a;
    } else {
      var i := |b| - 1;
      FailedAfterConcat(failed, a, b[..i]);
      assert (a + b)[..|a + b| - 1] == a + b[..i];
    }
  }

  lemma FailedAfterNone(failed: bool)
    ensures FailedAfterAll(failed, []) == failed
  {
  }

  lemma FailedAfterOne(failed: bool, m: Message)
    ensures FailedAfterAll(failed, [m]) == FailedAfter(failed, m)
  {
    assert [m][..0] == [];
  }

  /** When a step queues a wake timer: the time of the message, the outer one for a radio state message. */
  function Schedules(s: Step): Option<int> {
    match s
    case Unsolicited(m) => if m.wake && m.ok then Some(m.now.Micros()) else None
    case RadioState(now, _) => Some(now.Micros())
    case Tick(_) => None
  }

  /** When the last message that queued a wake timer came. */
  function LastScheduled(steps: seq<Step>): Option<int> {
    if steps == [] then None
    else
      var i := |steps| - 1;
      if Schedules(steps[i]).Some? then Schedules(steps[i]) else LastScheduled(steps[..i])
  }

  /** When the timer that would still give the lock back was queued. */
  function Pending(steps: seq<Step>): Option<int> {
    if steps == [] then None
    else
      var i := |steps| - 1;
      if Schedules(steps[i]).Some? then Schedules(steps[i])
      else if Releases(Pending(steps[..i]), steps[i]) then None
      else Pending(steps[..i])
  }

  /** Whether a step lets the pending timer give the lock back. */
  predicate Releases(pending: Option<int>, s: Step) {
    s.Tick? && pending.Some? && s.now.Micros() > pending.value + 200000
  }

  /** The pending timer is that of the last message that queued one. */
  lemma {:induction false} PendingIsLast(steps: seq<Step>)
    ensures Pending(steps).Some? ==> Pending(steps) == LastScheduled(steps)
  {
    if steps != [] {
      PendingIsLast(steps[..|steps| - 1]);
    }
  }

  /** One step; `pending` is when the live timer was queued, if there is one. */
  method Perform(w: WakeLock, s: Step, ghost pending: Option<int>) returns (released: bool)
    requires w.Valid() && s.Normal()
    requires w.last != null <==> pending.Some?
    requires pending.Some? ==> w.scheduled == pending.value
    modifies w, w.timers
    ensures w.Valid() && fresh(w.timers - old(w.timers))
    ensures w.failed == FailedAfterAll(old(w.failed), Sent(s))
    ensures released <==> Releases(pending, s)
    ensures w.last != null <==> Schedules(s).Some? || (pending.Some? && !released)
    ensures w.last != null ==> w.scheduled == if Schedules(s).Some? then Schedules(s).value else pending.value
  {
    hide FailedAfterAll, TimerLess;
    released := false;
    match s
    case Unsolicited(m) =>
      FailedAfterOne(w.failed, m);
      w.OnUnsolicitedResponse(m);
    case RadioState(now, inner) =>
      FailedAfterConcat(w.failed, [Message(true, true, now)], inner);
      FailedAfterOne(w.failed, Message(true, true, now));
      w.OnRadioStateChanged(now, inner);
    case Tick(now) =>
      FailedAfterNone(w.failed);
      if w.last != null {
        TimerLessIsMicros(w.last.deadline, now);
      }
      released := w.Timeouts(now);
  }

  /** Which of the first steps gave the lock back. */
  predicate ReleasesAre(steps: seq<Step>, releases: seq<bool>) {
    && |releases| <= |steps|
    && forall i :: 0 <= i < |releases| ==> (releases[i] <==> Releases(Pending(steps[..i]), steps[i]))
  }

  lemma NextStep(steps: seq<Step>, releases: seq<bool>, released: bool)
    requires ReleasesAre(steps, releases) && |releases| < |steps|
    ensures var i := |releases|;
      && AllSent(steps[..i + 1]) == AllSent(steps[..i]) + Sent(steps[i])
      && Pending(steps[..i + 1]) == (if Schedules(steps[i]).Some? then Schedules(steps[i])
                                     else if Releases(Pending(steps[..i]), steps[i]) then None else Pending(steps[..i]))
      && ((released <==> Releases(Pending(steps[..i]), steps[i])) ==> ReleasesAre(steps, releases + [released]))
  {
    hide Releases, Schedules, Sent, TimeVal.Micros, AllSent, Pending;
    var i := |releases|;
    var next := steps[..i + 1];
    assert next[..|next| - 1] == steps[..i] && next[|next| - 1] == steps[i];
    LastOfSteps(next);
  }

  lemma LastOfSteps(steps: seq<Step>)
    requires steps != []
    ensures var i := |steps| - 1;
      && AllSent(steps) == AllSent(steps[..i]) + Sent(steps[i])
      && Pending(steps) == (if Schedules(steps[i]).Some? then Schedules(steps[i])
                            else if Releases(Pending(steps[..i]), steps[i]) then None else Pending(steps[..i]))
  {
    hide Releases, Schedules, Sent;
  }

  lemma NoSteps(steps: seq<Step>)
    ensures AllSent(steps[..0]) == [] && Pending(steps[..0]) == None && !FailedAfterAll(false, []) && ReleasesAre(steps, [])
    ensures steps[..|steps|] == steps
  {
  }

  /** A release comes more than 200 ms after the last message so far that queued a timer. */
  lemma ReleaseIsLate(steps: seq<Step>, i: nat)
    requires i < |steps| && Releases(Pending(steps[..i]), steps[i])
    ensures var last := LastScheduled(steps[..i]); last.Some? && steps[i].Tick? && steps[i].now.Micros() > last.value + 200000
  {
    PendingIsLast(steps[..i]);
  }

  /** What the releases of a whole run are. */
  lemma ReleasesMean(steps: seq<Step>, releases: seq<bool>)
    requires ReleasesAre(steps, releases) && |releases| == |steps|
    ensures forall i :: 0 <= i < |steps| ==> (releases[i] <==>
      var pending := Pending(steps[..i]); steps[i].Tick? && pending.Some? && steps[i].now.Micros() > pending.value + 200000)
    ensures forall i :: 0 <= i < |steps| && releases[i] ==>
      var last := LastScheduled(steps[..i]); last.Some? && steps[i].Tick? && steps[i].now.Micros() > last.value + 200000
  {
    hide Pending, LastScheduled, TimeVal.Micros;
    forall i | 0 <= i < |steps| && releases[i]
      ensures var last := LastScheduled(steps[..i]);
        last.Some? && steps[i].Tick? && steps[i].now.Micros() > last.value + 200000
    {
      ReleaseIsLate(steps, i);
    }
  }

  /**
   * Over any run, the ticks at which a timer gives the lock back are exactly those more than 200 ms after the message whose
   * timer is pending, which is the last message so far that queued one; and the lock is held exactly while a timer is
   * pending, provided the last message that wakes succeeded.
   */
  method RunSteps(steps: seq<Step>) returns (w: WakeLock, releases: seq<bool>)
    requires forall i :: 0 <= i < |steps| ==> steps[i].Normal()
    ensures fresh(w) && w.Timers() && |releases| == |steps|
    ensures forall i :: 0 <= i < |steps| ==> (releases[i] <==>
      var pending := Pending(steps[..i]); steps[i].Tick? && pending.Some? && steps[i].now.Micros() > pending.value + 200000)
    ensures forall i :: 0 <= i < |steps| && releases[i] ==>
      var last := LastScheduled(steps[..i]); last.Some? && steps[i].Tick? && steps[i].now.Micros() > last.value + 200000
    ensures w.last != null <==> Pending(steps).Some?
    ensures w.held <==> Pending(steps).Some? && !FailedAfterAll(false, AllSent(steps))
  {
    hide Pending, LastScheduled, ReleasesAre, FailedAfterAll, AllSent, TimeVal.Micros;
    w := new WakeLock();
    releases := [];
    NoSteps(steps);
    for i := 0 to |steps|
      invariant fresh(w) && fresh(w.timers) && w.Valid() && |releases| == i && ReleasesAre(steps, releases)
      invariant w.failed == FailedAfterAll(false, AllSent(steps[..i]))
      invariant w.last != null <==> Pending(steps[..i]).Some?
      invariant w.last != null ==> w.scheduled == Pending(steps[..i]).value
    {
      hide *;
      FailedAfterConcat(false, AllSent(steps[..i]), Sent(steps[i]));
      var released := Perform(w, steps[i], Pending(steps[..i]));
      NextStep(steps, releases, released);
      releases := releases + [released];
    }
    ReleasesMean(steps, releases);
  }

  /** A message that wakes, and one that wakes and fails a microsecond later. */
  const DROPPING := [Unsolicited(Message(true, true, TimeVal(0, 0))), Unsolicited(Message(true, false, TimeVal(0, 1)))]

  /** After them a timer is pending, 200 ms are far from over, and yet the lock counts as dropped. */
  lemma FailureDropsLock()
    ensures Pending(DROPPING) == Some(0) && LastScheduled(DROPPING) == Some(0) && FailedAfterAll(false, AllSent(DROPPING))
  {
    hide TimeVal.Micros;
    var first, a, b := DROPPING[..1], DROPPING[0].m, DROPPING[1].m;
    assert first == [Unsolicited(a)] && first[..0] == [] && DROPPING[..|DROPPING| - 1] == first;
    StartIsZero();
    assert AllSent(first) == [a] && Pending(first) == Some(0) && LastScheduled(first) == Some(0);
    assert AllSent(DROPPING) == [a] + [b] && Schedules(DROPPING[1]).None?;
    FailedAfterConcat(false, [a], [b]);
    FailedAfterOne(FailedAfterAll(false, [a]), b);
  }

  lemma StartIsZero()
    ensures TimeVal(0, 0).Micros() == 0
  {
  }

  /** The lock itself after that run: given up under a pending timer. */
  method RunDropping() returns (w: WakeLock)
    ensures fresh(w) && w.Timers() && w.last != null && !w.held
  {
    var releases;
    w, releases := RunSteps(DROPPING);
    FailureDropsLock();
  }
}
