/**
 * The waitable queue between threads (immvibe/threadqueue.c): the same calls cut into the steps other threads can see.
 * A step is taken by one thread; one that its thread cannot take leaves the state as it is, so a run is any list of steps.
 */
module ThreadQueueProtocol {
  import opened ThreadQueueSpec

  /** Where a thread is inside `thread_queue_add` or `thread_queue_get`. */
  datatype Pc =
    | Idle
    | AddEntry(m: Message)
    | AddLocked(m: Message)
    | AddLinked
    | AddSignalled
    | AddDone
    | GetEntry(timed: bool)
    | GetLoop(timed: bool, timedOut: bool)
    | GetWaiting(timed: bool)
    | GetWoken(timed: bool, timedOut: bool)
    | GetTake
    | GetDone
  {
    predicate Locked() {
      AddLocked? || AddLinked? || AddSignalled? || AddDone? || GetLoop? || GetTake? || GetDone?
    }
  }

  /**
   * `pool` counts the spare nodes. The history is `added`, what was linked, in lock order, `returned`, what `get` handed
   * out, and `calls`, the calls in the order they took effect.
   */
  datatype State = State(holder: int, queue: seq<Message>, length: int, pool: nat, pcs: map<int, Pc>,
                         added: seq<Message>, returned: seq<Message>, calls: seq<Op>)
  {
    function At(t: int): Pc {
      if t in pcs then pcs[t] else Idle
    }

    function Goto(t: int, pc: Pc): State {
      this.(pcs := pcs[t := pc])
    }
  }

  const NOBODY := -1

  const START := State(NOBODY, [], 0, 0, map[], [], [], [])

  datatype Action =
    | CallAdd(m: Message)
    | CallGet(timed: bool)
    | Lock
    | Proceed(canAllocate: bool)
    | SpuriousWakeup
    | Timeout

  function Woken(pc: Pc): Pc {
    if pc.GetWaiting? then GetWoken(pc.timed, false) else pc
  }

  /** `pthread_cond_broadcast`. */
  function WakeAll(pcs: map<int, Pc>): map<int, Pc> {
    map t | t in pcs :: Woken(pcs[t])
  }

  function Broadcast(s: State): State {
    s.(pcs := WakeAll(s.pcs))
  }

  /** The holder's next statement. */
  function Advance(s: State, t: int, canAllocate: bool): State {
    match s.At(t)
    case AddLocked(m) =>
      var s' := s.(calls := s.calls + [AddOp(m, canAllocate)]);
      if s.pool == 0 && !canAllocate then s'.(holder := NOBODY).Goto(t, Idle)
      else
        s'.(pool := if s.pool == 0 then 0 else s.pool - 1, queue := s.queue + [m], added := s.added + [m]).Goto(t, AddLinked)
    case AddLinked =>
      (if s.length == 0 then Broadcast(s) else s).Goto(t, AddSignalled)
    case AddSignalled => s.(length := s.length + 1).Goto(t, AddDone)
    case AddDone => s.(holder := NOBODY).Goto(t, Idle)
    case GetLoop(timed, timedOut) =>
      if timedOut then s.(holder := NOBODY, calls := s.calls + [GetOp(true)]).Goto(t, Idle)
      else if s.queue == [] then s.(holder := NOBODY).Goto(t, GetWaiting(timed))
      else s.Goto(t, GetTake)
    case GetTake =>
      if s.queue == [] then s
      else
        var length' := if |s.queue| == 1 then 0 else s.length - 1;
        s.(queue := s.queue[1..], length := length', pool := if length' < 0 then s.pool else Released(s.pool, length'),
           returned := s.returned + [s.queue[0]], calls := s.calls + [GetOp(false)]).Goto(t, GetDone)
    case GetDone => s.(holder := NOBODY).Goto(t, Idle)
    case _ => s
  }

  function Step(s: State, t: int, a: Action): State {
    if t < 0 then s
    else
      var pc := s.At(t);
      match a
      case CallAdd(m) => if pc.Idle? then s.Goto(t, AddEntry(m)) else s
      case CallGet(timed) => if pc.Idle? then s.Goto(t, GetEntry(timed)) else s
      case Lock =>
        if s.holder != NOBODY then s
        else if pc.AddEntry? then s.(holder := t).Goto(t, AddLocked(pc.m))
        else if pc.GetEntry? then s.(holder := t).Goto(t, GetLoop(pc.timed, false))
        else if pc.GetWoken? then s.(holder := t).Goto(t, GetLoop(pc.timed, pc.timedOut))
        else s
      case Proceed(canAllocate) => if s.holder == t then Advance(s, t, canAllocate) else s
      case SpuriousWakeup => if pc.GetWaiting? then s.Goto(t, GetWoken(pc.timed, false)) else s
      case Timeout => if pc.GetWaiting? && pc.timed then s.Goto(t, GetWoken(true, true)) else s
  }

  function RunFrom(s: State, steps: seq<(int, Action)>): State {
    if steps == [] then s
    else
      var i := |steps| - 1;
      Step(RunFrom(s, steps[..i]), steps[i].0, steps[i].1)
  }

  function Run(steps: seq<(int, Action)>): State {
    RunFrom(START, steps)
  }

  // ---- What every step keeps

  /** The holder of the mutex is the one thread between a lock and an unlock. */
  ghost predicate Exclusive(s: State) {
    forall t :: s.At(t).Locked() <==> t == s.holder && s.holder != NOBODY
  }

  /** `length` counts the queue except while an `add` has linked its message and not yet counted it. */
  ghost predicate Counted(s: State) {
    var pc := s.At(s.holder);
    && s.length == |s.queue| - (if pc.AddLinked? || pc.AddSignalled? then 1 else 0)
    && s.length >= 0
    && (pc.GetTake? ==> s.queue != [])
  }

  /** Nobody waits on a queue with messages, except just before the broadcast for the first of them. */
  ghost predicate NobodyMissed(s: State) {
    forall t :: s.At(t).GetWaiting? ==> s.queue == [] || (|s.queue| == 1 && s.At(s.holder).AddLinked?)
  }

  ghost predicate Invariant(s: State) {
    && s.At(NOBODY) == Idle
    && Exclusive(s) && Counted(s) && NobodyMissed(s)
    && s.added == s.returned + s.queue
  }

  /** Whole calls, in the order they took effect, explain the queue, the pool and the history. */
  ghost predicate Explained(s: State) {
    Replay(s.calls) == View(s.queue, s.pool, s.added, s.returned)
  }

  lemma StartIsFine()
    ensures Invariant(START) && Explained(START)
  {
  }

  lemma BroadcastLeavesNobody(s: State, t: int, pc: Pc)
    ensures forall u :: Broadcast(s).Goto(t, pc).At(u) == if u == t then pc else Woken(s.At(u))
    ensures Broadcast(s) == s.(pcs := Broadcast(s).pcs)
  {
  }

  lemma BroadcastKeepsInvariant(s: State, t: int)
    requires Invariant(s) && s.holder == t && t >= 0 && s.At(t).AddLinked?
    ensures Invariant(Broadcast(s).Goto(t, AddSignalled))
  {
    hide Broadcast;
    BroadcastLeavesNobody(s, t, AddSignalled);
  }

  lemma AdvanceKeepsInvariant(s: State, t: int, canAllocate: bool)
    requires Invariant(s) && s.holder == t && t >= 0
    ensures Invariant(Advance(s, t, canAllocate))
  {
    hide Broadcast, Released;
    if s.At(t).AddLinked? && s.length == 0 {
      BroadcastKeepsInvariant(s, t);
    } else {
      var s' := Advance(s, t, canAllocate);
      assert forall u :: u != t ==> s'.At(u) == s.At(u);
      assert s.At(t).GetTake? ==> s.queue == [s.queue[0]] + s.queue[1..];
    }
  }

  lemma StepKeepsInvariant(s: State, t: int, a: Action)
    requires Invariant(s)
    ensures Invariant(Step(s, t, a))
  {
    hide Advance;
    if a.Proceed? {
      if s.holder == t && t >= 0 {
        AdvanceKeepsInvariant(s, t, a.canAllocate);
      }
    } else {
      var s' := Step(s, t, a);
      assert forall u :: u != t ==> s'.At(u) == s.At(u);
    }
  }

  lemma StepKeepsExplained(s: State, t: int, a: Action)
    requires Invariant(s) && Explained(s)
    ensures Explained(Step(s, t, a))
  {
    hide Broadcast, Released, Replay, Exclusive, NobodyMissed;
    BroadcastLeavesNobody(s, t, AddSignalled);
    var s' := Step(s, t, a);
    if s'.calls != s.calls {
      ReplaySnoc(s.calls, s'.calls[|s.calls|]);
    }
  }

  lemma {:induction false} RunFromKeepsInvariant(s: State, steps: seq<(int, Action)>)
    requires Invariant(s) && Explained(s)
    ensures Invariant(RunFrom(s, steps)) && Explained(RunFrom(s, steps))
  {
    if steps != [] {
      hide Invariant, Explained, Step;
      var i := |steps| - 1;
      RunFromKeepsInvariant(s, steps[..i]);
      StepKeepsInvariant(RunFrom(s, steps[..i]), steps[i].0, steps[i].1);
      StepKeepsExplained(RunFrom(s, steps[..i]), steps[i].0, steps[i].1);
    }
  }

  lemma RunKeepsInvariant(steps: seq<(int, Action)>)
    ensures Invariant(Run(steps)) && Explained(Run(steps))
  {
    hide RunFrom;
    StartIsFine();
    RunFromKeepsInvariant(START, steps);
  }

  // ---- What users of the queue get

  /** No lost wakeup: whenever the mutex is free and there is a message, no thread is left waiting un-notified. */
  lemma NoLostWakeup(steps: seq<(int, Action)>, t: int)
    requires Run(steps).holder == NOBODY && Run(steps).queue != []
    ensures !Run(steps).At(t).GetWaiting?
  {
    hide Run;
    RunKeepsInvariant(steps);
  }

  /** First in, first out: what was returned, then what is queued, is what was added in lock order. */
  lemma {:induction false} FirstInFirstOut(steps: seq<(int, Action)>)
    ensures Run(steps).returned <= Run(steps).added
    ensures Run(steps).added == Run(steps).returned + Run(steps).queue
  {
    hide Run;
    RunKeepsInvariant(steps);
  }

  lemma NobodyToWake(pcs: map<int, Pc>)
    requires forall u :: u in pcs ==> !pcs[u].GetWaiting?
    ensures WakeAll(pcs) == pcs
  {
    var woken := WakeAll(pcs);
    assert woken.Keys == pcs.Keys;
    assert forall u :: u in pcs ==> woken[u] == pcs[u];
  }

  /** Broadcasting on every `add` would change nothing: with a message already counted there is nobody to wake. */
  lemma BroadcastOnFirstSuffices(steps: seq<(int, Action)>, t: int)
    requires var s := Run(steps); s.holder == t && s.At(t).AddLinked?
    ensures var s := Run(steps); Advance(s, t, true) == Broadcast(s).Goto(t, AddSignalled)
  {
    hide Run;
    RunKeepsInvariant(steps);
    var s := Run(steps);
    if s.length != 0 {
      forall u | u in s.pcs ensures !s.pcs[u].GetWaiting? {
        assert s.At(u) == s.pcs[u];
      }
      NobodyToWake(s.pcs);
    }
  }

  /** Whole calls in some order explain every run: replaying them gives the queue, the pool and the history. */
  lemma CallsExplainRun(steps: seq<(int, Action)>)
    ensures var s := Run(steps);
      && Replay(s.calls) == View(s.queue, s.pool, s.added, s.returned)
      && (s.holder == NOBODY ==> s.length == |s.queue|)
  {
    hide Run, Replay;
    RunKeepsInvariant(steps);
  }

  // ---- A thread between lock and unlock, while others take any steps

  /** What the holder of the mutex sees and changes. */
  datatype Core = Core(holder: int, queue: seq<Message>, length: int, pool: nat, added: seq<Message>, returned: seq<Message>,
                       calls: seq<Op>, pc: Pc)

  function CoreOf(s: State, t: int): Core {
    Core(s.holder, s.queue, s.length, s.pool, s.added, s.returned, s.calls, s.At(t))
  }

  /** The steps of one thread. */
  function Own(steps: seq<(int, Action)>, t: int): seq<(int, Action)> {
    if steps == [] then []
    else
      var i := |steps| - 1;
      Own(steps[..i], t) + if steps[i].0 == t then [steps[i]] else []
  }

  lemma OtherSteps(s: State, t: int, u: int, a: Action)
    requires s.holder == t && t >= 0 && u != t
    ensures CoreOf(Step(s, u, a), t) == CoreOf(s, t)
  {
    hide Advance;
  }

  lemma OwnBroadcast(s: State, s': State, t: int)
    requires CoreOf(s, t) == CoreOf(s', t)
    ensures CoreOf(Broadcast(s).Goto(t, AddSignalled), t) == CoreOf(Broadcast(s').Goto(t, AddSignalled), t)
  {
    hide Broadcast;
    BroadcastLeavesNobody(s, t, AddSignalled);
    BroadcastLeavesNobody(s', t, AddSignalled);
  }

  lemma OwnTake(s: State, s': State, t: int, canAllocate: bool)
    requires CoreOf(s, t) == CoreOf(s', t) && (s.At(t).GetTake? || s.At(t).AddLocked?)
    ensures CoreOf(Advance(s, t, canAllocate), t) == CoreOf(Advance(s', t, canAllocate), t)
  {
    hide Broadcast, Released;
  }

  lemma OwnAdvance(s: State, s': State, t: int, canAllocate: bool)
    requires CoreOf(s, t) == CoreOf(s', t)
    ensures CoreOf(Advance(s, t, canAllocate), t) == CoreOf(Advance(s', t, canAllocate), t)
  {
    hide Broadcast, Released;
    if s.At(t).GetTake? || s.At(t).AddLocked? {
      OwnTake(s, s', t, canAllocate);
    } else if s.At(t).AddLinked? && s.length == 0 {
      OwnBroadcast(s, s', t);
    }
  }

  lemma OwnStep(s: State, s': State, t: int, a: Action)
    requires CoreOf(s, t) == CoreOf(s', t) && s.holder == t && t >= 0
    ensures CoreOf(Step(s, t, a), t) == CoreOf(Step(s', t, a), t)
  {
    hide Advance;
    if a.Proceed? {
      OwnAdvance(s, s', t, a.canAllocate);
    }
  }

  lemma HoldsBefore(s: State, t: int, own: seq<(int, Action)>, before: seq<(int, Action)>)
    requires before <= own && forall k :: 0 <= k <= |own| ==> HoldsAfter(s, t, own, k)
    ensures (forall k :: 0 <= k <= |before| ==> HoldsAfter(s, t, before, k)) && RunFrom(s, before).holder == t
  {
    hide RunFrom;
    forall k | 0 <= k <= |before| ensures HoldsAfter(s, t, before, k) {
      assert own[..k] == before[..k] && HoldsAfter(s, t, own, k);
    }
    assert HoldsAfter(s, t, before, |before|) && before[..|before|] == before;
  }

  lemma LastStep(s: State, steps: seq<(int, Action)>, t: int)
    requires steps != []
    ensures var i := |steps| - 1;
      && RunFrom(s, steps) == Step(RunFrom(s, steps[..i]), steps[i].0, steps[i].1)
      && Own(steps, t) == Own(steps[..i], t) + if steps[i].0 == t then [steps[i]] else []
  {
    hide Step;
  }

  lemma OneStepMore(s: State, steps: seq<(int, Action)>, x: (int, Action))
    ensures RunFrom(s, steps + [x]) == Step(RunFrom(s, steps), x.0, x.1)
  {
    hide Step;
    assert (steps + [x])[..|steps|] == steps;
  }

  /** As long as a thread holds the mutex, steps of others in between make no difference to it or to the queue. */
  lemma {:induction false} OthersMakeNoDifference(s: State, t: int, more: seq<(int, Action)>)
    requires s.holder == t && t >= 0
    requires forall k :: 0 <= k <= |Own(more, t)| ==> HoldsAfter(s, t, Own(more, t), k)
    ensures CoreOf(RunFrom(s, more), t) == CoreOf(RunFrom(s, Own(more, t)), t)
  {
    if more != [] {
      hide Step, CoreOf, HoldsAfter, RunFrom, Own;
      var i := |more| - 1;
      var before := Own(more[..i], t);
      LastStep(s, more, t);
      HoldsBefore(s, t, Own(more, t), before);
      OthersMakeNoDifference(s, t, more[..i]);
      SameHolder(RunFrom(s, more[..i]), RunFrom(s, before), t);
      if more[i].0 == t {
        OneStepMore(s, before, more[i]);
        OwnStep(RunFrom(s, more[..i]), RunFrom(s, before), t, more[i].1);
      } else {
        assert Own(more, t) == before;
        OtherSteps(RunFrom(s, more[..i]), t, more[i].0, more[i].1);
      }
    }
  }

  predicate HoldsAfter(s: State, t: int, own: seq<(int, Action)>, k: nat)
    requires k <= |own|
  {
    RunFrom(s, own[..k]).holder == t
  }

  lemma SameHolder(s: State, s': State, t: int)
    requires CoreOf(s, t) == CoreOf(s', t)
    ensures s.holder == s'.holder
  {
  }

  /** The first states of a run of own steps. */
  lemma FirstSteps(s: State, own: seq<(int, Action)>)
    ensures RunFrom(s, own[..0]) == s && own[..|own|] == own
    ensures |own| >= 1 ==> RunFrom(s, own[..1]) == Step(s, own[0].0, own[0].1)
    ensures |own| >= 2 ==> RunFrom(s, own[..2]) == Step(RunFrom(s, own[..1]), own[1].0, own[1].1)
    ensures |own| >= 3 ==> RunFrom(s, own[..3]) == Step(RunFrom(s, own[..2]), own[2].0, own[2].1)
  {
    hide Step;
    assert |own| >= 1 ==> own[..1][..0] == own[..0];
    assert |own| >= 2 ==> own[..2][..1] == own[..1];
    assert |own| >= 3 ==> own[..3][..2] == own[..2];
  }

  predicate AllProceed(own: seq<(int, Action)>) {
    forall k :: 0 <= k < |own| ==> own[k].1.Proceed?
  }

  lemma {:induction false} OwnIsOwn(steps: seq<(int, Action)>, t: int)
    ensures forall k :: 0 <= k < |Own(steps, t)| ==> Own(steps, t)[k].0 == t
  {
    if steps != [] {
      OwnIsOwn(steps[..|steps| - 1], t);
    }
  }

  /**
   * A thread inside `get`, not timed out, that locks the mutex while a message is there takes the oldest with its next two
   * statements, whatever steps others take before, between and after them.
   */
  lemma GetIsServed(steps: seq<(int, Action)>, t: int, more: seq<(int, Action)>)
    requires var s := Run(steps);
      t >= 0 && s.holder == NOBODY && s.queue != []
      && (s.At(t).GetEntry? || s.At(t).GetWaiting? || (s.At(t).GetWoken? && !s.At(t).timedOut))
    requires |Own(more, t)| == 2 && AllProceed(Own(more, t))
    ensures var s, s' := Run(steps), RunFrom(Step(Run(steps), t, Lock), more);
      s'.returned == s.returned + [s.queue[0]] && s'.queue == s.queue[1..] && s'.At(t).GetDone? && s'.holder == t
  {
    hide Run, Own, RunFrom;
    NoLostWakeup(steps, t);
    var s1, own := Step(Run(steps), t, Lock), Own(more, t);
    OwnIsOwn(more, t);
    FirstSteps(s1, own);
    assert HoldsAfter(s1, t, own, 0) && HoldsAfter(s1, t, own, 1) && HoldsAfter(s1, t, own, 2);
    OthersMakeNoDifference(s1, t, more);
  }

  /**
   * An `add` that locks the mutex and gets a node puts its message last and counts it with its next three statements,
   * whatever steps others take before, between and after them.
   */
  lemma AddIsQueued(steps: seq<(int, Action)>, t: int, more: seq<(int, Action)>)
    requires var s := Run(steps); t >= 0 && s.holder == NOBODY && s.At(t).AddEntry?
    requires var own := Own(more, t);
      |own| == 3 && AllProceed(own) && (Run(steps).pool > 0 || own[0].1.canAllocate)
    ensures var s, s' := Run(steps), RunFrom(Step(Run(steps), t, Lock), more);
      && s'.queue == s.queue + [s.At(t).m] && s'.length == |s'.queue| && s'.returned == s.returned
      && s'.At(t).AddDone? && s'.holder == t
  {
    hide Run, Own, RunFrom, WakeAll;
    RunKeepsInvariant(steps);
    var s1, own := Step(Run(steps), t, Lock), Own(more, t);
    OwnIsOwn(more, t);
    FirstSteps(s1, own);
    assert HoldsAfter(s1, t, own, 0) && HoldsAfter(s1, t, own, 1);
    assert HoldsAfter(s1, t, own, 2) && HoldsAfter(s1, t, own, 3);
    OthersMakeNoDifference(s1, t, more);
  }

  /**
   * A `get` that timed out, and an `add` that gets no node, unlock again with queue, pool and history as they were at the
   * lock, even when others take steps before they do, and even when a message is there.
   */
  lemma NothingTaken(steps: seq<(int, Action)>, t: int, more: seq<(int, Action)>)
    requires var s := Run(steps);
      t >= 0 && s.holder == NOBODY
      && ((s.At(t).GetWoken? && s.At(t).timedOut) || (s.At(t).AddEntry? && s.pool == 0))
    requires Own(more, t) == []
    ensures var s, s' := Run(steps), Step(RunFrom(Step(Run(steps), t, Lock), more), t, Proceed(false));
      && s'.queue == s.queue && s'.length == s.length && s'.pool == s.pool
      && s'.added == s.added && s'.returned == s.returned && s'.holder == NOBODY && s'.At(t).Idle?
  {
    hide Run, Own, RunFrom;
    var s1, own := Step(Run(steps), t, Lock), Own(more, t);
    FirstSteps(s1, own);
    assert HoldsAfter(s1, t, own, 0);
    OthersMakeNoDifference(s1, t, more);
  }
}
