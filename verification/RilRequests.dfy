/**
 * Requests and their replies over all interleavings of the lock-protected sections of libril/ril.cpp. A request is named
 * by its place in `requests`: a fresh allocation gets a fresh name. `RIL_onRequestComplete` is two steps, `Dequeue` under
 * the list's lock and `Reply` after it, so other threads may act in between.
 */
module RilRequests {
  import opened Lists

  const SOCKETS := 4

  datatype Request = Request(token: int, socket: nat, local: bool)

  datatype Reply = Reply(id: nat, token: int, socket: nat)

  /** `taken` holds the requests between `Dequeue` and `Reply`; `closed` those pending when their list was closed. */
  datatype State = State(requests: seq<Request>, lists: seq<seq<nat>>, taken: set<nat>, cancelled: set<nat>, replies: seq<Reply>)

  datatype Action =
    | Receive(token: int, socket: nat, supported: bool)
    | IssueLocal(socket: nat)
    | Dequeue(id: nat)
    | Answer(id: nat)
    | Close(socket: nat)

  const START := State([], [[], [], [], []], {}, {}, [])

  /** The list of a socket, for the number of sockets compiled in. */
  function ListOf(simCount: nat, socket: nat): (h: nat)
    ensures h < SOCKETS
  {
    if simCount >= 2 && socket == 1 then 1
    else if simCount >= 3 && socket == 2 then 2
    else if simCount >= 4 && socket == 3 then 3
    else 0
  }

  /** Every socket that is compiled in has its own list; any other uses the first. */
  lemma ListOfIs(simCount: nat, socket: nat)
    requires 1 <= simCount <= 4
    ensures ListOf(simCount, socket) == if socket < simCount then socket else 0
  {
  }

  /** The list `issueLocalRequest` puts a request in: its test for the second socket is `SIM_COUNT == 2`. */
  function LocalListOf(simCount: nat, socket: nat): (h: nat)
    ensures h < SOCKETS
  {
    if simCount == 2 && socket == 1 then 1 else 0
  }

  /** A local request goes to its own socket's list exactly when at most two sockets are compiled in, or on socket 0. */
  lemma LocalListIsOwn(n: nat, socket: nat)
    requires n <= SOCKETS
    ensures LocalListOf(n, socket) == ListOf(n, socket) <==> n <= 2 || socket == 0 || socket >= n
  {
  }

  function Step(n: nat, s: State, a: Action): State
    requires |s.lists| == SOCKETS
  {
    var id := |s.requests|;
    match a
    case Receive(token, socket, supported) =>
      var s' := s.(requests := s.requests + [Request(token, socket, false)]);
      if !supported then s'.(replies := s.replies + [Reply(id, token, socket)])
      else
        var h := ListOf(n, socket);
        s'.(lists := s.lists[h := [id] + s.lists[h]])
    case IssueLocal(socket) =>
      var h := LocalListOf(n, socket);
      s.(requests := s.requests + [Request(0xffffffff, socket, true)], lists := s.lists[h := [id] + s.lists[h]])
    case Dequeue(id) =>
      if id >= |s.requests| then s
      else
        var h := ListOf(n, s.requests[id].socket);
        if id in s.lists[h] then s.(lists := s.lists[h := Without(s.lists[h], id)], taken := s.taken + {id}) else s
    case Answer(id) =>
      if id !in s.taken || id >= |s.requests| then s
      else
        var r := s.requests[id];
        var s' := s.(taken := s.taken - {id});
        if r.local || id in s.cancelled then s' else s'.(replies := s.replies + [Reply(id, r.token, r.socket)])
    case Close(socket) =>
      s.(cancelled := s.cancelled + set id | id in s.lists[ListOf(n, socket)])
  }

  function Run(n: nat, s: State, actions: seq<Action>): (s': State)
    requires |s.lists| == SOCKETS
    ensures |s'.lists| == SOCKETS
  {
    if actions == [] then s
    else
      var i := |actions| - 1;
      Step(n, Run(n, s, actions[..i]), actions[i])
  }

  function Answered(replies: seq<Reply>): set<nat> {
    set r | r in replies :: r.id
  }

  /** The list a request is put in. */
  function Home(n: nat, r: Request): (h: nat)
    ensures h < SOCKETS
  {
    if r.local then LocalListOf(n, r.socket) else ListOf(n, r.socket)
  }

  /** A pending request is in one list once, the one it was put in, and was neither taken out nor answered. */
  ghost predicate PendingIn(n: nat, s: State, h: nat, id: nat) {
    id < |s.requests| && h == Home(n, s.requests[id]) && id !in s.taken + Answered(s.replies)
  }

  ghost predicate Pending(n: nat, s: State) {
    && |s.lists| == SOCKETS
    && (forall h :: 0 <= h < SOCKETS ==> Distinct(s.lists[h]))
    && (forall h, id :: 0 <= h < SOCKETS && id in s.lists[h] ==> PendingIn(n, s, h, id))
  }

  /** Every reply carries the token and goes to the socket of its request, which is not local and gets no other. */
  ghost predicate Replies(s: State) {
    && (forall r :: r in s.replies ==> r.id < |s.requests| && s.requests[r.id] == Request(r.token, r.socket, false))
    && Answered(s.replies) !! s.taken && Answered(s.replies) !! s.cancelled
    && (forall i, j :: 0 <= i < j < |s.replies| ==> s.replies[i].id != s.replies[j].id)
    && (forall id :: id in s.taken || id in s.cancelled || id in Answered(s.replies) ==> id < |s.requests|)
  }

  ghost predicate Invariant(n: nat, s: State) {
    Pending(n, s) && Replies(s)
  }

  lemma PendingHere(n: nat, s: State, h: nat, id: nat)
    requires Pending(n, s) && h < SOCKETS
    ensures id in s.lists[h] ==> PendingIn(n, s, h, id)
  {
  }

  /** A new request in its list. */
  lemma PutKeepsInvariant(n: nat, s: State, r: Request)
    requires Invariant(n, s)
    ensures var h := Home(n, r);
      Invariant(n, s.(requests := s.requests + [r], lists := s.lists[h := [|s.requests|] + s.lists[h]]))
  {
    hide Home;
    var h := Home(n, r);
    var requests' := s.requests + [r];
    assert forall id :: 0 <= id < |s.requests| ==> requests'[id] == s.requests[id];
    assert |s.requests| !in s.lists[h];
  }

  /** One more reply. */
  lemma AnswerKeepsInvariant(n: nat, s: State, r: Reply)
    requires Invariant(n, s) && r.id < |s.requests| && s.requests[r.id] == Request(r.token, r.socket, false)
    requires r.id !in s.taken + s.cancelled + Answered(s.replies)
    requires forall h :: 0 <= h < SOCKETS ==> r.id !in s.lists[h]
    ensures Invariant(n, s.(replies := s.replies + [r]))
  {
    var s' := s.(replies := s.replies + [r]);
    assert Answered(s'.replies) == Answered(s.replies) + {r.id};
    forall h, id | 0 <= h < SOCKETS && id in s.lists[h] ensures PendingIn(n, s', h, id) {
      assert PendingIn(n, s, h, id);
    }
  }

  /** A pending request leaves its list. */
  lemma DequeueKeepsInvariant(n: nat, s: State, h: nat, id: nat)
    requires Invariant(n, s) && h < SOCKETS && id in s.lists[h]
    ensures Invariant(n, s.(lists := s.lists[h := Without(s.lists[h], id)], taken := s.taken + {id}))
  {
    hide Home, Answered;
    WithoutIs(s.lists[h], id);
    var s' := s.(lists := s.lists[h := Without(s.lists[h], id)], taken := s.taken + {id});
    assert PendingIn(n, s, h, id);
    forall h', id' | 0 <= h' < SOCKETS && id' in s'.lists[h'] ensures PendingIn(n, s', h', id') {
      assert id' in s.lists[h'] && PendingIn(n, s, h', id');
    }
  }

  /** A request taken out is done with. */
  lemma FinishKeepsInvariant(n: nat, s: State, id: nat)
    requires Invariant(n, s)
    ensures Invariant(n, s.(taken := s.taken - {id}))
    ensures id in s.taken ==> forall h :: 0 <= h < SOCKETS ==> id !in s.lists[h]
  {
    hide Home, Answered;
    var s' := s.(taken := s.taken - {id});
    forall h, id' | 0 <= h < SOCKETS && id' in s.lists[h] ensures PendingIn(n, s', h, id') && (id' == id ==> id !in s.taken) {
      assert PendingIn(n, s, h, id');
    }
  }

  lemma StepKeepsInvariant(n: nat, s: State, a: Action)
    requires Invariant(n, s)
    ensures Invariant(n, Step(n, s, a))
  {
    hide Answered;
    match a
    case Receive(token, socket, supported) =>
      var r := Request(token, socket, false);
      if supported {
        PutKeepsInvariant(n, s, r);
      } else {
        var s' := s.(requests := s.requests + [r]);
        assert Pending(n, s') by {
          forall h, id | 0 <= h < SOCKETS && id in s.lists[h] ensures PendingIn(n, s', h, id) {
            assert PendingIn(n, s, h, id);
          }
        }
        AnswerKeepsInvariant(n, s', Reply(|s.requests|, token, socket));
      }
    case IssueLocal(socket) =>
      PutKeepsInvariant(n, s, Request(0xffffffff, socket, true));
    case Dequeue(id) =>
      if id < |s.requests| && id in s.lists[ListOf(n, s.requests[id].socket)] {
        DequeueKeepsInvariant(n, s, ListOf(n, s.requests[id].socket), id);
      }
    case Answer(id) =>
      FinishKeepsInvariant(n, s, id);
      if id in s.taken && id < |s.requests| && !s.requests[id].local && id !in s.cancelled {
        AnswerKeepsInvariant(n, s.(taken := s.taken - {id}), Reply(id, s.requests[id].token, s.requests[id].socket));
      }
    case Close(_) =>
  }

  lemma {:induction false} RunKeepsInvariant(n: nat, s: State, actions: seq<Action>)
    requires Invariant(n, s)
    ensures Invariant(n, Run(n, s, actions))
  {
    hide Step;
    if actions != [] {
      var i := |actions| - 1;
      RunKeepsInvariant(n, s, actions[..i]);
      StepKeepsInvariant(n, Run(n, s, actions[..i]), actions[i]);
    }
  }

  lemma Reachable(n: nat, actions: seq<Action>)
    ensures Invariant(n, Run(n, START, actions))
  {
    hide Run;
    assert Invariant(n, START);
    RunKeepsInvariant(n, START, actions);
  }

  // ---- Main results, over every run

  /** At most one reply per request, with its own token, to its own socket, and none to a local request. */
  lemma AtMostOneReply(n: nat, actions: seq<Action>, i: nat, j: nat)
    requires var s := Run(n, START, actions); i < |s.replies| && j < |s.replies|
    ensures var s := Run(n, START, actions);
      && s.replies[i].id < |s.requests|
      && s.requests[s.replies[i].id] == Request(s.replies[i].token, s.replies[i].socket, false)
      && (s.replies[i].id == s.replies[j].id ==> i == j)
  {
    hide Run;
    Reachable(n, actions);
  }

  /** A pending request is in one list only, its own socket's exactly when it did not take the local route astray. */
  lemma PendingInOwnListIff(n: nat, actions: seq<Action>, h: nat, id: nat)
    requires n <= SOCKETS && h < SOCKETS && id in Run(n, START, actions).lists[h]
    ensures var s := Run(n, START, actions);
      && id < |s.requests|
      && (forall h' :: 0 <= h' < SOCKETS && h' != h ==> id !in s.lists[h'])
      && (h == ListOf(n, s.requests[id].socket)
          <==> !s.requests[id].local || n <= 2 || s.requests[id].socket == 0 || s.requests[id].socket >= n)
  {
    hide Run, ListOf, LocalListOf;
    Reachable(n, actions);
    var s := Run(n, START, actions);
    assert PendingIn(n, s, h, id);
    LocalListIsOwn(n, s.requests[id].socket);
    forall h' | 0 <= h' < SOCKETS && h' != h ensures id !in s.lists[h'] {
      PendingHere(n, s, h', id);
    }
  }

  lemma {:induction false} CancelledStays(n: nat, s: State, actions: seq<Action>, id: nat)
    requires |s.lists| == SOCKETS && id in s.cancelled
    ensures id in Run(n, s, actions).cancelled
  {
    if actions != [] {
      CancelledStays(n, s, actions[..|actions| - 1], id);
    }
  }

  /** A request still pending when its socket closes is never answered, whatever happens after. */
  lemma ClosedIsNeverAnswered(n: nat, before: seq<Action>, socket: nat, after: seq<Action>, id: nat)
    requires id in Run(n, START, before).lists[ListOf(n, socket)]
    ensures id !in Answered(Run(n, Step(n, Run(n, START, before), Close(socket)), after).replies)
  {
    hide Run, Answered;
    Reachable(n, before);
    var s := Step(n, Run(n, START, before), Close(socket));
    StepKeepsInvariant(n, Run(n, START, before), Close(socket));
    CancelledStays(n, s, after, id);
    RunKeepsInvariant(n, s, after);
  }

  /** No list holds the request. */
  ghost predicate Gone(s: State, id: nat) {
    |s.lists| == SOCKETS && id < |s.requests| && forall h :: 0 <= h < SOCKETS ==> id !in s.lists[h]
  }

  lemma {:induction false} GoneStays(n: nat, s: State, actions: seq<Action>, id: nat)
    requires Invariant(n, s) && Gone(s, id)
    ensures Gone(Run(n, s, actions), id)
  {
    if actions != [] {
      var i := |actions| - 1;
      var s' := Run(n, s, actions[..i]);
      GoneStays(n, s, actions[..i], id);
      RunKeepsInvariant(n, s, actions[..i]);
      hide Run;
      if actions[i].Dequeue? && actions[i].id < |s'.requests| {
        WithoutIs(s'.lists[ListOf(n, s'.requests[actions[i].id].socket)], actions[i].id);
      }
    }
  }

  lemma ReceivedIsPendingOrAnswered(n: nat, s: State, token: int, socket: nat, supported: bool)
    requires Invariant(n, s)
    ensures var id, s' := |s.requests|, Step(n, s, Receive(token, socket, supported));
      && s'.requests == s.requests + [Request(token, socket, false)] && id !in s'.cancelled
      && (if supported then id in s'.lists[ListOf(n, socket)] && s'.replies == s.replies
          else Gone(s', id) && s'.replies == s.replies + [Reply(id, token, socket)])
  {
    hide ListOf, Answered, Home;
    var id := |s.requests|;
    forall h | 0 <= h < SOCKETS ensures id !in s.lists[h] {
      PendingHere(n, s, h, id);
    }
  }

  /** It stays pending until it is taken out, and is cancelled only by closing its list. */
  lemma {:induction false} PendingUntilTaken(n: nat, s: State, actions: seq<Action>, h: nat, id: nat)
    requires Invariant(n, s) && h < SOCKETS && id in s.lists[h] && Dequeue(id) !in actions
    ensures var s' := Run(n, s, actions);
      && id in s'.lists[h] && id < |s.requests| && s.requests <= s'.requests
      && (id in s'.cancelled <==> id in s.cancelled || exists i :: 0 <= i < |actions| && Closes(n, actions[i], h))
  {
    assert PendingIn(n, s, h, id);
    if actions != [] {
      var i := |actions| - 1;
      assert actions == actions[..i] + [actions[i]] && actions[i] in actions;
      PendingUntilTaken(n, s, actions[..i], h, id);
      RunKeepsInvariant(n, s, actions[..i]);
      hide Run;
      PendingStep(n, Run(n, s, actions[..i]), actions[i], h, id);
    }
  }

  predicate Closes(n: nat, a: Action, h: nat) {
    a.Close? && ListOf(n, a.socket) == h
  }

  lemma PendingStep(n: nat, s: State, a: Action, h: nat, id: nat)
    requires Invariant(n, s) && h < SOCKETS && id in s.lists[h] && a != Dequeue(id)
    ensures var s' := Step(n, s, a);
      id in s'.lists[h] && s.requests <= s'.requests && (id in s'.cancelled <==> id in s.cancelled || Closes(n, a, h))
  {
    hide ListOf, LocalListOf, Answered;
    assert PendingIn(n, s, h, id);
    if a.Dequeue? && a.id < |s.requests| {
      WithoutIs(s.lists[ListOf(n, s.requests[a.id].socket)], a.id);
    } else if a.Close? {
      var h' := ListOf(n, a.socket);
      PendingHere(n, s, h', id);
    }
  }

  /** Completing a pending request answers it unless it is local or cancelled; completing it again does nothing, ever. */
  lemma CompletedOnce(n: nat, before: seq<Action>, id: nat, after: seq<Action>)
    requires var s := Run(n, START, before);
      id < |s.requests| && id in s.lists[ListOf(n, s.requests[id].socket)]
    ensures
      var s := Run(n, START, before);
      var done := Step(n, Step(n, s, Dequeue(id)), Answer(id));
      var later := Run(n, done, after);
      && done.replies == s.replies + (if s.requests[id].local || id in s.cancelled then []
                                      else [Reply(id, s.requests[id].token, s.requests[id].socket)])
      && id < |later.requests| && Step(n, later, Dequeue(id)) == later
  {
    hide Run, ListOf, Answered;
    var s := Run(n, START, before);
    Reachable(n, before);
    PendingElsewhere(n, s, id);
    var taken := Step(n, s, Dequeue(id));
    StepKeepsInvariant(n, s, Dequeue(id));
    StepKeepsInvariant(n, taken, Answer(id));
    GoneStays(n, Step(n, taken, Answer(id)), after, id);
  }

  lemma PendingElsewhere(n: nat, s: State, id: nat)
    requires Invariant(n, s) && id < |s.requests| && id in s.lists[ListOf(n, s.requests[id].socket)]
    ensures Gone(Step(n, s, Dequeue(id)), id)
  {
    hide ListOf, Answered, Home;
    var h := ListOf(n, s.requests[id].socket);
    WithoutIs(s.lists[h], id);
    assert PendingIn(n, s, h, id);
    forall h' | 0 <= h' < SOCKETS && h' != h ensures id !in s.lists[h'] {
      PendingHere(n, s, h', id);
    }
  }

  /** Taken out by a completion that has not replied yet. */
  ghost predicate InHand(s: State, id: nat) {
    Gone(s, id) && id in s.taken
  }

  /** In hand it stays until the reply is sent; closing a list no longer reaches it. */
  lemma {:induction false} InHandStays(n: nat, s: State, actions: seq<Action>, id: nat)
    requires Invariant(n, s) && InHand(s, id) && Answer(id) !in actions
    ensures var s' := Run(n, s, actions); InHand(s', id) && (id in s'.cancelled <==> id in s.cancelled) && s.requests <= s'.requests
  {
    if actions != [] {
      var i := |actions| - 1;
      assert actions == actions[..i] + [actions[i]] && actions[i] in actions;
      InHandStays(n, s, actions[..i], id);
      RunKeepsInvariant(n, s, actions[..i]);
      hide Run;
      InHandStep(n, Run(n, s, actions[..i]), actions[i], id);
    }
  }

  lemma InHandStep(n: nat, s: State, a: Action, id: nat)
    requires Invariant(n, s) && InHand(s, id) && a != Answer(id)
    ensures var s' := Step(n, s, a); InHand(s', id) && (id in s'.cancelled <==> id in s.cancelled) && s.requests <= s'.requests
  {
    hide ListOf, LocalListOf, Answered;
    if a.Dequeue? && a.id < |s.requests| {
      WithoutIs(s.lists[ListOf(n, s.requests[a.id].socket)], a.id);
    }
  }

  /** Neither pending nor in hand. */
  ghost predicate Finished(s: State, id: nat) {
    Gone(s, id) && id !in s.taken
  }

  lemma AnsweredNext(replies: seq<Reply>, r: Reply)
    ensures Answered(replies + [r]) == Answered(replies) + {r.id}
  {
  }

  lemma {:induction false} FinishedStays(n: nat, s: State, actions: seq<Action>, id: nat)
    requires Invariant(n, s) && Finished(s, id)
    ensures var s' := Run(n, s, actions); Finished(s', id) && (id in Answered(s'.replies) <==> id in Answered(s.replies))
  {
    if actions != [] {
      var i := |actions| - 1;
      FinishedStays(n, s, actions[..i], id);
      RunKeepsInvariant(n, s, actions[..i]);
      hide Run;
      FinishedStep(n, Run(n, s, actions[..i]), actions[i], id);
    }
  }

  lemma FinishedStep(n: nat, s: State, a: Action, id: nat)
    requires Invariant(n, s) && Finished(s, id)
    ensures var s' := Step(n, s, a); Finished(s', id) && (id in Answered(s'.replies) <==> id in Answered(s.replies))
  {
    hide ListOf, LocalListOf, Answered;
    match a
    case Dequeue(other) =>
      if other < |s.requests| {
        WithoutIs(s.lists[ListOf(n, s.requests[other].socket)], other);
      }
    case Receive(token, socket, _) => AnsweredNext(s.replies, Reply(|s.requests|, token, socket));
    case Answer(other) =>
      if other < |s.requests| {
        AnsweredNext(s.replies, Reply(other, s.requests[other].token, s.requests[other].socket));
      }
    case IssueLocal(_) =>
    case Close(_) =>
  }

  /** The life of one command: received, `mid`, taken out by its completion, `between`, answered or not, `after`. */
  function Life(n: nat, before: seq<Action>, token: int, socket: nat, mid: seq<Action>, between: seq<Action>, after: seq<Action>): State {
    var id := |Run(n, START, before).requests|;
    var pending := Run(n, Step(n, Run(n, START, before), Receive(token, socket, true)), mid);
    var inHand := Run(n, Step(n, pending, Dequeue(id)), between);
    Run(n, Step(n, inHand, Answer(id)), after)
  }

  /**
   * A supported command whose completion runs is answered exactly if no thread closed its list while it was pending;
   * what the others do between the two sections of the completion, or later, makes no difference.
   */
  lemma AnsweredUnlessClosed(n: nat, before: seq<Action>, token: int, socket: nat, mid: seq<Action>, between: seq<Action>,
                             after: seq<Action>)
    requires var id := |Run(n, START, before).requests|; Dequeue(id) !in mid && Answer(id) !in between
    ensures var id := |Run(n, START, before).requests|;
      (id in Answered(Life(n, before, token, socket, mid, between, after).replies))
      <==> (forall i :: 0 <= i < |mid| ==> !Closes(n, mid[i], ListOf(n, socket)))
  {
    hide Run, ListOf, Answered;
    var s := Run(n, START, before);
    var id, h := |s.requests|, ListOf(n, socket);
    Reachable(n, before);
    ReceivedIsPendingOrAnswered(n, s, token, socket, true);
    var received := Step(n, s, Receive(token, socket, true));
    StepKeepsInvariant(n, s, Receive(token, socket, true));
    PendingUntilTaken(n, received, mid, h, id);
    RunKeepsInvariant(n, received, mid);
    assert received.requests[id] == Request(token, socket, false);
    CompletionAnswers(n, Run(n, received, mid), id, between, after);
  }

  /** From the start of a completion on: the command is answered exactly if it was not cancelled while pending. */
  lemma CompletionAnswers(n: nat, s: State, id: nat, between: seq<Action>, after: seq<Action>)
    requires Invariant(n, s) && id < |s.requests| && id in s.lists[ListOf(n, s.requests[id].socket)] && Answer(id) !in between
    ensures var inHand := Run(n, Step(n, s, Dequeue(id)), between);
      id in Answered(Run(n, Step(n, inHand, Answer(id)), after).replies) <==> !s.requests[id].local && id !in s.cancelled
  {
    hide Run, ListOf, Answered, Home;
    PendingElsewhere(n, s, id);
    var taken := Step(n, s, Dequeue(id));
    StepKeepsInvariant(n, s, Dequeue(id));
    InHandStays(n, taken, between, id);
    RunKeepsInvariant(n, taken, between);
    var inHand := Run(n, taken, between);
    StepKeepsInvariant(n, inHand, Answer(id));
    AnsweredNext(inHand.replies, Reply(id, inHand.requests[id].token, inHand.requests[id].socket));
    FinishedStays(n, Step(n, inHand, Answer(id)), after, id);
  }

  ghost predicate Astray(n: nat, s: State, id: nat) {
    && |s.lists| == SOCKETS && id < |s.requests|
    && id in s.lists[0] && ListOf(n, s.requests[id].socket) != 0
  }

  lemma AstrayStep(n: nat, s: State, a: Action, id: nat)
    requires Invariant(n, s) && Astray(n, s, id)
    ensures Astray(n, Step(n, s, a), id)
  {
    hide ListOf, LocalListOf;
    if a.Dequeue? && a.id < |s.requests| {
      WithoutIs(s.lists[ListOf(n, s.requests[a.id].socket)], a.id);
    }
  }

  /** A request that went astray can never be completed: it stays in the first list for good. */
  lemma {:induction false} AstrayStays(n: nat, s: State, actions: seq<Action>, id: nat)
    requires Invariant(n, s) && Astray(n, s, id)
    ensures Astray(n, Run(n, s, actions), id) && Step(n, Run(n, s, actions), Dequeue(id)) == Run(n, s, actions)
  {
    hide ListOf, LocalListOf;
    if actions != [] {
      var i := |actions| - 1;
      AstrayStays(n, s, actions[..i], id);
      RunKeepsInvariant(n, s, actions[..i]);
      AstrayStep(n, Run(n, s, actions[..i]), actions[i], id);
    }
    RunKeepsInvariant(n, s, actions);
    assert PendingIn(n, Run(n, s, actions), 0, id);
    NotInItsOwnList(n, Run(n, s, actions), id);
  }

  lemma NotInItsOwnList(n: nat, s: State, id: nat)
    requires Invariant(n, s) && Astray(n, s, id)
    ensures id !in s.lists[ListOf(n, s.requests[id].socket)]
  {
    hide ListOf, LocalListOf;
    var h := ListOf(n, s.requests[id].socket);
    PendingHere(n, s, 0, id);
    PendingHere(n, s, h, id);
  }

  /** With three sockets, the first local request on the second one goes astray. */
  lemma LocalRequestGoesAstray()
    ensures Astray(3, Run(3, START, [IssueLocal(1)]), 0)
  {
    assert [IssueLocal(1)][..0] == [];
  }
}
