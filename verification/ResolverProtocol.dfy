/** The monitor of the asynchronous name resolver as a step relation: any number of threads in
    `AddRequest`, the worker in `ServeRequests`, the owner in `~Resolver`, and c-ares as a set of
    pending queries. A mutex-protected block, a c-ares call and a `notify_one` are one step each;
    one run of `OnResolved` is one step too, which `CompletionSteps` splits in two. */
module ResolverProtocol {

  /** A list node: the request's identity and whether its callback pointer is still set. */
  datatype Node = Node(id: nat, armed: bool)

  /** A thread inside `AddRequest`, after its critical section. */
  datatype AdderPc = Submitting(id: nat) | Notifying

  datatype WorkerPc = Checking | Waiting | Woken | Serving | Exited

  datatype OwnerPc = Running | ShutdownNotifying | Joining | Destroying | Destroyed

  /** The fields of `Resolver`, the program counters, c-ares, and history: `answers` lists the
      callbacks fired, `next` counts the requests enqueued, `faulted` records
      a completion that met a dead node or an empty callback. */
  datatype State = State(
    requests: seq<Node>, active: bool,
    adders: map<nat, AdderPc>, worker: WorkerPc, owner: OwnerPc,
    pending: set<nat>,
    answers: seq<nat>, next: nat, faulted: bool)

  datatype Event =
    | Enqueue(thread: nat)
    | Submit(thread: nat, synchronous: bool)
    | AddNotify(thread: nat)
    | Check
    | Recheck
    | SpuriousWakeup
    | Complete(id: nat)
    | ServeDone
    | Shutdown
    | ShutdownNotify
    | Join
    | DestroyDone

  function Init(): State {
    State([], true, map[], Checking, Running, {}, [], 0, false)
  }

  // ---------------------------------------------------------------- what the code blocks do

  /** `remove_if` of the nodes whose callback was moved out. */
  function Sweep(requests: seq<Node>): seq<Node> {
    if requests == [] then []
    else (if requests[0].armed then [requests[0]] else []) + Sweep(requests[1..])
  }

  /** Moving the callback out of node `id`. */
  function Disarm(requests: seq<Node>, id: nat): seq<Node> {
    if requests == [] then []
    else [if requests[0].id == id then Node(id, false) else requests[0]] + Disarm(requests[1..], id)
  }

  /** Where `HasRequests` goes once the list is as given: block, or return and serve or leave. */
  function AfterCheck(requests: seq<Node>, active: bool): WorkerPc {
    if requests == [] && active then Waiting
    else if requests != [] then Serving
    else Exited
  }

  /** `OnResolved` for query `id`. */
  function Resolved(s: State, id: nat): State {
    if Node(id, true) in s.requests
    then s.(requests := Disarm(s.requests, id), pending := s.pending - {id}, answers := s.answers + [id])
    else s.(pending := s.pending - {id}, faulted := true)
  }

  function WorkerMoves(s: State, requests: seq<Node>): State {
    s.(requests := requests, worker := AfterCheck(requests, s.active))
  }

  function Notified(worker: WorkerPc): WorkerPc {
    if worker == Waiting then Woken else worker
  }

  // ---------------------------------------------------------------- steps and runs

  predicate Enabled(s: State, e: Event) {
    match e
    case Enqueue(t) => t !in s.adders && s.owner != Destroying && s.owner != Destroyed
    case Submit(t, _) => t in s.adders && s.adders[t].Submitting?
    case AddNotify(t) => t in s.adders && s.adders[t].Notifying?
    case Check => s.worker == Checking
    case Recheck => s.worker == Woken
    case SpuriousWakeup => s.worker == Waiting
    case Complete(id) => id in s.pending && (s.worker == Serving || s.owner == Destroying)
    case ServeDone => s.worker == Serving
    case Shutdown => s.owner == Running
    case ShutdownNotify => s.owner == ShutdownNotifying
    case Join => s.owner == Joining && s.worker == Exited && s.adders == map[]
    case DestroyDone => s.owner == Destroying && s.pending == {}
  }

  function Apply(s: State, e: Event): State
    requires Enabled(s, e)
  {
    match e
    case Enqueue(t) =>
      s.(requests := s.requests + [Node(s.next, true)], adders := s.adders[t := Submitting(s.next)], next := s.next + 1)
    case Submit(t, synchronous) =>
      var id := s.adders[t].id;
      var s' := s.(adders := s.adders[t := Notifying]);
      if synchronous then Resolved(s', id) else s'.(pending := s.pending + {id})
    case AddNotify(t) => s.(adders := s.adders - {t}, worker := Notified(s.worker))
    case Check => WorkerMoves(s, Sweep(s.requests))
    case Recheck => WorkerMoves(s, s.requests)
    case SpuriousWakeup => s.(worker := Woken)
    case Complete(id) => Resolved(s, id)
    case ServeDone => s.(worker := Checking)
    case Shutdown => s.(active := false, owner := ShutdownNotifying)
    case ShutdownNotify => s.(owner := Joining, worker := Notified(s.worker))
    case Join => s.(owner := Destroying)
    case DestroyDone => s.(owner := Destroyed)
  }

  /** `events` can be taken one after the other from `s`. */
  predicate IsRun(s: State, events: seq<Event>)
    decreases |events|
  {
    events == [] || (Enabled(s, events[0]) && IsRun(Apply(s, events[0]), events[1..]))
  }

  function Final(s: State, events: seq<Event>): State
    requires IsRun(s, events)
    decreases |events|
  {
    if events == [] then s else Final(Apply(s, events[0]), events[1..])
  }

  // ---------------------------------------------------------------- the list

  /** Ids increase along the list and were all handed out. */
  ghost predicate Ordered(requests: seq<Node>, next: nat) {
    && (forall k :: 0 <= k < |requests| ==> requests[k].id < next)
    && (forall j, k :: 0 <= j < k < |requests| ==> requests[j].id < requests[k].id)
  }

  ghost predicate Live(requests: seq<Node>, id: nat) { Node(id, true) in requests }

  lemma {:induction false} SweepKeepsLive(requests: seq<Node>)
    ensures forall n :: n in Sweep(requests) <==> n in requests && n.armed
    ensures Sweep(Sweep(requests)) == Sweep(requests)
  {
    if requests != [] {
      SweepKeepsLive(requests[1..]);
      var first := if requests[0].armed then [requests[0]] else [];
      assert requests == [requests[0]] + requests[1..];
      if requests[0].armed {
        assert Sweep(requests)[1..] == Sweep(requests[1..]);
      } else {
        assert Sweep(requests) == Sweep(requests[1..]);
      }
    }
  }

  lemma OrderedCons(n: Node, rest: seq<Node>, next: nat)
    requires Ordered(rest, next) && n.id < next
    requires forall m :: m in rest ==> n.id < m.id
    ensures Ordered([n] + rest, next)
  {
    assert forall k :: 0 <= k < |rest| ==> rest[k] in rest;
  }

  lemma {:induction false} SweepKeepsOrder(requests: seq<Node>, next: nat)
    requires Ordered(requests, next)
    ensures Ordered(Sweep(requests), next)
  {
    if requests != [] {
      var n, rest := requests[0], requests[1..];
      assert forall k :: 0 <= k < |rest| ==> rest[k] == requests[k + 1];
      SweepKeepsOrder(rest, next);
      SweepKeepsLive(rest);
      if n.armed {
        OrderedCons(n, Sweep(rest), next);
        assert Sweep(requests) == [n] + Sweep(rest);
      } else {
        assert Sweep(requests) == Sweep(rest);
      }
    }
  }

  lemma NothingLive(requests: seq<Node>)
    requires Sweep(requests) == []
    ensures forall id :: !Live(requests, id)
  {
    SweepKeepsLive(requests);
  }

  lemma {:induction false} SweepAppend(requests: seq<Node>, n: Node)
    requires n.armed
    ensures Sweep(requests + [n]) == Sweep(requests) + [n]
  {
    if requests != [] {
      SweepAppend(requests[1..], n);
      assert (requests + [n])[1..] == requests[1..] + [n];
    }
  }

  lemma {:induction false} DisarmNodes(requests: seq<Node>, id: nat)
    ensures |Disarm(requests, id)| == |requests|
    ensures forall k :: 0 <= k < |requests| ==>
              Disarm(requests, id)[k] == if requests[k].id == id then Node(id, false) else requests[k]
  {
    if requests != [] {
      DisarmNodes(requests[1..], id);
    }
  }

  lemma DisarmLive(requests: seq<Node>, id: nat)
    ensures forall other :: Live(Disarm(requests, id), other) <==> Live(requests, other) && other != id
  {
    DisarmNodes(requests, id);
    var after := Disarm(requests, id);
    forall other
      ensures Live(after, other) <==> Live(requests, other) && other != id
    {
      if Live(requests, other) && other != id {
        var k :| 0 <= k < |requests| && requests[k] == Node(other, true);
        assert after[k] == Node(other, true);
      }
    }
  }

  lemma {:induction false} DisarmAbsent(requests: seq<Node>, id: nat)
    requires forall k :: 0 <= k < |requests| ==> requests[k].id != id
    ensures Disarm(requests, id) == requests
  {
    if requests != [] {
      DisarmAbsent(requests[1..], id);
    }
  }

  /** Disarming a live node takes exactly one node out of the next sweep. */
  lemma {:induction false} DisarmCounts(requests: seq<Node>, id: nat, next: nat)
    requires Ordered(requests, next) && Live(requests, id)
    ensures |Sweep(Disarm(requests, id))| == |Sweep(requests)| - 1
  {
    var rest := requests[1..];
    assert Disarm(requests, id)[1..] == Disarm(rest, id);
    if requests[0].id == id {
      DisarmAbsent(rest, id);
    } else {
      DisarmCounts(rest, id, next);
    }
  }

  // ---------------------------------------------------------------- the invariant

  ghost predicate NoDuplicates(s: seq<nat>) {
    forall j, k :: 0 <= j < k < |s| ==> s[j] != s[k]
  }

  /** Every pending query points to a live node whose callback is set, and an armed node is either
      pending or still in the hands of the thread that enqueued it. */
  ghost predicate QueriesMatchNodes(s: State) {
    && (forall id :: id in s.pending ==> Live(s.requests, id))
    && (forall id :: Live(s.requests, id) ==> id in s.pending || BeingSubmitted(s, id))
    && (forall t :: t in s.adders && s.adders[t].Submitting? ==>
          Live(s.requests, s.adders[t].id) && s.adders[t].id !in s.pending)
    && (forall t, u :: t in s.adders && u in s.adders && t != u && s.adders[t].Submitting? ==>
          s.adders[t] != s.adders[u])
  }

  ghost predicate BeingSubmitted(s: State, id: nat) {
    exists t :: t in s.adders && s.adders[t] == Submitting(id)
  }

  /** Each request handed out is answered once or still live, never both. */
  ghost predicate AnsweredOnce(s: State) {
    && NoDuplicates(s.answers)
    && (forall id: nat :: id in s.answers <==> id < s.next && !Live(s.requests, id))
    && |s.answers| + |Sweep(s.requests)| == s.next
    && !s.faulted
  }

  /** A consumer blocked on a true predicate has a notification coming. */
  ghost predicate NoLostWakeup(s: State) {
    s.worker == Waiting && (s.requests != [] || !s.active) ==> s.adders != map[] || s.owner == ShutdownNotifying
  }

  ghost predicate CleanShutdown(s: State) {
    && (s.active <==> s.owner == Running)
    && (s.worker == Exited ==> !s.active)
    && (s.owner == Destroying || s.owner == Destroyed ==> s.worker == Exited && s.adders == map[])
    && (s.owner == Destroyed ==> s.pending == {})
  }

  ghost predicate Inv(s: State) {
    Ordered(s.requests, s.next) && QueriesMatchNodes(s) && AnsweredOnce(s) && NoLostWakeup(s) && CleanShutdown(s)
  }

  lemma InitInv()
    ensures Inv(Init())
  {
  }

  lemma StepKeepsInv(s: State, e: Event)
    requires Inv(s) && Enabled(s, e)
    ensures Inv(Apply(s, e))
  {
    match e
    case Enqueue(t) => EnqueueKeepsInv(s, t);
    case Submit(t, synchronous) => SubmitKeepsInv(s, t, synchronous);
    case AddNotify(t) => AddNotifyKeepsInv(s, t);
    case Check => CheckKeepsInv(s);
    case Complete(id) => ResolvedKeepsInv(s, id);
    case _ =>
  }

  lemma EnqueueKeepsInv(s: State, t: nat)
    requires Inv(s) && Enabled(s, Enqueue(t))
    ensures Inv(Apply(s, Enqueue(t)))
  {
    var s' := Apply(s, Enqueue(t));
    SweepAppend(s.requests, Node(s.next, true));
    assert forall id :: Live(s'.requests, id) <==> Live(s.requests, id) || id == s.next;
    assert !Live(s.requests, s.next);
    assert s'.adders[t] == Submitting(s.next);
    forall id | Live(s'.requests, id)
      ensures id in s'.pending || BeingSubmitted(s', id)
    {
      if id != s.next && id !in s.pending {
        var u :| u in s.adders && s.adders[u] == Submitting(id);
        assert s'.adders[u] == Submitting(id);
      }
    }
  }

  lemma ResolvedAnswersOnce(s: State, id: nat)
    requires Ordered(s.requests, s.next) && AnsweredOnce(s) && Live(s.requests, id)
    ensures Ordered(Resolved(s, id).requests, s.next) && AnsweredOnce(Resolved(s, id))
  {
    DisarmNodes(s.requests, id);
    DisarmLive(s.requests, id);
    DisarmCounts(s.requests, id, s.next);
    assert forall x :: x in Resolved(s, id).answers <==> x in s.answers || x == id;
  }

  lemma ResolvedKeepsQueries(s: State, id: nat)
    requires QueriesMatchNodes(s) && id in s.pending
    ensures QueriesMatchNodes(Resolved(s, id))
  {
    DisarmLive(s.requests, id);
    assert forall other :: BeingSubmitted(Resolved(s, id), other) <==> BeingSubmitted(s, other);
  }

  /** The heart of exactly-once: a completion finds its node live and armed. */
  lemma ResolvedKeepsInv(s: State, id: nat)
    requires Inv(s) && id in s.pending
    ensures Inv(Resolved(s, id)) && Resolved(s, id).answers == s.answers + [id]
  {
    ResolvedAnswersOnce(s, id);
    ResolvedKeepsQueries(s, id);
    DisarmNodes(s.requests, id);
  }

  /** A synchronous completion is a submission followed at once by its completion. */
  lemma SubmitKeepsInv(s: State, t: nat, synchronous: bool)
    requires Inv(s) && Enabled(s, Submit(t, synchronous))
    ensures Inv(Apply(s, Submit(t, synchronous)))
  {
    var id := s.adders[t].id;
    var s' := Apply(s, Submit(t, false));
    forall other | Live(s'.requests, other)
      ensures other in s'.pending || BeingSubmitted(s', other)
    {
      if other != id && other !in s.pending {
        var u :| u in s.adders && s.adders[u] == Submitting(other);
        assert s'.adders[u] == Submitting(other);
      }
    }
    assert Inv(s');
    if synchronous {
      ResolvedKeepsInv(s', id);
      assert s'.pending - {id} == s.pending - {id};
    }
  }

  lemma AddNotifyKeepsInv(s: State, t: nat)
    requires Inv(s) && Enabled(s, AddNotify(t))
    ensures Inv(Apply(s, AddNotify(t)))
  {
    var s' := Apply(s, AddNotify(t));
    forall id | BeingSubmitted(s, id)
      ensures BeingSubmitted(s', id)
    {
      var u :| u in s.adders && s.adders[u] == Submitting(id);
      assert u in s'.adders && s'.adders[u] == Submitting(id);
    }
  }

  lemma CheckKeepsInv(s: State)
    requires Inv(s) && Enabled(s, Check)
    ensures Inv(Apply(s, Check))
  {
    var s' := Apply(s, Check);
    SweepKeepsLive(s.requests);
    SweepKeepsOrder(s.requests, s.next);
    assert forall id :: Live(s'.requests, id) <==> Live(s.requests, id);
    assert forall id :: BeingSubmitted(s', id) <==> BeingSubmitted(s, id);
  }

  // ---------------------------------------------------------------- whole runs

  lemma {:induction false} RunKeepsInv(s: State, events: seq<Event>)
    requires Inv(s) && IsRun(s, events)
    ensures Inv(Final(s, events))
    decreases |events|
  {
    if events != [] {
      StepKeepsInv(s, events[0]);
      RunKeepsInv(Apply(s, events[0]), events[1..]);
    }
  }

  /** Answers, once given, are never taken back or reordered. */
  lemma {:induction false} AnswersGrow(s: State, events: seq<Event>)
    requires IsRun(s, events)
    ensures s.answers <= Final(s, events).answers
    decreases |events|
  {
    if events != [] {
      AnswersGrow(Apply(s, events[0]), events[1..]);
    }
  }

  /** In every interleaving: no callback fires twice or into a dead node, every pending query points to
      a live node with its callback set, and requests are conserved. */
  lemma ExactlyOnce(events: seq<Event>)
    requires IsRun(Init(), events)
    ensures var s := Final(Init(), events);
            && !s.faulted
            && NoDuplicates(s.answers)
            && (forall id: nat :: id < s.next ==> (id in s.answers) != Live(s.requests, id))
            && (forall id :: id in s.pending ==> Live(s.requests, id) && id !in s.answers)
            && |s.answers| + |Sweep(s.requests)| == s.next
  {
    InitInv();
    RunKeepsInv(Init(), events);
  }

  /** The sweep only ever removes nodes whose callback has fired. */
  lemma SweepRemovesAnsweredOnly(events: seq<Event>, n: Node)
    requires IsRun(Init(), events)
    requires var s := Final(Init(), events); n in s.requests && n !in Sweep(s.requests)
    ensures n.id in Final(Init(), events).answers
  {
    InitInv();
    RunKeepsInv(Init(), events);
    var s := Final(Init(), events);
    SweepKeepsLive(s.requests);
    var k :| 0 <= k < |s.requests| && s.requests[k] == n;
    assert !Live(s.requests, n.id);
  }

  /** No lost wake-up: while the worker is blocked on a true predicate, some thread that has left its
      critical section has yet to call `notify_one`. */
  lemma BlockedWorkerWillBeNotified(events: seq<Event>)
    requires IsRun(Init(), events)
    ensures var s := Final(Init(), events);
            s.worker == Waiting && (s.requests != [] || !s.active) ==>
              s.owner == ShutdownNotifying || exists t :: t in s.adders
  {
    InitInv();
    RunKeepsInv(Init(), events);
    var s := Final(Init(), events);
    if s.adders != map[] {
      assert s.adders.Keys != {};
    }
  }

  /** How the worker comes to block, to serve and to leave: a look at the list blocks exactly when the list is empty
      and the resolver active, serves exactly when there are requests, and no other step does either; a blocked
      worker moves only when it is woken, and every `notify_one` wakes it. */
  lemma WorkerDecides(s: State, e: Event)
    requires Enabled(s, e)
    ensures var s' := Apply(s, e);
            && (e == Check || e == Recheck ==>
                  && (s'.worker == Waiting <==> s'.requests == [] && s'.active)
                  && (s'.worker == Serving <==> s'.requests != [])
                  && (s'.worker == Exited <==> s'.requests == [] && !s'.active))
            && (s'.worker != s.worker && s'.worker in {Waiting, Serving, Exited} ==> e == Check || e == Recheck)
            && (s.worker == Waiting ==>
                  (s'.worker == Woken <==> e.AddNotify? || e == ShutdownNotify || e == SpuriousWakeup)
                  && (s'.worker == Woken || s'.worker == Waiting))
  {
  }

  /** So in every reachable state a serving worker has requests in its list. */
  lemma {:induction false} ServingHasRequests(s: State, events: seq<Event>)
    requires IsRun(s, events) && (s.worker == Serving ==> s.requests != [])
    ensures Final(s, events).worker == Serving ==> Final(s, events).requests != []
    decreases |events|
  {
    if events != [] {
      var s' := Apply(s, events[0]);
      WorkerDecides(s, events[0]);
      if s.worker == Serving && events[0] != Check {
        ListStays(s, events[0]);
      }
      ServingHasRequests(s', events[1..]);
    }
  }

  lemma ListStays(s: State, e: Event)
    requires Enabled(s, e) && e != Check
    ensures |s.requests| <= |Apply(s, e).requests|
  {
    match e
    case Complete(id) => DisarmNodes(s.requests, id);
    case Submit(t, _) => DisarmNodes(s.requests, s.adders[t].id);
    case _ =>
  }

  /** Any thread may make a request until the destructor has joined the worker, and leaves `AddRequest` by its own
      steps alone; a synchronous answer has then been given, any other is pending. */
  lemma AddRequestRuns(s: State, t: nat, synchronous: bool)
    requires Inv(s) && t !in s.adders && s.owner != Destroying && s.owner != Destroyed
    ensures var events := [Enqueue(t), Submit(t, synchronous), AddNotify(t)];
            && IsRun(s, events)
            && var s' := Final(s, events);
            && s'.adders == s.adders && s'.next == s.next + 1 && s'.worker != Waiting
            && s'.answers == (if synchronous then s.answers + [s.next] else s.answers)
            && s'.pending == (if synchronous then s.pending else s.pending + {s.next})
  {
    var a, b, c := Enqueue(t), Submit(t, synchronous), AddNotify(t);
    EnqueueKeepsInv(s, t);
    var s1 := Apply(s, a);
    assert s1.adders[t] == Submitting(s.next);
    assert Live(s1.requests, s.next) && s.next !in s.pending;
    var s2 := Apply(s1, b);
    var s3 := Apply(s2, c);
    assert s3.adders == s.adders;
    RunOfThree(s, a, b, c);
  }

  lemma RunOfThree(s: State, a: Event, b: Event, c: Event)
    requires Enabled(s, a) && Enabled(Apply(s, a), b) && Enabled(Apply(Apply(s, a), b), c)
    ensures IsRun(s, [a, b, c]) && Final(s, [a, b, c]) == Apply(Apply(Apply(s, a), b), c)
  {
    var s1 := Apply(s, a);
    var s2 := Apply(s1, b);
    assert [a, b, c][1..] == [b, c] && [b, c][1..] == [c] && [c][1..] == [];
    assert IsRun(s2, [c]) && Final(s2, [c]) == Final(Apply(s2, c), []);
    assert IsRun(s1, [b, c]) && Final(s1, [b, c]) == Final(s2, [c]);
  }

  /** The worker leaves its loop only after shutdown was requested and with everything enqueued so far answered. */
  lemma WorkerLeavesClean(events: seq<Event>, e: Event)
    requires IsRun(Init(), events) && Enabled(Final(Init(), events), e)
    requires Final(Init(), events).worker != Exited && Apply(Final(Init(), events), e).worker == Exited
    ensures var s := Apply(Final(Init(), events), e);
            !s.active && s.requests == [] && s.pending == {} && forall id: nat :: id < s.next ==> id in s.answers
  {
    InitInv();
    RunKeepsInv(Init(), events);
    StepKeepsInv(Final(Init(), events), e);
  }

  /** When the destructor is done every request ever enqueued was answered exactly once, those that
      came in after the worker had left included. */
  lemma DestroyedMeansAllAnswered(events: seq<Event>)
    requires IsRun(Init(), events) && Final(Init(), events).owner == Destroyed
    ensures var s := Final(Init(), events);
            NoDuplicates(s.answers) && |s.answers| == s.next && forall id: nat :: id < s.next <==> id in s.answers
  {
    InitInv();
    RunKeepsInv(Init(), events);
    var s := Final(Init(), events);
    SweepKeepsLive(s.requests);
    if Sweep(s.requests) != [] {
      var n := Sweep(s.requests)[0];
      assert Live(s.requests, n.id);
    }
  }

  // ---------------------------------------------------------------- shutdown can always finish

  ghost function StillSubmitting(s: State): set<nat> {
    set t | t in s.adders && s.adders[t].Submitting?
  }

  function OwnerLeft(s: State): nat {
    match s.owner
    case Running => 4 case ShutdownNotifying => 3 case Joining => 2 case Destroying => 1 case Destroyed => 0
  }

  function WorkerLeft(s: State): nat {
    match s.worker
    case Exited => 0
    case Checking => 1
    case Serving => if s.pending == {} then 2 else 0
    case Woken => 3
    case Waiting => 4
  }

  /** Threads still inside `AddRequest` can leave it without waiting for anyone. */
  lemma AdderAdvances(s: State) returns (e: Event)
    requires s.adders != map[]
    ensures Enabled(s, e) && e != SpuriousWakeup && Apply(s, e).owner == s.owner
    ensures var s' := Apply(s, e);
            || |StillSubmitting(s')| < |StillSubmitting(s)|
            || (StillSubmitting(s') == StillSubmitting(s) && |s'.adders| < |s.adders|)
  {
    assert s.adders.Keys != {};
    var t :| t in s.adders;
    if s.adders[t].Submitting? {
      e := Submit(t, false);
      assert StillSubmitting(Apply(s, e)) == StillSubmitting(s) - {t};
    } else {
      e := AddNotify(t);
      assert StillSubmitting(Apply(s, e)) == StillSubmitting(s);
      assert Apply(s, e).adders.Keys == s.adders.Keys - {t};
    }
  }

  /** With no thread in `AddRequest`, the owner and the worker move towards the end of the destructor. */
  lemma OwnerAdvances(s: State) returns (e: Event)
    requires Inv(s) && s.adders == map[] && s.owner != Destroyed
    ensures Enabled(s, e) && e != SpuriousWakeup
    ensures var s' := Apply(s, e);
            && s'.adders == map[]
            && (|| OwnerLeft(s') < OwnerLeft(s)
                || (OwnerLeft(s') == OwnerLeft(s) &&
                    (|s'.pending| < |s.pending| || (s'.pending == s.pending && WorkerLeft(s') < WorkerLeft(s)))))
  {
    match s.owner
    case Running => e := Shutdown;
    case ShutdownNotifying => e := ShutdownNotify;
    case Joining => CheckAdvances(s); e := WorkerAdvances(s);
    case Destroying =>
      if s.pending != {} {
        var id :| id in s.pending;
        e := Complete(id);
      } else {
        e := DestroyDone;
      }
  }

  lemma WorkerAdvances(s: State) returns (e: Event)
    requires s.adders == map[] && s.owner == Joining && !s.active && s.worker != Waiting
    requires Sweep(s.requests) == [] <==> s.pending == {}
    requires s.pending != {} ==> s.requests != []
    ensures Enabled(s, e) && e != SpuriousWakeup
    ensures var s' := Apply(s, e);
            && s'.adders == map[]
            && (|| OwnerLeft(s') < OwnerLeft(s)
                || (OwnerLeft(s') == OwnerLeft(s) &&
                    (|s'.pending| < |s.pending| || (s'.pending == s.pending && WorkerLeft(s') < WorkerLeft(s)))))
  {
    match s.worker
    case Exited => e := Join;
    case Woken => e := Recheck;
    case Checking => e := Check;
    case Serving =>
      if s.pending != {} {
        var id :| id in s.pending;
        e := Complete(id);
      } else {
        e := ServeDone;
      }
  }

  /** With nobody submitting, the sweep leaves exactly the nodes of pending queries. */
  lemma CheckAdvances(s: State)
    requires Inv(s) && s.adders == map[]
    ensures Sweep(s.requests) == [] <==> s.pending == {}
  {
    SweepKeepsLive(s.requests);
    var swept := Sweep(s.requests);
    if s.pending != {} {
      var id :| id in s.pending;
      assert Node(id, true) in swept;
    }
    if swept != [] {
      assert swept[0] in swept;
      assert Live(s.requests, swept[0].id) && !BeingSubmitted(s, swept[0].id);
      assert swept[0].id in s.pending;
    }
  }

  /** From every reachable state the destructor can run to its end, without a spurious wake-up and
      with every request answered. */
  lemma {:induction false} CanAlwaysShutDown(s: State) returns (events: seq<Event>)
    requires Inv(s)
    ensures IsRun(s, events) && SpuriousWakeup !in events && Final(s, events).owner == Destroyed
    decreases |StillSubmitting(s)|, |s.adders|, OwnerLeft(s), |s.pending|, WorkerLeft(s)
  {
    if s.owner == Destroyed {
      events := [];
    } else {
      var e;
      if s.adders != map[] {
        e := AdderAdvances(s);
      } else {
        e := OwnerAdvances(s);
        assert StillSubmitting(s) == {} && StillSubmitting(Apply(s, e)) == {};
      }
      StepKeepsInv(s, e);
      var rest := CanAlwaysShutDown(Apply(s, e));
      events := [e] + rest;
      assert events[1..] == rest;
    }
  }

  // ---------------------------------------------------------------- an idle resolver blocks

  /** With no thread in `AddRequest` and no shutdown, the worker moves towards its wait. */
  lemma IdleAdvances(s: State) returns (e: Event)
    requires Inv(s) && s.adders == map[] && s.owner == Running && s.worker != Waiting
    ensures Enabled(s, e) && e != SpuriousWakeup
    ensures var s' := Apply(s, e);
            && s'.adders == map[] && s'.owner == Running
            && (s'.worker == Waiting || |s'.pending| < |s.pending|
                || (s'.pending == s.pending && WorkerLeft(s') < WorkerLeft(s)))
  {
    CheckAdvances(s);
    match s.worker
    case Checking => e := Check;
    case Woken => e := Recheck;
    case Serving =>
      if s.pending != {} {
        var id :| id in s.pending;
        e := Complete(id);
        assert Live(s.requests, id);
      } else {
        e := ServeDone;
      }
  }

  /** From every reachable state without a shutdown the worker can come to rest in its wait, with an empty list
      and every request answered, and no spurious wake-up on the way. */
  lemma {:induction false} CanAlwaysIdle(s: State) returns (events: seq<Event>)
    requires Inv(s) && s.owner == Running
    ensures IsRun(s, events) && SpuriousWakeup !in events
    ensures var s' := Final(s, events);
            s'.worker == Waiting && s'.requests == [] && s'.adders == map[] && |s'.answers| == s'.next
    decreases |StillSubmitting(s)|, |s.adders|, |s.pending|, WorkerLeft(s)
  {
    if s.worker == Waiting && s.adders == map[] {
      events := [];
    } else {
      var e;
      if s.adders != map[] {
        e := AdderAdvances(s);
      } else {
        e := IdleAdvances(s);
        assert StillSubmitting(s) == {} && StillSubmitting(Apply(s, e)) == {};
      }
      StepKeepsInv(s, e);
      if s.adders == map[] && Apply(s, e).worker == Waiting {
        events := [e];
        assert events[1..] == [];
      } else {
        var rest := CanAlwaysIdle(Apply(s, e));
        events := [e] + rest;
        assert events[1..] == rest;
      }
    }
  }
}
