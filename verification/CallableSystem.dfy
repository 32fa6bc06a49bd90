/** The client of the resolver: `Callable` with its handler queue and serving thread, the client's
    main thread, and their composition over IPC with the resolver's monitor. An `OnResolve` call is a
    rendezvous between a firing callback in the resolver and `loop.Step()` in the client. */
module CallableSystem {
  import R = ResolverProtocol

  /** `Step(k)` is the handler pushed by the `k`-th `Get()`; `Sentinel` is the empty handler. */
  datatype Handler = Step(k: nat) | Sentinel

  /** The thread in `ServeCalls`. */
  datatype ServerPc = Fetching | Blocked | Notified | Stepping(k: nat) | Returned

  /** The client's main thread; `i` counts the names. */
  datatype MainPc =
    | Getting(i: nat) | GetNotifying(i: nat) | Calling(i: nat) | InCall(i: nat)
    | Closing | CloseNotifying | Joining | Joined

  /** `names` are the client's arguments; `gets` counts the calls of `Get()` and `ran` lists the handlers
      that have run. */
  datatype System = System(
    names: seq<string>,
    main: MainPc, handlers: seq<Handler>, server: ServerPc, gets: nat, ran: seq<nat>,
    resolver: R.State)

  datatype SystemEvent =
    | PushStep | PushNotify | CallResolve | ReturnFromResolve | LeaveLoop
    | PushSentinel | SentinelNotify | JoinServer
    | Fetch | Refetch | SpuriousServerWakeup
    | Inside(e: R.Event)
    | Fire(e: R.Event)

  /** The resolver's event loop serves one call at a time; it is thread 0 of the resolver. */
  const DISPATCHER: nat := 0

  function Init(names: seq<string>): System {
    System(names, Getting(0), [], Fetching, 0, [], R.Init())
  }

  /** Resolver steps that run without a callback; the resolver stays up. */
  predicate IsSilent(e: R.Event) {
    e == R.Submit(DISPATCHER, false) || e == R.AddNotify(DISPATCHER) ||
    e.Check? || e.Recheck? || e.SpuriousWakeup? || e.ServeDone?
  }

  /** Resolver steps that make one `OnResolve` call. */
  predicate IsFiring(e: R.Event) {
    e == R.Submit(DISPATCHER, true) || e.Complete?
  }

  /** `Resolve` throws on an empty name before it takes the request. */
  predicate Accepts(name: string) { name != "" }

  predicate SystemEnabled(s: System, e: SystemEvent) {
    match e
    case PushStep => s.main.Getting? && s.main.i < |s.names|
    case PushNotify => s.main.GetNotifying?
    case CallResolve =>
      s.main.Calling? && s.main.i < |s.names| &&
      (Accepts(s.names[s.main.i]) ==> R.Enabled(s.resolver, R.Enqueue(DISPATCHER)))
    case ReturnFromResolve => s.main.InCall? && DISPATCHER !in s.resolver.adders
    case LeaveLoop => s.main.Getting? && s.main.i >= |s.names|
    case PushSentinel => s.main.Closing?
    case SentinelNotify => s.main.CloseNotifying?
    case JoinServer => s.main.Joining? && s.server.Returned?
    case Fetch => s.server.Fetching?
    case Refetch => s.server.Notified?
    case SpuriousServerWakeup => s.server.Blocked?
    case Inside(r) => IsSilent(r) && R.Enabled(s.resolver, r)
    case Fire(r) => IsFiring(r) && s.server.Stepping? && R.Enabled(s.resolver, r)
  }

  /** `GetHandler`: block on an empty queue, else take the front; an empty handler ends `ServeCalls`. */
  function Take(s: System): System {
    if s.handlers == [] then s.(server := Blocked)
    else s.(handlers := s.handlers[1..],
            server := match s.handlers[0] case Step(k) => Stepping(k) case Sentinel => Returned)
  }

  function Wake(server: ServerPc): ServerPc {
    if server == Blocked then Notified else server
  }

  function SystemApply(s: System, e: SystemEvent): System
    requires SystemEnabled(s, e)
  {
    match e
    case PushStep => s.(main := GetNotifying(s.main.i), handlers := s.handlers + [Step(s.gets)], gets := s.gets + 1)
    case PushNotify => s.(main := Calling(s.main.i), server := Wake(s.server))
    case CallResolve =>
      if Accepts(s.names[s.main.i])
      then s.(main := InCall(s.main.i), resolver := R.Apply(s.resolver, R.Enqueue(DISPATCHER)))
      else s.(main := Closing)
    case ReturnFromResolve => s.(main := Getting(s.main.i + 1))
    case LeaveLoop => s.(main := Closing)
    case PushSentinel => s.(main := CloseNotifying, handlers := s.handlers + [Sentinel])
    case SentinelNotify => s.(main := Joining, server := Wake(s.server))
    case JoinServer => s.(main := Joined)
    case Fetch => Take(s)
    case Refetch => Take(s)
    case SpuriousServerWakeup => s.(server := Notified)
    case Inside(r) => s.(resolver := R.Apply(s.resolver, r))
    case Fire(r) => s.(resolver := R.Apply(s.resolver, r), server := Fetching, ran := s.ran + [s.server.k])
  }

  predicate IsSystemRun(s: System, events: seq<SystemEvent>)
    decreases |events|
  {
    events == [] || (SystemEnabled(s, events[0]) && IsSystemRun(SystemApply(s, events[0]), events[1..]))
  }

  function SystemFinal(s: System, events: seq<SystemEvent>): System
    requires IsSystemRun(s, events)
    decreases |events|
  {
    if events == [] then s else SystemFinal(SystemApply(s, events[0]), events[1..])
  }

  // ---------------------------------------------------------------- the invariant

  /** `Step(from), ..., Step(to - 1)`. */
  function Steps(from: nat, to: nat): (hs: seq<Handler>)
    requires from <= to
    ensures |hs| == to - from
  {
    seq(to - from, j requires 0 <= j => Step(from + j))
  }

  function Fetched(s: System): nat {
    |s.ran| + if s.server.Stepping? then 1 else 0
  }

  predicate SentinelPushed(s: System) {
    s.main.CloseNotifying? || s.main.Joining? || s.main.Joined?
  }

  /** FIFO: the handlers that ran, the one running and those queued are `0, 1, 2, ...` in order, and
      the sentinel, once pushed, comes last. */
  ghost predicate HandlersInOrder(s: System) {
    && Fetched(s) <= s.gets
    && (forall j :: 0 <= j < |s.ran| ==> s.ran[j] == j)
    && (s.server.Stepping? ==> s.server.k == |s.ran|)
    && s.handlers == Steps(Fetched(s), s.gets)
                     + (if SentinelPushed(s) && s.server != Returned then [Sentinel] else [])
    && (s.server.Returned? ==> SentinelPushed(s) && Fetched(s) == s.gets)
    && (s.main.Joined? ==> s.server.Returned?)
  }

  ghost predicate AcceptedUpTo(s: System, n: nat) {
    n <= |s.names| && forall j :: 0 <= j < n ==> Accepts(s.names[j])
  }

  /** Where the main thread is fixes how many handlers were pushed and how many requests were taken. */
  ghost predicate CallsMatchGets(s: System) {
    && AcceptedUpTo(s, s.resolver.next)
    && match s.main
       case Getting(i) => s.gets == s.resolver.next == i
       case GetNotifying(i) => s.gets == i + 1 && s.resolver.next == i < |s.names|
       case Calling(i) => s.gets == i + 1 && s.resolver.next == i < |s.names|
       case InCall(i) => s.gets == s.resolver.next == i + 1
       case _ =>
         || (s.gets == s.resolver.next == |s.names|)
         || (s.gets == s.resolver.next + 1 && s.resolver.next < |s.names| && s.names[s.resolver.next] == "")
  }

  ghost predicate ResolverSide(s: System) {
    && R.Inv(s.resolver)
    && s.resolver.owner == R.Running
    && (forall t :: t in s.resolver.adders ==> t == DISPATCHER && s.main.InCall?)
    && |s.ran| == |s.resolver.answers|
  }

  /** The serving thread is blocked with work queued only while the pusher still owes its notification. */
  ghost predicate NoLostServerWakeup(s: System) {
    s.server.Blocked? && s.handlers != [] ==> s.main.GetNotifying? || s.main.CloseNotifying?
  }

  ghost predicate SystemInv(s: System) {
    HandlersInOrder(s) && CallsMatchGets(s) && ResolverSide(s) && NoLostServerWakeup(s)
  }

  lemma InitSystemInv(names: seq<string>)
    ensures SystemInv(Init(names))
  {
    R.InitInv();
  }

  /** The request a firing step answers. */
  ghost function FiredId(r: R.State, e: R.Event): nat
    requires R.Enabled(r, e) && IsFiring(e)
  {
    if e.Complete? then e.id else r.adders[DISPATCHER].id
  }

  lemma FiresLiveNode(r: R.State, e: R.Event)
    requires R.QueriesMatchNodes(r) && R.Enabled(r, e) && IsFiring(e)
    ensures R.Live(r.requests, FiredId(r, e))
  {
  }

  lemma ResolverStepCounts(r: R.State, e: R.Event)
    requires R.Enabled(r, e) && (IsSilent(e) || IsFiring(e) || e == R.Enqueue(DISPATCHER))
    requires IsFiring(e) ==> R.Live(r.requests, FiredId(r, e))
    ensures var r' := R.Apply(r, e);
            && r'.owner == r.owner
            && r'.next == r.next + (if e.Enqueue? then 1 else 0)
            && |r'.answers| == |r.answers| + (if IsFiring(e) then 1 else 0)
            && (forall t :: t in r'.adders ==> t in r.adders || (t == DISPATCHER && e.Enqueue?))
  {
  }

  lemma TakeKeepsInv(s: System)
    requires SystemInv(s) && (s.server.Fetching? || s.server.Notified?)
    ensures SystemInv(Take(s))
  {
    var n, sent := |s.ran|, SentinelPushed(s);
    if n < s.gets {
      assert s.handlers[0] == Step(n);
      assert Steps(n, s.gets)[1..] == Steps(n + 1, s.gets);
      assert s.handlers[1..] == Steps(n, s.gets)[1..] + (if sent then [Sentinel] else []);
    } else if sent {
      assert s.handlers == [Sentinel];
    }
  }

  /** Steps of the main thread that stay inside the client. */
  lemma MainStepKeepsInv(s: System, e: SystemEvent)
    requires SystemInv(s) && SystemEnabled(s, e)
    requires e.PushStep? || e.PushNotify? || e.ReturnFromResolve? || e.LeaveLoop?
          || e.PushSentinel? || e.SentinelNotify? || e.JoinServer?
    ensures SystemInv(SystemApply(s, e))
  {
    var s' := SystemApply(s, e);
    assert s'.resolver == s.resolver;
    if e.PushStep? {
      assert Steps(Fetched(s), s.gets + 1) == Steps(Fetched(s), s.gets) + [Step(s.gets)];
    }
  }

  lemma CallKeepsInv(s: System)
    requires SystemInv(s) && SystemEnabled(s, CallResolve)
    ensures SystemInv(SystemApply(s, CallResolve))
  {
    if Accepts(s.names[s.main.i]) {
      R.StepKeepsInv(s.resolver, R.Enqueue(DISPATCHER));
      ResolverStepCounts(s.resolver, R.Enqueue(DISPATCHER));
    }
  }

  lemma ResolverStepKeepsInv(s: System, e: SystemEvent)
    requires SystemInv(s) && SystemEnabled(s, e) && (e.Inside? || e.Fire?)
    ensures SystemInv(SystemApply(s, e))
  {
    R.StepKeepsInv(s.resolver, e.e);
    if e.Fire? {
      FiresLiveNode(s.resolver, e.e);
    }
    ResolverStepCounts(s.resolver, e.e);
  }

  lemma SystemStepKeepsInv(s: System, e: SystemEvent)
    requires SystemInv(s) && SystemEnabled(s, e)
    ensures SystemInv(SystemApply(s, e))
  {
    match e
    case CallResolve => CallKeepsInv(s);
    case Fetch => TakeKeepsInv(s);
    case Refetch => TakeKeepsInv(s);
    case SpuriousServerWakeup =>
    case Inside(_) => ResolverStepKeepsInv(s, e);
    case Fire(_) => ResolverStepKeepsInv(s, e);
    case _ => MainStepKeepsInv(s, e);
  }

  lemma {:induction false} SystemRunKeepsInv(s: System, events: seq<SystemEvent>)
    requires SystemInv(s) && IsSystemRun(s, events)
    ensures SystemInv(SystemFinal(s, events)) && SystemFinal(s, events).names == s.names
    decreases |events|
  {
    if events != [] {
      SystemStepKeepsInv(s, events[0]);
      SystemRunKeepsInv(SystemApply(s, events[0]), events[1..]);
    }
  }

  // ---------------------------------------------------------------- what a returned join means

  ghost predicate NoEmptyName(names: seq<string>) {
    forall i :: 0 <= i < |names| ==> names[i] != ""
  }

  /** End-to-end conservation: `join` returns only if no name is empty, and only after exactly one
      `OnResolve` per `Get()` was served, by the handlers in the order of their `Get()`s, with no handler
      left behind the sentinel. */
  lemma JoinedMeansEveryGetServed(names: seq<string>, events: seq<SystemEvent>)
    requires IsSystemRun(Init(names), events) && SystemFinal(Init(names), events).main == Joined
    ensures NoEmptyName(names)
    ensures var s := SystemFinal(Init(names), events);
            && s.handlers == [] && s.gets == |names|
            && s.ran == seq(|names|, k => k)
            && R.NoDuplicates(s.resolver.answers) && |s.resolver.answers| == |names|
            && forall id: nat :: id in s.resolver.answers <==> id < |names|
  {
    InitSystemInv(names);
    SystemRunKeepsInv(Init(names), events);
    var s := SystemFinal(Init(names), events);
    assert R.Sweep(s.resolver.requests) == [];
    R.NothingLive(s.resolver.requests);
  }

  /** In every reachable state the serving thread's block is covered by an owed `notify_one`. */
  lemma BlockedServerWillBeNotified(names: seq<string>, events: seq<SystemEvent>)
    requires IsSystemRun(Init(names), events)
    ensures var s := SystemFinal(Init(names), events);
            s.server == Blocked && s.handlers != [] ==> s.main.GetNotifying? || s.main.CloseNotifying?
  {
    InitSystemInv(names);
    SystemRunKeepsInv(Init(names), events);
  }

  /** A callback of the resolver, from inside `Resolve` or from its worker, is served by the handler in `loop.Step()`
      if there is one: it is the next in line, and the request is answered for the first time. */
  lemma CallbackIsServed(s: System, e: R.Event)
    requires SystemInv(s) && s.server.Stepping? && R.Enabled(s.resolver, e)
    requires e == R.Submit(0, true) || e.Complete?
    ensures SystemEnabled(s, Fire(e))
    ensures var id, s' := if e.Complete? then e.id else s.resolver.adders[0].id, SystemApply(s, Fire(e));
            && s'.ran == s.ran + [|s.ran|] && s'.server == Fetching
            && id !in s.resolver.answers && s'.resolver.answers == s.resolver.answers + [id]
  {
    FiresLiveNode(s.resolver, e);
    SystemStepKeepsInv(s, Fire(e));
    assert SystemApply(s, Fire(e)).ran[|s.ran|] == |s.ran|;
  }

  // ---------------------------------------------------------------- what an empty name does

  /** The client hangs: main waits in `join` for the serving thread, which waits in `loop.Step()` with the handler of
      the rejected name, and every request that was accepted has been answered. */
  ghost predicate Hung(s: System) {
    && s.main == Joining && s.server == Stepping(s.resolver.next)
    && s.resolver.next < |s.names| && s.names[s.resolver.next] == ""
    && |s.resolver.answers| == s.resolver.next
  }

  /** No callback can fire any more, so neither thread moves: only the idle resolver does. */
  lemma HungStep(s: System, e: SystemEvent)
    requires SystemInv(s) && Hung(s) && SystemEnabled(s, e)
    ensures var s' := SystemApply(s, e);
            Hung(s') && s'.main == s.main && s'.server == s.server && s'.handlers == s.handlers
  {
    assert R.Sweep(s.resolver.requests) == [];
    R.NothingLive(s.resolver.requests);
    if e.Fire? {
      FiresLiveNode(s.resolver, e.e);
      assert false;
    } else if e.Inside? {
      ResolverStepCounts(s.resolver, e.e);
    }
  }

  /** Once hung, main and server never leave their waits, whatever the resolver does. */
  lemma {:induction false} HungForever(s: System, events: seq<SystemEvent>)
    requires SystemInv(s) && Hung(s) && IsSystemRun(s, events)
    ensures var s' := SystemFinal(s, events);
            Hung(s') && s'.main == s.main && s'.server == s.server && s'.handlers == s.handlers
    decreases |events|
  {
    if events != [] {
      HungStep(s, events[0]);
      SystemStepKeepsInv(s, events[0]);
      HungForever(SystemApply(s, events[0]), events[1..]);
    }
  }

  // ---------------------------------------------------------------- every run can be settled

  predicate IsSpurious(e: SystemEvent) {
    e == SpuriousServerWakeup || e == Inside(R.SpuriousWakeup)
  }

  /** Statements the main thread has yet to execute, those of the call it is in included. */
  function MainLeft(s: System): nat {
    var n := |s.names|;
    var left := (i: nat) => if i <= n then 8 * (n - i) else 0;
    match s.main
    case Getting(i) => left(i) + 10
    case GetNotifying(i) => left(i) + 9
    case Calling(i) => left(i) + 8
    case InCall(i) =>
      left(i) + (if DISPATCHER !in s.resolver.adders then 5
                 else if s.resolver.adders[DISPATCHER].Submitting? then 7 else 6)
    case Closing => 9
    case CloseNotifying => 8
    case Joining => 7
    case Joined => 0
  }

  function Unserved(s: System): nat { if |s.ran| <= s.gets then s.gets - |s.ran| else 0 }

  function ServerLeft(s: System): nat {
    match s.server case Returned => 0 case Stepping(_) => 1 case Fetching => 2 case Notified => 2 case Blocked => 3
  }

  function WorkerLeft(s: System): nat { if s.resolver.worker == R.Serving then 0 else 1 }

  /** The lexicographic order of the four measures. */
  predicate Closer(s': System, s: System) {
    var m, u, v, w := MainLeft(s), Unserved(s), ServerLeft(s), WorkerLeft(s);
    var m', u', v', w' := MainLeft(s'), Unserved(s'), ServerLeft(s'), WorkerLeft(s');
    m' < m || (m' == m && (u' < u || (u' == u && (v' < v || (v' == v && w' < w)))))
  }

  /** The main thread reaches its `join` without waiting for anyone. */
  lemma MainAdvances(s: System) returns (e: SystemEvent)
    requires SystemInv(s) && !s.main.Joining? && !s.main.Joined?
    ensures SystemEnabled(s, e) && !IsSpurious(e) && MainLeft(SystemApply(s, e)) < MainLeft(s)
  {
    match s.main
    case Getting(i) => e := if i < |s.names| then PushStep else LeaveLoop;
    case GetNotifying(_) => e := PushNotify;
    case Calling(_) => e := CallResolve;
    case InCall(_) =>
      if DISPATCHER !in s.resolver.adders {
        e := ReturnFromResolve;
      } else if s.resolver.adders[DISPATCHER].Submitting? {
        e := Inside(R.Submit(DISPATCHER, false));
      } else {
        e := Inside(R.AddNotify(DISPATCHER));
      }
    case Closing => e := PushSentinel;
    case CloseNotifying => e := SentinelNotify;
  }

  /** While an accepted request is unanswered, the worker is neither blocked nor gone, and a query is pending. */
  lemma AnswerIsComing(s: System)
    requires SystemInv(s) && s.main.Joining? && |s.resolver.answers| < s.resolver.next
    ensures R.Sweep(s.resolver.requests) != [] && s.resolver.requests != []
    ensures s.resolver.worker != R.Waiting && s.resolver.worker != R.Exited
    ensures exists id :: id in s.resolver.pending
  {
    var r := s.resolver;
    assert r.adders == map[];
    R.SweepKeepsLive(r.requests);
    assert |R.Sweep(r.requests)| > 0;
    var n := R.Sweep(r.requests)[0];
    assert n in R.Sweep(r.requests);
    assert R.Live(r.requests, n.id);
    assert !R.BeingSubmitted(r, n.id);
    assert n.id in r.pending;
  }

  /** Unless the client has finished or hangs, some step brings it closer to one of the two. */
  lemma Advance(s: System) returns (e: SystemEvent)
    requires SystemInv(s) && s.main != Joined && !Hung(s)
    ensures SystemEnabled(s, e) && !IsSpurious(e) && Closer(SystemApply(s, e), s)
  {
    if !s.main.Joining? {
      e := MainAdvances(s);
      return;
    }
    match s.server
    case Returned => e := JoinServer;
    case Fetching => e := Fetch;
    case Notified => e := Refetch;
    case Blocked => assert false;
    case Stepping(_) => e := AnswerAdvances(s);
  }

  lemma AnswerAdvances(s: System) returns (e: SystemEvent)
    requires SystemInv(s) && s.main.Joining? && s.server.Stepping? && !Hung(s)
    ensures SystemEnabled(s, e) && !IsSpurious(e) && Closer(SystemApply(s, e), s)
  {
    assert |s.resolver.answers| < s.resolver.next;
    AnswerIsComing(s);
    if s.resolver.worker == R.Serving {
      var id :| id in s.resolver.pending;
      e := Fire(R.Complete(id));
      FireAdvances(s, id);
    } else {
      e := Inside(if s.resolver.worker == R.Checking then R.Check else R.Recheck);
      LookAdvances(s, e.e);
    }
  }

  lemma FireAdvances(s: System, id: nat)
    requires s.main.Joining? && s.server.Stepping? && |s.ran| < s.gets
    requires R.Enabled(s.resolver, R.Complete(id))
    ensures SystemEnabled(s, Fire(R.Complete(id))) && Closer(SystemApply(s, Fire(R.Complete(id))), s)
  {
  }

  lemma LookAdvances(s: System, r: R.Event)
    requires s.main.Joining? && (r == R.Check || r == R.Recheck) && R.Enabled(s.resolver, r)
    requires R.Sweep(s.resolver.requests) != [] && s.resolver.requests != []
    ensures SystemEnabled(s, Inside(r)) && Closer(SystemApply(s, Inside(r)), s)
  {
  }

  ghost predicate NoSpurious(events: seq<SystemEvent>) {
    forall k :: 0 <= k < |events| ==> !IsSpurious(events[k])
  }

  /** From every reachable state the client can still finish or hang, and it needs no spurious wake-up for either. */
  lemma {:induction false} CanAlwaysSettle(s: System) returns (events: seq<SystemEvent>)
    requires SystemInv(s)
    ensures IsSystemRun(s, events) && NoSpurious(events)
    ensures SystemFinal(s, events).main == Joined || Hung(SystemFinal(s, events))
    decreases MainLeft(s), Unserved(s), ServerLeft(s), WorkerLeft(s)
  {
    if s.main == Joined || Hung(s) {
      events := [];
    } else {
      var e := Advance(s);
      SystemStepKeepsInv(s, e);
      var rest := CanAlwaysSettle(SystemApply(s, e));
      events := [e] + rest;
      assert events[1..] == rest;
    }
  }

  /** Deadlock freedom: if no name is empty, then from every reachable state the client can still finish. */
  lemma CanAlwaysJoin(s: System) returns (events: seq<SystemEvent>)
    requires SystemInv(s) && NoEmptyName(s.names)
    ensures IsSystemRun(s, events) && NoSpurious(events) && SystemFinal(s, events).main == Joined
  {
    events := CanAlwaysSettle(s);
    SystemRunKeepsInv(s, events);
  }

  /** If some name is empty, then from every reachable state the client can hang, and it can do nothing better. */
  lemma CanAlwaysHang(s: System) returns (events: seq<SystemEvent>)
    requires SystemInv(s) && !NoEmptyName(s.names)
    ensures IsSystemRun(s, events) && NoSpurious(events) && Hung(SystemFinal(s, events))
  {
    events := CanAlwaysSettle(s);
    SystemRunKeepsInv(s, events);
    assert SystemInv(SystemFinal(s, events));
  }

  /** `join` in `~Callable` can return exactly when no name is empty: a rejected name leaves the handler of
      its `Get()` waiting for a call that never comes. */
  lemma JoinReturnsIffNoEmptyName(names: seq<string>)
    ensures NoEmptyName(names) <==>
            exists events :: IsSystemRun(Init(names), events) && SystemFinal(Init(names), events).main == Joined
  {
    if NoEmptyName(names) {
      InitSystemInv(names);
      var events := CanAlwaysJoin(Init(names));
    }
    if events :| IsSystemRun(Init(names), events) && SystemFinal(Init(names), events).main == Joined {
      JoinedMeansEveryGetServed(names, events);
    }
  }

  /** A failing input: for the single argument "" a run reaches the hung state, and no run gets past it. */
  lemma OneEmptyNameHangs()
    ensures exists events :: IsSystemRun(Init([""]), events) && NoSpurious(events)
                             && Hung(SystemFinal(Init([""]), events))
    ensures forall events :: IsSystemRun(Init([""]), events) ==> SystemFinal(Init([""]), events).main != Joined
  {
    InitSystemInv([""]);
    assert [""][0] == "";
    assert !NoEmptyName([""]);
    var events := CanAlwaysHang(Init([""]));
    forall events | IsSystemRun(Init([""]), events)
      ensures SystemFinal(Init([""]), events).main != Joined
    {
      if SystemFinal(Init([""]), events).main == Joined {
        JoinedMeansEveryGetServed([""], events);
      }
    }
  }
}
