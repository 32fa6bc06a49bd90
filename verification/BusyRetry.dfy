/** The busy/retry protocol: two servers that answer every other request, clients that switch server
    and count `repeats` on busy, and a policy that refuses a request whose `repeats` exceeds a limit. */
module BusyRetry {
  import opened Bytes

  const U32 := 0x1_0000_0000
  const U64 := 0x1_0000_0000_0000_0000

  type u32 = x: int | 0 <= x < U32
  type u64 = x: int | 0 <= x < U64

  datatype Request = Request(repeats: u32, num1: u32, num2: u32)

  datatype Reply = Sum(result: u64) | Busy | Refused

  /** Unsigned 32-bit addition, widened afterwards. */
  function Add(req: Request): (sum: u64)
    ensures sum == (req.num1 + req.num2) % 0x1_0000_0000
  {
    var sum := req.num1 + req.num2;
    if sum < U32 then sum else sum - U32
  }

  function Increment32(x: u32): u32 { if x == U32 - 1 then 0 else x + 1 }

  function Increment64(x: u64): u64 { if x == U64 - 1 then 0 else x + 1 }

  // ---------------------------------------------------------------- the servers

  /** The `n`-th request (from 0) a server dispatches gets a sum exactly when `n` is even. */
  function NthReply(n: nat, req: Request): Reply {
    if n % 2 == 0 then Sum(Add(req)) else Busy
  }

  /** The 64-bit counter, started at 1, after `n` requests. */
  function CounterAfter(n: nat): u64 {
    if n == 0 then 1 else Increment64(CounterAfter(n - 1))
  }

  /** Wrap-around keeps the parity, because 2^64 is even. */
  lemma {:induction false} CounterParity(n: nat)
    ensures CounterAfter(n) % 2 == (1 + n) % 2
  {
    if n > 0 {
      CounterParity(n - 1);
    }
  }

  /** Both servers decide by the parity of the counter before its increment. */
  function ReplyOf(counter: u64, req: Request): Reply {
    if counter % 2 != 0 then Sum(Add(req)) else Busy
  }

  lemma RepliesAlternate(n: nat, req: Request)
    ensures ReplyOf(CounterAfter(n), req) == NthReply(n, req)
  {
    CounterParity(n);
  }

  class CServer {
    var requestCounter: u64
    ghost var dispatched: nat

    ghost predicate Valid()
      reads this
    {
      requestCounter == CounterAfter(dispatched)
    }

    constructor ()
      ensures Valid() && dispatched == 0
    {
      requestCounter, dispatched := 1, 0;
    }

    method SumRequest(req: Request) returns (reply: Reply)
      requires Valid()
      modifies this
      ensures Valid() && dispatched == old(dispatched) + 1
      ensures reply == NthReply(old(dispatched), req) && !reply.Refused?
      ensures reply.Busy? <==> old(dispatched) % 2 == 1
      ensures reply.Sum? ==> reply.result == (req.num1 + req.num2) % 0x1_0000_0000
    {
      RepliesAlternate(dispatched, req);
      if requestCounter % 2 != 0 {
        reply := Sum(Add(req));
      } else {
        reply := Busy;
      }
      requestCounter := Increment64(requestCounter);
      dispatched := dispatched + 1;
    }
  }

  class CxxServer {
    var requestCounter: u64
    ghost var dispatched: nat

    ghost predicate Valid()
      reads this
    {
      requestCounter == CounterAfter(dispatched)
    }

    constructor ()
      ensures Valid() && dispatched == 0
    {
      requestCounter, dispatched := 1, 0;
    }

    method SumRequest(req: Request) returns (reply: Reply)
      requires Valid()
      modifies this
      ensures Valid() && dispatched == old(dispatched) + 1
      ensures reply == NthReply(old(dispatched), req) && !reply.Refused?
      ensures reply.Busy? <==> old(dispatched) % 2 == 1
      ensures reply.Sum? ==> reply.result == (req.num1 + req.num2) % 0x1_0000_0000
    {
      RepliesAlternate(dispatched, req);
      var before := requestCounter;
      requestCounter := Increment64(requestCounter);
      dispatched := dispatched + 1;
      if before % 2 == 0 {
        return Busy;
      }
      reply := Sum(Add(req));
    }
  }

  /** Trace equivalence: fed the same requests, however many, the two servers give the same replies. */
  method ServersAgree(reqs: seq<Request>) returns (c: seq<Reply>, cxx: seq<Reply>)
    ensures c == cxx && |c| == |reqs|
    ensures forall n :: 0 <= n < |reqs| ==> c[n] == NthReply(n, reqs[n])
  {
    var left := new CServer();
    var right := new CxxServer();
    c, cxx := [], [];
    for n := 0 to |reqs|
      invariant left.Valid() && right.Valid() && left.dispatched == right.dispatched == n
      invariant c == cxx && |c| == n
      invariant forall k :: 0 <= k < n ==> c[k] == NthReply(k, reqs[k])
    {
      var a := left.SumRequest(reqs[n]);
      var b := right.SumRequest(reqs[n]);
      c, cxx := c + [a], cxx + [b];
    }
  }

  // ---------------------------------------------------------------- a client on its own

  /** A server that has dispatched `n` requests reports busy next. */
  predicate BusyNext(n: nat) { n % 2 == 1 }

  /** One call through the proxy of `server`, 0 being the C server and 1 the C++ server. The policy sees the
      request first, and a refused one reaches neither. */
  method Ask(c: CServer, cxx: CxxServer, server: bit, req: Request, limit: u32) returns (reply: Reply)
    requires c.Valid() && cxx.Valid()
    modifies c, cxx
    ensures c.Valid() && cxx.Valid()
    ensures reply.Refused? <==> req.repeats > limit
    ensures c.dispatched == old(c.dispatched) + if server == 0 && !reply.Refused? then 1 else 0
    ensures cxx.dispatched == old(cxx.dispatched) + if server == 1 && !reply.Refused? then 1 else 0
    ensures !reply.Refused? ==> (reply.Busy? <==> BusyNext(old(if server == 0 then c.dispatched else cxx.dispatched)))
    ensures reply.Sum? ==> reply.result == (req.num1 + req.num2) % 0x1_0000_0000
  {
    if req.repeats > limit {
      return Refused;
    }
    if server == 0 {
      reply := c.SumRequest(req);
    } else {
      reply := cxx.SumRequest(req);
    }
  }

  /** Of `n` attempts that alternate between the servers from `first` on, those that go to `server`. */
  function Own(first: bit, server: bit, n: nat): nat {
    if server == first then (n + 1) / 2 else n / 2
  }

  lemma OwnNext(first: bit, server: bit, n: nat)
    ensures Own(first, server, n + 1) == Own(first, server, n) + if (first + n) % 2 == server then 1 else 0
    ensures (first + n) % 2 == server ==> Own(first, server, n) == n / 2
  {
  }

  /** Busy replies that a client nobody interferes with would get. */
  function BusyReplies(firstBusy: bool, otherBusy: bool): nat {
    if !firstBusy then 0 else if !otherBusy then 1 else 2
  }

  /** Exactly when the policy refuses such a client. */
  predicate RefusedAlone(limit: u32, repeats: u32, firstBusy: bool, otherBusy: bool) {
    limit < 0xffff_ffff && repeats + BusyReplies(firstBusy, otherBusy) > limit
  }

  function Wrapped(x: nat): u32
    requires x < 2 * U32
  {
    if x < U32 then x else x - U32
  }

  /** `ProcessRequest`. The attempts alternate between the servers from `firstServer` on, and all but a refused
      one are dispatched. */
  method ProcessRequest(c: CServer, cxx: CxxServer, firstServer: bit, request: Request, limit: u32)
    returns (result: Option<u64>, attempts: nat)
    requires c.Valid() && cxx.Valid()
    modifies c, cxx
    ensures c.Valid() && cxx.Valid()
    ensures var first, other := if firstServer == 0 then old(c.dispatched) else old(cxx.dispatched),
                                if firstServer == 0 then old(cxx.dispatched) else old(c.dispatched);
            && (result.None? <==> RefusedAlone(limit, request.repeats, BusyNext(first), BusyNext(other)))
            && (result.Some? ==> attempts == 1 + BusyReplies(BusyNext(first), BusyNext(other)))
    ensures result.Some? ==> result.value == (request.num1 + request.num2) % 0x1_0000_0000
    ensures result.None? ==> attempts == if request.repeats > limit then 1 else limit - request.repeats + 2
    ensures var served := if result.None? then attempts - 1 else attempts;
            && 0 <= served <= 3
            && c.dispatched == old(c.dispatched) + Own(firstServer, 0, served)
            && cxx.dispatched == old(cxx.dispatched) + Own(firstServer, 1, served)
  {
    var req := request;
    var curServer := firstServer;
    attempts := 0;
    ghost var first := if firstServer == 0 then c.dispatched else cxx.dispatched;
    ghost var other := if firstServer == 0 then cxx.dispatched else c.dispatched;
    while true
      invariant c.Valid() && cxx.Valid() && attempts <= BusyReplies(BusyNext(first), BusyNext(other))
      invariant c.dispatched == old(c.dispatched) + Own(firstServer, 0, attempts)
      invariant cxx.dispatched == old(cxx.dispatched) + Own(firstServer, 1, attempts)
      invariant curServer == (firstServer + attempts) % 2
      invariant attempts > 0 ==> request.repeats + attempts - 1 <= limit || limit == 0xffff_ffff
      invariant req == request.(repeats := Wrapped(request.repeats + attempts))
      decreases 3 - attempts
    {
      OwnNext(firstServer, 0, attempts);
      OwnNext(firstServer, 1, attempts);
      attempts := attempts + 1;
      var reply := Ask(c, cxx, curServer, req, limit);
      if reply.Refused? {
        return None, attempts;
      }
      if reply.Sum? {
        return Some(reply.result), attempts;
      }
      curServer := 1 - curServer;
      req := req.(repeats := Increment32(req.repeats));
    }
  }

  /** From a fresh request: never refused from limit 2 on; with the shipped limit of 1, refused exactly
      when both servers are about to be busy. */
  lemma RefusedAloneFromScratch(limit: u32, firstBusy: bool, otherBusy: bool)
    ensures limit >= 2 ==> !RefusedAlone(limit, 0, firstBusy, otherBusy)
    ensures limit == 1 ==> (RefusedAlone(limit, 0, firstBusy, otherBusy) <==> firstBusy && otherBusy)
    ensures limit == 0 ==> (RefusedAlone(limit, 0, firstBusy, otherBusy) <==> firstBusy)
  {
  }

  // ---------------------------------------------------------------- a client among others

  /** How many requests of other clients the servers dispatch between two attempts. */
  datatype Others = Others(toC: nat, toCxx: nat)

  /** Before attempt `k` come the requests `others[k]`; after the last entry there are no more. */
  function OthersAt(others: seq<Others>, k: nat): Others {
    if k < |others| then others[k] else Others(0, 0)
  }

  /** Requests of other clients to `server` before attempt `n`, that is, those of `others[..n]`. */
  function OthersTo(others: seq<Others>, server: bit, n: nat): nat {
    if n == 0 then 0
    else
      var last := OthersAt(others, n - 1);
      OthersTo(others, server, n - 1) + if server == 0 then last.toC else last.toCxx
  }

  /** How many requests the server of attempt `k` has dispatched when that attempt reaches it: those it had at
      the start, other clients', and every other attempt before this one. */
  function Met(first: bit, c: nat, cxx: nat, others: seq<Others>, k: nat): nat {
    var server: bit := (first + k) % 2;
    (if server == 0 then c else cxx) + OthersTo(others, server, k + 1) + k / 2
  }

  /** Where the servers stand after `n` busy attempts, started with `c0` and `cxx0` requests dispatched. */
  ghost predicate AllBusy(first: bit, c0: nat, cxx0: nat, others: seq<Others>, n: nat, c: nat, cxx: nat) {
    && c == c0 + OthersTo(others, 0, n) + Own(first, 0, n)
    && cxx == cxx0 + OthersTo(others, 1, n) + Own(first, 1, n)
    && forall k: nat :: k < n ==> BusyNext(Met(first, c0, cxx0, others, k))
  }

  /** Attempt `n`, after the interference before it: what it meets, and where a busy reply leads. */
  lemma NextAttempt(first: bit, c0: nat, cxx0: nat, others: seq<Others>, n: nat, c: nat, cxx: nat)
    requires AllBusy(first, c0, cxx0, others, n, c, cxx)
    ensures var o, server := OthersAt(others, n), (first + n) % 2;
            var c', cxx' := c + o.toC, cxx + o.toCxx;
            && Met(first, c0, cxx0, others, n) == (if server == 0 then c' else cxx')
            && c' == c0 + OthersTo(others, 0, n + 1) + Own(first, 0, n)
            && cxx' == cxx0 + OthersTo(others, 1, n + 1) + Own(first, 1, n)
            && Own(first, 0, n + 1) == Own(first, 0, n) + (1 - server)
            && Own(first, 1, n + 1) == Own(first, 1, n) + server
  {
    OwnNext(first, 0, n);
    OwnNext(first, 1, n);
  }

  method Interfere(c: CServer, cxx: CxxServer, others: Others)
    requires c.Valid() && cxx.Valid()
    modifies c, cxx
    ensures c.Valid() && c.dispatched == old(c.dispatched) + others.toC
    ensures cxx.Valid() && cxx.dispatched == old(cxx.dispatched) + others.toCxx
  {
    var other := Request(0, 0, 0);
    for k := 0 to others.toC
      invariant c.Valid() && c.dispatched == old(c.dispatched) + k
      invariant cxx.Valid() && cxx.dispatched == old(cxx.dispatched)
    {
      var _ := c.SumRequest(other);
    }
    for k := 0 to others.toCxx
      invariant c.Valid() && c.dispatched == old(c.dispatched) + others.toC
      invariant cxx.Valid() && cxx.dispatched == old(cxx.dispatched) + k
    {
      var _ := cxx.SumRequest(other);
    }
  }

  /** One attempt, after other clients' requests; `met` is what its server had dispatched when it got there. */
  method AskAmongOthers(c: CServer, cxx: CxxServer, server: bit, req: Request, limit: u32, others: Others)
    returns (reply: Reply, ghost met: nat)
    requires c.Valid() && cxx.Valid()
    modifies c, cxx
    ensures c.Valid() && cxx.Valid()
    ensures reply.Refused? <==> req.repeats > limit
    ensures met == if server == 0 then old(c.dispatched) + others.toC else old(cxx.dispatched) + others.toCxx
    ensures c.dispatched == old(c.dispatched) + others.toC + if server == 0 && !reply.Refused? then 1 else 0
    ensures cxx.dispatched == old(cxx.dispatched) + others.toCxx + if server == 1 && !reply.Refused? then 1 else 0
    ensures !reply.Refused? ==> (reply.Busy? <==> BusyNext(met))
    ensures reply.Sum? ==> reply.result == (req.num1 + req.num2) % 0x1_0000_0000
  {
    Interfere(c, cxx, others);
    met := if server == 0 then c.dispatched else cxx.dispatched;
    reply := Ask(c, cxx, server, req, limit);
  }

  /** The retry loop of the C client, with any interference before every attempt. The attempts alternate between
      the servers from `firstServer` on; the first one that meets a server about to give a sum ends the loop, and
      the request is refused exactly when none of the first `limit + 1` does. */
  method RetryLoop(c: CServer, cxx: CxxServer, firstServer: bit, num1: u32, num2: u32, limit: u32, others: seq<Others>)
    returns (outcome: Reply, attempts: nat, lastServer: bit)
    requires c.Valid() && cxx.Valid() && limit < 0xffff_ffff
    modifies c, cxx
    ensures c.Valid() && cxx.Valid()
    ensures outcome == Refused || outcome == Sum((num1 + num2) % 0x1_0000_0000)
    ensures 1 <= attempts <= limit + 2 && (outcome == Refused <==> attempts == limit + 2)
    ensures lastServer == (firstServer + attempts - 1) % 2
    ensures outcome == Refused <==> forall k: nat :: k <= limit ==>
              BusyNext(Met(firstServer, old(c.dispatched), old(cxx.dispatched), others, k))
    ensures forall k: nat :: k < attempts - 1 ==>
              BusyNext(Met(firstServer, old(c.dispatched), old(cxx.dispatched), others, k))
    ensures outcome.Sum? ==>
              !BusyNext(Met(firstServer, old(c.dispatched), old(cxx.dispatched), others, attempts - 1))
    ensures var served := if outcome == Refused then attempts - 1 else attempts;
            && c.dispatched == old(c.dispatched) + OthersTo(others, 0, attempts) + Own(firstServer, 0, served)
            && cxx.dispatched == old(cxx.dispatched) + OthersTo(others, 1, attempts) + Own(firstServer, 1, served)
  {
    ghost var c0, cxx0 := c.dispatched, cxx.dispatched;
    var req := Request(0, num1, num2);
    var curServer := firstServer;
    attempts := 0;
    while true
      invariant c.Valid() && cxx.Valid()
      invariant attempts <= limit + 1 && req == Request(attempts, num1, num2)
      invariant curServer == (firstServer + attempts) % 2
      invariant AllBusy(firstServer, c0, cxx0, others, attempts, c.dispatched, cxx.dispatched)
      decreases limit + 1 - attempts
    {
      NextAttempt(firstServer, c0, cxx0, others, attempts, c.dispatched, cxx.dispatched);
      ghost var met;
      var reply;
      reply, met := AskAmongOthers(c, cxx, curServer, req, limit, OthersAt(others, attempts));
      attempts := attempts + 1;
      if reply != Busy {
        return reply, attempts, curServer;
      }
      curServer := 1 - curServer;
      req := req.(repeats := Increment32(req.repeats));
    }
  }

  // ---------------------------------------------------------------- any number of clients

  /** A client inside `ProcessRequest`: its loop variables, and as history the busy replies and attempts so far. */
  datatype Client = Client(first: bit, target: bit, req: Request, busy: nat, attempts: nat, outcome: Option<Reply>)

  datatype Dispatch = Dispatch(server: bit, reply: Reply)

  /** `log` is every reply a server has given, in order; `counters` are the two servers' counters. */
  datatype State = State(counters: seq<u64>, clients: map<nat, Client>, log: seq<Dispatch>)

  datatype Event =
    | Start(client: nat, server: bit, num1: u32, num2: u32)
    | Attempt(client: nat)

  function Init(): State { State([1, 1], map[], []) }

  predicate Enabled(s: State, e: Event) {
    |s.counters| == 2 &&
    match e
    case Start(c, _, _, _) => c in s.clients ==> s.clients[c].outcome.Some?
    case Attempt(c) => c in s.clients && s.clients[c].outcome.None?
  }

  /** One turn of the loop in `ProcessRequest`, seen from the client. */
  function AfterReply(me: Client, reply: Reply): Client {
    if reply.Busy?
    then me.(attempts := me.attempts + 1, busy := me.busy + 1, target := 1 - me.target,
             req := me.req.(repeats := Increment32(me.req.repeats)))
    else me.(attempts := me.attempts + 1, outcome := Some(reply))
  }

  function Apply(limit: u32, s: State, e: Event): State
    requires Enabled(s, e)
  {
    match e
    case Start(c, server, num1, num2) =>
      s.(clients := s.clients[c := Client(server, server, Request(0, num1, num2), 0, 0, None)])
    case Attempt(c) =>
      var me := s.clients[c];
      if me.req.repeats > limit then s.(clients := s.clients[c := AfterReply(me, Refused)])
      else
        var reply := ReplyOf(s.counters[me.target], me.req);
        State(s.counters[me.target := Increment64(s.counters[me.target])],
              s.clients[c := AfterReply(me, reply)], s.log + [Dispatch(me.target, reply)])
  }

  predicate IsRun(limit: u32, s: State, events: seq<Event>)
    decreases |events|
  {
    events == [] || (Enabled(s, events[0]) && IsRun(limit, Apply(limit, s, events[0]), events[1..]))
  }

  function Final(limit: u32, s: State, events: seq<Event>): State
    requires IsRun(limit, s, events)
    decreases |events|
  {
    if events == [] then s else Final(limit, Apply(limit, s, events[0]), events[1..])
  }

  /** Requests dispatched by `server`. */
  function Dispatched(log: seq<Dispatch>, server: bit): nat {
    if log == [] then 0
    else Dispatched(log[..|log| - 1], server) + if log[|log| - 1].server == server then 1 else 0
  }

  /** Sums given by `server`. */
  function Sums(log: seq<Dispatch>, server: bit): nat {
    if log == [] then 0
    else Sums(log[..|log| - 1], server)
         + if log[|log| - 1].server == server && log[|log| - 1].reply.Sum? then 1 else 0
  }

  /** Each server's replies alternate, beginning with a sum. */
  ghost predicate Alternates(log: seq<Dispatch>) {
    forall k {:trigger log[k]} :: 0 <= k < |log| ==>
      !log[k].reply.Refused? && (log[k].reply.Busy? <==> Dispatched(log[..k], log[k].server) % 2 == 1)
  }

  ghost predicate ServersInStep(s: State) {
    |s.counters| == 2 && forall i: bit :: s.counters[i] == CounterAfter(Dispatched(s.log, i))
  }

  /** `repeats` counts the busy replies of this request, the target follows their parity, the outcome is
      the client's own sum or a refusal, and the attempts are bounded. */
  ghost predicate ClientOk(limit: u32, me: Client) {
    && me.req.repeats == me.busy % 0x1_0000_0000
    && me.target == (me.first + me.busy) % 2
    && me.attempts == me.busy + (if me.outcome.Some? then 1 else 0)
    && (limit < U32 - 1 ==> me.busy <= limit + 1)
    && (me.outcome.Some? ==> me.outcome.value == Refused || me.outcome.value == Sum(Add(me.req)))
    && (me.outcome.Some? ==> (me.outcome.value == Refused <==> me.req.repeats > limit))
  }

  ghost predicate Inv(limit: u32, s: State) {
    ServersInStep(s) && Alternates(s.log) && forall c :: c in s.clients ==> ClientOk(limit, s.clients[c])
  }

  lemma InitInv(limit: u32)
    ensures Inv(limit, Init())
  {
  }

  lemma DispatchedAppend(log: seq<Dispatch>, d: Dispatch, i: bit)
    ensures Dispatched(log + [d], i) == Dispatched(log, i) + if d.server == i then 1 else 0
  {
    assert (log + [d])[..|log|] == log;
  }

  lemma AlternatesAppend(log: seq<Dispatch>, d: Dispatch)
    requires Alternates(log)
    requires !d.reply.Refused? && (d.reply.Busy? <==> Dispatched(log, d.server) % 2 == 1)
    ensures Alternates(log + [d])
  {
    forall k | 0 <= k < |log| + 1
      ensures var e := (log + [d])[k];
              !e.reply.Refused? && (e.reply.Busy? <==> Dispatched((log + [d])[..k], e.server) % 2 == 1)
    {
      assert (log + [d])[..k] == log[..k];
      if k < |log| {
        assert (log + [d])[k] == log[k];
      } else {
        assert log[..k] == log;
      }
    }
  }

  lemma ReplyKeepsClientOk(limit: u32, me: Client, counter: u64)
    requires ClientOk(limit, me) && me.outcome.None?
    ensures me.req.repeats > limit ==> ClientOk(limit, AfterReply(me, Refused))
    ensures me.req.repeats <= limit ==> ClientOk(limit, AfterReply(me, ReplyOf(counter, me.req)))
  {
  }

  lemma DispatchKeepsCounter(counters: seq<u64>, log: seq<Dispatch>, d: Dispatch, i: bit)
    requires |counters| == 2 && counters[i] == CounterAfter(Dispatched(log, i))
    ensures counters[d.server := Increment64(counters[d.server])][i] == CounterAfter(Dispatched(log + [d], i))
  {
    DispatchedAppend(log, d, i);
  }

  lemma DispatchKeepsServers(s: State, d: Dispatch, req: Request)
    requires ServersInStep(s) && Alternates(s.log) && d.reply == ReplyOf(s.counters[d.server], req)
    ensures Alternates(s.log + [d])
    ensures forall i: bit ::
              s.counters[d.server := Increment64(s.counters[d.server])][i] == CounterAfter(Dispatched(s.log + [d], i))
  {
    CounterParity(Dispatched(s.log, d.server));
    AlternatesAppend(s.log, d);
    forall i: bit
      ensures s.counters[d.server := Increment64(s.counters[d.server])][i] == CounterAfter(Dispatched(s.log + [d], i))
    {
      DispatchKeepsCounter(s.counters, s.log, d, i);
    }
  }

  lemma StepKeepsInv(limit: u32, s: State, e: Event)
    requires Inv(limit, s) && Enabled(s, e)
    ensures Inv(limit, Apply(limit, s, e))
  {
    if e.Attempt? {
      var me := s.clients[e.client];
      ReplyKeepsClientOk(limit, me, s.counters[me.target]);
      DispatchKeepsServers(s, Dispatch(me.target, ReplyOf(s.counters[me.target], me.req)), me.req);
    }
  }

  lemma {:induction false} RunKeepsInv(limit: u32, s: State, events: seq<Event>)
    requires Inv(limit, s) && IsRun(limit, s, events)
    ensures Inv(limit, Final(limit, s, events))
    decreases |events|
  {
    if events != [] {
      StepKeepsInv(limit, s, events[0]);
      RunKeepsInv(limit, Apply(limit, s, events[0]), events[1..]);
    }
  }

  lemma AlternatesPrefix(log: seq<Dispatch>, n: nat)
    requires Alternates(log) && n <= |log|
    ensures Alternates(log[..n])
  {
    forall k | 0 <= k < n
      ensures var d := log[..n][k];
              !d.reply.Refused? && (d.reply.Busy? <==> Dispatched(log[..n][..k], d.server) % 2 == 1)
    {
      assert log[..n][k] == log[k] && log[..n][..k] == log[..k];
    }
  }

  lemma {:induction false} SumsAreHalf(log: seq<Dispatch>, server: bit)
    requires Alternates(log)
    ensures Sums(log, server) == (Dispatched(log, server) + 1) / 2
  {
    if log != [] {
      AlternatesPrefix(log, |log| - 1);
      SumsAreHalf(log[..|log| - 1], server);
      assert !log[|log| - 1].reply.Refused?;
    }
  }

  /** Two of three consecutive replies come from the same server, which alternates. */
  lemma NoThreeBusy(log: seq<Dispatch>, k: nat)
    requires Alternates(log) && k + 2 < |log|
    ensures !(log[k].reply.Busy? && log[k + 1].reply.Busy? && log[k + 2].reply.Busy?)
  {
    var a, b, c := log[k], log[k + 1], log[k + 2];
    NextPrefix(log, k, b.server);
    NextPrefix(log, k, c.server);
    NextPrefix(log, k + 1, c.server);
  }

  lemma NextPrefix(log: seq<Dispatch>, k: nat, i: bit)
    requires k < |log|
    ensures Dispatched(log[..k + 1], i) == Dispatched(log[..k], i) + if log[k].server == i then 1 else 0
  {
    assert log[..k + 1][..k] == log[..k];
  }

  /** System-wide progress: in every run, among any three consecutive replies at least one is a sum, and a
      server that dispatched n requests has given exactly ceil(n/2) sums. */
  lemma SystemProgress(limit: u32, events: seq<Event>)
    requires IsRun(limit, Init(), events)
    ensures var log := Final(limit, Init(), events).log;
            && (forall k :: 0 <= k && k + 2 < |log| ==>
                  !(log[k].reply.Busy? && log[k + 1].reply.Busy? && log[k + 2].reply.Busy?))
            && (forall i: bit :: Sums(log, i) == (Dispatched(log, i) + 1) / 2)
  {
    InitInv(limit);
    RunKeepsInv(limit, Init(), events);
    var log := Final(limit, Init(), events).log;
    forall i: bit
      ensures Sums(log, i) == (Dispatched(log, i) + 1) / 2
    {
      SumsAreHalf(log, i);
    }
    forall k | 0 <= k && k + 2 < |log|
      ensures !(log[k].reply.Busy? && log[k + 1].reply.Busy? && log[k + 2].reply.Busy?)
    {
      NoThreeBusy(log, k);
    }
  }

  /** An attempt goes to the client's target and to no other server, unless the policy refuses it; the server is
      busy exactly when it has dispatched an odd number of requests, and otherwise adds this client's operands. */
  lemma AttemptMeetsTarget(limit: u32, s: State, c: nat)
    requires ServersInStep(s) && Enabled(s, Attempt(c))
    ensures var me, s' := s.clients[c], Apply(limit, s, Attempt(c));
            if me.req.repeats > limit
            then s'.log == s.log && s'.counters == s.counters && s'.clients[c].outcome == Some(Refused)
            else
              && |s'.log| == |s.log| + 1 && s.log <= s'.log
              && var d := s'.log[|s.log|];
              && d.server == me.target && Dispatched(s'.log, d.server) == Dispatched(s.log, d.server) + 1
              && (d.reply.Busy? <==> BusyNext(Dispatched(s.log, me.target)))
              && (d.reply.Busy? ==> s'.clients[c].outcome.None? && s'.clients[c].target == 1 - me.target)
              && (!d.reply.Busy? ==> d.reply == Sum((me.req.num1 + me.req.num2) % 0x1_0000_0000)
                                     && s'.clients[c].outcome == Some(d.reply))
  {
    var me := s.clients[c];
    CounterParity(Dispatched(s.log, me.target));
    DispatchedAppend(s.log, Dispatch(me.target, ReplyOf(s.counters[me.target], me.req)), me.target);
  }

  /** Until it starts again, a client goes on with the request it started with. */
  lemma {:induction false} KeepsItsRequest(limit: u32, s: State, events: seq<Event>, c: nat)
    requires IsRun(limit, s, events) && c in s.clients
    requires forall k :: 0 <= k < |events| ==> !(events[k].Start? && events[k].client == c)
    ensures var s' := Final(limit, s, events);
            && c in s'.clients
            && s'.clients[c].first == s.clients[c].first
            && s'.clients[c].req.num1 == s.clients[c].req.num1 && s'.clients[c].req.num2 == s.clients[c].req.num2
    decreases |events|
  {
    if events != [] {
      assert !(events[0].Start? && events[0].client == c);
      assert forall k :: 0 <= k < |events[1..]| ==> events[1..][k] == events[k + 1];
      KeepsItsRequest(limit, Apply(limit, s, events[0]), events[1..], c);
    }
  }

  /** In every run, what a client gets is the answer to the request it started last: a refusal, or the sum of
      its own operands, which is exact below 2^32. */
  lemma AnswersTheRequest(limit: u32, before: seq<Event>, c: nat, server: bit, num1: u32, num2: u32,
                          after: seq<Event>)
    requires IsRun(limit, Init(), before + [Start(c, server, num1, num2)] + after)
    requires forall k :: 0 <= k < |after| ==> !(after[k].Start? && after[k].client == c)
    ensures var s := Final(limit, Init(), before + [Start(c, server, num1, num2)] + after);
            && c in s.clients
            && var me := s.clients[c];
            && me.first == server
            && (me.outcome.Some? ==> me.outcome.value == Refused
                                     || me.outcome.value == Sum((num1 + num2) % 0x1_0000_0000))
            && (me.outcome.Some? && me.outcome.value.Sum? && num1 < 0x8000_0000 && num2 < 0x8000_0000 ==>
                  me.outcome.value.result == num1 + num2)
  {
    var start := Start(c, server, num1, num2);
    RunSplit(limit, Init(), before + [start], after);
    RunSplit(limit, Init(), before, [start]);
    var s := Final(limit, Init(), before);
    assert [start][1..] == [];
    assert Final(limit, s, [start]) == Apply(limit, s, start);
    KeepsItsRequest(limit, Apply(limit, s, start), after, c);
    RetryBounds(limit, before + [start] + after, c);
  }

  /** Retry bounds under arbitrary interference. */
  lemma RetryBounds(limit: u32, events: seq<Event>, c: nat)
    requires IsRun(limit, Init(), events) && c in Final(limit, Init(), events).clients
    ensures var me := Final(limit, Init(), events).clients[c];
            && (limit < U32 - 1 ==> me.attempts <= limit + 2 && me.busy <= limit + 1)
            && me.req.repeats == me.busy % 0x1_0000_0000
            && me.target == (me.first + me.busy) % 2
            && (limit < U32 - 1 ==> (me.outcome == Some(Refused) <==> me.attempts == limit + 2))
            && (me.outcome.None? || me.outcome == Some(Refused)
                || me.outcome == Some(Sum((me.req.num1 + me.req.num2) % 0x1_0000_0000)))
            && (limit == U32 - 1 ==> me.outcome != Some(Refused))
  {
    InitInv(limit);
    RunKeepsInv(limit, Init(), events);
    assert ClientOk(limit, Final(limit, Init(), events).clients[c]);
  }

  /** `c` is waiting for an answer, and client `c + 1` is free to start a request. */
  ghost predicate Contended(limit: u32, s: State, c: nat) {
    && Inv(limit, s) && c in s.clients && s.clients[c].outcome.None?
    && (c + 1 in s.clients ==> s.clients[c + 1].outcome.Some?)
  }

  /** A newcomer that takes the sum `c` was about to get makes `c`'s next attempt a busy one. */
  lemma CutIn(limit: u32, s: State, c: nat) returns (events: seq<Event>)
    requires Contended(limit, s, c)
    ensures IsRun(limit, s, events)
    ensures var s' := Final(limit, s, events);
            Contended(limit, s', c) && s'.clients[c] == s.clients[c] && s'.counters[s.clients[c].target] % 2 == 0
  {
    var t := s.clients[c].target;
    if s.counters[t] % 2 == 0 {
      events := [];
    } else {
      var start, attempt := Start(c + 1, t, 0, 0), Attempt(c + 1);
      var s1 := Apply(limit, s, start);
      StepKeepsInv(limit, s, start);
      StepKeepsInv(limit, s1, attempt);
      RunOfTwo(limit, s, start, attempt);
      TakesTheSum(limit, s, c + 1, t);
      events := [start, attempt];
    }
  }

  lemma RunOfTwo(limit: u32, s: State, a: Event, b: Event)
    requires Enabled(s, a) && Enabled(Apply(limit, s, a), b)
    ensures IsRun(limit, s, [a, b]) && Final(limit, s, [a, b]) == Apply(limit, Apply(limit, s, a), b)
  {
    var s1 := Apply(limit, s, a);
    assert [a, b][1..] == [b] && [b][1..] == [];
    assert Final(limit, s1, [b]) == Apply(limit, s1, b);
  }

  lemma TakesTheSum(limit: u32, s: State, d: nat, t: bit)
    requires Enabled(s, Start(d, t, 0, 0)) && s.counters[t] % 2 != 0
    ensures var s1 := Apply(limit, s, Start(d, t, 0, 0));
            && Enabled(s1, Attempt(d))
            && var s2 := Apply(limit, s1, Attempt(d));
            && |s2.counters| == 2 && s2.counters[t] % 2 == 0
            && d in s2.clients && s2.clients[d].outcome.Some?
            && forall c :: c in s.clients && c != d ==> c in s2.clients && s2.clients[c] == s.clients[c]
  {
  }

  lemma {:induction false} RunConcat(limit: u32, s: State, a: seq<Event>, b: seq<Event>)
    requires IsRun(limit, s, a) && IsRun(limit, Final(limit, s, a), b)
    ensures IsRun(limit, s, a + b) && Final(limit, s, a + b) == Final(limit, Final(limit, s, a), b)
    decreases |a|
  {
    if a == [] {
      assert a + b == b;
    } else {
      assert (a + b)[1..] == a[1..] + b;
      RunConcat(limit, Apply(limit, s, a[0]), a[1..], b);
    }
  }

  lemma {:induction false} RunSplit(limit: u32, s: State, a: seq<Event>, b: seq<Event>)
    requires IsRun(limit, s, a + b)
    ensures IsRun(limit, s, a) && IsRun(limit, Final(limit, s, a), b)
    ensures Final(limit, s, a + b) == Final(limit, Final(limit, s, a), b)
    decreases |a|
  {
    if a == [] {
      assert a + b == b;
    } else {
      assert (a + b)[1..] == a[1..] + b;
      RunSplit(limit, Apply(limit, s, a[0]), a[1..], b);
    }
  }

  lemma {:induction false} Starve(limit: u32, s: State, c: nat) returns (events: seq<Event>)
    requires limit < U32 - 1 && Contended(limit, s, c)
    ensures IsRun(limit, s, events)
    ensures var s' := Final(limit, s, events); c in s'.clients && s'.clients[c].outcome == Some(Refused)
    decreases limit + 1 - s.clients[c].busy
  {
    var me := s.clients[c];
    assert ClientOk(limit, me);
    if me.req.repeats > limit {
      events := [Attempt(c)];
      assert events[1..] == [];
    } else {
      var prefix := CutIn(limit, s, c);
      var s1 := Final(limit, s, prefix);
      StepKeepsInv(limit, s1, Attempt(c));
      var s2 := Apply(limit, s1, Attempt(c));
      assert [Attempt(c)][1..] == [];
      RunConcat(limit, s, prefix, [Attempt(c)]);
      var rest := Starve(limit, s2, c);
      RunConcat(limit, s, prefix + [Attempt(c)], rest);
      events := prefix + [Attempt(c)] + rest;
    }
  }

  /** The attempt bound is reached: whatever the limit, interference can drive a request into refusal,
      although on its own it never would be from limit 2 on. */
  lemma InterferenceCanRefuse(limit: u32)
    requires limit < U32 - 1
    ensures exists events :: IsRun(limit, Init(), events)
              && 0 in Final(limit, Init(), events).clients
              && Final(limit, Init(), events).clients[0].outcome == Some(Refused)
              && Final(limit, Init(), events).clients[0].attempts == limit + 2
  {
    InitInv(limit);
    var start := Start(0, 0, 0, 0);
    StepKeepsInv(limit, Init(), start);
    var rest := Starve(limit, Apply(limit, Init(), start), 0);
    var events := [start] + rest;
    assert events[1..] == rest;
    RetryBounds(limit, events, 0);
  }
}
