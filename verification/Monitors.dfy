/** The two monitors as the objects they are in the source. Each method is one mutex-protected block
    (or, for `OnResolved`, the callback), and takes the fields along one step of the protocol. */
module Monitors {
  import opened Bytes
  import R = ResolverProtocol
  import C = CallableSystem

  /** An element of `m_requests`: the host name, and whether the callback pointer is still set. */
  datatype Request = Request(id: nat, name: string, armed: bool)

  /** What c-ares hands to `OnResolved`; the address is already in dotted form. */
  datatype Host = Host(name: string, address: string)

  /** The arguments of the `OnResolve` call. */
  datatype Answer = Answer(name: string, address: string)

  function NodeOf(r: Request): R.Node { R.Node(r.id, r.armed) }

  /** The list as the protocol sees it, without the names. */
  function Nodes(requests: seq<Request>): (nodes: seq<R.Node>)
    ensures |nodes| == |requests|
    ensures forall k :: 0 <= k < |requests| ==> nodes[k] == NodeOf(requests[k])
  {
    seq(|requests|, k requires 0 <= k < |requests| => NodeOf(requests[k]))
  }

  /** The requests whose callback is still set, in order. */
  function Unanswered(requests: seq<Request>): seq<Request> {
    if requests == [] then []
    else (if requests[0].armed then [requests[0]] else []) + Unanswered(requests[1..])
  }

  lemma {:induction false} UnansweredIsSwept(requests: seq<Request>)
    ensures Nodes(Unanswered(requests)) == R.Sweep(Nodes(requests))
    ensures forall r :: r in Unanswered(requests) <==> r in requests && r.armed
  {
    if requests != [] {
      var r, rest := requests[0], requests[1..];
      UnansweredIsSwept(rest);
      assert Nodes(requests)[1..] == Nodes(rest);
      assert requests == [r] + rest;
      if r.armed {
        assert Nodes([r] + Unanswered(rest)) == [NodeOf(r)] + Nodes(Unanswered(rest));
      } else {
        assert Unanswered(requests) == Unanswered(rest);
      }
    }
  }

  lemma KeepOne(kept: seq<Request>, all: seq<Request>, k: nat)
    requires k < |all|
    ensures kept + Unanswered(all[k..])
         == (if all[k].armed then kept + [all[k]] else kept) + Unanswered(all[k + 1..])
  {
    assert all[k..][1..] == all[k + 1..];
  }

  /** Clearing the callback of the one request with this id is what the protocol calls disarming its node. */
  lemma DisarmOne(requests: seq<Request>, id: nat, next: nat, at: nat)
    requires at < |requests| && requests[at].id == id && R.Ordered(Nodes(requests), next)
    ensures Nodes(requests[at := requests[at].(armed := false)]) == R.Disarm(Nodes(requests), id)
  {
    var nodes := Nodes(requests);
    R.DisarmNodes(nodes, id);
    assert nodes[at].id == id;
    forall k | 0 <= k < |requests| && k != at
      ensures nodes[k].id != id
    {
      assert nodes[k].id < nodes[at].id || nodes[at].id < nodes[k].id;
    }
  }

  /** A query c-ares still holds points to a node of the list. */
  lemma PendingHasRequest(requests: seq<Request>, s: R.State, id: nat)
    requires Nodes(requests) == s.requests && R.Inv(s) && id in s.pending
    ensures exists at: nat :: at < |requests| && requests[at].id == id
  {
    assert R.Live(s.requests, id);
    var at: nat :| at < |s.requests| && s.requests[at] == R.Node(id, true);
    assert requests[at].id == id;
  }

  class Resolver {
    var requests: seq<Request>
    var active: bool
    ghost var given: map<nat, string>  // the name each request was enqueued with

    /** The fields are those of protocol state `s`, and every request still has its name. */
    ghost predicate Represents(s: R.State)
      reads this
    {
      && Nodes(requests) == s.requests && active == s.active
      && forall k :: 0 <= k < |requests| ==> requests[k].id in given && given[requests[k].id] == requests[k].name
    }

    constructor ()
      ensures Represents(R.Init()) && R.Inv(R.Init())
    {
      requests, active, given := [], true, map[];
      R.InitInv();
    }

    /** The `remove_if` of `HasRequests`. */
    method RemoveAnswered()
      modifies this`requests
      ensures requests == Unanswered(old(requests))
    {
      ghost var before := requests;
      var kept: seq<Request> := [];
      for k := 0 to |requests|
        invariant requests == before
        invariant kept + Unanswered(before[k..]) == Unanswered(before)
      {
        KeepOne(kept, before, k);
        if requests[k].armed {
          kept := kept + [requests[k]];
        }
      }
      requests := kept;
    }

    /** `HasRequests` up to the wait: sweep the list, then block, serve or leave. */
    method EnterHasRequests(ghost s: R.State) returns (pc: R.WorkerPc)
      requires Represents(s) && R.Enabled(s, R.Check)
      modifies this`requests
      ensures Represents(R.Apply(s, R.Check)) && pc == R.Apply(s, R.Check).worker
      ensures requests == Unanswered(old(requests))
      ensures pc == R.Waiting <==> |requests| == 0 && active
      ensures pc == R.Serving <==> |requests| != 0
      ensures pc == R.Exited <==> |requests| == 0 && !active
    {
      UnansweredIsSwept(requests);
      RemoveAnswered();
      if |requests| == 0 && active {
        return R.Waiting;
      }
      pc := if |requests| != 0 then R.Serving else R.Exited;
    }

    /** `HasRequests` after a wake-up: the wait's predicate, and the return value if it holds. */
    method WakeInHasRequests(ghost s: R.State) returns (pc: R.WorkerPc)
      requires Represents(s) && R.Enabled(s, R.Recheck)
      ensures Represents(R.Apply(s, R.Recheck)) && pc == R.Apply(s, R.Recheck).worker
      ensures pc == R.Waiting <==> |requests| == 0 && active
      ensures pc == R.Serving <==> |requests| != 0
      ensures pc == R.Exited <==> |requests| == 0 && !active
    {
      if !(|requests| != 0 || !active) {
        return R.Waiting;
      }
      pc := if |requests| != 0 then R.Serving else R.Exited;
    }

    /** The critical section of `AddRequest`: the new node is the last one, armed, and keeps its name; the
        worker, if it is blocked, is now owed a notification. */
    method Emplace(ghost s: R.State, thread: nat, id: nat, name: string)
      requires Represents(s) && R.Inv(s) && R.Enabled(s, R.Enqueue(thread)) && id == s.next
      modifies this`requests, this`given
      ensures Represents(R.Apply(s, R.Enqueue(thread))) && R.Inv(R.Apply(s, R.Enqueue(thread)))
      ensures requests == old(requests) + [Request(id, name, true)] && given == old(given)[id := name]
      ensures R.Apply(s, R.Enqueue(thread)).adders[thread] == R.Submitting(requests[|requests| - 1].id)
    {
      R.StepKeepsInv(s, R.Enqueue(thread));
      assert forall k :: 0 <= k < |requests| ==> requests[k].id == Nodes(requests)[k].id;
      requests := requests + [Request(id, name, true)];
      given := given[id := name];
    }

    /** `OnResolved` for a query that c-ares still holds. The node it points to is in the list with its callback
        set, so the one answer goes out, with the request's own name if the lookup failed, and only that node
        changes. */
    method OnResolved(ghost s: R.State, id: nat, success: bool, host: Option<Host>) returns (answer: Answer)
      requires Represents(s) && R.Inv(s) && id in s.pending
      modifies this`requests
      ensures Represents(R.Resolved(s, id)) && R.Inv(R.Resolved(s, id))
      ensures R.Resolved(s, id).answers == s.answers + [id]
      ensures id in given
      ensures answer == if success && host.Some? then Answer(host.value.name, host.value.address)
                        else Answer(given[id], "Lookup failed")
    {
      PendingHasRequest(requests, s, id);
      R.ResolvedKeepsInv(s, id);
      var at: nat :| at < |requests| && requests[at].id == id;
      DisarmOne(requests, id, s.next, at);
      var request := requests[at];
      requests := requests[at := request.(armed := false)];
      if success && host.Some? {
        answer := Answer(host.value.name, host.value.address);
      } else {
        answer := Answer(request.name, "Lookup failed");
      }
    }

    /** The critical section of `Shutdown`; the worker, if it is blocked, is now owed a notification. */
    method Deactivate(ghost s: R.State)
      requires Represents(s) && R.Inv(s) && R.Enabled(s, R.Shutdown)
      modifies this`active
      ensures Represents(R.Apply(s, R.Shutdown)) && R.Inv(R.Apply(s, R.Shutdown))
      ensures R.AfterCheck(Nodes(requests), active) != R.Waiting
    {
      R.StepKeepsInv(s, R.Shutdown);
      active := false;
    }
  }

  class Callable {
    var handlers: seq<C.Handler>

    /** The queue is that of system state `s`. */
    ghost predicate Represents(s: C.System)
      reads this
    {
      handlers == s.handlers
    }

    /** A new callable starts every client, whatever its names, in a state that keeps the system invariant. */
    constructor ()
      ensures forall names :: Represents(C.Init(names)) && C.SystemInv(C.Init(names))
    {
      handlers := [];
      new;
      forall names
        ensures Represents(C.Init(names)) && C.SystemInv(C.Init(names))
      {
        C.InitSystemInv(names);
      }
    }

    /** The critical section of `AddHandler`, called by `Get` or by the destructor: the handler comes last, behind
        all that were pushed before, and the server, if it is blocked, is now owed a notification. */
    method AddHandler(ghost s: C.System, ghost e: C.SystemEvent, handler: C.Handler)
      requires Represents(s) && C.SystemInv(s) && C.SystemEnabled(s, e)
      requires (e == C.PushStep && handler == C.Step(s.gets)) || (e == C.PushSentinel && handler == C.Sentinel)
      modifies this
      ensures Represents(C.SystemApply(s, e)) && C.SystemInv(C.SystemApply(s, e))
    {
      C.SystemStepKeepsInv(s, e);
      handlers := handlers + [handler];
    }

    /** `GetHandler` on entry or after a wake-up: `None` is blocking in the wait. The handler taken is that of the
        oldest `Get()` not yet fetched, or the sentinel when there is none left. */
    method GetHandler(ghost s: C.System) returns (handler: Option<C.Handler>)
      requires Represents(s) && C.SystemInv(s) && (s.server.Fetching? || s.server.Notified?)
      modifies this
      ensures Represents(C.Take(s))
      ensures handler.None? <==> C.Take(s).server.Blocked?
      ensures handler == Some(C.Sentinel) <==> C.Take(s).server.Returned?
      ensures handler.Some? ==> handler.value == (if |s.ran| < s.gets then C.Step(|s.ran|) else C.Sentinel)
    {
      if |handlers| == 0 {
        return None;
      }
      handler := Some(handlers[0]);
      handlers := handlers[1..];
    }
  }
}
