/** `OnResolved` in two steps: the callback is moved out of the list node, and later called; on a failed lookup
    the call reads the host name from the node. Other threads may run in between. The two-step runs refine the
    runs of `ResolverProtocol`, where a completion is one step, with the move as its moment. */
module CompletionSteps {
  import R = ResolverProtocol

  /** Who runs `OnResolved`: a thread in `ares_gethostbyname`, the worker, or the owner in `ares_destroy`. */
  datatype Actor = Adder(thread: nat) | Worker | Owner

  /** `open` holds the requests whose callback was moved out but not yet called, `delivered` those called. */
  datatype Fine = Fine(coarse: R.State, open: map<Actor, nat>, delivered: seq<nat>)

  datatype Event =
    | Move(actor: Actor, id: nat)
    | Deliver(actor: Actor)
    | Other(e: R.Event)

  function Init(): Fine { Fine(R.Init(), map[], []) }

  /** The thread that takes step `e`. */
  function Runner(e: R.Event): Actor {
    match e
    case Enqueue(t) => Adder(t)
    case Submit(t, _) => Adder(t)
    case AddNotify(t) => Adder(t)
    case Check => Worker
    case Recheck => Worker
    case SpuriousWakeup => Worker
    case Complete(_) => Worker
    case ServeDone => Worker
    case Shutdown => Owner
    case ShutdownNotify => Owner
    case Join => Owner
    case DestroyDone => Owner
  }

  /** The one-step completion that a move stands for. */
  function Completion(actor: Actor, id: nat): R.Event {
    if actor.Adder? then R.Submit(actor.thread, true) else R.Complete(id)
  }

  predicate IsCompletion(e: R.Event) {
    e.Complete? || (e.Submit? && e.synchronous)
  }

  predicate Enabled(f: Fine, e: Event) {
    match e
    case Move(a, id) =>
      && a !in f.open && R.Enabled(f.coarse, Completion(a, id))
      && (match a
          case Adder(t) => f.coarse.adders[t].id == id
          case Worker => f.coarse.worker == R.Serving
          case Owner => f.coarse.owner == R.Destroying)
    case Deliver(a) => a in f.open
    case Other(r) => !IsCompletion(r) && R.Enabled(f.coarse, r) && Runner(r) !in f.open
  }

  function Apply(f: Fine, e: Event): Fine
    requires Enabled(f, e)
  {
    match e
    case Move(a, id) => f.(coarse := R.Apply(f.coarse, Completion(a, id)), open := f.open[a := id])
    case Deliver(a) => f.(open := f.open - {a}, delivered := f.delivered + [f.open[a]])
    case Other(r) => f.(coarse := R.Apply(f.coarse, r))
  }

  predicate IsRun(f: Fine, events: seq<Event>)
    decreases |events|
  {
    events == [] || (Enabled(f, events[0]) && IsRun(Apply(f, events[0]), events[1..]))
  }

  function Final(f: Fine, events: seq<Event>): Fine
    requires IsRun(f, events)
    decreases |events|
  {
    if events == [] then f else Final(Apply(f, events[0]), events[1..])
  }

  // ---------------------------------------------------------------- refinement

  /** The same run with one-step completions. */
  function Project(events: seq<Event>): seq<R.Event> {
    if events == [] then []
    else (match events[0]
          case Move(a, id) => [Completion(a, id)]
          case Deliver(_) => []
          case Other(r) => [r]) + Project(events[1..])
  }

  /** Every two-step run is a run of the one-step protocol, so what holds of those holds here. */
  lemma {:induction false} RefinesOneStep(f: Fine, events: seq<Event>)
    requires IsRun(f, events)
    ensures R.IsRun(f.coarse, Project(events)) && R.Final(f.coarse, Project(events)) == Final(f, events).coarse
    decreases |events|
  {
    if events != [] {
      var rest := events[1..];
      RefinesOneStep(Apply(f, events[0]), rest);
      if events[0].Deliver? {
        assert Project(events) == Project(rest);
      } else {
        assert Project(events)[1..] == Project(rest);
      }
    }
  }

  /** The two steps that stand for `e`, a move and at once the call, or `e` itself if it completes nothing. */
  lemma SplitStep(f: Fine, e: R.Event) returns (steps: seq<Event>)
    requires f.open == map[] && R.Enabled(f.coarse, e)
    ensures IsRun(f, steps) && Project(steps) == [e]
    ensures Final(f, steps).open == map[] && Final(f, steps).coarse == R.Apply(f.coarse, e)
  {
    if IsCompletion(e) {
      var a, id;
      if e.Submit? {
        a, id := Adder(e.thread), f.coarse.adders[e.thread].id;
      } else {
        a, id := if f.coarse.worker == R.Serving then Worker else Owner, e.id;
      }
      steps := [Move(a, id), Deliver(a)];
      var f1 := Apply(f, steps[0]);
      assert steps[1..] == [Deliver(a)] && steps[1..][1..] == [];
      assert Final(f1, steps[1..]) == Apply(f1, Deliver(a));
      assert f1.open - {a} == map[];
      assert Project(steps[1..]) == [] + Project([]);
    } else {
      steps := [Other(e)];
      assert steps[1..] == [];
    }
  }

  lemma {:induction false} RunConcat(f: Fine, a: seq<Event>, b: seq<Event>)
    requires IsRun(f, a) && IsRun(Final(f, a), b)
    ensures IsRun(f, a + b) && Final(f, a + b) == Final(Final(f, a), b)
    ensures Project(a + b) == Project(a) + Project(b)
    decreases |a|
  {
    if a == [] {
      assert a + b == b;
    } else {
      assert (a + b)[1..] == a[1..] + b;
      RunConcat(Apply(f, a[0]), a[1..], b);
    }
  }

  /** Conversely, every run of the one-step protocol is a two-step run in which each call follows its move. */
  lemma {:induction false} EveryRunSplits(f: Fine, events: seq<R.Event>) returns (steps: seq<Event>)
    requires f.open == map[] && R.IsRun(f.coarse, events)
    ensures IsRun(f, steps) && Project(steps) == events
    ensures Final(f, steps).open == map[] && Final(f, steps).coarse == R.Final(f.coarse, events)
    decreases |events|
  {
    if events == [] {
      steps := [];
    } else {
      var first := SplitStep(f, events[0]);
      var rest := EveryRunSplits(Final(f, first), events[1..]);
      RunConcat(f, first, rest);
      steps := first + rest;
    }
  }

  // ---------------------------------------------------------------- deliveries

  ghost predicate HasNode(requests: seq<R.Node>, id: nat) {
    exists n :: n in requests && n.id == id
  }

  /** Every answer is delivered or open, never both, and never twice. */
  ghost predicate DeliveredOnce(f: Fine) {
    && R.NoDuplicates(f.delivered)
    && (forall a :: a in f.open ==> f.open[a] !in f.delivered)
    && (forall a, b :: a in f.open && b in f.open && a != b ==> f.open[a] != f.open[b])
    && (forall id :: id in f.coarse.answers <==> id in f.delivered || IsOpen(f, id))
  }

  ghost predicate IsOpen(f: Fine, id: nat) { exists a :: a in f.open && f.open[a] == id }

  /** The worker and the owner find their node where it was; a thread in `AddRequest` is still inside it. */
  ghost predicate NodesStay(f: Fine) {
    && (Worker in f.open ==> f.coarse.worker == R.Serving && HasNode(f.coarse.requests, f.open[Worker]))
    && (Owner in f.open ==> f.coarse.owner == R.Destroying && HasNode(f.coarse.requests, f.open[Owner]))
    && (forall t :: Adder(t) in f.open ==> t in f.coarse.adders)
  }

  ghost predicate Inv(f: Fine) { R.Inv(f.coarse) && DeliveredOnce(f) && NodesStay(f) }

  /** Only the sweep takes nodes out of the list. */
  lemma NodeKept(s: R.State, e: R.Event, id: nat)
    requires R.Enabled(s, e) && e != R.Check && HasNode(s.requests, id)
    ensures HasNode(R.Apply(s, e).requests, id)
  {
    var n :| n in s.requests && n.id == id;
    var k :| 0 <= k < |s.requests| && s.requests[k] == n;
    var after := R.Apply(s, e).requests;
    if IsCompletion(e) {
      R.DisarmNodes(s.requests, if e.Complete? then e.id else s.adders[e.thread].id);
    }
    assert after[k] in after && after[k].id == id;
  }

  lemma MoveKeepsInv(f: Fine, a: Actor, id: nat)
    requires Inv(f) && Enabled(f, Move(a, id))
    ensures Inv(Apply(f, Move(a, id)))
  {
    var e := Completion(a, id);
    var f' := Apply(f, Move(a, id));
    R.StepKeepsInv(f.coarse, e);
    assert R.Live(f.coarse.requests, id) && f'.coarse.answers == f.coarse.answers + [id];
    assert HasNode(f.coarse.requests, id);
    NodeKept(f.coarse, e, id);
    MoveDelivers(f, a, id);
    if Worker in f.open {
      NodeKept(f.coarse, e, f.open[Worker]);
    }
    if Owner in f.open {
      NodeKept(f.coarse, e, f.open[Owner]);
    }
  }

  lemma MoveDelivers(f: Fine, a: Actor, id: nat)
    requires DeliveredOnce(f) && Enabled(f, Move(a, id)) && id !in f.coarse.answers
    requires Apply(f, Move(a, id)).coarse.answers == f.coarse.answers + [id]
    ensures DeliveredOnce(Apply(f, Move(a, id)))
  {
    var f' := Apply(f, Move(a, id));
    assert f'.open[a] == id;
    forall x
      ensures IsOpen(f', x) <==> IsOpen(f, x) || x == id
    {
      if IsOpen(f, x) {
        var b :| b in f.open && f.open[b] == x;
        assert f'.open[b] == x;
      }
    }
    assert forall b :: b in f.open ==> IsOpen(f, f.open[b]);
    assert !IsOpen(f, id);
  }

  lemma DeliverKeepsInv(f: Fine, a: Actor)
    requires Inv(f) && Enabled(f, Deliver(a))
    ensures Inv(Apply(f, Deliver(a)))
  {
    var f' := Apply(f, Deliver(a));
    var id := f.open[a];
    forall x
      ensures IsOpen(f', x) <==> IsOpen(f, x) && x != id
    {
      if IsOpen(f, x) && x != id {
        var b :| b in f.open && f.open[b] == x;
        assert b in f'.open;
      }
    }
    assert IsOpen(f, id);
    assert f'.coarse == f.coarse;
  }

  lemma OtherKeepsInv(f: Fine, e: R.Event)
    requires Inv(f) && Enabled(f, Other(e))
    ensures Inv(Apply(f, Other(e)))
  {
    var f' := Apply(f, Other(e));
    R.StepKeepsInv(f.coarse, e);
    assert f'.coarse.answers == f.coarse.answers;
    assert forall id :: IsOpen(f', id) <==> IsOpen(f, id);
    if Worker in f.open {
      NodeKept(f.coarse, e, f.open[Worker]);
    }
    if Owner in f.open {
      NodeKept(f.coarse, e, f.open[Owner]);
    }
  }

  lemma {:induction false} RunKeepsInv(f: Fine, events: seq<Event>)
    requires Inv(f) && IsRun(f, events)
    ensures Inv(Final(f, events))
    decreases |events|
  {
    if events != [] {
      match events[0] {
        case Move(a, id) => MoveKeepsInv(f, a, id);
        case Deliver(a) => DeliverKeepsInv(f, a);
        case Other(e) => OtherKeepsInv(f, e);
      }
      RunKeepsInv(Apply(f, events[0]), events[1..]);
    }
  }

  /** In every two-step interleaving no callback is called twice, and each answer is called or about to be. */
  lemma CalledOnce(events: seq<Event>)
    requires IsRun(Init(), events)
    ensures var f := Final(Init(), events);
            && R.NoDuplicates(f.delivered)
            && (forall id :: id in f.delivered ==> id in f.coarse.answers && !IsOpen(f, id))
            && (forall id :: id in f.coarse.answers && id !in f.delivered ==> IsOpen(f, id))
  {
    R.InitInv();
    RunKeepsInv(Init(), events);
    var f := Final(Init(), events);
    assert forall id :: IsOpen(f, id) ==> id !in f.delivered;
  }

  /** After the destructor every request ever enqueued has been called back exactly once. */
  lemma DestroyedMeansAllCalled(events: seq<Event>)
    requires IsRun(Init(), events) && Final(Init(), events).coarse.owner == R.Destroyed
    ensures var f := Final(Init(), events);
            R.NoDuplicates(f.delivered) && forall id: nat :: id in f.delivered <==> id < f.coarse.next
  {
    R.InitInv();
    RunKeepsInv(Init(), events);
    RefinesOneStep(Init(), events);
    R.DestroyedMeansAllAnswered(Project(events));
    var f := Final(Init(), events);
    assert forall t :: Adder(t) !in f.open;
    forall a: Actor
      ensures a !in f.open
    {
      match a {
        case Adder(_) =>
        case Worker =>
        case Owner =>
      }
    }
  }

  // ---------------------------------------------------------------- the host name

  /** A completion driven by the worker or the owner still has its node when the callback is called, so the
      host name it may read there is that of its request. */
  lemma OwnNodeStays(events: seq<Event>, a: Actor)
    requires IsRun(Init(), events) && a in Final(Init(), events).open && !a.Adder?
    ensures var f := Final(Init(), events); HasNode(f.coarse.requests, f.open[a])
  {
    R.InitInv();
    RunKeepsInv(Init(), events);
  }

  /** For a completion inside `ares_gethostbyname` this holds exactly until the worker sweeps: the sweep takes
      the node of every open completion, and no other step does. */
  lemma SweepTakesOpenNodes(events: seq<Event>, e: Event, a: Actor)
    requires IsRun(Init(), events) && Enabled(Final(Init(), events), e)
    requires var f := Final(Init(), events); a in f.open && HasNode(f.coarse.requests, f.open[a])
    ensures var f := Final(Init(), events);
            !HasNode(Apply(f, e).coarse.requests, f.open[a]) <==> e == Other(R.Check)
  {
    R.InitInv();
    RunKeepsInv(Init(), events);
    var f := Final(Init(), events);
    var id := f.open[a];
    assert IsOpen(f, id) && !R.Live(f.coarse.requests, id);
    if e == Other(R.Check) {
      R.SweepKeepsLive(f.coarse.requests);
    } else if e.Move? {
      NodeKept(f.coarse, Completion(e.actor, e.id), id);
    } else if e.Other? {
      NodeKept(f.coarse, e.e, id);
    }
  }

  /** Such a run: the request is enqueued, its callback moved out by a synchronous completion, and the worker's
      sweep then removes the node although the callback has yet to be called. */
  lemma SweptBeforeCalled()
    ensures var events := [Other(R.Enqueue(0)), Move(Adder(0), 0), Other(R.Check)];
            && IsRun(Init(), events)
            && var f := Final(Init(), events);
            Adder(0) in f.open && f.open[Adder(0)] == 0 && !HasNode(f.coarse.requests, 0)
  {
    var a, b, c := Other(R.Enqueue(0)), Move(Adder(0), 0), Other(R.Check);
    var f1 := Apply(Init(), a);
    assert f1.coarse.requests == [R.Node(0, true)];
    var f2 := Apply(f1, b);
    assert f2.coarse.requests == [R.Node(0, false)];
    var f3 := Apply(f2, c);
    assert f3.coarse.requests == [];
    assert [a, b, c][1..] == [b, c] && [b, c][1..] == [c] && [c][1..] == [];
    assert Final(f2, [c]) == f3;
    assert Final(f1, [b, c]) == f3;
  }
}
