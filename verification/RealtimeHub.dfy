/** The hub that fans booking events out to the browsers of a tenant. Broadcasts hold the hub's lock as
    readers and visit the clients one by one; joining and leaving hold it alone; every client has a bounded
    queue that its own pump empties. The steps of all of them interleave. */
module RealtimeHub {
  import opened Wrappers

  type ClientId = nat
  type EventId = nat
  type Tenant = string

  const QueueSize := 32

  /** The pump waits for an event, has written one and is about to look at the stale flag, or has ended. */
  datatype Pump = Receiving | Checking | Stopped

  datatype Client = Client(tenant: Tenant, queue: seq<EventId>, closed: bool, stale: bool, taken: seq<EventId>, pump: Pump)

  /** A broadcast under way: the clients it has yet to visit, and the one it found full and is about to mark. */
  datatype Reader = Reader(tenant: Tenant, todo: set<ClientId>, marking: Option<ClientId>)

  /** `broken` records a send on a closed queue or a second close, either of which panics. */
  datatype State = State(registered: set<ClientId>, leaving: set<ClientId>, clients: map<ClientId, Client>,
                         readers: map<EventId, Reader>, begun: set<EventId>, broken: bool)

  const Empty := State({}, {}, map[], map[], {}, false)

  datatype Step =
    | Register(c: ClientId, tenant: Tenant)
    | Begin(e: EventId, tenant: Tenant)
    | Visit(e: EventId, c: ClientId)
    | Mark(e: EventId)
    | Finish(e: EventId)
    | Leave(c: ClientId)
    | Close(c: ClientId)
    | Take(c: ClientId)
    | Settle(c: ClientId, failed: bool)
    | Quit(c: ClientId)

  predicate Enabled(s: State, step: Step) {
    match step
    case Register(c, _) => c !in s.clients && s.readers == map[]
    case Begin(e, _) => e !in s.begun
    case Visit(e, c) => e in s.readers && s.readers[e].marking.None? && c in s.readers[e].todo && c in s.clients
    case Mark(e) => e in s.readers && s.readers[e].marking.Some? && s.readers[e].marking.value in s.clients
    case Finish(e) => e in s.readers && s.readers[e].marking.None? && s.readers[e].todo == {}
    case Leave(c) => c in s.registered && s.readers == map[]
    case Close(c) => c in s.leaving && c in s.clients
    case Take(c) => c in s.clients && s.clients[c].pump == Receiving && (s.clients[c].queue != [] || s.clients[c].closed)
    case Settle(c, _) => c in s.clients && s.clients[c].pump == Checking
    case Quit(c) => c in s.clients && s.clients[c].pump == Receiving
  }

  function Apply(s: State, step: Step): State
    requires Enabled(s, step)
    ensures s.clients.Keys <= Apply(s, step).clients.Keys
  {
    match step
    case Register(c, t) =>
      s.(registered := s.registered + {c}, clients := s.clients[c := Client(t, [], false, false, [], Receiving)])
    case Begin(e, t) => s.(readers := s.readers[e := Reader(t, s.registered, None)], begun := s.begun + {e})
    case Visit(e, c) =>
      var r, x := s.readers[e], s.clients[c];
      var moved := s.(readers := s.readers[e := r.(todo := r.todo - {c})]);
      if x.tenant != r.tenant then moved
      else if x.closed then moved.(broken := true)
      else if |x.queue| < QueueSize then moved.(clients := s.clients[c := x.(queue := x.queue + [e])])
      else moved.(readers := s.readers[e := r.(todo := r.todo - {c}, marking := Some(c))])
    case Mark(e) =>
      var c := s.readers[e].marking.value;
      s.(readers := s.readers[e := s.readers[e].(marking := None)], clients := s.clients[c := s.clients[c].(stale := true)])
    case Finish(e) => s.(readers := s.readers - {e})
    case Leave(c) => s.(registered := s.registered - {c}, leaving := s.leaving + {c})
    case Close(c) =>
      s.(leaving := s.leaving - {c}, clients := s.clients[c := s.clients[c].(closed := true)],
         broken := s.broken || s.clients[c].closed)
    case Take(c) =>
      var x := s.clients[c];
      s.(clients := s.clients[c := if x.queue == [] then x.(pump := Stopped)
                                   else x.(queue := x.queue[1..], taken := x.taken + [x.queue[0]], pump := Checking)])
    case Settle(c, failed) =>
      s.(clients := s.clients[c := s.clients[c].(pump := if failed || s.clients[c].stale then Stopped else Receiving)])
    case Quit(c) => s.(clients := s.clients[c := s.clients[c].(pump := Stopped)])
  }

  /** The state a run leads to, if each of its steps is possible. */
  function Run(steps: seq<Step>): Option<State> {
    if steps == [] then Some(Empty)
    else
      match Run(steps[..|steps| - 1])
      case None => None
      case Some(s) => if Enabled(s, steps[|steps| - 1]) then Some(Apply(s, steps[|steps| - 1])) else None
  }

  // ---- Queues ----

  ghost predicate ReaderOk(s: State, e: EventId)
    requires e in s.readers
  {
    var r := s.readers[e];
    e in s.begun && r.todo <= s.registered && (r.marking.Some? ==> r.marking.value in s.registered)
  }

  ghost predicate ClientOk(s: State, c: ClientId)
    requires c in s.clients
  {
    |s.clients[c].queue| <= QueueSize && (s.clients[c].closed ==> c !in s.registered && c !in s.leaving)
  }

  ghost predicate Inv(s: State) {
    && !s.broken
    && s.registered + s.leaving <= s.clients.Keys && s.registered !! s.leaving
    && (forall e | e in s.readers :: ReaderOk(s, e))
    && (forall c | c in s.clients :: ClientOk(s, c))
  }

  lemma StepKeeps(s: State, step: Step)
    requires Inv(s) && Enabled(s, step)
    ensures Inv(Apply(s, step))
  {
    var s' := Apply(s, step);
    assert forall e | e in s'.readers && e in s.readers :: ReaderOk(s, e);
    assert forall c | c in s'.clients && c in s.clients :: ClientOk(s, c);
  }

  /** In every interleaving no event is sent on a closed queue, no queue is closed twice and no queue holds more
      than its bound. */
  lemma {:induction false} NeverSendsOnClosed(steps: seq<Step>)
    requires Run(steps).Some?
    ensures Inv(Run(steps).value)
  {
    if steps != [] {
      NeverSendsOnClosed(steps[..|steps| - 1]);
      StepKeeps(Run(steps[..|steps| - 1]).value, steps[|steps| - 1]);
    }
  }

  // ---- Delivery, told from the run alone ----

  /** The tenant under which `c` is registered after the run. */
  function Membership(steps: seq<Step>, c: ClientId): Option<Tenant> {
    if steps == [] then None
    else
      match steps[|steps| - 1]
      case Register(d, t) => if d == c then Some(t) else Membership(steps[..|steps| - 1], c)
      case Leave(d) => if d == c then None else Membership(steps[..|steps| - 1], c)
      case _ => Membership(steps[..|steps| - 1], c)
  }

  /** The events of its own tenant whose broadcast began while `c` was registered. */
  function Due(steps: seq<Step>, c: ClientId): set<EventId> {
    if steps == [] then {}
    else
      var front, last := steps[..|steps| - 1], steps[|steps| - 1];
      if last.Begin? && Membership(front, c) == Some(last.tenant) then Due(front, c) + {last.e} else Due(front, c)
  }

  /** Broadcast `a` was over before `b` began. */
  ghost predicate OverBefore(steps: seq<Step>, a: EventId, b: EventId) {
    exists i, j :: Follows(steps, i, j, a, b)
  }

  ghost predicate Follows(steps: seq<Step>, i: int, j: int, a: EventId, b: EventId) {
    0 <= i < j < |steps| && steps[i] == Finish(a) && steps[j].Begin? && steps[j].e == b
  }

  function Received(x: Client): seq<EventId> { x.taken + x.queue }

  function Elems(q: seq<EventId>): set<EventId> { set e | e in q }

  /** The broadcasts under way that have yet to reach `c`. */
  function Pending(s: State, c: ClientId): set<EventId> {
    set e | e in s.readers && c in s.readers[e].todo && c in s.clients && s.clients[c].tenant == s.readers[e].tenant
  }

  predicate IsMarking(s: State, e: EventId, c: ClientId) {
    e in s.readers && s.readers[e].marking == Some(c)
  }

  /** Marked stale, or found full by a broadcast that has not marked it yet. */
  ghost predicate Doomed(s: State, c: ClientId)
    requires c in s.clients
  {
    s.clients[c].stale || exists e :: IsMarking(s, e, c)
  }

  predicate Once(q: seq<EventId>) {
    forall i, j | 0 <= i < j < |q| :: q[i] != q[j]
  }

  /** No event overtakes a broadcast that was over before its own began. */
  ghost predicate InOrder(steps: seq<Step>, q: seq<EventId>) {
    forall i, j | 0 <= i < j < |q| :: !OverBefore(steps, q[j], q[i])
  }

  ghost predicate Accounts(steps: seq<Step>, s: State, c: ClientId) {
    && Due(steps, c) <= s.begun
    && Membership(steps, c) == (if c in s.registered && c in s.clients then Some(s.clients[c].tenant) else None)
    && (c !in s.clients ==> Due(steps, c) == {})
    && (c in s.clients ==> Delivery(Received(s.clients[c]), Due(steps, c), Pending(s, c), Doomed(s, c)))
  }

  /** What has been received is due and no longer pending, each event once; all of that unless doomed. */
  ghost predicate Delivery(got: seq<EventId>, due: set<EventId>, pending: set<EventId>, doomed: bool) {
    Once(got) && pending <= due && Elems(got) <= due - pending && (doomed || Elems(got) == due - pending)
  }

  /** How the trace functions see one more step. */
  lemma OneMore(front: seq<Step>, step: Step, c: ClientId)
    ensures Membership(front + [step], c) == (
      if step.Register? && step.c == c then Some(step.tenant) else if step.Leave? && step.c == c then None else Membership(front, c))
    ensures Due(front + [step], c) == (
      if step.Begin? && Membership(front, c) == Some(step.tenant) then Due(front, c) + {step.e} else Due(front, c))
  {
    assert (front + [step])[..|front|] == front;
  }

  lemma VisitAccounts(s: State, e: EventId, c: ClientId, due: set<EventId>)
    requires Inv(s) && Enabled(s, Visit(e, c)) && Delivery(Received(s.clients[c]), due, Pending(s, c), Doomed(s, c))
    ensures var s' := Apply(s, Visit(e, c)); Delivery(Received(s'.clients[c]), due, Pending(s', c), Doomed(s', c))
  {
    var s', x := Apply(s, Visit(e, c)), s.clients[c];
    var x' := s'.clients[c];
    assert ReaderOk(s, e) && ClientOk(s, c);
    if x.tenant != s.readers[e].tenant {
      assert Pending(s', c) == Pending(s, c);
      assert forall f :: IsMarking(s, f, c) ==> IsMarking(s', f, c);
    } else {
      assert Pending(s', c) == Pending(s, c) - {e} && e in Pending(s, c);
      if |x.queue| < QueueSize {
        assert Received(x') == Received(x) + [e];
        assert forall f :: IsMarking(s, f, c) ==> IsMarking(s', f, c);
        assert Elems(Received(x) + [e]) == Elems(Received(x)) + {e};
        assert e !in Received(x) by { assert e !in Elems(Received(x)); }
      } else {
        assert IsMarking(s', e, c);
      }
    }
  }

  /** Nothing about `c` changes that delivery depends on. */
  lemma Untouched(s: State, s': State, c: ClientId, due: set<EventId>)
    requires c in s.clients && c in s'.clients && Delivery(Received(s.clients[c]), due, Pending(s, c), Doomed(s, c))
    requires Received(s'.clients[c]) == Received(s.clients[c]) && Pending(s', c) == Pending(s, c)
    requires Doomed(s, c) ==> Doomed(s', c)
    ensures Delivery(Received(s'.clients[c]), due, Pending(s', c), Doomed(s', c))
  {
  }

  lemma BeginAccounts(s: State, e: EventId, t: Tenant, c: ClientId, due: set<EventId>)
    requires Inv(s) && Enabled(s, Begin(e, t)) && c in s.clients && due <= s.begun
    requires Delivery(Received(s.clients[c]), due, Pending(s, c), Doomed(s, c))
    ensures var s' := Apply(s, Begin(e, t));
      Delivery(Received(s'.clients[c]), if c in s.registered && s.clients[c].tenant == t then due + {e} else due, Pending(s', c), Doomed(s', c))
  {
    var s' := Apply(s, Begin(e, t));
    assert forall f | f in s.readers :: ReaderOk(s, f);
    assert forall f :: IsMarking(s, f, c) ==> IsMarking(s', f, c);
    assert Pending(s', c) == if c in s.registered && s.clients[c].tenant == t then Pending(s, c) + {e} else Pending(s, c);
  }

  lemma OtherAccounts(s: State, step: Step, c: ClientId, due: set<EventId>)
    requires Inv(s) && Enabled(s, step) && !step.Begin? && !(step.Visit? && step.c == c) && c in s.clients
    requires Delivery(Received(s.clients[c]), due, Pending(s, c), Doomed(s, c))
    ensures var s' := Apply(s, step); Delivery(Received(s'.clients[c]), due, Pending(s', c), Doomed(s', c))
  {
    var s', x := Apply(s, step), s.clients[c];
    if step.Take? && step.c == c && x.queue != [] {
      assert x.taken + [x.queue[0]] + x.queue[1..] == x.taken + x.queue;
    }
    if Doomed(s, c) && !s.clients[c].stale {
      var f :| IsMarking(s, f, c);
      assert s'.clients[c].stale || IsMarking(s', f, c);
    }
    assert Pending(s', c) == Pending(s, c);
    Untouched(s, s', c, due);
  }

  lemma AccountsStep(front: seq<Step>, step: Step, s: State, c: ClientId)
    requires Inv(s) && Enabled(s, step) && Accounts(front, s, c)
    ensures Accounts(front + [step], Apply(s, step), c)
  {
    hide Delivery, Pending, Doomed, Received;
    OneMore(front, step, c);
    if c !in s.clients {
      if step.Register? && step.c == c { FreshAccounts(s, c, step.tenant); }
    } else if step.Begin? {
      BeginAccounts(s, step.e, step.tenant, c, Due(front, c));
    } else if step.Visit? && step.c == c {
      VisitAccounts(s, step.e, c, Due(front, c));
    } else {
      OtherAccounts(s, step, c, Due(front, c));
    }
  }

  lemma FreshAccounts(s: State, c: ClientId, t: Tenant)
    requires Enabled(s, Register(c, t))
    ensures var s' := Apply(s, Register(c, t)); Delivery(Received(s'.clients[c]), {}, Pending(s', c), Doomed(s', c))
  {
  }

  /** In every interleaving a client has received, each event once, only events of its own tenant whose
      broadcast began while it was registered; one that is not stale nor about to be marked so has received
      all of them but those still on their way. */
  lemma {:induction false} ReceivesExactlyItsEvents(steps: seq<Step>, c: ClientId)
    requires Run(steps).Some?
    ensures Accounts(steps, Run(steps).value, c)
  {
    if steps != [] {
      var front, step := steps[..|steps| - 1], steps[|steps| - 1];
      ReceivesExactlyItsEvents(front, c);
      NeverSendsOnClosed(front);
      AccountsStep(front, step, Run(front).value, c);
      assert steps == front + [step];
    }
  }

  /** Once no broadcast is under way, that is exactly its own tenant's events while it was registered. */
  lemma QuietHubHasDelivered(steps: seq<Step>, c: ClientId)
    requires Run(steps).Some? && var s := Run(steps).value; s.readers == map[] && c in s.clients
    ensures var x := Run(steps).value.clients[c];
      Once(Received(x)) && if x.stale then Elems(Received(x)) <= Due(steps, c) else Elems(Received(x)) == Due(steps, c)
  {
    ReceivesExactlyItsEvents(steps, c);
    assert Pending(Run(steps).value, c) == {};
  }

  // ---- Order ----

  ghost predicate Ordered(steps: seq<Step>, s: State, c: ClientId) {
    && (forall e | e in s.readers :: Finish(e) !in steps)
    && (forall e | Finish(e) in steps :: e in s.begun)
    && (c in s.clients ==> InOrder(steps, Received(s.clients[c])))
  }

  lemma UnfinishedIsNotOver(steps: seq<Step>, a: EventId, b: EventId)
    requires Finish(a) !in steps
    ensures !OverBefore(steps, a, b)
  {
  }

  lemma StillNotOver(front: seq<Step>, step: Step, a: EventId, b: EventId)
    requires !OverBefore(front, a, b) && !(step.Begin? && step.e == b)
    ensures !OverBefore(front + [step], a, b)
  {
    assert forall i, j | Follows(front + [step], i, j, a, b) :: Follows(front, i, j, a, b);
  }

  /** A step adds to what a client has received only the event of a visiting broadcast. */
  lemma ReceivedStep(s: State, step: Step, c: ClientId)
    requires Enabled(s, step) && c in s.clients
    ensures var got, got' := Received(s.clients[c]), Received(Apply(s, step).clients[c]);
      got' == got || (step.Visit? && got' == got + [step.e])
  {
    var x := s.clients[c];
    if step.Take? && step.c == c && x.queue != [] {
      assert x.taken + [x.queue[0]] + x.queue[1..] == x.taken + x.queue;
    }
    if step.Visit? { assert x.taken + (x.queue + [step.e]) == x.taken + x.queue + [step.e]; }
  }

  lemma InOrderStep(front: seq<Step>, step: Step, s: State, c: ClientId)
    requires Enabled(s, step) && Ordered(front, s, c) && Accounts(front, s, c) && c in s.clients
    ensures InOrder(front + [step], Received(Apply(s, step).clients[c]))
  {
    hide OverBefore, Received, Apply;
    var got, got' := Received(s.clients[c]), Received(Apply(s, step).clients[c]);
    ReceivedStep(s, step, c);
    forall i, j | 0 <= i < j < |got'| ensures !OverBefore(front + [step], got'[j], got'[i]) {
      assert got'[i] == got[i] && got[i] in Elems(got);
      if j == |got| { UnfinishedIsNotOver(front, got'[j], got'[i]); }
      StillNotOver(front, step, got'[j], got'[i]);
    }
  }

  lemma OrderedStep(front: seq<Step>, step: Step, s: State, c: ClientId)
    requires Inv(s) && Enabled(s, step) && Ordered(front, s, c) && Accounts(front, s, c)
    ensures Ordered(front + [step], Apply(s, step), c)
  {
    hide OverBefore, Accounts;
    assert forall e | e in s.readers :: ReaderOk(s, e);
    if c in s.clients {
      InOrderStep(front, step, s, c);
    } else if step.Register? && step.c == c {
      assert Received(Apply(s, step).clients[c]) == [];
    }
  }

  /** In every interleaving each client receives an event before that of any broadcast begun after it was over. */
  lemma {:induction false} EventsKeepTheirOrder(steps: seq<Step>, c: ClientId)
    requires Run(steps).Some?
    ensures Ordered(steps, Run(steps).value, c)
  {
    if steps != [] {
      var front, step := steps[..|steps| - 1], steps[|steps| - 1];
      EventsKeepTheirOrder(front, c);
      NeverSendsOnClosed(front);
      ReceivesExactlyItsEvents(front, c);
      OrderedStep(front, step, Run(front).value, c);
      assert steps == front + [step];
    }
  }

  // ---- Progress ----

  /** The hub's lock is never left held: every broadcast under way has a next step. */
  lemma BroadcastsCanFinish(s: State, e: EventId)
    requires Inv(s) && e in s.readers
    ensures Enabled(s, Mark(e)) || Enabled(s, Finish(e)) || exists c :: Enabled(s, Visit(e, c))
  {
    assert ReaderOk(s, e);
    if s.readers[e].marking.None? && s.readers[e].todo != {} {
      var c :| c in s.readers[e].todo;
      assert Enabled(s, Visit(e, c));
    }
  }

  // ---- The hub's methods ----

  /** A send that does not wait: a full queue marks the client stale instead. */
  function Offer(x: Client, e: EventId): Client {
    if |x.queue| < QueueSize then x.(queue := x.queue + [e]) else x.(stale := true)
  }

  lemma RunMore(log: seq<Step>, step: Step)
    requires Run(log).Some? && Enabled(Run(log).value, step)
    ensures Run(log + [step]) == Some(Apply(Run(log).value, step))
  {
    assert (log + [step])[..|log|] == log;
  }

  /** A visit, with the marking that may follow it. */
  lemma VisitOffers(log: seq<Step>, e: EventId, c: ClientId) returns (more: seq<Step>)
    requires Run(log).Some? && Enabled(Run(log).value, Visit(e, c)) && !Run(log).value.clients[c].closed
    ensures var s := Run(log).value;
      var r, x := s.readers[e], s.clients[c];
      Run(more) == Some(s.(readers := s.readers[e := r.(todo := r.todo - {c})],
                           clients := if x.tenant == r.tenant then s.clients[c := Offer(x, e)] else s.clients))
    ensures log <= more && |more| <= |log| + 2
  {
    hide Run;
    RunMore(log, Visit(e, c));
    more := log + [Visit(e, c)];
    var s := Run(log).value;
    var s' := Run(more).value;
    if s'.readers[e].marking.Some? {
      RunMore(more, Mark(e));
      more := more + [Mark(e)];
      assert Run(more).value.readers == s.readers[e := s.readers[e].(todo := s.readers[e].todo - {c})];
    } else if s.clients[c].tenant != s.readers[e].tenant {
      assert s'.clients == s.clients;
    }
  }

  /** A broadcast under way is over, and gives the lock back, after at most two steps for each client it has yet to visit
      and two more. */
  lemma BroadcastFinishes(log: seq<Step>, e: EventId) returns (more: seq<Step>)
    requires Run(log).Some? && e in Run(log).value.readers
    ensures Run(more).Some? && e !in Run(more).value.readers
    ensures log <= more && |more| <= |log| + 2 * |Run(log).value.readers[e].todo| + 2
  {
    hide Run, Apply, Offer;
    NeverSendsOnClosed(log);
    var s := Run(log).value;
    assert ReaderOk(s, e);
    if s.readers[e].marking.Some? {
      MarkEnds(log, e);
      more := UnmarkedFinishes(log + [Mark(e)], e);
    } else {
      more := UnmarkedFinishes(log, e);
    }
  }

  lemma MarkEnds(log: seq<Step>, e: EventId)
    requires Run(log).Some? && e in Run(log).value.readers && Enabled(Run(log).value, Mark(e))
    ensures Run(log + [Mark(e)]).Some? && e in Run(log + [Mark(e)]).value.readers
    ensures Run(log + [Mark(e)]).value.readers[e] == Run(log).value.readers[e].(marking := None)
  {
    hide Run;
    RunMore(log, Mark(e));
  }

  lemma {:induction false} UnmarkedFinishes(log: seq<Step>, e: EventId) returns (more: seq<Step>)
    requires Run(log).Some? && e in Run(log).value.readers && Run(log).value.readers[e].marking.None?
    ensures Run(more).Some? && e !in Run(more).value.readers
    ensures log <= more && |more| <= |log| + 2 * |Run(log).value.readers[e].todo| + 1
    decreases |Run(log).value.readers[e].todo|
  {
    hide Run, Offer;
    NeverSendsOnClosed(log);
    var s := Run(log).value;
    assert ReaderOk(s, e);
    var todo := s.readers[e].todo;
    if todo == {} {
      RunMore(log, Finish(e));
      more := log + [Finish(e)];
    } else {
      var c :| c in todo;
      assert ClientOk(s, c);
      var next := VisitOffers(log, e, c);
      assert Run(next).value.readers[e].todo == todo - {c};
      more := UnmarkedFinishes(next, e);
    }
  }

  /** The hub between calls; `log` is a run that leads to its state, so what holds of runs holds of it. */
  class Hub {
    var registered: set<ClientId>
    var clients: map<ClientId, Client>
    ghost var begun: set<EventId>
    ghost var log: seq<Step>

    ghost predicate Valid()
      reads this
    {
      Run(log) == Some(State(registered, {}, clients, map[], begun, false))
    }

    constructor ()
      ensures Valid() && registered == {} && clients == map[]
    {
      registered, clients, begun, log := {}, map[], {}, [];
    }

    method AddClient(c: ClientId, tenant: Tenant)
      requires Valid() && c !in clients
      modifies this
      ensures Valid() && registered == old(registered) + {c}
      ensures clients == old(clients)[c := Client(tenant, [], false, false, [], Receiving)]
    {
      RunMore(log, Register(c, tenant));
      log := log + [Register(c, tenant)];
      clients := clients[c := Client(tenant, [], false, false, [], Receiving)];
      registered := registered + {c};
    }

    /** Takes the client out, then closes its queue. */
    method RemoveClient(c: ClientId)
      requires Valid() && c in registered
      modifies this
      ensures Valid() && registered == old(registered) - {c}
      ensures c in old(clients) && clients == old(clients)[c := old(clients)[c].(closed := true)]
    {
      NeverSendsOnClosed(log);
      RunMore(log, Leave(c));
      log := log + [Leave(c)];
      registered := registered - {c};
      NeverSendsOnClosed(log);
      assert ClientOk(Run(log).value, c);
      RunMore(log, Close(c));
      log := log + [Close(c)];
      clients := clients[c := clients[c].(closed := true)];
      assert Run(log).value.leaving == {};
    }

    /** Offers the event to every registered client of the tenant, in no particular order. */
    method Broadcast(e: EventId, tenant: Tenant)
      requires Valid() && e !in begun
      modifies this
      ensures Valid() && registered == old(registered) && begun == old(begun) + {e}
      ensures clients == OfferedTo(old(clients), registered, e, tenant)
    {
      hide Run, Apply, OfferedTo, Offer, Enabled, Inv;
      var todo := registered;
      ghost var before := clients;
      log := BroadcastBegins(log, e, tenant);
      begun := begun + {e};
      OfferedToNone(clients, e, tenant);
      while todo != {}
        invariant todo <= registered && registered == old(registered) && registered <= clients.Keys && begun == old(begun) + {e}
        invariant Run(log) == Some(State(registered, {}, clients, map[e := Reader(tenant, todo, None)], begun, false))
        invariant clients == OfferedTo(before, registered - todo, e, tenant)
        decreases |todo|
      {
        var c :| c in todo;
        log := BroadcastVisits(log, e, c);
        OfferedToOneMore(before, registered - todo, e, tenant, c);
        assert registered - todo + {c} == registered - (todo - {c});
        if clients[c].tenant == tenant {
          clients := clients[c := Offer(clients[c], e)];
        }
        todo := todo - {c};
      }
      assert registered - todo == registered;
      log := BroadcastEnds(log, e);
    }
  }

  /** The clients once those of `done` that belong to the tenant were offered the event. */
  function OfferedTo(clients: map<ClientId, Client>, done: set<ClientId>, e: EventId, tenant: Tenant): map<ClientId, Client> {
    map c | c in clients :: if c in done && clients[c].tenant == tenant then Offer(clients[c], e) else clients[c]
  }

  lemma OfferedToNone(clients: map<ClientId, Client>, e: EventId, tenant: Tenant)
    ensures forall done: set<ClientId> | done == {} :: OfferedTo(clients, done, e, tenant) == clients
  {
  }

  lemma OfferedToOneMore(clients: map<ClientId, Client>, done: set<ClientId>, e: EventId, tenant: Tenant, c: ClientId)
    requires c in clients && c !in done
    ensures var so := OfferedTo(clients, done, e, tenant);
      && c in so && so.Keys == clients.Keys
      && OfferedTo(clients, done + {c}, e, tenant) == if so[c].tenant == tenant then so[c := Offer(so[c], e)] else so
  {
  }

  lemma BroadcastBegins(log: seq<Step>, e: EventId, t: Tenant) returns (more: seq<Step>)
    requires Run(log).Some? && e !in Run(log).value.begun && Run(log).value.readers == map[]
    ensures var s := Run(log).value;
      && s.registered <= s.clients.Keys
      && Run(more) == Some(s.(readers := map[e := Reader(t, s.registered, None)], begun := s.begun + {e}))
  {
    NeverSendsOnClosed(log);
    RunMore(log, Begin(e, t));
    BeginIs(Run(log).value, e, t);
    more := log + [Begin(e, t)];
  }

  lemma BroadcastVisits(log: seq<Step>, e: EventId, c: ClientId) returns (more: seq<Step>)
    requires Run(log).Some? && Run(log).value.readers.Keys == {e}
    requires var r := Run(log).value.readers[e]; c in r.todo && r.marking.None?
    ensures var s := Run(log).value;
      var r := s.readers[e];
      && c in s.clients
      && Run(more) == Some(s.(readers := map[e := r.(todo := r.todo - {c})],
                              clients := if s.clients[c].tenant == r.tenant then s.clients[c := Offer(s.clients[c], e)] else s.clients))
  {
    hide Run, Apply, Offer;
    var s := Run(log).value;
    NeverSendsOnClosed(log);
    assert ReaderOk(s, e) && ClientOk(s, c);
    more := VisitOffers(log, e, c);
    var r := s.readers[e];
    assert s.readers[e := r.(todo := r.todo - {c})] == map[e := r.(todo := r.todo - {c})];
  }

  lemma BroadcastEnds(log: seq<Step>, e: EventId) returns (more: seq<Step>)
    requires Run(log).Some? && Run(log).value.readers.Keys == {e}
    requires var r := Run(log).value.readers[e]; r.todo == {} && r.marking.None?
    ensures Run(more) == Some(Run(log).value.(readers := map[]))
  {
    RunMore(log, Finish(e));
    FinishIs(Run(log).value, e);
    more := log + [Finish(e)];
  }

  lemma BeginIs(s: State, e: EventId, t: Tenant)
    requires Enabled(s, Begin(e, t)) && s.readers == map[]
    ensures Apply(s, Begin(e, t)) == s.(readers := map[e := Reader(t, s.registered, None)], begun := s.begun + {e})
  {
  }

  lemma FinishIs(s: State, e: EventId)
    requires Enabled(s, Finish(e)) && s.readers.Keys == {e}
    ensures Apply(s, Finish(e)) == s.(readers := map[])
  {
  }
}
