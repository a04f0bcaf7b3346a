/** What a client of the hub gets and when its pump ends, with the bound of its queue written out. */
module HubClients {
  import opened Wrappers
  import opened RealtimeHub

  // ---- One broadcast ----

  /** A broadcast queues its event for every client of the tenant that has fewer than 32 events waiting, marks the others of the
      tenant stale, and leaves all other clients alone. */
  lemma BroadcastInFull(clients: map<ClientId, Client>, registered: set<ClientId>, e: EventId, tenant: Tenant)
    ensures var after := OfferedTo(clients, registered, e, tenant);
      && after.Keys == clients.Keys
      && forall c | c in clients :: after[c] ==
           if c !in registered || clients[c].tenant != tenant then clients[c]
           else if |clients[c].queue| < 32 then clients[c].(queue := clients[c].queue + [e])
           else clients[c].(stale := true)
  {
  }

  // ---- Any interleaving ----

  lemma {:induction false} RunOn(log: seq<Step>, rest: seq<Step>)
    requires Run(log + rest).Some?
    ensures Run(log).Some?
    ensures rest != [] ==>
      var front := log + rest[..|rest| - 1];
      && Run(front).Some? && Enabled(Run(front).value, rest[|rest| - 1])
      && Run(log + rest) == Some(Apply(Run(front).value, rest[|rest| - 1]))
    decreases |rest|
  {
    if rest == [] {
      assert log + rest == log;
    } else {
      var front := rest[..|rest| - 1];
      assert (log + rest)[..|log + rest| - 1] == log + front;
      RunOn(log, front);
    }
  }

  function Got(x: Client): seq<EventId> { x.taken + x.queue }

  lemma GotStays(s: State, step: Step, c: ClientId)
    requires Enabled(s, step) && c in s.clients
    ensures Got(s.clients[c]) <= Got(Apply(s, step).clients[c])
  {
    hide Apply;
    ReceivedStep(s, step, c);
  }

  lemma {:induction false} GotForGood(log: seq<Step>, rest: seq<Step>, c: ClientId)
    requires Run(log + rest).Some? && Run(log).Some? && c in Run(log).value.clients
    ensures c in Run(log + rest).value.clients && Got(Run(log).value.clients[c]) <= Got(Run(log + rest).value.clients[c])
    decreases |rest|
  {
    hide Run, Apply, Enabled;
    RunOn(log, rest);
    if rest == [] {
      assert log + rest == log;
    } else {
      var front, last := rest[..|rest| - 1], rest[|rest| - 1];
      GotForGood(log, front, c);
      GotStays(Run(log + front).value, last, c);
    }
  }

  /** A broadcast that visits a client of its tenant with fewer than 32 events waiting has delivered to it for good: the event
      is queued, and in whatever happens next it stays behind all that the client had before. */
  lemma VisitedReceives(log: seq<Step>, e: EventId, c: ClientId, rest: seq<Step>)
    requires Run(log).Some? && Enabled(Run(log).value, Visit(e, c)) && Run(log + [Visit(e, c)] + rest).Some?
    requires var s := Run(log).value; s.clients[c].tenant == s.readers[e].tenant && |s.clients[c].queue| < 32
    ensures c in Run(log + [Visit(e, c)] + rest).value.clients
    ensures var x, y := Run(log).value.clients[c], Run(log + [Visit(e, c)] + rest).value.clients[c];
      x.taken + x.queue + [e] <= y.taken + y.queue
  {
    hide Run, Apply;
    NeverSendsOnClosed(log + [Visit(e, c)] + rest);
    RunMore(log, Visit(e, c));
    VisitQueues(log, e, c);
    GotForGood(log + [Visit(e, c)], rest, c);
  }

  lemma VisitQueues(log: seq<Step>, e: EventId, c: ClientId)
    requires Run(log).Some? && Enabled(Run(log).value, Visit(e, c))
    requires var s := Run(log).value; s.clients[c].tenant == s.readers[e].tenant && |s.clients[c].queue| < 32
    ensures var s := Run(log).value;
      var y := Apply(s, Visit(e, c)).clients[c];
      y.taken == s.clients[c].taken && y.queue == s.clients[c].queue + [e]
      && Got(y) == s.clients[c].taken + s.clients[c].queue + [e]
  {
    hide Run;
    NeverSendsOnClosed(log);
    var s := Run(log).value;
    assert ClientOk(s, c);
    ReadersTodoIsOpen(s, e, c);
    assert s.clients[c].taken + (s.clients[c].queue + [e]) == s.clients[c].taken + s.clients[c].queue + [e];
  }

  lemma ReadersTodoIsOpen(s: State, e: EventId, c: ClientId)
    requires Inv(s) && Enabled(s, Visit(e, c))
    ensures !s.clients[c].closed
  {
    assert ReaderOk(s, e) && ClientOk(s, c);
  }

  /** With 32 or more waiting the event is dropped, and the broadcast's own next step marks the client stale. */
  lemma FullIsMarked(log: seq<Step>, e: EventId, c: ClientId)
    requires Run(log).Some? && Enabled(Run(log).value, Visit(e, c))
    requires var s := Run(log).value; s.clients[c].tenant == s.readers[e].tenant && |s.clients[c].queue| >= 32
    ensures var s := Run(log).value;
      var s' := Apply(s, Visit(e, c));
      && s'.clients == s.clients && Enabled(s', Mark(e)) && !Enabled(s', Finish(e)) && (forall d :: !Enabled(s', Visit(e, d)))
      && Apply(s', Mark(e)).clients == s.clients[c := s.clients[c].(stale := true)]
  {
    hide Run;
    NeverSendsOnClosed(log);
    ReadersTodoIsOpen(Run(log).value, e, c);
  }

  // ---- Stale clients ----

  /** How many events the pump of a stale client can still take: one if it is waiting for an event. */
  function Left(x: Client): nat { if x.pump == Receiving then 1 else 0 }

  lemma StaleStep(s: State, step: Step, c: ClientId)
    requires Enabled(s, step) && c in s.clients && s.clients[c].stale
    ensures var x, y := s.clients[c], Apply(s, step).clients[c];
      y.stale && |y.taken| + Left(y) <= |x.taken| + Left(x)
  {
  }

  /** Once it is stale a client is sent at most one more event, and none if its pump is not waiting for one. */
  lemma {:induction false} StaleGetsAtMostOneMore(log: seq<Step>, rest: seq<Step>, c: ClientId)
    requires Run(log).Some? && c in Run(log).value.clients && Run(log).value.clients[c].stale && Run(log + rest).Some?
    ensures c in Run(log + rest).value.clients
    ensures var x, y := Run(log).value.clients[c], Run(log + rest).value.clients[c];
      y.stale && |y.taken| + Left(y) <= |x.taken| + (if x.pump == Receiving then 1 else 0)
    decreases |rest|
  {
    hide Run, Apply, Enabled;
    RunOn(log, rest);
    if rest == [] {
      assert log + rest == log;
    } else {
      var front, last := rest[..|rest| - 1], rest[|rest| - 1];
      StaleGetsAtMostOneMore(log, front, c);
      StaleStep(Run(log + front).value, last, c);
    }
  }

  lemma StoppedStep(s: State, step: Step, c: ClientId)
    requires Enabled(s, step) && c in s.clients && s.clients[c].pump == Stopped
    ensures Apply(s, step).clients[c].pump == Stopped && Apply(s, step).clients[c].taken == s.clients[c].taken
  {
  }

  /** A pump that has ended sends nothing any more. */
  lemma {:induction false} StoppedForGood(log: seq<Step>, rest: seq<Step>, c: ClientId)
    requires Run(log).Some? && c in Run(log).value.clients && Run(log).value.clients[c].pump == Stopped && Run(log + rest).Some?
    ensures c in Run(log + rest).value.clients && Run(log + rest).value.clients[c].pump == Stopped
    ensures Run(log + rest).value.clients[c].taken == Run(log).value.clients[c].taken
    decreases |rest|
  {
    hide Run, Apply, Enabled;
    RunOn(log, rest);
    if rest == [] {
      assert log + rest == log;
    } else {
      var front, last := rest[..|rest| - 1], rest[|rest| - 1];
      StoppedForGood(log, front, c);
      StoppedStep(Run(log + front).value, last, c);
    }
  }

  /** A pump that has written an event ends if the write failed or the client is stale, and waits for the next one otherwise. */
  lemma PumpEndsIff(s: State, c: ClientId, failed: bool)
    requires c in s.clients && s.clients[c].pump == Checking
    ensures Enabled(s, Settle(c, failed))
    ensures Apply(s, Settle(c, failed)).clients[c].pump == if failed || s.clients[c].stale then Stopped else Receiving
  {
  }
}
