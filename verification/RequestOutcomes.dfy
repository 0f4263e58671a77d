/** What callers of a connection are told in the end, and where a socket deadline comes from, over whole runs. */
module RequestOutcomes {

  import opened Wrappers
  import opened RequestProtocol

  // ------------------------------------------------------------------ the outcome of a request

  /** The request has ended, or will end, with this outcome. */
  ghost predicate EndsWith(s: State, es: seq<Event>, i: nat, o: Outcome)
    requires IsRun(s, es)
  {
    i in Final(s, es).ops && Decided(Final(s, es).ops[i].pc, o)
  }

  predicate Decided(pc: Pc, o: Outcome)
  {
    pc == Returning(o) || pc == Stopped(o) || pc == Cleared(o) || pc == Done(o)
  }

  lemma Stays(s: State, es: seq<Event>, i: nat, o: Outcome)
    requires IsRun(s, es) && i in s.ops && Decided(s.ops[i].pc, o)
    ensures EndsWith(s, es, i, o)
  {
    hide IsRun, Final;
    OutcomeStays(s, es, i, o);
  }

  /** A request whose write fails, or whose read fails, drops the connection. It reports the context error exactly when
      its context was finished then or, unless it asks for no reply, when its deadline had passed; else BadConn. */
  lemma FailedRequest(s: State, e: Event, es: seq<Event>, i: nat)
    requires Enabled(s, e) && (e == ReadFails(i) || (e.WriteFails? && e.i == i)) && IsRun(Apply(s, e), es)
    ensures Apply(s, e).closed && !Apply(s, e).socketOpen
    ensures var op := s.ops[i];
            var explained := op.done || (op.expired && (op.kind.Plain? || op.kind.Statement?));
            EndsWith(Apply(s, e), es, i, if explained then ContextError else BadConn)
  {
    var op := s.ops[i];
    var explained := op.done || (op.expired && !op.kind.NoReply?);
    Stays(Apply(s, e), es, i, if explained then ContextError else BadConn);
  }

  /** A reply nobody can read: a plain request reports it and keeps the connection; a statement request drops the
      connection and reports the context error, or BadConn if the context is innocent. Either way it is consumed. */
  lemma UnreadableReply(s: State, es: seq<Event>, i: nat)
    requires Inv(s) && Enabled(s, ReadBadReply(i)) && IsRun(Apply(s, ReadBadReply(i)), es)
    ensures Apply(s, ReadBadReply(i)).fromServer == [] && Asked(Apply(s, ReadBadReply(i)).toServer) == []
    ensures Apply(s, ReadBadReply(i)).closed <==> s.closed || s.ops[i].kind.Statement?
    ensures var op := s.ops[i];
            EndsWith(Apply(s, ReadBadReply(i)), es, i,
                     if !op.kind.Statement? then BadReply
                     else if op.done || op.expired then ContextError else BadConn)
  {
    FirstReply(s, i);
    var op := s.ops[i];
    Stays(Apply(s, ReadBadReply(i)), es, i,
          if !op.kind.Statement? then BadReply else if op.done || op.expired then ContextError else BadConn);
  }

  /** A reply that arrives is the caller's own. Only a statement request whose context is finished withholds it; a plain
      request returns it though its context finished meanwhile. The connection stays as it is. */
  lemma ReplyInTime(s: State, es: seq<Event>, i: nat)
    requires Inv(s) && Enabled(s, ReadReply(i)) && IsRun(Apply(s, ReadReply(i)), es)
    ensures Apply(s, ReadReply(i)).closed == s.closed && Apply(s, ReadReply(i)).socketOpen == s.socketOpen
    ensures EndsWith(Apply(s, ReadReply(i)), es, i,
                     if s.ops[i].kind.Statement? && s.ops[i].done then ContextError else Reply(i))
  {
    FirstReply(s, i);
    Stays(Apply(s, ReadReply(i)), es, i,
          if s.ops[i].kind.Statement? && s.ops[i].done then ContextError else Reply(i));
  }

  /** A context finished on entry: nothing is sent, and the connection is dropped unless it is a statement request. */
  lemma FinishedOnEntry(s: State, es: seq<Event>, i: nat)
    requires Enabled(s, CheckContext(i)) && s.ops[i].done && IsRun(Apply(s, CheckContext(i)), es)
    ensures var s' := Apply(s, CheckContext(i));
            && s'.toServer == s.toServer && s'.fromServer == s.fromServer && s'.lock == s.lock
            && s'.deadline == s.deadline
            && (s'.closed <==> s.closed || !s.ops[i].kind.Statement?)
            && (s'.socketOpen <==> s.socketOpen && s.ops[i].kind.Statement?)
    ensures EndsWith(Apply(s, CheckContext(i)), es, i, ContextError)
  {
    Stays(Apply(s, CheckContext(i)), es, i, ContextError);
  }

  /** A connection found closed: BadConn, and nothing else changes. */
  lemma ClosedOnEntry(s: State, es: seq<Event>, i: nat)
    requires Enabled(s, ReadConn(i)) && s.closed && IsRun(Apply(s, ReadConn(i)), es)
    ensures Apply(s, ReadConn(i)) == s.(ops := Apply(s, ReadConn(i)).ops)
    ensures EndsWith(Apply(s, ReadConn(i)), es, i, BadConn)
  {
    Stays(Apply(s, ReadConn(i)), es, i, BadConn);
  }

  // ------------------------------------------------------------------ where deadlines come from

  /** What the past tells of one operation. */
  predicate OpOrigin(op0: Op, op: Op, past: seq<Event>, i: nat)
  {
    && op.kind == op0.kind && op.hasDeadline == op0.hasDeadline
    && (op.done ==> op0.done || ContextDone(i) in past)
    && (op.watcher.Unborn? || op.kind.Statement?)
    && (op.callback.Unregistered? || op.kind.Plain?)
    && (op.watcher.Cancelling? || op.watcher.Decided? ==> op.done)
    && (op.watcher.Decided? ==> CancelReturns(i, op.watcher.accepted) in past)
    && (op.callback.Fired? ==> op.done)
  }

  /** The context of an operation is finished: it was from the start, or it finished on the way. */
  predicate ContextFinished(op0: Op, past: seq<Event>, i: nat) { op0.done || ContextDone(i) in past }

  predicate FromOwn(s0: State, past: seq<Event>, i: nat)
  {
    i in s0.ops && !s0.ops[i].kind.Statement? && s0.ops[i].hasDeadline && Acquire(i) in past
  }

  predicate FromCancel(s0: State, past: seq<Event>, i: nat, accepted: bool)
  {
    i in s0.ops && s0.ops[i].kind.Statement? && ContextFinished(s0.ops[i], past, i) &&
    CancelReturns(i, accepted) in past
  }

  predicate FromCallback(s0: State, past: seq<Event>, i: nat)
  {
    i in s0.ops && s0.ops[i].kind.Plain? && ContextFinished(s0.ops[i], past, i) && CallbackActs(i) in past
  }

  /** A deadline of the socket is that of a context of a request that is no native statement, or the time to wait after
      an accepted cancel, or it makes the pending read fail at once, after a refused cancel or by the callback of a
      plain request; the last three only when the context has finished. */
  ghost predicate DeadlineFrom(s0: State, past: seq<Event>, d: Deadline)
  {
    && (d.FromContext? ==> exists i :: FromOwn(s0, past, i))
    && (d.Grace? ==> exists i :: FromCancel(s0, past, i, true))
    && (d.Past? ==> exists i :: FromCancel(s0, past, i, false) || FromCallback(s0, past, i))
  }

  ghost predicate Origin(s0: State, s: State, past: seq<Event>)
  {
    && s.ops.Keys == s0.ops.Keys
    && (forall i :: i in s.ops ==> OpOrigin(s0.ops[i], s.ops[i], past, i))
    && DeadlineFrom(s0, past, s.deadline)
  }

  predicate OfEntry(e: Event) { e.CheckContext? || e.ReadConn? || e.Acquire? }

  lemma OwnEntry(op0: Op, s: State, e: Event, past: seq<Event>)
    requires Enabled(s, e) && OfEntry(e) && OpOrigin(op0, s.ops[e.i], past, e.i)
    ensures e.i in Apply(s, e).ops && OpOrigin(op0, Apply(s, e).ops[e.i], past + [e], e.i)
  {}

  lemma OwnWrite(op0: Op, s: State, e: Event, past: seq<Event>)
    requires Enabled(s, e) && OfCaller(e) && !OfEntry(e) && OpOrigin(op0, s.ops[e.i], past, e.i)
    ensures e.i in Apply(s, e).ops && OpOrigin(op0, Apply(s, e).ops[e.i], past + [e], e.i)
  {}

  lemma OwnReply(op0: Op, s: State, e: Event, past: seq<Event>)
    requires Enabled(s, e) && OfReply(e) && OpOrigin(op0, s.ops[e.i], past, e.i)
    ensures e.i in Apply(s, e).ops && OpOrigin(op0, Apply(s, e).ops[e.i], past + [e], e.i)
  {}

  lemma OwnContext(op0: Op, s: State, e: Event, past: seq<Event>)
    requires Enabled(s, e) && OfContext(e) && OpOrigin(op0, s.ops[e.i], past, e.i)
    ensures e.i in Apply(s, e).ops && OpOrigin(op0, Apply(s, e).ops[e.i], past + [e], e.i)
  {}

  lemma OwnWatcher(op0: Op, s: State, e: Event, past: seq<Event>)
    requires Enabled(s, e) && OfWatcher(e) && OpOrigin(op0, s.ops[e.i], past, e.i)
    ensures e.i in Apply(s, e).ops && OpOrigin(op0, Apply(s, e).ops[e.i], past + [e], e.i)
  {}

  lemma OtherOrigin(op0: Op, op: Op, past: seq<Event>, e: Event, i: nat)
    requires OpOrigin(op0, op, past, i)
    ensures OpOrigin(op0, op, past + [e], i)
  {}

  lemma OpStep(op0: Op, s: State, e: Event, past: seq<Event>, i: nat)
    requires Enabled(s, e) && i in s.ops && OpOrigin(op0, s.ops[i], past, i)
    ensures i in Apply(s, e).ops && OpOrigin(op0, Apply(s, e).ops[i], past + [e], i)
  {
    hide Apply, Enabled, OpOrigin, OfEntry;
    if !OfOp(e) || e.i != i {
      OthersSame(s, e, i);
      OtherOrigin(op0, s.ops[i], past, e, i);
    } else if OfEntry(e) {
      OwnEntry(op0, s, e, past);
    } else if OfCaller(e) {
      OwnWrite(op0, s, e, past);
    } else if OfReply(e) {
      OwnReply(op0, s, e, past);
    } else if OfWatcher(e) {
      OwnWatcher(op0, s, e, past);
    } else {
      OwnContext(op0, s, e, past);
    }
  }

  lemma DeadlineLater(s0: State, past: seq<Event>, e: Event, d: Deadline)
    requires DeadlineFrom(s0, past, d)
    ensures DeadlineFrom(s0, past + [e], d)
  {
    if i :| FromOwn(s0, past, i) {
      assert FromOwn(s0, past + [e], i);
    }
    if i :| FromCancel(s0, past, i, true) {
      assert FromCancel(s0, past + [e], i, true);
    }
    if i :| FromCancel(s0, past, i, false) {
      assert FromCancel(s0, past + [e], i, false);
    }
    if i :| FromCallback(s0, past, i) {
      assert FromCallback(s0, past + [e], i);
    }
  }

  lemma AcquireDeadline(s0: State, s: State, e: Event, past: seq<Event>)
    requires Origin(s0, s, past) && Enabled(s, e) && e.Acquire?
    ensures DeadlineFrom(s0, past + [e], Apply(s, e).deadline)
  {
    DeadlineLater(s0, past, e, s.deadline);
    if Apply(s, e).deadline != s.deadline && Apply(s, e).deadline.FromContext? {
      assert OpOrigin(s0.ops[e.i], s.ops[e.i], past, e.i);
      assert FromOwn(s0, past + [e], e.i);
    }
  }

  lemma CallbackDeadline(s0: State, s: State, e: Event, past: seq<Event>)
    requires Origin(s0, s, past) && Enabled(s, e) && e.CallbackActs?
    ensures DeadlineFrom(s0, past + [e], Apply(s, e).deadline)
  {
    assert OpOrigin(s0.ops[e.i], s.ops[e.i], past, e.i);
    assert FromCallback(s0, past + [e], e.i);
  }

  lemma WatcherDeadline(s0: State, s: State, e: Event, past: seq<Event>)
    requires Origin(s0, s, past) && Enabled(s, e) && e.WatcherActs?
    ensures DeadlineFrom(s0, past + [e], Apply(s, e).deadline)
  {
    var op := s.ops[e.i];
    assert OpOrigin(s0.ops[e.i], op, past, e.i);
    if op.finished {
      DeadlineLater(s0, past, e, s.deadline);
    } else {
      assert FromCancel(s0, past + [e], e.i, op.watcher.accepted);
    }
  }

  lemma OtherDeadline(s: State, e: Event)
    requires Enabled(s, e) && !e.Acquire? && !e.CallbackActs? && !e.WatcherActs?
    ensures Apply(s, e).deadline == s.deadline || Apply(s, e).deadline.NoDeadline?
  {}

  lemma OriginStep(s0: State, s: State, e: Event, past: seq<Event>)
    requires Origin(s0, s, past) && Enabled(s, e)
    ensures Origin(s0, Apply(s, e), past + [e])
  {
    SameOps(s, e);
    hide Apply, Enabled, OpOrigin, DeadlineFrom;
    forall i | i in s.ops ensures OpOrigin(s0.ops[i], Apply(s, e).ops[i], past + [e], i) {
      OpStep(s0.ops[i], s, e, past, i);
    }
    DeadlineStepOrigin(s0, s, e, past);
  }

  lemma DeadlineStepOrigin(s0: State, s: State, e: Event, past: seq<Event>)
    requires Origin(s0, s, past) && Enabled(s, e)
    ensures DeadlineFrom(s0, past + [e], Apply(s, e).deadline)
  {
    hide Apply, Enabled, OpOrigin;
    if e.Acquire? {
      AcquireDeadline(s0, s, e, past);
    } else if e.CallbackActs? {
      CallbackDeadline(s0, s, e, past);
    } else if e.WatcherActs? {
      WatcherDeadline(s0, s, e, past);
    } else {
      OtherDeadline(s, e);
      DeadlineLater(s0, past, e, s.deadline);
    }
  }

  lemma {:induction false} OriginRun(s0: State, s: State, es: seq<Event>, past: seq<Event>)
    requires Origin(s0, s, past) && IsRun(s, es)
    ensures Origin(s0, Final(s, es), past + es)
    decreases |es|
  {
    if es == [] {
      assert past + es == past;
    } else {
      hide Origin, Apply, Enabled;
      OriginStep(s0, s, es[0], past);
      OriginRun(s0, Apply(s, es[0]), es[1..], past + [es[0]]);
      assert past + [es[0]] + es[1..] == past + es;
    }
  }

  /** In every run: the deadline on the socket has the origin it says. */
  lemma DeadlineOrigin(s: State, es: seq<Event>)
    requires Initial(s) && IsRun(s, es)
    ensures DeadlineFrom(s, es, Final(s, es).deadline)
  {
    OriginRun(s, s, es, []);
    assert [] + es == es;
  }

  // ------------------------------------------------------------------ the deadline while a request is pending

  /** A request bounded by its context has that deadline or one that has passed; a statement with native cancel never
      has the deadline of its context. */
  predicate Fits(op: Op, d: Deadline)
  {
    && (!op.kind.Statement? && op.hasDeadline ==> d.FromContext? || d.Past?)
    && (op.kind.Statement? ==> !d.FromContext?)
  }

  predicate HolderFits(s: State)
  {
    s.lock.Some? && s.lock.value in s.ops && Pending(s.ops[s.lock.value].pc)
    ==> Fits(s.ops[s.lock.value], s.deadline)
  }

  predicate Watched(s: State) { forall i :: i in s.ops ==> WatcherOk(s.ops[i]) }

  lemma FitsEntry(s: State, e: Event)
    requires Inv(s) && HolderFits(s) && Enabled(s, e) && (e.CheckContext? || e.ReadConn?)
    ensures HolderFits(Apply(s, e))
  {
    hide Owed, Expected, OwnOutcome;
  }

  lemma FitsAcquire(s: State, e: Event)
    requires Enabled(s, e) && e.Acquire?
    ensures HolderFits(Apply(s, e))
  {}

  lemma FitsWrite(s: State, e: Event)
    requires Inv(s) && HolderFits(s) && Enabled(s, e) && (e.WritePreamble? || e.WriteRequest? || e.WriteFails?)
    ensures HolderFits(Apply(s, e))
  {
    hide Owed, Expected, OwnOutcome;
  }

  lemma FitsReply(s: State, e: Event)
    requires Inv(s) && HolderFits(s) && Enabled(s, e) && OfReply(e)
    ensures HolderFits(Apply(s, e))
  {
    hide Owed, Expected, OwnOutcome;
  }

  lemma FitsWatcher(s: State, e: Event)
    requires Inv(s) && Watched(s) && HolderFits(s) && Enabled(s, e) && OfWatcher(e)
    ensures HolderFits(Apply(s, e))
  {
    hide Owed, Expected, OwnOutcome;
    assert WatcherOk(s.ops[e.i]);
  }

  lemma FitsRest(s: State, e: Event)
    requires Inv(s) && HolderFits(s) && Enabled(s, e) && (OfContext(e) || !OfOp(e))
    ensures HolderFits(Apply(s, e))
  {
    hide Owed, Expected, OwnOutcome;
  }

  lemma FitsStep(s: State, e: Event)
    requires Inv(s) && Watched(s) && HolderFits(s) && Enabled(s, e)
    ensures HolderFits(Apply(s, e)) && Watched(Apply(s, e))
  {
    SameOps(s, e);
    hide Inv, Apply, Enabled, HolderFits, WatcherOk;
    forall i | i in s.ops ensures WatcherOk(Apply(s, e).ops[i]) {
      WatcherStep(s, e, i);
    }
    if e.Acquire? {
      FitsAcquire(s, e);
    } else if e.CheckContext? || e.ReadConn? {
      FitsEntry(s, e);
    } else if OfCaller(e) {
      FitsWrite(s, e);
    } else if OfReply(e) {
      FitsReply(s, e);
    } else if OfWatcher(e) {
      FitsWatcher(s, e);
    } else {
      FitsRest(s, e);
    }
  }

  lemma {:induction false} FitsRun(s: State, es: seq<Event>)
    requires Inv(s) && Watched(s) && HolderFits(s) && IsRun(s, es)
    ensures Inv(Final(s, es)) && HolderFits(Final(s, es))
    decreases |es|
  {
    if es != [] {
      hide Inv, Watched, HolderFits, Apply, Enabled;
      StepInv(s, es[0]);
      FitsStep(s, es[0]);
      FitsRun(Apply(s, es[0]), es[1..]);
    }
  }

  /** In every run, while a request is writing or waits for its reply: if it is no statement with native cancel and its
      context has a deadline, the socket has that deadline or one that has passed; if it is one, the socket does not
      have the deadline of its context. */
  lemma PendingDeadline(s: State, es: seq<Event>, i: nat)
    requires Initial(s) && IsRun(s, es) && i in Final(s, es).ops
    requires var pc := Final(s, es).ops[i].pc; pc.Locked? || pc.PreambleSent? || pc.AwaitingReply?
    ensures var op, d := Final(s, es).ops[i], Final(s, es).deadline;
            && (!op.kind.Statement? && op.hasDeadline ==> d == FromContext || d == Past)
            && (op.kind.Statement? ==> d != FromContext)
  {
    InitialInv(s);
    FitsRun(s, es);
    HolderOf(Final(s, es), i);
  }
}
