/** Requests on one connection, as a state machine over the atomic steps of the goroutines involved: callers,
    the cancellation watcher of a statement request, the context callback of a plain request, and the server.
    The server answers, in order, exactly the requests that carry the send-reply bit. */
module RequestProtocol {

  import opened Wrappers

  /** Plain requests may be preceded by a packet without reply; statement requests have native cancel. */
  datatype Kind = Plain(preamble: bool) | NoReply | Statement

  datatype Outcome = Reply(from: nat) | Sent | BadReply | ContextError | BadConn

  datatype Pc =
    | Start                       // nothing done
    | ContextChecked              // the context was not finished on entry
    | Ready                       // the connection was seen valid
    | Locked                      // holds opMu, deadline set up, watcher started
    | PreambleSent
    | AwaitingReply               // the request is written
    | Returning(o: Outcome)       // result decided, deferred calls pending
    | Stopped(o: Outcome)         // watcher told that the request is finished, or callback unregistered
    | Cleared(o: Outcome)         // deadline cleared
    | Done(o: Outcome)            // opMu released

  datatype Watcher = Unborn | Waiting | Cancelling | Decided(accepted: bool) | Gone

  datatype Callback = Unregistered | Registered | Fired | Spent

  datatype Deadline = NoDeadline | FromContext | Grace | Past

  datatype Op = Op(kind: Kind, hasDeadline: bool, pc: Pc, done: bool, expired: bool, finished: bool,
                   watcher: Watcher, callback: Callback)

  datatype Msg = Msg(op: nat, wantsReply: bool)

  datatype State = State(ops: map<nat, Op>, lock: Option<nat>, closed: bool, socketOpen: bool, deadline: Deadline,
                         toServer: seq<Msg>, fromServer: seq<nat>)

  datatype Event =
    | CheckContext(i: nat)
    | ReadConn(i: nat)
    | Acquire(i: nat)
    | WritePreamble(i: nat)
    | WriteRequest(i: nat)
    | WriteFails(i: nat, delivered: seq<Msg>)
    | ReadReply(i: nat)
    | ReadBadReply(i: nat)
    | ReadFails(i: nat)
    | Stop(i: nat)
    | ClearDeadline(i: nat)
    | Release(i: nat)
    | ContextDone(i: nat)
    | DeadlinePasses(i: nat)
    | CallbackFires(i: nat)
    | CallbackActs(i: nat)
    | WatcherWakes(i: nat)
    | WatcherStops(i: nat)
    | CancelReturns(i: nat, accepted: bool)
    | WatcherActs(i: nat)
    | ServerTakes
    | CloseMarks
    | CloseSocket

  predicate Holding(pc: Pc)
  {
    pc.Locked? || pc.PreambleSent? || pc.AwaitingReply? || pc.Returning? || pc.Stopped? || pc.Cleared?
  }

  /** About to write the request itself. */
  predicate Writing(op: Op)
  {
    op.pc.PreambleSent? || (op.pc.Locked? && op.kind != Plain(true))
  }

  /** The step is one the code can take now. */
  predicate Enabled(s: State, e: Event)
  {
    match e
    case CheckContext(i) => i in s.ops && s.ops[i].pc.Start?
    case ReadConn(i) => i in s.ops && s.ops[i].pc.ContextChecked?
    case Acquire(i) => i in s.ops && s.ops[i].pc.Ready? && s.lock.None?
    case WritePreamble(i) => i in s.ops && s.ops[i].pc.Locked? && s.ops[i].kind == Plain(true) && s.socketOpen
    case WriteRequest(i) => i in s.ops && Writing(s.ops[i]) && s.socketOpen
    case WriteFails(i, _) => i in s.ops && (s.ops[i].pc.Locked? || s.ops[i].pc.PreambleSent?)
    case ReadReply(i) => i in s.ops && s.ops[i].pc.AwaitingReply? && s.socketOpen && |s.fromServer| > 0
    case ReadBadReply(i) => i in s.ops && s.ops[i].pc.AwaitingReply? && s.socketOpen && |s.fromServer| > 0
    case ReadFails(i) => i in s.ops && s.ops[i].pc.AwaitingReply?
    case Stop(i) => i in s.ops && s.ops[i].pc.Returning?
    case ClearDeadline(i) => i in s.ops && s.ops[i].pc.Stopped?
    case Release(i) => i in s.ops && s.ops[i].pc.Cleared?
    case ContextDone(i) => i in s.ops
    case DeadlinePasses(i) => i in s.ops && s.ops[i].hasDeadline
    case CallbackFires(i) => i in s.ops && s.ops[i].callback.Registered? && s.ops[i].done
    case CallbackActs(i) => i in s.ops && s.ops[i].callback.Fired?
    case WatcherWakes(i) => i in s.ops && s.ops[i].watcher.Waiting? && s.ops[i].done
    case WatcherStops(i) => i in s.ops && s.ops[i].watcher.Waiting? && s.ops[i].finished
    case CancelReturns(i, _) => i in s.ops && s.ops[i].watcher.Cancelling?
    case WatcherActs(i) => i in s.ops && s.ops[i].watcher.Decided?
    case ServerTakes => |s.toServer| > 0
    case CloseMarks => true
    case CloseSocket => s.closed && s.lock.None?
  }

  function SetPc(s: State, i: nat, pc: Pc): State
    requires i in s.ops
  {
    s.(ops := s.ops[i := s.ops[i].(pc := pc)])
  }

  function Invalidated(s: State): State { s.(closed := true, socketOpen := false) }

  /** The error reported for a failed write or read: the context explains it when it is finished, or, except
      for the requests without reply, when its deadline has passed. */
  function FailureOf(op: Op): Outcome
  {
    if op.done || (op.expired && !op.kind.NoReply?) then ContextError else BadConn
  }

  function Apply(s: State, e: Event): State
    requires Enabled(s, e)
  {
    match e
    case CheckContext(i) =>
      if !s.ops[i].done then SetPc(s, i, ContextChecked)
      else if s.ops[i].kind.Statement? then SetPc(s, i, Done(ContextError))
      else Invalidated(SetPc(s, i, Done(ContextError)))
    case ReadConn(i) => SetPc(s, i, if s.closed then Done(BadConn) else Ready)
    case Acquire(i) =>
      var op := s.ops[i];
      s.(lock := Some(i),
         deadline := if op.kind.Statement? then NoDeadline else if op.hasDeadline then FromContext else s.deadline,
         ops := s.ops[i := op.(pc := Locked,
                               watcher := if op.kind.Statement? then Waiting else op.watcher,
                               callback := if op.kind.Plain? then Registered else op.callback)])
    case WritePreamble(i) => SetPc(s, i, PreambleSent).(toServer := s.toServer + [Msg(i, false)])
    case WriteRequest(i) =>
      if s.ops[i].kind.NoReply?
      then SetPc(s, i, Returning(Sent)).(toServer := s.toServer + [Msg(i, false)])
      else SetPc(s, i, AwaitingReply).(toServer := s.toServer + [Msg(i, true)])
    case WriteFails(i, delivered) =>
      Invalidated(SetPc(s, i, Returning(FailureOf(s.ops[i]))).(toServer := s.toServer + delivered))
    case ReadReply(i) =>
      var o := if s.ops[i].kind.Statement? && s.ops[i].done then ContextError else Reply(s.fromServer[0]);
      SetPc(s, i, Returning(o)).(fromServer := s.fromServer[1..])
    case ReadBadReply(i) =>
      var s' := s.(fromServer := s.fromServer[1..]);
      if s.ops[i].kind.Statement? then Invalidated(SetPc(s', i, Returning(FailureOf(s.ops[i]))))
      else SetPc(s', i, Returning(BadReply))
    case ReadFails(i) => Invalidated(SetPc(s, i, Returning(FailureOf(s.ops[i]))))
    case Stop(i) =>
      var op := s.ops[i];
      s.(ops := s.ops[i := op.(pc := Stopped(op.pc.o),
                               finished := op.kind.Statement?,
                               callback := if op.callback.Registered? then Spent else op.callback)])
    case ClearDeadline(i) => SetPc(s, i, Cleared(s.ops[i].pc.o)).(deadline := NoDeadline)
    case Release(i) => SetPc(s, i, Done(s.ops[i].pc.o)).(lock := None)
    case ContextDone(i) => s.(ops := s.ops[i := s.ops[i].(done := true)])
    case DeadlinePasses(i) => s.(ops := s.ops[i := s.ops[i].(expired := true)])
    case CallbackFires(i) => s.(ops := s.ops[i := s.ops[i].(callback := Fired)])
    case CallbackActs(i) => s.(ops := s.ops[i := s.ops[i].(callback := Spent)], deadline := Past)
    case WatcherWakes(i) => s.(ops := s.ops[i := s.ops[i].(watcher := Cancelling)])
    case WatcherStops(i) => s.(ops := s.ops[i := s.ops[i].(watcher := Gone)])
    case CancelReturns(i, accepted) => s.(ops := s.ops[i := s.ops[i].(watcher := Decided(accepted))])
    case WatcherActs(i) =>
      var op := s.ops[i];
      s.(ops := s.ops[i := op.(watcher := Gone)],
         deadline := if op.finished then s.deadline else if op.watcher.accepted then Grace else Past)
    case ServerTakes =>
      var m := s.toServer[0];
      s.(toServer := s.toServer[1..], fromServer := if m.wantsReply then s.fromServer + [m.op] else s.fromServer)
    case CloseMarks => s.(closed := true)
    case CloseSocket => s.(socketOpen := false)
  }

  /** A run: every event is possible when it happens. */
  ghost predicate IsRun(s: State, es: seq<Event>)
    decreases |es|
  {
    es == [] || (Enabled(s, es[0]) && IsRun(Apply(s, es[0]), es[1..]))
  }

  function Final(s: State, es: seq<Event>): State
    requires IsRun(s, es)
    decreases |es|
  {
    if es == [] then s else Final(Apply(s, es[0]), es[1..])
  }

  /** A fresh connection with any number of requests about to be made. */
  predicate Initial(s: State)
  {
    && s.lock.None? && !s.closed && s.socketOpen && s.deadline.NoDeadline?
    && s.toServer == [] && s.fromServer == []
    && forall i :: i in s.ops ==>
         s.ops[i].pc.Start? && s.ops[i].watcher.Unborn? && s.ops[i].callback.Unregistered? && !s.ops[i].finished
  }

  // ------------------------------------------------------------------ replies owed

  /** The requests in transit that ask for a reply. */
  function Asked(q: seq<Msg>): seq<nat>
  {
    if q == [] then []
    else if q[0].wantsReply then [q[0].op] + Asked(q[1..]) else Asked(q[1..])
  }

  lemma {:induction false} AskedAppend(q: seq<Msg>, m: Msg)
    ensures Asked(q + [m]) == Asked(q) + (if m.wantsReply then [m.op] else [])
  {
    if q == [] {
      assert q + [m] == [m] && [m][1..] == [];
    } else {
      AskedAppend(q[1..], m);
      assert (q + [m])[1..] == q[1..] + [m];
    }
  }

  /** Every reply asked for and not read yet, oldest first. */
  function Owed(s: State): seq<nat> { s.fromServer + Asked(s.toServer) }

  function Expected(s: State): seq<nat>
  {
    if s.lock.Some? && s.lock.value in s.ops && s.ops[s.lock.value].pc.AwaitingReply? then [s.lock.value] else []
  }

  /** What every step keeps: opMu has the holder it says, the stream owes exactly the reply the holder waits
      for while the socket is open, every reply handed out answers the request of the operation that got it,
      and a request that may write is not waiting for anything. */
  ghost predicate Inv(s: State)
  {
    && (s.lock.Some? ==> s.lock.value in s.ops && Holding(s.ops[s.lock.value].pc))
    && (forall i :: i in s.ops && Holding(s.ops[i].pc) ==> s.lock == Some(i))
    && (s.socketOpen ==> Owed(s) == Expected(s))
    && (!s.closed ==> s.socketOpen)
    && (forall i :: i in s.ops ==> OwnOutcome(i, s.ops[i].pc))
  }

  predicate OwnOutcome(i: nat, pc: Pc)
  {
    pc.Returning? || pc.Stopped? || pc.Cleared? || pc.Done? ==> pc.o.Reply? ==> pc.o.from == i
  }

  lemma InitialInv(s: State)
    requires Initial(s)
    ensures Inv(s)
  {}

  /** Steps that move no program counter leave the stream and the lock alone. */
  lemma Quiet(s: State, s': State)
    requires Inv(s) && s'.ops.Keys == s.ops.Keys && forall i :: i in s.ops ==> s'.ops[i].pc == s.ops[i].pc
    requires s'.lock == s.lock && s'.toServer == s.toServer && s'.fromServer == s.fromServer
    requires (s'.socketOpen ==> s.socketOpen) && (!s'.closed ==> !s.closed && s'.socketOpen)
    ensures Inv(s')
  {}

  /** A caller moves on. Nothing but its program counter and, as its new position says, the lock changes; the
      stream still owes what is expected. */
  lemma Moved(s: State, s': State, i: nat)
    requires Inv(s) && i in s.ops && s'.ops.Keys == s.ops.Keys
    requires forall j :: j in s.ops && j != i ==> s'.ops[j].pc == s.ops[j].pc
    requires if Holding(s'.ops[i].pc) then s'.lock == Some(i) && (s.lock.None? || s.lock == Some(i))
             else s'.lock == if Holding(s.ops[i].pc) then None else s.lock
    requires OwnOutcome(i, s'.ops[i].pc)
    requires s'.socketOpen ==> Owed(s') == Expected(s')
    requires !s'.closed ==> s'.socketOpen
    ensures Inv(s')
  {
    if s'.lock.Some? && !Holding(s'.ops[i].pc) {
      assert s'.lock == s.lock && s.lock != Some(i) by {
        assert !Holding(s.ops[i].pc);
      }
    }
  }

  /** Outside the wait for a reply nothing is expected before or after the step. */
  lemma NothingExpected(s: State, s': State, i: nat)
    requires Inv(s) && i in s.ops && !s.ops[i].pc.AwaitingReply? && s'.ops.Keys == s.ops.Keys
    requires forall j :: j in s.ops && j != i ==> s'.ops[j].pc == s.ops[j].pc
    requires !s'.ops[i].pc.AwaitingReply?
    requires s'.lock == s.lock || s.lock == Some(i) || (s'.lock == Some(i) && s.lock.None?)
    ensures Expected(s') == if s'.lock == s.lock then Expected(s) else []
    ensures s.lock == Some(i) ==> Expected(s) == []
    ensures s.lock.None? ==> Expected(s) == []
  {}

  lemma CallerStep(s: State, e: Event)
    requires Inv(s) && Enabled(s, e)
    requires e.CheckContext? || e.ReadConn? || e.Acquire? || e.Stop? || e.ClearDeadline? || e.Release?
    ensures Inv(Apply(s, e))
  {
    hide Inv, Owed, Expected;
    var s' := Apply(s, e);
    HolderOf(s, e.i);
    NothingExpected(s, s', e.i);
    OwedSame(s, s');
    OutcomeKept(s, e.i);
    SocketUntilClosed(s);
    Moved(s, s', e.i);
  }

  lemma HolderOf(s: State, i: nat)
    requires Inv(s) && i in s.ops
    ensures Holding(s.ops[i].pc) <==> s.lock == Some(i)
  {}

  lemma OutcomeKept(s: State, i: nat)
    requires Inv(s) && i in s.ops
    ensures OwnOutcome(i, s.ops[i].pc)
  {}

  lemma SocketUntilClosed(s: State)
    requires Inv(s)
    ensures !s.closed ==> s.socketOpen
    ensures s.socketOpen ==> Owed(s) == Expected(s)
  {}

  lemma OwedSame(s: State, s': State)
    requires s'.toServer == s.toServer && s'.fromServer == s.fromServer
    ensures Owed(s') == Owed(s)
  {}

  lemma WriteStep(s: State, e: Event)
    requires Inv(s) && Enabled(s, e)
    requires e.WritePreamble? || e.WriteRequest? || e.WriteFails?
    ensures Inv(Apply(s, e))
  {
    var s' := Apply(s, e);
    var i := e.i;
    HolderOf(s, i);
    SocketUntilClosed(s);
    if !e.WriteFails? {
      var asks := e.WriteRequest? && !s.ops[i].kind.NoReply?;
      AskedAppend(s.toServer, Msg(i, asks));
      assert Owed(s) == [];
      assert Owed(s') == s.fromServer + (Asked(s.toServer) + if asks then [i] else []);
      assert Expected(s') == if asks then [i] else [];
    }
    hide Inv, Owed, Expected;
    Moved(s, s', i);
  }

  lemma ReadStep(s: State, e: Event)
    requires Inv(s) && Enabled(s, e)
    requires e.ReadReply? || e.ReadBadReply? || e.ReadFails?
    ensures Inv(Apply(s, e))
  {
    var s' := Apply(s, e);
    var i := e.i;
    HolderOf(s, i);
    SocketUntilClosed(s);
    if !e.ReadFails? {
      FirstReply(s, i);
      assert Owed(s') == [] == Expected(s');
    }
    hide Inv, Owed, Expected;
    Moved(s, s', i);
  }

  lemma ServerStep(s: State)
    requires Inv(s) && |s.toServer| > 0
    ensures Inv(Apply(s, ServerTakes))
  {
    var s' := Apply(s, ServerTakes);
    assert Owed(s') == Owed(s);
  }

  /** Every step keeps the invariant. */
  lemma StepInv(s: State, e: Event)
    requires Inv(s) && Enabled(s, e)
    ensures Inv(Apply(s, e))
  {
    hide Inv;
    match e
    case CheckContext(_) => CallerStep(s, e);
    case ReadConn(_) => CallerStep(s, e);
    case Acquire(_) => CallerStep(s, e);
    case Stop(_) => CallerStep(s, e);
    case ClearDeadline(_) => CallerStep(s, e);
    case Release(_) => CallerStep(s, e);
    case WritePreamble(_) => WriteStep(s, e);
    case WriteRequest(_) => WriteStep(s, e);
    case WriteFails(_, _) => WriteStep(s, e);
    case ReadReply(_) => ReadStep(s, e);
    case ReadBadReply(_) => ReadStep(s, e);
    case ReadFails(_) => ReadStep(s, e);
    case ServerTakes => ServerStep(s);
    case _ => SocketUntilClosed(s); Quiet(s, Apply(s, e));
  }

  /** The reply at the head of the stream answers the request of the one operation that waits. */
  lemma FirstReply(s: State, i: nat)
    requires Inv(s) && s.socketOpen && i in s.ops && s.ops[i].pc.AwaitingReply? && |s.fromServer| > 0
    ensures s.fromServer == [i] && Asked(s.toServer) == []
  {
    assert s.lock == Some(i);
    assert s.fromServer + Asked(s.toServer) == [i];
    assert |s.fromServer| + |Asked(s.toServer)| == 1;
    assert (s.fromServer + Asked(s.toServer))[0] == s.fromServer[0];
  }

  lemma {:induction false} RunInv(s: State, es: seq<Event>)
    requires Inv(s) && IsRun(s, es)
    ensures Inv(Final(s, es))
    decreases |es|
  {
    if es != [] {
      StepInv(s, es[0]);
      RunInv(Apply(s, es[0]), es[1..]);
    }
  }

  /** In every interleaving: when opMu is free and the connection still valid, every reply asked for has been
      read and none is outstanding; and every reply returned to a caller is the reply to its own request. */
  lemma StreamInSync(s: State, es: seq<Event>)
    requires Initial(s) && IsRun(s, es)
    ensures var f := Final(s, es);
            && (f.lock.None? && !f.closed ==> Asked(f.toServer) == [] && f.fromServer == [])
            && (forall i :: i in f.ops && f.ops[i].pc.Done? && f.ops[i].pc.o.Reply? ==> f.ops[i].pc.o.from == i)
  {
    InitialInv(s);
    RunInv(s, es);
    var f := Final(s, es);
    if f.lock.None? && !f.closed {
      assert f.fromServer + Asked(f.toServer) == [];
    }
  }

  // ------------------------------------------------------------------ the socket deadline

  /** The function has not yet told its watcher that it is finished. */
  predicate Pending(pc: Pc) { pc.Locked? || pc.PreambleSent? || pc.AwaitingReply? || pc.Returning? }

  predicate Active(w: Watcher) { w.Waiting? || w.Cancelling? || w.Decided? }

  /** Only the holder of opMu, before it clears the deadline, and its watcher while the request is pending
      touch the deadline of the socket. */
  ghost predicate DeadlineInv(s: State)
  {
    && Inv(s)
    && ClearWhenFree(s)
    && (forall i :: i in s.ops ==> WatcherOk(s.ops[i]))
  }

  /** There is no deadline while opMu is free, or held by a request that has cleared it. */
  predicate ClearWhenFree(s: State)
  {
    && (s.lock.None? ==> s.deadline.NoDeadline?)
    && (s.lock.Some? && s.lock.value in s.ops && s.ops[s.lock.value].pc.Cleared? ==> s.deadline.NoDeadline?)
  }

  /** Watchers exist for statement requests only, and one that has not been told to stop belongs to a request
      that is still pending. */
  predicate WatcherOk(op: Op)
  {
    && (Active(op.watcher) && !op.finished ==> Pending(op.pc))
    && (op.finished ==> op.kind.Statement? && !op.pc.Start? && !op.pc.ContextChecked? && !op.pc.Ready? && !Pending(op.pc))
    && (!op.kind.Statement? ==> op.watcher.Unborn?)
  }

  /** A context callback that had fired before it was unregistered acts while nobody is going to clear the
      deadline again: opMu is free, or its holder has cleared the deadline already. */
  predicate LateCallback(s: State, e: Event)
  {
    e.CallbackActs? && (s.lock.None? || (s.lock.value in s.ops && s.ops[s.lock.value].pc.Cleared?))
  }

  ghost predicate NoLateCallback(s: State, es: seq<Event>)
    requires IsRun(s, es)
    decreases |es|
  {
    es == [] || (!LateCallback(s, es[0]) && NoLateCallback(Apply(s, es[0]), es[1..]))
  }

  predicate OfOp(e: Event) { !e.ServerTakes? && !e.CloseMarks? && !e.CloseSocket? }

  predicate OfCaller(e: Event)
  {
    e.CheckContext? || e.ReadConn? || e.Acquire? || e.WritePreamble? || e.WriteRequest? || e.WriteFails?
  }

  predicate OfReply(e: Event)
  {
    e.ReadReply? || e.ReadBadReply? || e.ReadFails? || e.Stop? || e.ClearDeadline? || e.Release?
  }

  predicate OfWatcher(e: Event) { e.WatcherWakes? || e.WatcherStops? || e.CancelReturns? || e.WatcherActs? }

  predicate OfContext(e: Event) { e.ContextDone? || e.DeadlinePasses? || e.CallbackFires? || e.CallbackActs? }

  /** A step changes no operation but its own. */
  lemma OthersSame(s: State, e: Event, j: nat)
    requires Enabled(s, e) && j in s.ops && (!OfOp(e) || e.i != j)
    ensures j in Apply(s, e).ops && Apply(s, e).ops[j] == s.ops[j]
  {}

  lemma WatcherCaller(s: State, e: Event)
    requires Enabled(s, e) && OfCaller(e) && WatcherOk(s.ops[e.i])
    ensures e.i in Apply(s, e).ops && WatcherOk(Apply(s, e).ops[e.i])
  {}

  lemma WatcherReply(s: State, e: Event)
    requires Enabled(s, e) && OfReply(e) && WatcherOk(s.ops[e.i])
    ensures e.i in Apply(s, e).ops && WatcherOk(Apply(s, e).ops[e.i])
  {}

  lemma WatcherOwn(s: State, e: Event)
    requires Enabled(s, e) && OfWatcher(e) && WatcherOk(s.ops[e.i])
    ensures e.i in Apply(s, e).ops && WatcherOk(Apply(s, e).ops[e.i])
  {}

  lemma WatcherContext(s: State, e: Event)
    requires Enabled(s, e) && OfContext(e) && WatcherOk(s.ops[e.i])
    ensures e.i in Apply(s, e).ops && WatcherOk(Apply(s, e).ops[e.i])
  {}

  lemma WatcherStep(s: State, e: Event, i: nat)
    requires Enabled(s, e) && i in s.ops && WatcherOk(s.ops[i])
    ensures i in Apply(s, e).ops && WatcherOk(Apply(s, e).ops[i])
  {
    hide Apply, Enabled, WatcherOk;
    if !OfOp(e) || e.i != i {
      OthersSame(s, e, i);
    } else if OfCaller(e) {
      WatcherCaller(s, e);
    } else if OfReply(e) {
      WatcherReply(s, e);
    } else if OfWatcher(e) {
      WatcherOwn(s, e);
    } else {
      WatcherContext(s, e);
    }
  }

  lemma DeadlineKeptCaller(s: State, e: Event)
    requires DeadlineInv(s) && Enabled(s, e) && !LateCallback(s, e) && OfCaller(e)
    ensures ClearWhenFree(Apply(s, e))
  {
    hide Owed, Expected, OwnOutcome;
  }

  lemma DeadlineKeptReply(s: State, e: Event)
    requires DeadlineInv(s) && Enabled(s, e) && !LateCallback(s, e) && OfReply(e)
    ensures ClearWhenFree(Apply(s, e))
  {
    hide Owed, Expected, OwnOutcome;
  }

  lemma DeadlineKeptWatcher(s: State, e: Event)
    requires DeadlineInv(s) && Enabled(s, e) && !LateCallback(s, e) && OfWatcher(e)
    ensures ClearWhenFree(Apply(s, e))
  {
    hide Owed, Expected, OwnOutcome;
  }

  lemma DeadlineKeptContext(s: State, e: Event)
    requires DeadlineInv(s) && Enabled(s, e) && !LateCallback(s, e) && OfContext(e)
    ensures ClearWhenFree(Apply(s, e))
  {
    hide Owed, Expected, OwnOutcome;
  }

  lemma DeadlineKeptRest(s: State, e: Event)
    requires DeadlineInv(s) && Enabled(s, e) && !LateCallback(s, e) && !OfOp(e)
    ensures ClearWhenFree(Apply(s, e))
  {
    hide Owed, Expected, OwnOutcome;
  }

  lemma DeadlineKept(s: State, e: Event)
    requires DeadlineInv(s) && Enabled(s, e) && !LateCallback(s, e)
    ensures ClearWhenFree(Apply(s, e))
  {
    hide Apply, Enabled, DeadlineInv, LateCallback, ClearWhenFree;
    if OfCaller(e) {
      DeadlineKeptCaller(s, e);
    } else if OfReply(e) {
      DeadlineKeptReply(s, e);
    } else if OfWatcher(e) {
      DeadlineKeptWatcher(s, e);
    } else if OfContext(e) {
      DeadlineKeptContext(s, e);
    } else {
      DeadlineKeptRest(s, e);
    }
  }

  lemma DeadlineStep(s: State, e: Event)
    requires DeadlineInv(s) && Enabled(s, e) && !LateCallback(s, e)
    ensures DeadlineInv(Apply(s, e))
  {
    StepInv(s, e);
    DeadlineKept(s, e);
    SameOps(s, e);
    hide Inv, Apply, WatcherOk;
    forall i | i in Apply(s, e).ops ensures WatcherOk(Apply(s, e).ops[i]) {
      WatcherStep(s, e, i);
    }
  }

  /** Late callbacks are exactly the steps that break the invariant. */
  lemma DeadlineStepIff(s: State, e: Event)
    requires DeadlineInv(s) && Enabled(s, e)
    ensures DeadlineInv(Apply(s, e)) <==> !LateCallback(s, e)
  {
    hide Apply, Inv;
    if !LateCallback(s, e) {
      DeadlineStep(s, e);
    } else {
      CallbackSetsDeadline(s, e);
    }
  }

  lemma CallbackSetsDeadline(s: State, e: Event)
    requires Enabled(s, e) && e.CallbackActs?
    ensures Apply(s, e).lock == s.lock && Apply(s, e).deadline.Past?
    ensures forall j :: j in s.ops ==> j in Apply(s, e).ops && Apply(s, e).ops[j].pc == s.ops[j].pc
  {}

  lemma SameOps(s: State, e: Event)
    requires Enabled(s, e)
    ensures Apply(s, e).ops.Keys == s.ops.Keys
  {}

  lemma {:induction false} DeadlineRun(s: State, es: seq<Event>)
    requires DeadlineInv(s) && IsRun(s, es) && NoLateCallback(s, es)
    ensures DeadlineInv(Final(s, es))
    decreases |es|
  {
    if es != [] {
      DeadlineStep(s, es[0]);
      DeadlineRun(Apply(s, es[0]), es[1..]);
    }
  }

  /** Unless a fired callback of a plain request acts late, a connection that is handed back has no deadline;
      the watcher of a statement request never leaves one. */
  lemma HandedBackWithoutDeadline(s: State, es: seq<Event>)
    requires Initial(s) && IsRun(s, es) && NoLateCallback(s, es)
    ensures Final(s, es).lock.None? ==> Final(s, es).deadline.NoDeadline?
  {
    InitialInv(s);
    DeadlineRun(s, es);
  }

  lemma FinishedStaysCaller(s: State, e: Event, i: nat)
    requires Enabled(s, e) && i in s.ops && s.ops[i].finished && s.ops[i].kind.Statement? && OfCaller(e)
    ensures i in Apply(s, e).ops && Apply(s, e).ops[i].finished && Apply(s, e).ops[i].kind.Statement?
  {}

  lemma FinishedStaysReply(s: State, e: Event, i: nat)
    requires Enabled(s, e) && i in s.ops && s.ops[i].finished && s.ops[i].kind.Statement? && OfReply(e)
    ensures i in Apply(s, e).ops && Apply(s, e).ops[i].finished && Apply(s, e).ops[i].kind.Statement?
  {}

  lemma FinishedStaysWatcher(s: State, e: Event, i: nat)
    requires Enabled(s, e) && i in s.ops && s.ops[i].finished && s.ops[i].kind.Statement? && OfWatcher(e)
    ensures i in Apply(s, e).ops && Apply(s, e).ops[i].finished && Apply(s, e).ops[i].kind.Statement?
  {}

  lemma FinishedStaysContext(s: State, e: Event, i: nat)
    requires Enabled(s, e) && i in s.ops && s.ops[i].finished && s.ops[i].kind.Statement? && OfContext(e)
    ensures i in Apply(s, e).ops && Apply(s, e).ops[i].finished && Apply(s, e).ops[i].kind.Statement?
  {}

  lemma FinishedStaysRest(s: State, e: Event, i: nat)
    requires Enabled(s, e) && i in s.ops && s.ops[i].finished && s.ops[i].kind.Statement? && !OfOp(e)
    ensures i in Apply(s, e).ops && Apply(s, e).ops[i].finished && Apply(s, e).ops[i].kind.Statement?
  {}

  lemma FinishedStays(s: State, e: Event, i: nat)
    requires Enabled(s, e) && i in s.ops && s.ops[i].finished && s.ops[i].kind.Statement?
    ensures i in Apply(s, e).ops && Apply(s, e).ops[i].finished && Apply(s, e).ops[i].kind.Statement?
  {
    hide Apply, Enabled;
    if OfCaller(e) {
      FinishedStaysCaller(s, e, i);
    } else if OfReply(e) {
      FinishedStaysReply(s, e, i);
    } else if OfWatcher(e) {
      FinishedStaysWatcher(s, e, i);
    } else if OfContext(e) {
      FinishedStaysContext(s, e, i);
    } else {
      FinishedStaysRest(s, e, i);
    }
  }

  /** After a statement request has marked itself finished, no step of its watcher changes the deadline, whatever
      happens in between. */
  lemma {:induction false} WatcherLeavesDeadline(s: State, es: seq<Event>, e: Event, i: nat)
    requires IsRun(s, es) && i in s.ops && s.ops[i].finished && s.ops[i].kind.Statement?
    requires Enabled(Final(s, es), e) && OfWatcher(e) && e.i == i
    ensures Apply(Final(s, es), e).deadline == Final(s, es).deadline
    decreases |es|
  {
    if es == [] {
      WatcherStands(s, e);
    } else {
      FinishedStays(s, es[0], i);
      hide Apply, Enabled;
      WatcherLeavesDeadline(Apply(s, es[0]), es[1..], e, i);
    }
  }

  lemma WatcherStands(s: State, e: Event)
    requires Enabled(s, e) && OfWatcher(e) && s.ops[e.i].finished
    ensures Apply(s, e).deadline == s.deadline
  {}

  // ------------------------------------------------------------------ when a deadline can be left behind

  /** The state with one operation, the lock, the deadline and the streams replaced. */
  function With(s: State, i: nat, op: Op, lock: Option<nat>, deadline: Deadline, toServer: seq<Msg>,
                fromServer: seq<nat>): State
  {
    State(s.ops[i := op], lock, s.closed, s.socketOpen, deadline, toServer, fromServer)
  }

  predicate Moves(s: State, e: Event, s': State) { Enabled(s, e) && Apply(s, e) == s' }

  lemma ThreeMoves(s: State, e1: Event, s1: State, e2: Event, s2: State, e3: Event, s3: State)
    requires Moves(s, e1, s1) && Moves(s1, e2, s2) && Moves(s2, e3, s3)
    ensures IsRun(s, [e1, e2, e3]) && Final(s, [e1, e2, e3]) == s3
  {
    hide Apply, Enabled;
    TwoMoves(s1, e2, s2, e3, s3);
    RunCons(s, [e1, e2, e3], s1);
    assert [e1, e2, e3][1..] == [e2, e3];
  }

  lemma TwoMoves(s: State, e1: Event, s1: State, e2: Event, s2: State)
    requires Moves(s, e1, s1) && Moves(s1, e2, s2)
    ensures IsRun(s, [e1, e2]) && Final(s, [e1, e2]) == s2
  {
    hide Apply, Enabled;
    assert [e2][1..] == [] && [e1, e2][1..] == [e2];
    RunCons(s1, [e2], s2);
    RunCons(s, [e1, e2], s1);
  }

  /** A plain request that can take place: its context is not finished, and so far nothing happened. */
  predicate Open(s: State, i: nat)
  {
    Initial(s) && i in s.ops && s.ops[i].kind.Plain? && !s.ops[i].done
  }

  function InCall(s: State, i: nat, pc: Pc): Op
    requires i in s.ops
  {
    s.ops[i].(pc := pc, callback := Registered)
  }

  function DeadlineSet(s: State, i: nat): Deadline
    requires i in s.ops
  {
    if s.ops[i].hasDeadline then FromContext else NoDeadline
  }

  function InCallState(s: State, i: nat, pc: Pc, toServer: seq<Msg>, fromServer: seq<nat>): State
    requires i in s.ops
  {
    With(s, i, InCall(s, i, pc), Some(i), DeadlineSet(s, i), toServer, fromServer)
  }

  lemma PlainEnters(s: State, i: nat) returns (es: seq<Event>)
    requires Open(s, i)
    ensures IsRun(s, es) && Final(s, es) == InCallState(s, i, Locked, [], [])
  {
    var s1 := With(s, i, s.ops[i].(pc := ContextChecked), None, NoDeadline, [], []);
    var s2 := With(s, i, s.ops[i].(pc := Ready), None, NoDeadline, [], []);
    assert Moves(s, CheckContext(i), s1);
    assert Moves(s1, ReadConn(i), s2);
    assert Moves(s2, Acquire(i), InCallState(s, i, Locked, [], []));
    hide Moves, With;
    es := [CheckContext(i), ReadConn(i), Acquire(i)];
    ThreeMoves(s, CheckContext(i), s1, ReadConn(i), s2, Acquire(i), InCallState(s, i, Locked, [], []));
  }

  lemma PlainPreamble(s: State, i: nat) returns (es: seq<Event>, pc: Pc)
    requires Open(s, i)
    ensures pc == (if s.ops[i].kind.preamble then PreambleSent else Locked)
    ensures IsRun(InCallState(s, i, Locked, [], []), es)
    ensures Final(InCallState(s, i, Locked, [], []), es) == InCallState(s, i, pc, [], [])
  {
    var s0 := InCallState(s, i, Locked, [], []);
    if s.ops[i].kind.preamble {
      var s1 := InCallState(s, i, PreambleSent, [Msg(i, false)], []);
      var s2 := InCallState(s, i, PreambleSent, [], []);
      assert Moves(s0, WritePreamble(i), s1);
      assert Moves(s1, ServerTakes, s2);
      hide Moves, InCallState;
      TwoMoves(s0, WritePreamble(i), s1, ServerTakes, s2);
      es, pc := [WritePreamble(i), ServerTakes], PreambleSent;
    } else {
      es, pc := [], Locked;
    }
  }

  lemma PlainAsks(s: State, i: nat, pc: Pc) returns (es: seq<Event>)
    requires Open(s, i) && pc == (if s.ops[i].kind.preamble then PreambleSent else Locked)
    ensures IsRun(InCallState(s, i, pc, [], []), es)
    ensures Final(InCallState(s, i, pc, [], []), es) == InCallState(s, i, Returning(Reply(i)), [], [])
  {
    var s0 := InCallState(s, i, pc, [], []);
    var s1 := InCallState(s, i, AwaitingReply, [Msg(i, true)], []);
    var s2 := InCallState(s, i, AwaitingReply, [], [i]);
    var s3 := InCallState(s, i, Returning(Reply(i)), [], []);
    assert Moves(s0, WriteRequest(i), s1);
    assert Moves(s1, ServerTakes, s2);
    assert Moves(s2, ReadReply(i), s3);
    hide Moves, InCallState;
    es := [WriteRequest(i), ServerTakes, ReadReply(i)];
    ThreeMoves(s0, WriteRequest(i), s1, ServerTakes, s2, ReadReply(i), s3);
  }

  function LateState(s: State, i: nat, pc: Pc, callback: Callback, lock: Option<nat>, deadline: Deadline): State
    requires i in s.ops
  {
    With(s, i, s.ops[i].(pc := pc, done := true, callback := callback), lock, deadline, [], [])
  }

  lemma PlainFires(s: State, i: nat) returns (es: seq<Event>)
    requires Open(s, i)
    ensures var s0 := InCallState(s, i, Returning(Reply(i)), [], []);
            IsRun(s0, es) && Final(s0, es) == LateState(s, i, Stopped(Reply(i)), Fired, Some(i), DeadlineSet(s, i))
  {
    var s0 := InCallState(s, i, Returning(Reply(i)), [], []);
    var s1 := LateState(s, i, Returning(Reply(i)), Registered, Some(i), DeadlineSet(s, i));
    var s2 := LateState(s, i, Returning(Reply(i)), Fired, Some(i), DeadlineSet(s, i));
    var s3 := LateState(s, i, Stopped(Reply(i)), Fired, Some(i), DeadlineSet(s, i));
    assert Moves(s0, ContextDone(i), s1);
    assert Moves(s1, CallbackFires(i), s2);
    assert Moves(s2, Stop(i), s3);
    hide Moves, InCallState, LateState;
    es := [ContextDone(i), CallbackFires(i), Stop(i)];
    ThreeMoves(s0, ContextDone(i), s1, CallbackFires(i), s2, Stop(i), s3);
  }

  lemma PlainLeaves(s: State, i: nat) returns (es: seq<Event>)
    requires Open(s, i)
    ensures var s0 := LateState(s, i, Stopped(Reply(i)), Fired, Some(i), DeadlineSet(s, i));
            IsRun(s0, es) && Final(s0, es) == LateState(s, i, Done(Reply(i)), Spent, None, Past)
  {
    var s0 := LateState(s, i, Stopped(Reply(i)), Fired, Some(i), DeadlineSet(s, i));
    var s1 := LateState(s, i, Cleared(Reply(i)), Fired, Some(i), NoDeadline);
    var s2 := LateState(s, i, Done(Reply(i)), Fired, None, NoDeadline);
    var s3 := LateState(s, i, Done(Reply(i)), Spent, None, Past);
    assert Moves(s0, ClearDeadline(i), s1);
    assert Moves(s1, Release(i), s2);
    assert Moves(s2, CallbackActs(i), s3);
    hide Moves, LateState;
    es := [ClearDeadline(i), Release(i), CallbackActs(i)];
    ThreeMoves(s0, ClearDeadline(i), s1, Release(i), s2, CallbackActs(i), s3);
  }

  /** The request runs to its end without a fault; its context finishes just before its callback is unregistered,
      and the callback, already fired, acts after the connection was handed back. */
  lemma LateCallbackRun(s: State, i: nat) returns (es: seq<Event>)
    requires Open(s, i)
    ensures IsRun(s, es) && Final(s, es).lock.None? && !Final(s, es).closed && Final(s, es).deadline.Past?
  {
    var e1 := PlainEnters(s, i);
    var e2, pc := PlainPreamble(s, i);
    var e3 := PlainAsks(s, i, pc);
    var e4 := PlainFires(s, i);
    var e5 := PlainLeaves(s, i);
    assert !LateState(s, i, Done(Reply(i)), Spent, None, Past).closed;
    hide IsRun, Final, InCallState, LateState;
    RunConcat(s, e1, e2);
    RunConcat(s, e1 + e2, e3);
    RunConcat(s, e1 + e2 + e3, e4);
    RunConcat(s, e1 + e2 + e3 + e4, e5);
    es := e1 + e2 + e3 + e4 + e5;
    LateStateIs(s, i);
  }

  lemma LateStateIs(s: State, i: nat)
    requires i in s.ops
    ensures var f := LateState(s, i, Done(Reply(i)), Spent, None, Past);
            f.lock.None? && f.closed == s.closed && f.deadline.Past?
  {}

  /** Plain requests only with contexts that were finished from the start: they end on entry. */
  predicate OnlyFinished(s: State)
  {
    forall i :: i in s.ops ==> EndsOnEntry(s.ops[i])
  }

  predicate EndsOnEntry(op: Op)
  {
    op.callback.Unregistered? && (op.kind.Plain? ==> op.done && (op.pc.Start? || op.pc.Done?))
  }

  lemma FinishedCaller(s: State, e: Event)
    requires Enabled(s, e) && OfCaller(e) && EndsOnEntry(s.ops[e.i])
    ensures e.i in Apply(s, e).ops && EndsOnEntry(Apply(s, e).ops[e.i])
  {}

  lemma FinishedReply(s: State, e: Event)
    requires Enabled(s, e) && OfReply(e) && EndsOnEntry(s.ops[e.i])
    ensures e.i in Apply(s, e).ops && EndsOnEntry(Apply(s, e).ops[e.i])
  {}

  lemma FinishedContext(s: State, e: Event)
    requires Enabled(s, e) && OfContext(e) && EndsOnEntry(s.ops[e.i])
    ensures !e.CallbackFires? && !e.CallbackActs?
    ensures e.i in Apply(s, e).ops && EndsOnEntry(Apply(s, e).ops[e.i])
  {}

  lemma FinishedWatcher(s: State, e: Event)
    requires Enabled(s, e) && OfWatcher(e) && EndsOnEntry(s.ops[e.i])
    ensures e.i in Apply(s, e).ops && EndsOnEntry(Apply(s, e).ops[e.i])
  {}

  lemma FinishedStep(s: State, e: Event)
    requires OnlyFinished(s) && Enabled(s, e)
    ensures OnlyFinished(Apply(s, e)) && !e.CallbackActs?
  {
    SameOps(s, e);
    OwnInOps(s, e);
    hide Apply, Enabled, EndsOnEntry;
    if OfContext(e) {
      FinishedContext(s, e);
    }
    forall i | i in s.ops ensures EndsOnEntry(Apply(s, e).ops[i]) {
      if !OfOp(e) || e.i != i {
        OthersSame(s, e, i);
      } else if OfCaller(e) {
        FinishedCaller(s, e);
      } else if OfReply(e) {
        FinishedReply(s, e);
      } else if OfWatcher(e) {
        FinishedWatcher(s, e);
      }
    }
  }

  lemma OwnInOps(s: State, e: Event)
    requires Enabled(s, e)
    ensures OfOp(e) ==> e.i in s.ops
  {}

  lemma {:induction false} NeverLate(s: State, es: seq<Event>)
    requires IsRun(s, es) && OnlyFinished(s)
    ensures NoLateCallback(s, es)
    decreases |es|
  {
    if es != [] {
      FinishedStep(s, es[0]);
      NeverLate(Apply(s, es[0]), es[1..]);
    }
  }

  /** A run that leaves a deadline on a valid connection that nobody holds. */
  ghost predicate LeavesDeadline(s: State, es: seq<Event>)
  {
    IsRun(s, es) && var f := Final(s, es); f.lock.None? && !f.closed && !f.deadline.NoDeadline?
  }

  /** Some interleaving leaves a deadline behind exactly when there is a plain request whose context is not already
      finished when it starts. Statement requests and requests without reply never do. */
  lemma DeadlineLeftIff(s: State)
    requires Initial(s)
    ensures (exists es :: LeavesDeadline(s, es)) <==> exists i :: i in s.ops && s.ops[i].kind.Plain? && !s.ops[i].done
  {
    hide IsRun, Final;
    if i :| i in s.ops && s.ops[i].kind.Plain? && !s.ops[i].done {
      var es := LateCallbackRun(s, i);
      assert LeavesDeadline(s, es);
    } else {
      forall es | LeavesDeadline(s, es) ensures false {
        NeverLate(s, es);
        HandedBackWithoutDeadline(s, es);
      }
    }
  }

  lemma {:induction false} RunConcat(s: State, es1: seq<Event>, es2: seq<Event>)
    requires IsRun(s, es1) && IsRun(Final(s, es1), es2)
    ensures IsRun(s, es1 + es2) && Final(s, es1 + es2) == Final(Final(s, es1), es2)
    decreases |es1|
  {
    if es1 == [] {
      assert es1 + es2 == es2;
    } else {
      RunConcat(Apply(s, es1[0]), es1[1..], es2);
      assert (es1 + es2)[1..] == es1[1..] + es2;
    }
  }

  lemma RunCons(s: State, es: seq<Event>, s': State)
    requires |es| > 0 && Enabled(s, es[0]) && Apply(s, es[0]) == s' && IsRun(s', es[1..])
    ensures IsRun(s, es) && Final(s, es) == Final(s', es[1..])
  {}

  // ------------------------------------------------------------------ the error reported

  predicate Decides(e: Event, i: nat)
  {
    (e.WriteFails? || e.ReadFails? || e.ReadBadReply?) && e.i == i
  }

  function OutcomeOf(pc: Pc): Option<Outcome>
  {
    if pc.Returning? || pc.Stopped? || pc.Cleared? || pc.Done? then Some(pc.o) else None
  }

  lemma OutcomeStepCaller(s: State, e: Event, i: nat, o: Outcome)
    requires Enabled(s, e) && i in s.ops && OutcomeOf(s.ops[i].pc) == Some(o) && OfCaller(e)
    ensures i in Apply(s, e).ops && OutcomeOf(Apply(s, e).ops[i].pc) == Some(o)
  {}

  lemma OutcomeStepReply(s: State, e: Event, i: nat, o: Outcome)
    requires Enabled(s, e) && i in s.ops && OutcomeOf(s.ops[i].pc) == Some(o) && OfReply(e)
    ensures i in Apply(s, e).ops && OutcomeOf(Apply(s, e).ops[i].pc) == Some(o)
  {}

  lemma OutcomeStepWatcher(s: State, e: Event, i: nat, o: Outcome)
    requires Enabled(s, e) && i in s.ops && OutcomeOf(s.ops[i].pc) == Some(o) && OfWatcher(e)
    ensures i in Apply(s, e).ops && OutcomeOf(Apply(s, e).ops[i].pc) == Some(o)
  {}

  lemma OutcomeStepContext(s: State, e: Event, i: nat, o: Outcome)
    requires Enabled(s, e) && i in s.ops && OutcomeOf(s.ops[i].pc) == Some(o) && OfContext(e)
    ensures i in Apply(s, e).ops && OutcomeOf(Apply(s, e).ops[i].pc) == Some(o)
  {}

  lemma OutcomeStepRest(s: State, e: Event, i: nat, o: Outcome)
    requires Enabled(s, e) && i in s.ops && OutcomeOf(s.ops[i].pc) == Some(o) && !OfOp(e)
    ensures i in Apply(s, e).ops && OutcomeOf(Apply(s, e).ops[i].pc) == Some(o)
  {}

  lemma OutcomeStep(s: State, e: Event, i: nat, o: Outcome)
    requires Enabled(s, e) && i in s.ops && OutcomeOf(s.ops[i].pc) == Some(o)
    ensures i in Apply(s, e).ops && OutcomeOf(Apply(s, e).ops[i].pc) == Some(o)
  {
    hide Apply, Enabled, OutcomeOf;
    if OfCaller(e) {
      OutcomeStepCaller(s, e, i, o);
    } else if OfReply(e) {
      OutcomeStepReply(s, e, i, o);
    } else if OfWatcher(e) {
      OutcomeStepWatcher(s, e, i, o);
    } else if OfContext(e) {
      OutcomeStepContext(s, e, i, o);
    } else {
      OutcomeStepRest(s, e, i, o);
    }
  }

  lemma {:induction false} OutcomeStays(s: State, es: seq<Event>, i: nat, o: Outcome)
    requires IsRun(s, es) && i in s.ops && OutcomeOf(s.ops[i].pc) == Some(o)
    ensures i in Final(s, es).ops && OutcomeOf(Final(s, es).ops[i].pc) == Some(o)
    decreases |es|
  {
    if es != [] {
      hide Apply, Enabled, OutcomeOf;
      OutcomeStep(s, es[0], i, o);
      OutcomeStays(Apply(s, es[0]), es[1..], i, o);
    }
  }

  /** A statement request that fails on the wire drops the connection, and in the end reports the context error
      exactly when its context was finished, or its deadline had passed, when it failed; otherwise BadConn. */
  lemma FailureReportsContext(s: State, e: Event, es: seq<Event>, i: nat)
    requires Enabled(s, e) && Decides(e, i) && IsRun(Apply(s, e), es) && s.ops[i].kind.Statement?
    ensures Apply(s, e).closed
    ensures i in Final(Apply(s, e), es).ops
    ensures OutcomeOf(Final(Apply(s, e), es).ops[i].pc) ==
            Some(if s.ops[i].done || s.ops[i].expired then ContextError else BadConn)
  {
    OutcomeStays(Apply(s, e), es, i, if s.ops[i].done || s.ops[i].expired then ContextError else BadConn);
  }

  /** And a reply that arrives after the context is finished is consumed: the connection stays valid, and the
      caller gets the context error. */
  lemma LateReplyIsConsumed(s: State, es: seq<Event>, i: nat)
    requires Inv(s) && Enabled(s, ReadReply(i)) && IsRun(Apply(s, ReadReply(i)), es)
    requires s.ops[i].kind.Statement? && s.ops[i].done
    ensures var s' := Apply(s, ReadReply(i));
            s'.closed == s.closed && s'.fromServer == [] && Asked(s'.toServer) == []
    ensures i in Final(Apply(s, ReadReply(i)), es).ops
    ensures OutcomeOf(Final(Apply(s, ReadReply(i)), es).ops[i].pc) == Some(ContextError)
  {
    FirstReply(s, i);
    OutcomeStays(Apply(s, ReadReply(i)), es, i, ContextError);
  }
}
