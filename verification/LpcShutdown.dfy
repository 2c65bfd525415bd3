/** LpcServLib.cpp: Start and Stop beside the server loop thread, one access at a time.

  The caller of Start and Stop is one thread, the message loop is another; their steps interleave
  freely. Closing a handle that is not open, or deleting a context that is not allocated, is a
  fault. */
module LpcShutdown {
  import opened Wrappers
  import opened LpcProtocol

  /** Where the caller stands in Start or Stop. */
  datatype Caller =
    | Idle
    | InitPort | ClearExit | BeginThread | StoreThread(h: Handle)
    | SetExit
    | TestThread | WaitThread | CloseThread | NullThread
    | TestPort | ClosePort | NullPort
    | TestSlot(i: nat) | CloseSlot(i: nat) | DeleteSlot(i: nat) | NullSlot(i: nat)

  /** Where the loop thread stands. */
  datatype Loop =
    | NoThread
    | Head | Receive | Handle(m: Message<nat>)
    | TestConnection | CloseConnection | NullConnection
    | Ended

  datatype State = State(
    caller: Caller, loop: Loop,
    exitFlag: bool, hPortLoop: Option<Handle>, connection: Option<Handle>,
    server: Server<nat>,
    objects: set<Handle>,        // the open handles of the connection port and of the thread
    fault: bool)

  datatype Outcome = Failed | NameExists(h: Handle) | Created(h: Handle)

  datatype Action =
    | CallStart
    | CallStop
    | PortResult(o: Outcome)               // ZwCreateWaitablePort
    | ThreadResult(thread: Option<Handle>) // _beginthreadex
    | CallerStep                           // any other step of Start or Stop
    | LoopStep
    | GotMessage(m: Message<nat>)

  predicate Fresh(s: State, h: Handle) {
    h !in s.objects && h !in s.server.open
  }

  /** What is assumed of a message: see LpcProtocol.KernelOk; a new port is no other open handle. */
  ghost predicate MessageOk(s: State, m: Message<nat>) {
    KernelOk(s.server, m) && (m.ConnectionRequest? && m.reply.port.Some? ==> m.reply.port.value !in s.objects)
  }

  ghost predicate Enabled(s: State, callback: Callback, a: Action) {
    && !s.fault
    && match a
       case CallStart => s.caller.Idle? && s.hPortLoop.None? && s.connection.None?
       case CallStop => s.caller.Idle?
       case PortResult(o) => s.caller.InitPort? && (!o.Failed? ==> Fresh(s, o.h))
       case ThreadResult(th) => s.caller.BeginThread? && (th.Some? ==> Fresh(s, th.value))
       case CallerStep =>
         && !s.caller.Idle? && !s.caller.InitPort? && !s.caller.BeginThread?
         && (s.caller.WaitThread? ==> s.loop.Ended?)
       case LoopStep => !s.loop.NoThread? && !s.loop.Ended?
       case GotMessage(m) => s.loop.Receive? && MessageOk(s, m)
  }

  /** ZwClose */
  function Close(s: State, h: Option<Handle>): State {
    if h.Some? && h.value in s.objects then s.(objects := s.objects - {h.value}) else s.(fault := true)
  }

  ghost function CallerNext(s: State): State {
    var table := s.server.table;
    match s.caller
    case ClearExit => s.(caller := BeginThread, exitFlag := false)
    case StoreThread(h) => s.(caller := Idle, hPortLoop := Some(h))
    case SetExit => s.(caller := TestThread, exitFlag := true)
    case TestThread => s.(caller := if s.hPortLoop.Some? then WaitThread else TestPort)
    case WaitThread => s.(caller := CloseThread)
    case CloseThread => Close(s, s.hPortLoop).(caller := NullThread)
    case NullThread => s.(caller := TestPort, hPortLoop := None, loop := NoThread)
    case TestPort => s.(caller := if s.connection.Some? then ClosePort else TestSlot(0))
    case ClosePort => Close(s, s.connection).(caller := NullPort)
    case NullPort => s.(caller := TestSlot(0), connection := None)
    case TestSlot(i) =>
      if i >= |table| then s.(caller := Idle)
      else s.(caller := if table[i].Some? then CloseSlot(i) else TestSlot(i + 1))
    case CloseSlot(i) =>
      if i < |table| && table[i].Some? && table[i].value.port in s.server.open
      then s.(caller := DeleteSlot(i), server := s.server.(open := s.server.open - {table[i].value.port},
                                                           connected := s.server.connected - {table[i].value.context}))
      else s.(fault := true)
    case DeleteSlot(i) =>
      if i < |table| && table[i].Some? && table[i].value.context in s.server.live
      then s.(caller := NullSlot(i), server := s.server.(live := s.server.live - {table[i].value.context}))
      else s.(fault := true)
    case NullSlot(i) =>
      if i < |table| then s.(caller := TestSlot(i + 1), server := s.server.(table := table[i := None]))
      else s.(fault := true)
    case _ => s
  }

  ghost function LoopNext(s: State, callback: Callback): State {
    match s.loop
    case Head => s.(loop := if s.exitFlag then TestConnection else Receive)
    case Receive => s.(loop := Head)
    case Handle(m) => s.(loop := Head, server := Step(s.server, callback, m))
    case TestConnection => s.(loop := if s.connection.Some? then CloseConnection else Ended)
    case CloseConnection => Close(s, s.connection).(loop := NullConnection)
    case NullConnection => s.(loop := Ended, connection := None)
    case _ => s
  }

  ghost function Next(s: State, callback: Callback, a: Action): State
    requires Enabled(s, callback, a)
  {
    match a
    case CallStart => s.(caller := InitPort)
    case CallStop => s.(caller := SetExit)
    case PortResult(o) =>
      (match o
       case Failed => s.(caller := SetExit)
       case NameExists(h) => s.(caller := SetExit, connection := Some(h), objects := s.objects + {h})
       case Created(h) => s.(caller := ClearExit, connection := Some(h), objects := s.objects + {h}))
    case ThreadResult(th) =>
      if th.None? then s.(caller := SetExit)
      else s.(caller := StoreThread(th.value), loop := Head, objects := s.objects + {th.value})
    case CallerStep => CallerNext(s)
    case LoopStep => LoopNext(s, callback)
    case GotMessage(m) => s.(loop := Handle(m))
  }

  // ---- invariant ----

  predicate Serving(l: Loop) {
    l.Head? || l.Receive? || l.Handle?
  }

  ghost predicate NoClients(s: Server<nat>) {
    Inv(s) && (forall i | 0 <= i < SLOTS :: s.table[i].None?)
  }

  /** No thread, no client, and perhaps a connection port. */
  ghost predicate Quiet(s: State) {
    s.loop.NoThread? && s.hPortLoop.None? && NoClients(s.server)
  }

  ghost predicate Stopped(s: State) {
    Quiet(s) && s.connection.None?
  }

  /** The thread has the port until it has closed it. */
  ghost predicate ThreadRuns(s: State) {
    && Inv(s.server)
    && (if Serving(s.loop) || s.loop.TestConnection? || s.loop.CloseConnection? || s.loop.NullConnection?
        then s.connection.Some? else s.loop.Ended? && s.connection.None?)
    && (!Serving(s.loop) ==> s.exitFlag)
    && (s.loop.Handle? ==> MessageOk(s, s.loop.m))
  }

  /** The tear-down of slot `i`: what is closed and deleted so far. */
  ghost predicate TearingDown(s: Server<nat>, i: nat, closed: bool, deleted: bool) {
    && i < SLOTS && |s.table| == SLOTS && s.table[i].Some?
    && (forall j | 0 <= j < i :: s.table[j].None?)
    && var c := s.table[i].value;
       && (closed ==> c.port !in s.open && c.context !in s.connected)
       && (deleted ==> c.context !in s.live)
       && Inv(Server(s.table,
                     if deleted then s.live + {c.context} else s.live,
                     if closed then s.open + {c.port} else s.open,
                     if closed then s.connected + {c.context} else s.connected))
  }

  ghost predicate CallerOk(s: State) {
    match s.caller
    case Idle => Stopped(s) || (ThreadRuns(s) && s.hPortLoop.Some? && Serving(s.loop) && !s.exitFlag)
    case InitPort => Stopped(s)
    case ClearExit => Quiet(s) && s.connection.Some?
    case BeginThread => Quiet(s) && s.connection.Some? && !s.exitFlag
    case StoreThread(h) => ThreadRuns(s) && s.hPortLoop.None? && Serving(s.loop) && !s.exitFlag
    case SetExit => Quiet(s) || (ThreadRuns(s) && s.hPortLoop.Some?)
    case TestThread => s.exitFlag && (Quiet(s) || (ThreadRuns(s) && s.hPortLoop.Some?))
    case WaitThread => s.exitFlag && ThreadRuns(s) && s.hPortLoop.Some?
    case CloseThread => s.exitFlag && ThreadRuns(s) && s.hPortLoop.Some? && s.loop.Ended?
    case NullThread => s.exitFlag && ThreadRuns(s) && s.hPortLoop.Some? && s.loop.Ended?
    case TestPort => s.exitFlag && s.loop.NoThread? && s.hPortLoop.None? && Inv(s.server)
    case ClosePort => s.exitFlag && s.loop.NoThread? && s.hPortLoop.None? && Inv(s.server) && s.connection.Some?
    case NullPort => s.exitFlag && s.loop.NoThread? && s.hPortLoop.None? && Inv(s.server) && s.connection.Some?
    case TestSlot(i) =>
      && s.exitFlag && s.loop.NoThread? && s.hPortLoop.None? && s.connection.None?
      && i <= SLOTS && Inv(s.server) && (forall j | 0 <= j < i :: s.server.table[j].None?)
    case CloseSlot(i) =>
      s.exitFlag && s.loop.NoThread? && s.hPortLoop.None? && s.connection.None? && TearingDown(s.server, i, false, false)
    case DeleteSlot(i) =>
      s.exitFlag && s.loop.NoThread? && s.hPortLoop.None? && s.connection.None? && TearingDown(s.server, i, true, false)
    case NullSlot(i) =>
      s.exitFlag && s.loop.NoThread? && s.hPortLoop.None? && s.connection.None? && TearingDown(s.server, i, true, true)
  }

  ghost function PortObject(s: State): set<Handle> {
    if s.connection.None? || s.loop.NullConnection? || s.caller.NullPort? then {} else {s.connection.value}
  }

  ghost function ThreadObject(s: State): set<Handle> {
    if s.caller.StoreThread? then {s.caller.h}
    else if s.hPortLoop.None? || s.caller.NullThread? then {} else {s.hPortLoop.value}
  }

  /** The open handles are exactly those the fields still stand for. */
  ghost predicate SysInv(s: State) {
    && !s.fault && CallerOk(s)
    && s.objects == PortObject(s) + ThreadObject(s)
    && PortObject(s) !! ThreadObject(s) && s.objects !! s.server.open
  }

  predicate InSlot(c: Caller) {
    c.TestSlot? || c.CloseSlot? || c.DeleteSlot? || c.NullSlot?
  }

  /** One step of the tear-down of a slot: closed once, deleted once, then forgotten. */
  lemma SlotKeeps(s: State)
    requires CallerOk(s) && !s.fault && InSlot(s.caller)
    ensures var s' := CallerNext(s); CallerOk(s') && !s'.fault && s'.server.open <= s.server.open
  {
    var v, i := s.server, s.caller.i;
    match s.caller {
      case TestSlot(_) =>
        assert Server(v.table, v.live, v.open, v.connected) == v;
      case CloseSlot(_) =>
        assert Server(v.table, v.live, v.open, v.connected) == v;
        UniqueSlot(v, i);
        var c := v.table[i].value;
        assert v.open - {c.port} + {c.port} == v.open && v.connected - {c.context} + {c.context} == v.connected;
      case DeleteSlot(_) =>
        var c := v.table[i].value;
        UniqueSlot(Server(v.table, v.live, v.open + {c.port}, v.connected + {c.context}), i);
        assert v.live - {c.context} + {c.context} == v.live;
      case NullSlot(_) =>
        var c := v.table[i].value;
        var v' := Server(v.table, v.live + {c.context}, v.open + {c.port}, v.connected + {c.context});
        LeaveSeparate(v'.table, v'.live, v'.open, i);
        LeaveNoLost(v'.table, v'.live, v'.open, i);
        assert v'.live - {c.context} == v.live && v'.open - {c.port} == v.open;
        assert v.connected == v.live;
    }
  }

  /** The steps of Stop before the slots, and the steps of Start, do not touch the table. */
  lemma HandleKeeps(s: State)
    requires SysInv(s) && !InSlot(s.caller)
    requires !s.caller.Idle? && !s.caller.InitPort? && !s.caller.BeginThread?
    requires s.caller.WaitThread? ==> s.loop.Ended?
    ensures SysInv(CallerNext(s))
  {
  }

  lemma CallerKeeps(s: State)
    requires SysInv(s)
    requires !s.caller.Idle? && !s.caller.InitPort? && !s.caller.BeginThread?
    requires s.caller.WaitThread? ==> s.loop.Ended?
    ensures SysInv(CallerNext(s))
  {
    if InSlot(s.caller) {
      SlotKeeps(s);
    } else {
      HandleKeeps(s);
    }
  }

  lemma LoopKeeps(s: State, callback: Callback)
    requires SysInv(s) && Enabled(s, callback, LoopStep)
    ensures SysInv(LoopNext(s, callback))
  {
    if s.loop.Handle? {
      assert ThreadRuns(s);
      StepKeeps(s.server, callback, s.loop.m);
      StepPorts(s.server, callback, s.loop.m);
    }
  }

  lemma StepPorts(v: Server<nat>, callback: Callback, m: Message<nat>)
    ensures forall h | h in Step(v, callback, m).open ::
              h in v.open || (m.ConnectionRequest? && m.reply.port == Some(h))
  {
  }

  lemma Keeps(s: State, callback: Callback, a: Action)
    requires SysInv(s) && Enabled(s, callback, a)
    ensures SysInv(Next(s, callback, a))
  {
    if a.CallerStep? {
      CallerKeeps(s);
    } else if a.LoopStep? {
      LoopKeeps(s, callback);
    }
  }

  // ---- all runs ----

  ghost predicate Run(s: State, callback: Callback, as_: seq<Action>, s': State)
    decreases |as_|
  {
    if as_ == [] then s == s'
    else Enabled(s, callback, as_[0]) && Run(Next(s, callback, as_[0]), callback, as_[1..], s')
  }

  /** CLpcServLibU::CLpcServLibU */
  function Initial(): State {
    State(Idle, NoThread, false, None, None, Empty(), {}, false)
  }

  lemma {:induction false} RunKeeps(s: State, callback: Callback, as_: seq<Action>, s': State)
    requires SysInv(s) && Run(s, callback, as_, s')
    ensures SysInv(s')
    decreases |as_|
  {
    if as_ != [] {
      Keeps(s, callback, as_[0]);
      RunKeeps(Next(s, callback, as_[0]), callback, as_[1..], s');
    }
  }

  /** Over any number of starts and stops, failed or not, with the loop thread running beside them:
      nothing is closed or deleted twice; clients are torn down only when there is no thread; and
      whenever the caller rests without a thread, everything that was opened or allocated has been
      closed or deleted, and Start can be called again. */
  lemma ReleasedExactlyOnce(callback: Callback, as_: seq<Action>, s: State)
    requires Run(Initial(), callback, as_, s)
    ensures !s.fault
    ensures InSlot(s.caller) ==> s.loop.NoThread?
    ensures s.caller.Idle? && s.hPortLoop.None? ==>
              && s.objects == {} && s.server.open == {} && s.server.live == {} && s.connection.None?
              && s.server.table == Empty<nat>().table
              && Enabled(s, callback, CallStart)
    ensures s.caller.Idle? && s.hPortLoop.Some? ==> Serving(s.loop) && s.connection.Some?
  {
    RunKeeps(Initial(), callback, as_, s);
    if s.caller.Idle? && s.hPortLoop.None? {
      NothingLeft(s.server);
    }
  }

  lemma NothingLeft(v: Server<nat>)
    requires NoClients(v)
    ensures v.open == {} && v.live == {} && v.table == Empty<nat>().table
  {
    assert forall i, h :: !HasPort(v.table, i, h);
    assert forall i, c :: !HasContext(v.table, i, c);
  }

  // ---- Stop returns ----

  function CallerRank(c: Caller): int {
    match c
    case Idle => 0
    case TestSlot(i) => 4 * (SLOTS - i) + 1
    case CloseSlot(i) => 4 * (SLOTS - i)
    case DeleteSlot(i) => 4 * (SLOTS - i) - 1
    case NullSlot(i) => 4 * (SLOTS - i) - 2
    case NullPort => 42
    case ClosePort => 43
    case TestPort => 44
    case NullThread => 45
    case CloseThread => 46
    case WaitThread => 47
    case TestThread => 48
    case SetExit => 49
    case StoreThread(_) => 50
    case BeginThread => 51
    case ClearExit => 52
    case InitPort => 53
  }

  function LoopRank(l: Loop): nat {
    match l
    case NoThread => 0
    case Ended => 0
    case NullConnection => 1
    case CloseConnection => 2
    case TestConnection => 3
    case Head => 4
    case Handle(_) => 5
    case Receive => 6
  }

  ghost predicate Less(s': State, s: State) {
    || 0 <= CallerRank(s'.caller) < CallerRank(s.caller)
    || (s'.caller == s.caller && LoopRank(s'.loop) < LoopRank(s.loop))
  }

  /** What the steps of Start and Stop look at. */
  ghost predicate ControlOk(s: State) {
    && !s.fault && |s.server.table| == SLOTS
    && (s.caller.WaitThread? ==> !s.loop.NoThread?)
    && (s.caller.InitPort? || s.caller.BeginThread? ==> s.loop.NoThread?)
    && (InSlot(s.caller) ==> s.loop.NoThread? && s.caller.i <= SLOTS)
    && (s.caller.CloseSlot? || s.caller.DeleteSlot? || s.caller.NullSlot? ==>
          s.caller.i < SLOTS && s.server.table[s.caller.i].Some?)
    && (s.caller.CloseSlot? ==> s.server.table[s.caller.i].value.port in s.server.open)
    && (s.caller.DeleteSlot? ==> s.server.table[s.caller.i].value.context in s.server.live)
    && (s.caller.WaitThread? ==> s.exitFlag)
  }

  lemma SysInvControl(s: State)
    requires SysInv(s)
    ensures ControlOk(s)
  {
    if s.caller.CloseSlot? {
      var v := s.server;
      assert Server(v.table, v.live, v.open, v.connected) == v;
      UniqueSlot(v, s.caller.i);
    } else if s.caller.DeleteSlot? {
      var v := s.server;
      var c := v.table[s.caller.i].value;
      UniqueSlot(Server(v.table, v.live, v.open + {c.port}, v.connected + {c.context}), s.caller.i);
    }
  }

  lemma StepCounts(s: State, callback: Callback, a: Action)
    requires ControlOk(s) && Enabled(s, callback, a) && !s.caller.Idle? && s.exitFlag
    ensures Less(Next(s, callback, a), s)
  {
  }

  /** Once the exit flag is set, every step of either thread brings the return of Stop nearer: at
      most one message more is handled. */
  lemma EveryStepCounts(s: State, callback: Callback, a: Action)
    requires SysInv(s) && Enabled(s, callback, a) && !s.caller.Idle? && s.exitFlag
    ensures Less(Next(s, callback, a), s)
  {
    SysInvControl(s);
    StepCounts(s, callback, a);
  }

  lemma CallerCounts(s: State, callback: Callback)
    requires ControlOk(s) && Enabled(s, callback, CallerStep)
    ensures 0 <= CallerRank(Next(s, callback, CallerStep).caller) < CallerRank(s.caller)
  {
  }

  lemma LoopCounts(s: State, callback: Callback)
    requires s.exitFlag && Enabled(s, callback, LoopStep)
    ensures LoopRank(Next(s, callback, LoopStep).loop) < LoopRank(s.loop)
    ensures Next(s, callback, LoopStep).caller == s.caller
  {
  }

  /** While Start or Stop is under way, some step can be taken. */
  lemma CanGoOn(s: State, callback: Callback) returns (a: Action)
    requires ControlOk(s) && !s.caller.Idle?
    ensures Enabled(s, callback, a) && !a.CallStart? && !a.CallStop? && Less(Next(s, callback, a), s)
  {
    if s.caller.InitPort? {
      a := PortResult(Failed);
    } else if s.caller.BeginThread? {
      a := ThreadResult(None);
    } else if s.caller.WaitThread? && !s.loop.Ended? {
      a := LoopStep;
      LoopCounts(s, callback);
    } else {
      a := CallerStep;
      CallerCounts(s, callback);
    }
  }

  lemma {:induction false} Returns(s: State, callback: Callback) returns (as_: seq<Action>, s': State)
    requires SysInv(s)
    ensures Run(s, callback, as_, s') && s'.caller.Idle?
    decreases if CallerRank(s.caller) < 0 then 0 else CallerRank(s.caller), LoopRank(s.loop)
  {
    if s.caller.Idle? {
      return [], s;
    }
    SysInvControl(s);
    var a := CanGoOn(s, callback);
    Keeps(s, callback, a);
    var rest;
    rest, s' := Returns(Next(s, callback, a), callback);
    as_ := [a] + rest;
  }

  // ---- what Start returns ----

  lemma RunStep(s: State, callback: Callback, a: Action, as_: seq<Action>, s': State)
    requires Enabled(s, callback, a) && Run(Next(s, callback, a), callback, as_, s')
    ensures Run(s, callback, [a] + as_, s')
  {
    assert ([a] + as_)[1..] == as_;
  }

  /** When no call fails, Start ends with the loop thread serving the new port. */
  lemma StartSucceeds(s: State, callback: Callback, h: Handle, th: Handle) returns (s': State)
    requires SysInv(s) && Enabled(s, callback, CallStart) && Fresh(s, h) && Fresh(s, th) && h != th
    ensures Run(s, callback, [CallStart, PortResult(Created(h)), CallerStep, ThreadResult(Some(th)), CallerStep], s')
    ensures s'.caller.Idle? && s'.loop.Head? && !s'.exitFlag && !s'.fault
    ensures s'.hPortLoop == Some(th) && s'.connection == Some(h) && s'.server == s.server
  {
    var s1 := Next(s, callback, CallStart);
    var s2 := Next(s1, callback, PortResult(Created(h)));
    var s3 := Next(s2, callback, CallerStep);
    var s4 := Next(s3, callback, ThreadResult(Some(th)));
    s' := Next(s4, callback, CallerStep);
    RunStep(s4, callback, CallerStep, [], s');
    RunStep(s3, callback, ThreadResult(Some(th)), [CallerStep], s');
    RunStep(s2, callback, CallerStep, [ThreadResult(Some(th)), CallerStep], s');
    RunStep(s1, callback, PortResult(Created(h)), [CallerStep, ThreadResult(Some(th)), CallerStep], s');
    RunStep(s, callback, CallStart, [PortResult(Created(h)), CallerStep, ThreadResult(Some(th)), CallerStep], s');
  }

  predicate Calls(a: Action) {
    a.CallStart? || a.CallStop?
  }

  /** A call of the operating system that makes Start fail. */
  predicate Fails(a: Action) {
    (a.PortResult? && !a.o.Created?) || (a.ThreadResult? && a.thread.None?)
  }

  predicate NoneFails(as_: seq<Action>) {
    forall i | 0 <= i < |as_| :: !Fails(as_[i])
  }

  /** Whether the caller will rest beside a thread when no call of `rest` fails. */
  ghost predicate Serves(s: State, rest: seq<Action>) {
    match s.caller
    case Idle => s.hPortLoop.Some?
    case InitPort => NoneFails(rest)
    case ClearExit => NoneFails(rest)
    case BeginThread => NoneFails(rest)
    case StoreThread(_) => true
    case _ => false
  }

  lemma ServesStep(s: State, callback: Callback, a: Action, rest: seq<Action>)
    requires SysInv(s) && Enabled(s, callback, a) && !Calls(a)
    requires Next(s, callback, a).caller.StoreThread? ==> NoneFails(rest)
    ensures Serves(s, [a] + rest) <==> Serves(Next(s, callback, a), rest)
  {
    assert NoneFails([a] + rest) <==> !Fails(a) && NoneFails(rest) by {
      if NoneFails([a] + rest) {
        assert ([a] + rest)[0] == a;
        assert forall i | 0 <= i < |rest| :: rest[i] == ([a] + rest)[i + 1];
      }
    }
    var next := Next(s, callback, a);
    match s.caller {
      case InitPort => assert a.PortResult?;
      case ClearExit => assert a.CallerStep?;
      case BeginThread => assert a.ThreadResult?;
      case StoreThread(_) => assert next.caller == s.caller || (next.caller.Idle? && next.hPortLoop.Some?);
      case Idle => assert next.caller.Idle? && next.hPortLoop == s.hPortLoop;
      case TestSlot(_) => assert next.caller.Idle? ==> next.hPortLoop.None?;
      case _ => assert !next.caller.Idle?;
    }
  }

  /** Once the thread has begun, no call of Start is left that could fail. */
  lemma {:induction false} NothingFails(s: State, callback: Callback, as_: seq<Action>, s': State)
    requires (s.caller.StoreThread? || s.caller.Idle?) && Run(s, callback, as_, s')
    requires forall i | 0 <= i < |as_| :: !Calls(as_[i])
    ensures NoneFails(as_)
    decreases |as_|
  {
    if as_ != [] {
      var rest := as_[1..];
      assert forall i | 1 <= i < |as_| :: as_[i] == rest[i - 1];
      NothingFails(Next(s, callback, as_[0]), callback, rest, s');
    }
  }

  lemma {:induction false} ServesRun(s: State, callback: Callback, as_: seq<Action>, s': State)
    requires SysInv(s) && Run(s, callback, as_, s') && forall i | 0 <= i < |as_| :: !Calls(as_[i])
    ensures SysInv(s') && (Serves(s, as_) <==> Serves(s', []))
    decreases |as_|
  {
    if as_ != [] {
      var next, rest := Next(s, callback, as_[0]), as_[1..];
      assert as_ == [as_[0]] + rest;
      Keeps(s, callback, as_[0]);
      if next.caller.StoreThread? {
        NothingFails(next, callback, rest, s');
      }
      ServesStep(s, callback, as_[0], rest);
      ServesRun(next, callback, rest, s');
    }
  }

  /** In every interleaving with the loop, Start returns beside a running thread exactly when the port
      was created and the thread began, and otherwise with everything released. */
  lemma StartExactly(s: State, callback: Callback, as_: seq<Action>, s': State)
    requires SysInv(s) && Enabled(s, callback, CallStart) && Run(Next(s, callback, CallStart), callback, as_, s')
    requires (forall i | 0 <= i < |as_| :: !Calls(as_[i])) && s'.caller.Idle?
    ensures s'.hPortLoop.Some? <==> NoneFails(as_)
    ensures if NoneFails(as_) then Serving(s'.loop) && s'.connection.Some? && !s'.exitFlag
            else s'.loop.NoThread? && s'.connection.None? && s'.objects == {}
  {
    Keeps(s, callback, CallStart);
    ServesRun(Next(s, callback, CallStart), callback, as_, s');
  }

  /** Stop always ends with everything released, whatever was going on. */
  lemma StopReleases(s: State, callback: Callback, as_: seq<Action>, s': State)
    requires SysInv(s) && Enabled(s, callback, CallStop) && Run(Next(s, callback, CallStop), callback, as_, s')
    requires (forall i | 0 <= i < |as_| :: !Calls(as_[i])) && s'.caller.Idle?
    ensures s'.loop.NoThread? && s'.hPortLoop.None? && s'.connection.None? && s'.objects == {}
    ensures s'.server.open == {} && s'.server.live == {} && s'.server.table == Empty<nat>().table
  {
    Keeps(s, callback, CallStop);
    ServesRun(Next(s, callback, CallStop), callback, as_, s');
    NothingLeft(s'.server);
  }

  // ---- the loop serves ----

  /** Between Start and Stop the loop thread can take any messages, and the table is then what the
      protocol makes of them. */
  lemma {:induction false} ServesMessages(s: State, callback: Callback, ms: seq<Message<nat>>)
    returns (as_: seq<Action>, s': State)
    requires SysInv(s) && s.caller.Idle? && s.loop.Head? && RunOk(s.server, callback, ms)
    requires forall i | 0 <= i < |ms| && ms[i].ConnectionRequest? && ms[i].reply.port.Some? ::
               ms[i].reply.port.value !in s.objects
    ensures Run(s, callback, as_, s') && s'.server == LpcProtocol.Run(s.server, callback, ms)
    ensures s'.caller.Idle? && s'.loop.Head? && SysInv(s')
    decreases |ms|
  {
    if ms == [] {
      return [], s;
    }
    var s1 := Next(s, callback, LoopStep);
    assert s1.loop.Receive?;
    assert ms[0] == ms[0];
    assert MessageOk(s1, ms[0]);
    var s2 := Next(s1, callback, GotMessage(ms[0]));
    var s3 := Next(s2, callback, LoopStep);
    Keeps(s, callback, LoopStep);
    Keeps(s1, callback, GotMessage(ms[0]));
    Keeps(s2, callback, LoopStep);
    assert forall i | 0 <= i < |ms[1..]| :: ms[1..][i] == ms[i + 1];
    var rest;
    rest, s' := ServesMessages(s3, callback, ms[1..]);
    RunStep(s2, callback, LoopStep, rest, s');
    RunStep(s1, callback, GotMessage(ms[0]), [LoopStep] + rest, s');
    RunStep(s, callback, LoopStep, [GotMessage(ms[0])] + ([LoopStep] + rest), s');
    as_ := [LoopStep] + ([GotMessage(ms[0])] + ([LoopStep] + rest));
  }
}
