/** All runs of the shared list: every call has the effect and the result of one atomic operation. */
module SharedListRuns {
  import opened Wrappers
  import opened ListMemory
  import opened SharedList
  import L = CriticalSection

  /** What a thread is doing. `m0` is the memory it found when it entered the body. */
  datatype Call =
    | Idle
    | Waiting(op: Op)
    | Running(op: Op, m0: Mem, r: Regs)
    | Returning(op: Op, result: Option<Addr>)

  datatype Event = Event(thread: nat, op: Op, result: Option<Addr>)

  /** `list` and `log` are for the proof: the abstract list, and the calls in the order in which
      they took effect. */
  datatype System = System(lock: L.State, calls: seq<Call>, head: Addr, mem: Mem,
                           list: seq<Addr>, log: seq<Event>)

  datatype Action =
    | Begin(op: Op)              // a list method is called: the constructor starts
    | Lock(a: L.Action)          // a later call of the constructor or the destructor
    | Statement                  // a statement of the routine
    | Return

  /** An element belongs to the caller until the push that passes it in has taken effect. */
  ghost predicate Passes(c: Call, e: Addr) {
    (c.Waiting? || c.Running?) && (c.op.PushHead? || c.op.PushTail?) && c.op.e == e
  }

  ghost predicate Enabled(s: System, t: nat, a: Action) {
    && t < |s.calls| && |s.calls| == |s.lock.threads|
    && match a
       case Begin(op) =>
         && s.calls[t].Idle? && Removable(op, s.head, s.mem) && L.Enabled(s.lock, t, L.Enter(ModeOf(op)))
         && (op.PushHead? || op.PushTail? ==>
               op.e != s.head && op.e !in s.list && forall u | 0 <= u < |s.calls| :: !Passes(s.calls[u], op.e))
       case Lock(la) =>
         && !la.Enter? && L.Enabled(s.lock, t, la)
         && (la.Destruct? ==> s.calls[t].Running? && s.calls[t].r.done && L.Balanced(s.lock.threads[t]))
       case Statement => s.lock.threads[t].pc.Body? && s.calls[t].Running? && !s.calls[t].r.done
       case Return => s.calls[t].Returning? && s.lock.threads[t].pc.Outside?
  }

  ghost function Next(s: System, t: nat, a: Action): System
    requires Enabled(s, t, a)
  {
    match a
    case Begin(op) =>
      s.(lock := L.Next(s.lock, t, L.Enter(ModeOf(op))), calls := s.calls[t := Waiting(op)])
    case Lock(la) =>
      var s' := s.(lock := L.Next(s.lock, t, la));
      if la.Destruct? then
        var c := s.calls[t];
        s'.(calls := s.calls[t := Returning(c.op, c.r.result)],
            list := SeqOp(s.list, c.op).0,
            log := s.log + [Event(t, c.op, c.r.result)])
      else if (la.AcquireResource? || la.AcquireSpin?) && s'.lock.threads[t].pc.Body? && s.calls[t].Waiting? then
        s'.(calls := s.calls[t := Running(s.calls[t].op, s.mem, START)])
      else s'
    case Statement =>
      var c := s.calls[t];
      var (r, m) := Micro(c.op, s.head, c.r, s.mem);
      s.(calls := s.calls[t := c.(r := r)], mem := m)
    case Return => s.(calls := s.calls[t := Idle])
  }

  // ---- the sequential meaning of a log ----

  ghost function Replay(log: seq<Event>): seq<Addr> {
    if log == [] then [] else SeqOp(Replay(log[..|log| - 1]), log[|log| - 1].op).0
  }

  /** Each recorded result is the one the operation has on the list left by its predecessors. */
  ghost predicate Legal(log: seq<Event>) {
    log == []
    || (var e, before := log[|log| - 1], log[..|log| - 1];
        Legal(before) && e.result == SeqOp(Replay(before), e.op).1)
  }

  /** The latest event of a thread. */
  ghost function LastOf(log: seq<Event>, t: nat): Option<Event> {
    if log == [] then None
    else if log[|log| - 1].thread == t then Some(log[|log| - 1])
    else LastOf(log[..|log| - 1], t)
  }

  // ---- invariant ----

  /** The call of a thread and its place in the lock belong together. */
  ghost predicate InPlace(c: Call, pc: L.Pc) {
    match c
    case Idle => pc.Outside?
    case Waiting(op) =>
      || (pc.Entered? && pc.mode == ModeOf(op))
      || (pc.WaitSpin? && ModeOf(op).Shared?)
      || (pc.OwnsResource? && ModeOf(op).Exclusive?)
    case Running(op, _, _) => pc.Body? && pc.mode == ModeOf(op)
    case Returning(_, _) => pc.Outside? || pc.SpinReleased? || pc.ResourceReleased?
  }

  ghost predicate CallOk(s: System, t: nat)
    requires t < |s.calls| && |s.calls| == |s.lock.threads|
  {
    var c := s.calls[t];
    && InPlace(c, s.lock.threads[t].pc)
    && (c.Waiting? || c.Running? ==> Pushable(c.op, s.head, s.list))
    && (c.Waiting? ==> Removable(c.op, s.head, s.mem))
    && (c.Returning? ==> LastOf(s.log, t) == Some(Event(t, c.op, c.result)))
    && (c.Running? ==> SoundMem(c.m0, s.head, s.list) && Point(c.op, c.r, s.mem, c.m0, s.head, s.list))
  }

  ghost predicate Writing(s: System, t: nat)
    requires t < |s.lock.threads|
  {
    s.lock.threads[t].pc.Body? && s.lock.threads[t].pc.mode.Exclusive?
  }

  ghost predicate Inv(s: System) {
    && L.Inv(s.lock) && |s.calls| == |s.lock.threads|
    && (forall t | 0 <= t < |s.calls| :: CallOk(s, t))
    && (forall t, u, e | 0 <= t < u < |s.calls| && Passes(s.calls[t], e) :: !Passes(s.calls[u], e))
    && ((forall t | 0 <= t < |s.calls| :: !Writing(s, t)) ==> SoundMem(s.mem, s.head, s.list))
    && Legal(s.log) && Replay(s.log) == s.list
  }

  lemma BeginKeeps(s: System, t: nat, op: Op)
    requires Inv(s) && Enabled(s, t, Begin(op))
    ensures Inv(Next(s, t, Begin(op)))
  {
    var s' := Next(s, t, Begin(op));
    L.Keeps(s.lock, t, L.Enter(ModeOf(op)));
    forall u | 0 <= u < |s'.calls| ensures CallOk(s', u) && (Writing(s', u) <==> Writing(s, u)) {
      assert CallOk(s, u);
    }
  }

  lemma ReturnKeeps(s: System, t: nat)
    requires Inv(s) && Enabled(s, t, Return)
    ensures Inv(Next(s, t, Return))
  {
    var s' := Next(s, t, Return);
    forall u | 0 <= u < |s'.calls| ensures CallOk(s', u) && (Writing(s', u) <==> Writing(s, u)) {
      assert CallOk(s, u);
    }
  }

  lemma StatementPoint(s: System, t: nat)
    requires Inv(s) && Enabled(s, t, Statement)
    ensures var c := s.calls[t];
            var (r, m) := Micro(c.op, s.head, c.r, s.mem);
            Point(c.op, r, m, c.m0, s.head, s.list) && (!Writing(s, t) ==> m == s.mem)
  {
    var c := s.calls[t];
    assert CallOk(s, t);
    MicroKeeps(c.op, c.r, s.mem, c.m0, s.head, s.list);
  }

  /** A statement runs alone, or only beside readers, and a reader's statement writes nothing. */
  lemma StatementKeeps(s: System, t: nat)
    requires Inv(s) && Enabled(s, t, Statement)
    ensures Inv(Next(s, t, Statement))
  {
    var s' := Next(s, t, Statement);
    StatementPoint(s, t);
    assert CallOk(s, t);
    forall u | 0 <= u < |s'.calls| ensures CallOk(s', u) {
      assert CallOk(s, u);
      if s.calls[u].Waiting? && s.calls[u].op.RemoveElement? {
        MicroKeys(s.calls[t].op, s.calls[t].r, s.mem, s.head, s.calls[u].op.e);
      }
      if u != t && Writing(s, t) {
        L.ExclusiveIsAlone(s.lock, t, u);
      }
    }
    assert forall u | 0 <= u < |s'.calls| :: Writing(s', u) <==> Writing(s, u);
    assert forall u, e | 0 <= u < |s'.calls| :: Passes(s'.calls[u], e) <==> Passes(s.calls[u], e);
  }

  /** Entering the body: nobody writes, so the memory is the abstract list. */
  lemma NobodyWrites(s: System, t: nat, la: L.Action)
    requires Inv(s) && Enabled(s, t, Lock(la)) && (la.AcquireResource? || la.AcquireSpin?)
    requires L.Next(s.lock, t, la).threads[t].pc.Body?
    ensures SoundMem(s.mem, s.head, s.list)
  {
    L.Keeps(s.lock, t, la);
    forall u | 0 <= u < |s.calls| ensures !Writing(s, u) {
      assert L.Agrees(s.lock, t) && L.Agrees(s.lock, u) && L.Agrees(L.Next(s.lock, t, la), t);
    }
  }

  lemma AcquireCall(s: System, t: nat, la: L.Action, u: nat)
    requires Inv(s) && Enabled(s, t, Lock(la)) && (la.AcquireResource? || la.AcquireSpin?) && u < |s.calls|
    ensures CallOk(Next(s, t, Lock(la)), u) && (Writing(s, u) ==> Writing(Next(s, t, Lock(la)), u))
  {
    assert CallOk(s, u);
    if u == t && L.Next(s.lock, t, la).threads[t].pc.Body? {
      NobodyWrites(s, t, la);
      StartPoint(s.calls[t].op, s.mem, s.head, s.list);
    }
  }

  lemma AcquireKeeps(s: System, t: nat, la: L.Action)
    requires Inv(s) && Enabled(s, t, Lock(la)) && (la.AcquireResource? || la.AcquireSpin?)
    ensures Inv(Next(s, t, Lock(la)))
  {
    var s' := Next(s, t, Lock(la));
    L.Keeps(s.lock, t, la);
    forall u | 0 <= u < |s'.calls| ensures CallOk(s', u) && (Writing(s, u) ==> Writing(s', u)) {
      AcquireCall(s, t, la, u);
    }
    assert forall u, e | 0 <= u < |s'.calls| :: Passes(s'.calls[u], e) <==> Passes(s.calls[u], e);
  }

  lemma StillPushable(s: System, t: nat, u: nat)
    requires Inv(s) && t < |s.calls| && u < |s.calls| && t != u
    requires s.calls[t].Running? && s.calls[u].Waiting?
    ensures Pushable(s.calls[u].op, s.head, SeqOp(s.list, s.calls[t].op).0)
  {
    var op := s.calls[u].op;
    assert CallOk(s, u);
    if op.PushHead? || op.PushTail? {
      assert Passes(s.calls[u], op.e);
      if op.e in SeqOp(s.list, s.calls[t].op).0 {
        SeqOpElements(s.list, s.calls[t].op, op.e);
        assert Passes(s.calls[t], op.e);
      }
    }
  }

  lemma DestructMem(s: System, t: nat)
    requires Inv(s) && Enabled(s, t, Lock(L.Destruct))
    ensures var s' := Next(s, t, Lock(L.Destruct));
            && L.Inv(s'.lock) && SoundMem(s'.mem, s'.head, s'.list)
            && (!Writing(s, t) ==> s'.list == s.list)
            && Legal(s'.log) && Replay(s'.log) == s'.list
  {
    var s' := Next(s, t, Lock(L.Destruct));
    var c := s.calls[t];
    L.Keeps(s.lock, t, L.Destruct);
    assert CallOk(s, t);
    PointDone(c.op, c.r, s.mem, c.m0, s.head, s.list);
    assert s'.log[..|s'.log| - 1] == s.log;
  }

  /** The other calls: beside a writer they only wait, beside a reader nothing changes for them. */
  lemma DestructOthers(s: System, t: nat, u: nat)
    requires Inv(s) && Enabled(s, t, Lock(L.Destruct)) && u < |s.calls| && u != t
    requires !Writing(s, t) ==> Next(s, t, Lock(L.Destruct)).list == s.list
    ensures CallOk(Next(s, t, Lock(L.Destruct)), u)
    ensures Writing(Next(s, t, Lock(L.Destruct)), u) <==> Writing(s, u)
  {
    assert CallOk(s, u) && CallOk(s, t);
    if Writing(s, t) {
      L.ExclusiveIsAlone(s.lock, t, u);
      if s.calls[u].Waiting? {
        StillPushable(s, t, u);
      }
    }
  }

  lemma DestructSelf(s: System, t: nat)
    requires Inv(s) && Enabled(s, t, Lock(L.Destruct))
    ensures CallOk(Next(s, t, Lock(L.Destruct)), t)
  {
    assert CallOk(s, t);
    assert L.Agrees(s.lock, t);
  }

  /** Leaving the body: the routine has done its operation, and this is where it takes effect. */
  lemma DestructKeeps(s: System, t: nat)
    requires Inv(s) && Enabled(s, t, Lock(L.Destruct))
    ensures Inv(Next(s, t, Lock(L.Destruct)))
  {
    var s' := Next(s, t, Lock(L.Destruct));
    DestructMem(s, t);
    forall u | 0 <= u < |s'.calls| ensures CallOk(s', u) {
      if u != t {
        DestructOthers(s, t, u);
      } else {
        DestructSelf(s, t);
      }
    }
    forall i, j, e | 0 <= i < j < |s'.calls| && Passes(s'.calls[i], e) ensures !Passes(s'.calls[j], e) {
      assert Passes(s.calls[i], e);
    }
  }

  lemma OtherLockKeeps(s: System, t: nat, la: L.Action)
    requires Inv(s) && Enabled(s, t, Lock(la)) && (la.SetIrql? || la.ReleaseResource? || la.LeaveRegion?)
    ensures Inv(Next(s, t, Lock(la)))
  {
    var s' := Next(s, t, Lock(la));
    L.Keeps(s.lock, t, la);
    assert L.Agrees(s.lock, t);
    forall u | 0 <= u < |s'.calls| ensures CallOk(s', u) && (Writing(s', u) <==> Writing(s, u)) {
      assert CallOk(s, u);
    }
  }

  lemma Keeps(s: System, t: nat, a: Action)
    requires Inv(s) && Enabled(s, t, a)
    ensures Inv(Next(s, t, a))
  {
    match a
    case Begin(op) => BeginKeeps(s, t, op);
    case Statement => StatementKeeps(s, t);
    case Return => ReturnKeeps(s, t);
    case Lock(la) =>
      if la.Destruct? {
        DestructKeeps(s, t);
      } else if la.AcquireResource? || la.AcquireSpin? {
        AcquireKeeps(s, t, la);
      } else {
        OtherLockKeeps(s, t, la);
      }
  }

  // ---- all runs ----

  ghost predicate Initial(s: System) {
    && L.Initial(s.lock) && |s.calls| == |s.lock.threads|
    && (forall t | 0 <= t < |s.calls| :: s.calls[t].Idle?)
    && s.list == [] && s.log == [] && SoundMem(s.mem, s.head, [])
  }

  ghost predicate Run(s: System, steps: seq<(nat, Action)>, s': System)
    decreases |steps|
  {
    if steps == [] then s == s'
    else Enabled(s, steps[0].0, steps[0].1) && Run(Next(s, steps[0].0, steps[0].1), steps[1..], s')
  }

  lemma InitialInv(s: System)
    requires Initial(s)
    ensures Inv(s)
  {
    L.InitialInv(s.lock);
    forall t | 0 <= t < |s.calls| ensures CallOk(s, t) && !Writing(s, t) {
    }
  }

  lemma {:induction false} RunKeeps(s: System, steps: seq<(nat, Action)>, s': System)
    requires Inv(s) && Run(s, steps, s')
    ensures Inv(s')
    decreases |steps|
  {
    if steps != [] {
      Keeps(s, steps[0].0, steps[0].1);
      RunKeeps(Next(s, steps[0].0, steps[0].1), steps[1..], s');
    }
  }

  /** Atomicity, in every interleaving of any number of threads: the calls that took effect, in
      that order, are a sequential history of the deque, each with the result it was given; the
      memory is the list of that history whenever nobody is writing; and every entry outside the
      list then looks departed. */
  lemma Linearizable(s: System, steps: seq<(nat, Action)>, s': System)
    requires Initial(s) && Run(s, steps, s')
    ensures Legal(s'.log)
    ensures forall t | 0 <= t < |s'.calls| && s'.calls[t].Returning? ::
              LastOf(s'.log, t) == Some(Event(t, s'.calls[t].op, s'.calls[t].result))
    ensures |s'.calls| == |s'.lock.threads|
    ensures (forall t | 0 <= t < |s'.calls| :: !Writing(s', t)) ==>
              && SoundMem(s'.mem, s'.head, Replay(s'.log))
              && (forall e | e in s'.mem.links.f && e != s'.head && e !in Replay(s'.log) :: Departed(s'.mem.links, e))
  {
    InitialInv(s);
    RunKeeps(s, steps, s');
    forall t | 0 <= t < |s'.calls| && s'.calls[t].Returning?
      ensures LastOf(s'.log, t) == Some(Event(t, s'.calls[t].op, s'.calls[t].result)) {
      assert CallOk(s', t);
    }
  }

  ghost function Begun(steps: seq<(nat, Action)>, t: nat): nat {
    if steps == [] then 0
    else (if steps[0].0 == t && steps[0].1.Begin? then 1 else 0) + Begun(steps[1..], t)
  }

  ghost function EventsOf(log: seq<Event>, t: nat): nat {
    if log == [] then 0
    else EventsOf(log[..|log| - 1], t) + (if log[|log| - 1].thread == t then 1 else 0)
  }

  ghost function InFlight(c: Call): nat {
    if c.Waiting? || c.Running? then 1 else 0
  }

  lemma EventsSnoc(log: seq<Event>, e: Event, u: nat)
    ensures EventsOf(log + [e], u) == EventsOf(log, u) + (if e.thread == u then 1 else 0)
  {
    assert (log + [e])[..|log|] == log;
  }

  lemma DestructLog(s: System, t: nat, u: nat)
    requires Enabled(s, t, Lock(L.Destruct)) && u < |s.calls|
    ensures var s' := Next(s, t, Lock(L.Destruct));
            && s.log <= s'.log && |s'.calls| == |s.calls|
            && EventsOf(s'.log, u) + InFlight(s'.calls[u]) == EventsOf(s.log, u) + InFlight(s.calls[u])
  {
    var c, s' := s.calls[t], Next(s, t, Lock(L.Destruct));
    assert s'.log == s.log + [Event(t, c.op, c.r.result)];
    assert s'.calls == s.calls[t := Returning(c.op, c.r.result)];
    EventsSnoc(s.log, Event(t, c.op, c.r.result), u);
  }

  lemma OtherLog(s: System, t: nat, a: Action, u: nat)
    requires Enabled(s, t, a) && u < |s.calls| && a != Lock(L.Destruct)
    ensures var s' := Next(s, t, a);
            && s'.log == s.log && |s'.calls| == |s.calls|
            && InFlight(s'.calls[u]) == InFlight(s.calls[u]) + (if t == u && a.Begin? then 1 else 0)
  {
  }

  lemma StepLog(s: System, t: nat, a: Action, u: nat)
    requires Enabled(s, t, a) && u < |s.calls|
    ensures var s' := Next(s, t, a);
            && s.log <= s'.log && |s'.calls| == |s.calls|
            && EventsOf(s'.log, u) + InFlight(s'.calls[u])
            == EventsOf(s.log, u) + InFlight(s.calls[u]) + (if t == u && a.Begin? then 1 else 0)
  {
    if a == Lock(L.Destruct) {
      DestructLog(s, t, u);
    } else {
      OtherLog(s, t, a, u);
    }
  }

  /** Each call takes effect exactly once, between its begin and its return, and the log only grows. */
  lemma {:induction false} OneEventPerCall(s: System, steps: seq<(nat, Action)>, s': System, u: nat)
    requires Run(s, steps, s') && u < |s.calls|
    ensures s.log <= s'.log && |s'.calls| == |s.calls|
    ensures EventsOf(s'.log, u) + InFlight(s'.calls[u])
         == EventsOf(s.log, u) + InFlight(s.calls[u]) + Begun(steps, u)
    decreases |steps|
  {
    if steps != [] {
      StepLog(s, steps[0].0, steps[0].1, u);
      OneEventPerCall(Next(s, steps[0].0, steps[0].1), steps[1..], s', u);
    }
  }

  lemma {:induction false} EventsConcat(a: seq<Event>, b: seq<Event>, u: nat)
    ensures EventsOf(a + b, u) == EventsOf(a, u) + EventsOf(b, u)
    decreases |b|
  {
    if b == [] {
      assert a + b == a;
    } else {
      assert (a + b)[..|a + b| - 1] == a + b[..|b| - 1];
      EventsConcat(a, b[..|b| - 1], u);
    }
  }

  /** The order of the log is that of real time. A call of thread `t` that returns at `mid` has its
      event in the log as it is there, and it keeps its place; every call that another thread begins
      after `mid`, when it has none under way, takes effect behind that part of the log. */
  lemma RealTimeOrder(s: System, before: seq<(nat, Action)>, mid: System, after: seq<(nat, Action)>, s': System,
                      t: nat, u: nat) returns (i: nat)
    requires Initial(s) && Run(s, before, mid) && Run(mid, after, s')
    requires t < |mid.calls| && u < |mid.calls| && mid.calls[t].Returning? && InFlight(mid.calls[u]) == 0
    ensures i < |mid.log| <= |s'.log| && |s'.calls| == |mid.calls|
    ensures s'.log[i] == mid.log[i] == Event(t, mid.calls[t].op, mid.calls[t].result)
    ensures EventsOf(s'.log[..|mid.log|], u) == EventsOf(mid.log, u)
    ensures EventsOf(s'.log[|mid.log|..], u) == Begun(after, u) - InFlight(s'.calls[u])
  {
    InitialInv(s);
    RunKeeps(s, before, mid);
    assert CallOk(mid, t);
    i := LastIndex(mid.log, t);
    OneEventPerCall(mid, after, s', u);
    assert s'.log == mid.log + s'.log[|mid.log|..];
    EventsConcat(mid.log, s'.log[|mid.log|..], u);
    assert s'.log[..|mid.log|] == mid.log;
  }

  lemma {:induction false} LastIndex(log: seq<Event>, t: nat) returns (i: nat)
    requires LastOf(log, t).Some?
    ensures i < |log| && log[i] == LastOf(log, t).value
    decreases |log|
  {
    if log[|log| - 1].thread == t {
      i := |log| - 1;
    } else {
      i := LastIndex(log[..|log| - 1], t);
    }
  }

  /** A traversal in progress has visited a prefix of the list, which is still the list it found
      when it took the lock; no statement ever read a NULL link. */
  lemma TraversalSeesPrefix(s: System, steps: seq<(nat, Action)>, s': System, t: nat)
    requires Initial(s) && Run(s, steps, s')
    requires t < |s'.calls| && s'.calls[t].Running?
    ensures var c := s'.calls[t];
            && !c.r.fault && SoundMem(c.m0, s'.head, s'.list)
            && (c.op.GetElement? ==> c.r.visited <= s'.list)
  {
    InitialInv(s);
    RunKeeps(s, steps, s');
    assert CallOk(s', t);
  }

  // ---- every call can finish ----

  ghost function Weight(c: Call, length: nat): nat {
    match c
    case Running(op, _, r) => var n := Left(op, r, length); if n < 0 then 1 else n + 1
    case Returning(_, _) => 1
    case _ => 0
  }

  ghost function TotalWeight(calls: seq<Call>, length: nat): nat {
    if calls == [] then 0 else Weight(calls[0], length) + TotalWeight(calls[1..], length)
  }

  lemma {:induction false} TotalWeightUpdate(calls: seq<Call>, length: nat, t: nat, c: Call)
    requires t < |calls|
    ensures TotalWeight(calls[t := c], length)
         == TotalWeight(calls, length) - Weight(calls[t], length) + Weight(c, length)
  {
    if t == 0 {
      assert calls[t := c][1..] == calls[1..];
    } else {
      assert calls[t := c][1..] == calls[1..][t - 1 := c];
      TotalWeightUpdate(calls[1..], length, t - 1, c);
    }
  }

  ghost predicate AllIdle(s: System) {
    forall t | 0 <= t < |s.calls| :: s.calls[t].Idle?
  }

  lemma StatementCounts(s: System, t: nat)
    requires Inv(s) && Enabled(s, t, Statement)
    ensures var s' := Next(s, t, Statement);
            s'.lock == s.lock && TotalWeight(s'.calls, |s'.list|) < TotalWeight(s.calls, |s.list|)
  {
    var c := s.calls[t];
    assert CallOk(s, t);
    StatementPoint(s, t);
    MicroEnds(c.op, c.r, s.mem, c.m0, s.head, s.list);
    TotalWeightUpdate(s.calls, |s.list|, t, Next(s, t, Statement).calls[t]);
  }

  /** Some thread can go on with what it began, and going on brings the end nearer. */
  lemma CanGoOn(s: System) returns (t: nat, a: Action)
    requires Inv(s) && !AllIdle(s)
    ensures Enabled(s, t, a) && !a.Begin?
    ensures var s' := Next(s, t, a);
            && |s'.calls| == |s.calls|
            && (|| L.TotalRank(s'.lock.threads) < L.TotalRank(s.lock.threads)
                || (&& L.TotalRank(s'.lock.threads) == L.TotalRank(s.lock.threads)
                    && TotalWeight(s'.calls, |s'.list|) < TotalWeight(s.calls, |s.list|)))
  {
    if u: nat :| u < |s.calls| && s.calls[u].Running? && !s.calls[u].r.done {
      t, a := u, Statement;
      assert CallOk(s, t);
      StatementCounts(s, t);
    } else if u: nat :| u < |s.calls| && s.calls[u].Returning? && s.lock.threads[u].pc.Outside? {
      t, a := u, Return;
      TotalWeightUpdate(s.calls, |s.list|, t, Idle);
    } else {
      var u: nat :| u < |s.calls| && !s.calls[u].Idle?;
      assert CallOk(s, u);
      t := L.Unblocked(s.lock, u);
      assert CallOk(s, t);
      a := Lock(L.Own(s.lock.threads[t]));
      L.OwnLowersRank(s.lock, t);
    }
  }

  /** From every reachable state all calls can return: no deadlock and no endless traversal. */
  lemma {:induction false} Drains(s: System) returns (steps: seq<(nat, Action)>, s': System)
    requires Inv(s)
    ensures Run(s, steps, s') && AllIdle(s') && |s'.calls| == |s.calls|
    ensures forall i | 0 <= i < |steps| :: !steps[i].1.Begin?
    decreases L.TotalRank(s.lock.threads), TotalWeight(s.calls, |s.list|)
  {
    if AllIdle(s) {
      return [], s;
    }
    var t, a := CanGoOn(s);
    Keeps(s, t, a);
    var rest;
    rest, s' := Drains(Next(s, t, a));
    steps := [(t, a)] + rest;
  }

  /** Every call that is allowed at its IRQL can be made, takes effect once, and returns. */
  lemma EveryCallReturns(s: System, t: nat, op: Op) returns (steps: seq<(nat, Action)>, s': System)
    requires Inv(s) && t < |s.calls| && s.calls[t].Idle?
    requires ModeOf(op).Exclusive? ==> L.Low(s.lock.threads[t].irql)
    requires Removable(op, s.head, s.mem)
    requires op.PushHead? || op.PushTail? ==>
               op.e != s.head && op.e !in s.list && forall u | 0 <= u < |s.calls| :: !Passes(s.calls[u], op.e)
    ensures Run(s, steps, s') && AllIdle(s') && |s'.calls| == |s.calls|
    ensures s.log <= s'.log && EventsOf(s'.log, t) == EventsOf(s.log, t) + 1
    ensures LastOf(s'.log, t).Some? && LastOf(s'.log, t).value.op == op
  {
    assert CallOk(s, t);
    assert Enabled(s, t, Begin(op));
    BeginKeeps(s, t, op);
    var rest;
    rest, s' := Drains(Next(s, t, Begin(op)));
    steps := [(t, Begin(op))] + rest;
    assert steps[1..] == rest;
    OneEventPerCall(s, steps, s', t);
    NothingBegun(rest, t);
    TakesEffect(Next(s, t, Begin(op)), rest, s', t, op);
  }

  /** Thread `t` is in a call of `op`, or that was its last one to take effect. */
  ghost predicate InOrAfter(s: System, t: nat, op: Op)
    requires t < |s.calls|
  {
    if InFlight(s.calls[t]) == 1 then s.calls[t].op == op
    else LastOf(s.log, t).Some? && LastOf(s.log, t).value.op == op
  }

  lemma {:induction false} TakesEffect(s: System, steps: seq<(nat, Action)>, s': System, t: nat, op: Op)
    requires Run(s, steps, s') && t < |s.calls| && InOrAfter(s, t, op)
    requires forall i | 0 <= i < |steps| :: !steps[i].1.Begin?
    ensures |s'.calls| == |s.calls| && InOrAfter(s', t, op)
    decreases |steps|
  {
    if steps != [] {
      TakesEffectStep(s, steps[0].0, steps[0].1, t, op);
      TakesEffect(Next(s, steps[0].0, steps[0].1), steps[1..], s', t, op);
    }
  }

  lemma TakesEffectStep(s: System, u: nat, a: Action, t: nat, op: Op)
    requires Enabled(s, u, a) && !a.Begin? && t < |s.calls| && InOrAfter(s, t, op)
    ensures |Next(s, u, a).calls| == |s.calls| && InOrAfter(Next(s, u, a), t, op)
  {
    if a.Lock? && a.a.Destruct? {
      var c := s.calls[u];
      assert (s.log + [Event(u, c.op, c.r.result)])[..|s.log|] == s.log;
    }
  }

  lemma {:induction false} NothingBegun(steps: seq<(nat, Action)>, t: nat)
    requires forall i | 0 <= i < |steps| :: !steps[i].1.Begin?
    ensures Begun(steps, t) == 0
    decreases |steps|
  {
    if steps != [] {
      NothingBegun(steps[1..], t);
    }
  }

  lemma RunStep(s: System, t: nat, a: Action, steps: seq<(nat, Action)>, s': System)
    requires Enabled(s, t, a) && Run(Next(s, t, a), steps, s')
    ensures Run(s, [(t, a)] + steps, s')
  {
    assert ([(t, a)] + steps)[1..] == steps;
  }

  /** Two searches without removal can walk the list at the same time: beside one that walks, another
      one begins, by the ERESOURCE or, when nobody has the spin lock, at DISPATCH_LEVEL. */
  lemma SearchesOverlap(s: System, t: nat, u: nat, callback: Callback) returns (steps: seq<(nat, Action)>, s': System)
    requires Inv(s) && t < |s.calls| && u < |s.calls| && t != u
    requires s.calls[u].Running? && s.lock.threads[u].pc.Body? && !Writing(s, u) && L.Low(s.lock.threads[u].pc.at)
    requires s.calls[t].Idle? && (!L.Low(s.lock.threads[t].irql) ==> s.lock.spin.None?)
    ensures Run(s, steps, s') && |s'.calls| == |s.calls|
    ensures s'.calls[t] == Running(GetElement(callback, false), s.mem, START) && s'.calls[u] == s.calls[u]
  {
    var op := GetElement(callback, false);
    assert CallOk(s, t) && CallOk(s, u);
    assert L.Agrees(s.lock, t) && L.Agrees(s.lock, u);
    var s1 := Next(s, t, Begin(op));
    var la := if L.Low(s.lock.threads[t].irql) then L.AcquireResource else L.AcquireSpin;
    s' := Next(s1, t, Lock(la));
    RunStep(s1, t, Lock(la), [], s');
    RunStep(s, t, Begin(op), [(t, Lock(la))] + [], s');
    steps := [(t, Begin(op))] + ([(t, Lock(la))] + []);
  }

  lemma FirstSearch(s: System, u: nat, callback: Callback) returns (steps: seq<(nat, Action)>, s': System)
    requires Inv(s) && AllIdle(s) && u < |s.calls| && L.Low(s.lock.threads[u].irql)
    ensures Run(s, steps, s') && |s'.calls| == |s.calls| && Inv(s')
    ensures s'.calls == s.calls[u := Running(GetElement(callback, false), s.mem, START)] && s'.mem == s.mem
    ensures s'.lock.threads == s.lock.threads[u := L.Thread(L.Body(L.Shared, s.lock.threads[u].irql),
                                                            s.lock.threads[u].irql, 1)]
  {
    var op := GetElement(callback, false);
    assert CallOk(s, u) && L.Agrees(s.lock, u);
    NobodyOwns(s);
    var s1 := Next(s, u, Begin(op));
    s' := Next(s1, u, Lock(L.AcquireResource));
    RunStep(s1, u, Lock(L.AcquireResource), [], s');
    RunStep(s, u, Begin(op), [(u, Lock(L.AcquireResource))] + [], s');
    steps := [(u, Begin(op))] + ([(u, Lock(L.AcquireResource))] + []);
    Keeps(s, u, Begin(op));
    Keeps(s1, u, Lock(L.AcquireResource));
  }

  lemma NobodyOwns(s: System)
    requires Inv(s) && AllIdle(s)
    ensures s.lock.exclusive.None? && s.lock.spin.None? && s.lock.shared == {}
  {
    forall t | 0 <= t < |s.calls|
      ensures s.lock.exclusive != Some(t) && s.lock.spin != Some(t) && t !in s.lock.shared {
      assert CallOk(s, t) && L.Agrees(s.lock, t);
    }
    NotSome(s.lock.exclusive, |s.calls|);
    NotSome(s.lock.spin, |s.calls|);
  }

  lemma NotSome(o: Option<nat>, n: nat)
    requires (o.Some? ==> o.value < n) && forall t | 0 <= t < n :: o != Some(t)
    ensures o.None?
  {
  }

  /** From rest, any two threads below DISPATCH_LEVEL can be walking the list at the same time. */
  lemma TwoSearches(s: System, t: nat, u: nat, callback: Callback) returns (steps: seq<(nat, Action)>, s': System)
    requires Inv(s) && AllIdle(s) && t < |s.calls| && u < |s.calls| && t != u
    requires L.Low(s.lock.threads[t].irql) && L.Low(s.lock.threads[u].irql)
    ensures Run(s, steps, s') && |s'.calls| == |s.calls|
    ensures s'.calls[t] == s'.calls[u] == Running(GetElement(callback, false), s.mem, START)
  {
    var before, mid := FirstSearch(s, u, callback);
    var after;
    after, s' := SearchesOverlap(mid, t, u, callback);
    RunConcat(s, before, mid, after, s');
    steps := before + after;
  }

  lemma {:induction false} RunConcat(s: System, a: seq<(nat, Action)>, mid: System, b: seq<(nat, Action)>, s': System)
    requires Run(s, a, mid) && Run(mid, b, s')
    ensures Run(s, a + b, s')
    decreases |a|
  {
    if a == [] {
      assert a + b == b;
    } else {
      assert (a + b)[1..] == a[1..] + b;
      RunConcat(Next(s, a[0].0, a[0].1), a[1..], mid, b, s');
    }
  }
}
