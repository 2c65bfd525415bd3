/** CriticalSection.cpp, kernel branches: a shared/exclusive lock made of an ERESOURCE and a queued
  spin lock, as a protocol of any number of threads. A step is one kernel call. */
module CriticalSection {
  import opened Wrappers

  const PASSIVE_LEVEL := 0
  const APC_LEVEL := 1
  const DISPATCH_LEVEL := 2

  type Irql = n: int | 0 <= n <= 2

  datatype Mode = Shared | Exclusive

  /** Where a thread stands in the constructor, the body or the destructor. */
  datatype Pc =
    | Outside
    | Entered(mode: Mode, at: Irql)     // in the critical region, about to take the ERESOURCE
    | WaitSpin                          // shared at DISPATCH_LEVEL: about to take the spin lock
    | OwnsResource(at: Irql)            // exclusive: has the ERESOURCE, about to take the spin lock
    | Body(mode: Mode, at: Irql)
    | SpinReleased(at: Irql)            // exclusive: about to release the ERESOURCE
    | ResourceReleased(mode: Mode, at: Irql)  // about to leave the critical region

  /** `at` in the program counter is the IRQL at which the constructor ran; the spin lock keeps it
      in m_LocalData. `regions` is the number of critical regions entered for this lock. */
  datatype Thread = Thread(pc: Pc, irql: Irql, regions: nat)

  datatype State = State(
    threads: seq<Thread>,
    shared: set<nat>,            // shared owners of the ERESOURCE
    exclusive: Option<nat>,      // its exclusive owner
    spin: Option<nat>,           // owner of the spin lock
    fault: bool)                 // something was released that was not held

  datatype Action =
    | Enter(mode: Mode)
    | AcquireResource
    | AcquireSpin
    | SetIrql(to: Irql)
    | Destruct                   // the first call of the destructor
    | ReleaseResource
    | LeaveRegion

  predicate Low(irql: Irql) {
    irql <= APC_LEVEL
  }

  function SetThread(s: State, t: nat, th: Thread): State
    requires t < |s.threads|
  {
    s.(threads := s.threads[t := th])
  }

  /** What holds back a step: the owners of the lock, and the kernel's demand that an ERESOURCE is
      taken below DISPATCH_LEVEL. */
  predicate Enabled(s: State, t: nat, a: Action) {
    && t < |s.threads| && !s.fault
    && var th := s.threads[t];
       match a
       case Enter(mode) => th.pc.Outside? && (mode.Exclusive? ==> Low(th.irql))
       case AcquireResource =>
         && th.pc.Entered? && s.exclusive.None?
         && (th.pc.mode.Exclusive? ==> s.shared == {})
       case AcquireSpin => (th.pc.WaitSpin? || th.pc.OwnsResource?) && s.spin.None?
       case SetIrql(_) => th.pc.Outside? || th.pc.Body?
       case Destruct => th.pc.Body?
       case ReleaseResource => th.pc.SpinReleased?
       case LeaveRegion => th.pc.ResourceReleased? && th.regions > 0
  }

  function Next(s: State, t: nat, a: Action): State
    requires Enabled(s, t, a)
  {
    var th := s.threads[t];
    match a
    case Enter(mode) =>
      if mode.Shared? && !Low(th.irql) then SetThread(s, t, th.(pc := WaitSpin))
      else SetThread(s, t, th.(pc := Entered(mode, th.irql), regions := th.regions + 1))
    case AcquireResource =>
      if th.pc.mode.Shared? then
        SetThread(s, t, th.(pc := Body(Shared, th.pc.at))).(shared := s.shared + {t})
      else
        SetThread(s, t, th.(pc := OwnsResource(th.pc.at))).(exclusive := Some(t))
    case AcquireSpin =>
      var pc := if th.pc.WaitSpin? then Body(Shared, th.irql) else Body(Exclusive, th.pc.at);
      SetThread(s, t, th.(pc := pc, irql := DISPATCH_LEVEL)).(spin := Some(t))
    case SetIrql(to) => SetThread(s, t, th.(irql := to))
    case Destruct =>
      if th.pc.mode.Shared? && Low(th.irql) then
        if t in s.shared
        then SetThread(s, t, th.(pc := ResourceReleased(Shared, th.pc.at))).(shared := s.shared - {t})
        else s.(fault := true)
      else if s.spin != Some(t) then s.(fault := true)
      else
        var pc := if th.pc.mode.Shared? then Outside else SpinReleased(th.pc.at);
        SetThread(s, t, th.(pc := pc, irql := th.pc.at)).(spin := None)
    case ReleaseResource =>
      if s.exclusive != Some(t) then s.(fault := true)
      else SetThread(s, t, th.(pc := ResourceReleased(Exclusive, th.pc.at))).(exclusive := None)
    case LeaveRegion => SetThread(s, t, th.(pc := Outside, regions := th.regions - 1))
  }

  // ---- invariant ----

  predicate HoldsShared(pc: Pc) {
    pc.Body? && pc.mode.Shared? && Low(pc.at)
  }

  predicate HoldsExclusive(pc: Pc) {
    pc.OwnsResource? || (pc.Body? && pc.mode.Exclusive?) || pc.SpinReleased?
  }

  predicate HoldsSpin(pc: Pc) {
    pc.Body? && (pc.mode.Exclusive? || !Low(pc.at))
  }

  predicate InRegion(pc: Pc) {
    !pc.Outside? && !pc.WaitSpin? && !(pc.Body? && pc.mode.Shared? && !Low(pc.at))
  }

  /** The lock and thread `t` agree on what it holds. */
  predicate Agrees(s: State, t: nat)
    requires t < |s.threads|
  {
    var th := s.threads[t];
    && (t in s.shared <==> HoldsShared(th.pc))
    && (s.exclusive == Some(t) <==> HoldsExclusive(th.pc))
    && (s.spin == Some(t) <==> HoldsSpin(th.pc))
    && th.regions == (if InRegion(th.pc) then 1 else 0)
    && (th.pc.WaitSpin? ==> !Low(th.irql))
    && (th.pc.Entered? ==> Low(th.pc.at) && th.irql == th.pc.at)
    && (th.pc.OwnsResource? ==> Low(th.pc.at))
    && (th.pc.Body? && th.pc.mode.Exclusive? ==> Low(th.pc.at))
    && (th.pc.SpinReleased? || (th.pc.ResourceReleased? && th.pc.mode.Exclusive?) ==>
          Low(th.pc.at) && th.irql == th.pc.at)
  }

  predicate Inv(s: State) {
    && !s.fault
    && (forall t | t in s.shared :: t < |s.threads|)
    && (s.exclusive.Some? ==> s.exclusive.value < |s.threads| && s.shared == {})
    && (s.spin.Some? ==> s.spin.value < |s.threads|)
    && (forall t | 0 <= t < |s.threads| :: Agrees(s, t))
  }

  /** A shared body ends on the same side of DISPATCH_LEVEL on which it was entered. */
  predicate Balanced(th: Thread) {
    th.pc.Body? && th.pc.mode.Shared? ==> (Low(th.irql) <==> Low(th.pc.at))
  }

  lemma Keeps(s: State, t: nat, a: Action)
    requires Inv(s) && Enabled(s, t, a) && (a.Destruct? ==> Balanced(s.threads[t]))
    ensures Inv(Next(s, t, a))
  {
    var s' := Next(s, t, a);
    assert Agrees(s, t);
    forall u | 0 <= u < |s'.threads| ensures Agrees(s', u) {
      assert Agrees(s, u);
    }
  }

  /** A destructor releases exactly what its constructor took when the body left the IRQL on the
      side where it found it, and otherwise releases something it does not hold. */
  lemma DestructExact(s: State, t: nat)
    requires Inv(s) && Enabled(s, t, Destruct)
    ensures var s' := Next(s, t, Destruct);
            && (!s'.fault <==> Balanced(s.threads[t]))
            && (Balanced(s.threads[t]) ==>
                  && Inv(s')
                  && (HoldsSpin(s.threads[t].pc) ==> s'.threads[t].irql == s.threads[t].pc.at && s'.spin.None?)
                  && (!HoldsSpin(s.threads[t].pc) ==> s'.threads[t].irql == s.threads[t].irql && t !in s'.shared))
  {
    assert Agrees(s, t);
    if Balanced(s.threads[t]) {
      Keeps(s, t, Destruct);
    }
  }

  /** Mutual exclusion: beside an exclusive body there is no other body at any IRQL. */
  lemma ExclusiveIsAlone(s: State, t: nat, u: nat)
    requires Inv(s) && t < |s.threads| && u < |s.threads| && t != u
    requires s.threads[t].pc.Body? && s.threads[t].pc.mode.Exclusive?
    ensures !s.threads[u].pc.Body?
  {
    assert Agrees(s, t) && Agrees(s, u);
  }

  // ---- progress ----

  /** The calls a thread has still to make. */
  function Rank(th: Thread): nat {
    match th.pc
    case Outside => 0
    case ResourceReleased(_, _) => 1
    case SpinReleased(_) => 2
    case Body(_, _) => if Balanced(th) then 3 else 4
    case OwnsResource(_) => 4
    case WaitSpin => 4
    case Entered(_, _) => 5
  }

  function TotalRank(ths: seq<Thread>): nat {
    if ths == [] then 0 else Rank(ths[0]) + TotalRank(ths[1..])
  }

  lemma {:induction false} TotalRankUpdate(ths: seq<Thread>, t: nat, th: Thread)
    requires t < |ths|
    ensures TotalRank(ths[t := th]) == TotalRank(ths) - Rank(ths[t]) + Rank(th)
  {
    if t == 0 {
      assert ths[t := th][1..] == ths[1..];
    } else {
      assert ths[t := th][1..] == ths[1..][t - 1 := th];
      TotalRankUpdate(ths[1..], t - 1, th);
    }
  }

  lemma {:induction false} TotalRankZero(ths: seq<Thread>)
    ensures TotalRank(ths) == 0 <==> forall t | 0 <= t < |ths| :: ths[t].pc.Outside?
  {
    if ths != [] {
      TotalRankZero(ths[1..]);
      assert forall t | 1 <= t < |ths| :: ths[t] == ths[1..][t - 1];
    }
  }

  /** The call a thread makes next, when it does not wait. A body restores the IRQL before it ends. */
  function Own(th: Thread): Action
    requires !th.pc.Outside?
  {
    match th.pc
    case Entered(_, _) => AcquireResource
    case WaitSpin => AcquireSpin
    case OwnsResource(_) => AcquireSpin
    case Body(_, at) => if Balanced(th) then Destruct else SetIrql(at)
    case SpinReleased(_) => ReleaseResource
    case ResourceReleased(_, _) => LeaveRegion
  }

  /** No deadlock: behind every thread that waits there is one that can go on. */
  lemma Unblocked(s: State, t: nat) returns (u: nat)
    requires Inv(s) && t < |s.threads| && !s.threads[t].pc.Outside?
    ensures u < |s.threads| && !s.threads[u].pc.Outside? && Enabled(s, u, Own(s.threads[u]))
  {
    u := t;
    assert Agrees(s, u);
    if s.threads[u].pc.Entered? && !Enabled(s, u, AcquireResource) {
      if s.exclusive.Some? {
        u := s.exclusive.value;
      } else {
        u :| u in s.shared;
      }
      assert Agrees(s, u);
    }
    if s.threads[u].pc.WaitSpin? || s.threads[u].pc.OwnsResource? {
      if s.spin.Some? {
        u := s.spin.value;
        assert Agrees(s, u);
      }
    }
  }

  lemma OwnLowersRank(s: State, t: nat)
    requires Inv(s) && t < |s.threads| && !s.threads[t].pc.Outside?
    requires Enabled(s, t, Own(s.threads[t]))
    ensures var s' := Next(s, t, Own(s.threads[t]));
            && Inv(s') && |s'.threads| == |s.threads|
            && TotalRank(s'.threads) < TotalRank(s.threads)
  {
    var a := Own(s.threads[t]);
    assert Agrees(s, t);
    Keeps(s, t, a);
    var s' := Next(s, t, a);
    TotalRankUpdate(s.threads, t, s'.threads[t]);
    assert s'.threads == s.threads[t := s'.threads[t]];
  }

  ghost predicate Run(s: State, steps: seq<(nat, Action)>, s': State)
    decreases |steps|
  {
    if steps == [] then s == s'
    else Enabled(s, steps[0].0, steps[0].1) && Run(Next(s, steps[0].0, steps[0].1), steps[1..], s')
  }

  /** From every reachable state all threads can leave, without any new call. */
  lemma {:induction false} Drains(s: State) returns (steps: seq<(nat, Action)>, s': State)
    requires Inv(s)
    ensures Run(s, steps, s') && Inv(s') && |s'.threads| == |s.threads|
    ensures forall t | 0 <= t < |s'.threads| :: s'.threads[t].pc.Outside?
    decreases TotalRank(s.threads)
  {
    if forall t | 0 <= t < |s.threads| :: s.threads[t].pc.Outside? {
      return [], s;
    }
    var t: nat :| t < |s.threads| && !s.threads[t].pc.Outside?;
    var u := Unblocked(s, t);
    var a := Own(s.threads[u]);
    OwnLowersRank(s, u);
    var rest;
    rest, s' := Drains(Next(s, u, a));
    steps := [(u, a)] + rest;
  }

  // ---- all runs ----

  ghost predicate Initial(s: State) {
    && s.shared == {} && s.exclusive.None? && s.spin.None? && !s.fault
    && forall t | 0 <= t < |s.threads| :: s.threads[t].pc.Outside? && s.threads[t].regions == 0
  }

  /** Every destructor in the run finds the IRQL on the side where its constructor found it. */
  ghost predicate BalancedRun(s: State, steps: seq<(nat, Action)>)
    decreases |steps|
  {
    steps == []
    || (var (t, a) := steps[0];
        && Enabled(s, t, a) && (a.Destruct? ==> Balanced(s.threads[t]))
        && BalancedRun(Next(s, t, a), steps[1..]))
  }

  /** In every run whose bodies restore the IRQL: nothing is released that is not held, and no
      two bodies of which one is exclusive overlap. */
  lemma {:induction false} RunSafe(s: State, steps: seq<(nat, Action)>, s': State)
    requires Inv(s) && BalancedRun(s, steps) && Run(s, steps, s')
    ensures Inv(s')
    ensures forall t, u | 0 <= t < |s'.threads| && 0 <= u < |s'.threads| && t != u
              && s'.threads[t].pc.Body? && s'.threads[t].pc.mode.Exclusive? :: !s'.threads[u].pc.Body?
    decreases |steps|
  {
    if steps == [] {
      forall t, u | 0 <= t < |s'.threads| && 0 <= u < |s'.threads| && t != u
        && s'.threads[t].pc.Body? && s'.threads[t].pc.mode.Exclusive? ensures !s'.threads[u].pc.Body? {
        ExclusiveIsAlone(s', t, u);
      }
    } else {
      Keeps(s, steps[0].0, steps[0].1);
      RunSafe(Next(s, steps[0].0, steps[0].1), steps[1..], s');
    }
  }

  /** The body under the spin lock begins at DISPATCH_LEVEL, and the lock has kept the IRQL before. */
  lemma SpinRaises(s: State, t: nat)
    requires Inv(s) && Enabled(s, t, AcquireSpin)
    ensures var s' := Next(s, t, AcquireSpin);
            && HoldsSpin(s'.threads[t].pc) && s'.threads[t].irql == DISPATCH_LEVEL && s'.spin == Some(t)
            && (s.threads[t].pc.OwnsResource? ==> s'.exclusive == Some(t))
            && s'.threads[t].pc.at == if InExclusive(s.threads[t].pc) then EnteredAt(s.threads[t].pc) else s.threads[t].irql
  {
    assert Agrees(s, t);
  }

  // ---- a whole call ----

  /** The IRQL at which the call began. */
  function EnteredAt(pc: Pc): Irql
    requires InExclusive(pc)
  {
    match pc
    case Entered(_, at) => at
    case OwnsResource(at) => at
    case Body(_, at) => at
    case SpinReleased(at) => at
    case ResourceReleased(_, at) => at
  }

  predicate InExclusive(pc: Pc) {
    || pc.OwnsResource? || pc.SpinReleased?
    || ((pc.Entered? || pc.Body? || pc.ResourceReleased?) && pc.mode.Exclusive?)
  }

  /** Thread `t` takes no step after its call has ended. */
  ghost predicate UpToReturn(s: State, steps: seq<(nat, Action)>, t: nat)
    requires t < |s.threads|
    decreases |steps|
  {
    steps == []
    || (&& Enabled(s, steps[0].0, steps[0].1)
        && (steps[0].0 == t ==> !s.threads[t].pc.Outside?)
        && UpToReturn(Next(s, steps[0].0, steps[0].1), steps[1..], t))
  }

  /** An exclusive call gives back the IRQL at which it began, whatever the body and the other threads
      do in between. */
  lemma {:induction false} ExclusiveRestoresIrql(s: State, steps: seq<(nat, Action)>, s': State, t: nat)
    requires Inv(s) && BalancedRun(s, steps) && Run(s, steps, s')
    requires t < |s.threads| && UpToReturn(s, steps, t) && InExclusive(s.threads[t].pc)
    ensures |s'.threads| == |s.threads|
    ensures var at := EnteredAt(s.threads[t].pc);
            if InExclusive(s'.threads[t].pc) then EnteredAt(s'.threads[t].pc) == at
            else s'.threads[t] == Thread(Outside, at, 0)
    decreases |steps|
  {
    if steps != [] {
      var (u, a) := steps[0];
      var next := Next(s, u, a);
      assert Agrees(s, t);
      Keeps(s, u, a);
      assert Agrees(next, t);
      if InExclusive(next.threads[t].pc) {
        ExclusiveRestoresIrql(next, steps[1..], s', t);
      } else {
        OutsideStays(next, steps[1..], s', t);
      }
    }
  }

  lemma {:induction false} OutsideStays(s: State, steps: seq<(nat, Action)>, s': State, t: nat)
    requires Run(s, steps, s') && t < |s.threads| && UpToReturn(s, steps, t) && s.threads[t].pc.Outside?
    ensures |s'.threads| == |s.threads| && s'.threads[t] == s.threads[t]
    decreases |steps|
  {
    if steps != [] {
      OutsideStays(Next(s, steps[0].0, steps[0].1), steps[1..], s', t);
    }
  }

  lemma RunStep(s: State, t: nat, a: Action, steps: seq<(nat, Action)>, s': State)
    requires Enabled(s, t, a) && Run(Next(s, t, a), steps, s')
    ensures Run(s, [(t, a)] + steps, s')
  {
    assert ([(t, a)] + steps)[1..] == steps;
  }

  /** The calls of a thread that meets nobody, with an empty body. */
  function Calls(mode: Mode, irql: Irql): seq<Action> {
    if mode.Exclusive? then [Enter(Exclusive), AcquireResource, AcquireSpin, Destruct, ReleaseResource, LeaveRegion]
    else if Low(irql) then [Enter(Shared), AcquireResource, Destruct, LeaveRegion]
    else [Enter(Shared), AcquireSpin, Destruct]
  }

  function By(t: nat, actions: seq<Action>): seq<(nat, Action)> {
    if actions == [] then [] else [(t, actions[0])] + By(t, actions[1..])
  }

  predicate Free(s: State, t: nat) {
    && t < |s.threads| && s.threads[t].pc.Outside?
    && s.shared == {} && s.exclusive.None? && s.spin.None?
  }

  lemma ExclusiveCall(s: State, t: nat)
    requires Inv(s) && Free(s, t) && Low(s.threads[t].irql)
    ensures Run(s, By(t, Calls(Exclusive, s.threads[t].irql)), s)
  {
    var actions := Calls(Exclusive, s.threads[t].irql);
    assert Agrees(s, t);
    var s1 := Next(s, t, actions[0]);
    var s2 := Next(s1, t, actions[1]);
    var s3 := Next(s2, t, actions[2]);
    assert s3 == SetThread(s, t, Thread(Body(Exclusive, s.threads[t].irql), DISPATCH_LEVEL, 1))
                 .(exclusive := Some(t), spin := Some(t));
    ExclusiveReturn(s, t, s3);
    RunByStep(s2, t, actions, 2, s);
    RunByStep(s1, t, actions, 1, s);
    RunByStep(s, t, actions, 0, s);
    assert actions[0..] == actions;
  }

  lemma ExclusiveReturn(s: State, t: nat, s3: State)
    requires Inv(s) && Free(s, t) && Low(s.threads[t].irql)
    requires s3 == SetThread(s, t, Thread(Body(Exclusive, s.threads[t].irql), DISPATCH_LEVEL, 1))
                   .(exclusive := Some(t), spin := Some(t))
    ensures Run(s3, By(t, Calls(Exclusive, s.threads[t].irql)[3..]), s)
  {
    var actions := Calls(Exclusive, s.threads[t].irql);
    assert Agrees(s, t);
    var s4 := Next(s3, t, actions[3]);
    var s5 := Next(s4, t, actions[4]);
    assert Next(s5, t, actions[5]).threads == s.threads;
    RunBy(s, t, []);
    RunByStep(s5, t, actions, 5, s);
    RunByStep(s4, t, actions, 4, s);
    RunByStep(s3, t, actions, 3, s);
  }

  lemma SharedCall(s: State, t: nat)
    requires Inv(s) && Free(s, t) && Low(s.threads[t].irql)
    ensures Run(s, By(t, Calls(Shared, s.threads[t].irql)), s)
  {
    var actions := Calls(Shared, s.threads[t].irql);
    assert Agrees(s, t);
    var s1 := Next(s, t, actions[0]);
    var s2 := Next(s1, t, actions[1]);
    var s3 := Next(s2, t, actions[2]);
    assert Next(s3, t, actions[3]).threads == s.threads;
    RunBy(s, t, []);
    RunByStep(s3, t, actions, 3, s);
    RunByStep(s2, t, actions, 2, s);
    RunByStep(s1, t, actions, 1, s);
    RunByStep(s, t, actions, 0, s);
    assert actions[0..] == actions;
  }

  lemma RaisedCall(s: State, t: nat)
    requires Inv(s) && Free(s, t) && !Low(s.threads[t].irql)
    ensures Run(s, By(t, Calls(Shared, s.threads[t].irql)), s)
  {
    var actions := Calls(Shared, s.threads[t].irql);
    assert Agrees(s, t);
    var s1 := Next(s, t, actions[0]);
    var s2 := Next(s1, t, actions[1]);
    assert Next(s2, t, actions[2]).threads == s.threads;
    RunBy(s, t, []);
    RunByStep(s2, t, actions, 2, s);
    RunByStep(s1, t, actions, 1, s);
    RunByStep(s, t, actions, 0, s);
    assert actions[0..] == actions;
  }

  /** On a free lock a whole call is possible, at every IRQL that its mode allows, and leaves the
      thread and the lock exactly as they were. */
  lemma CallRestores(s: State, t: nat, mode: Mode)
    requires Inv(s) && Free(s, t) && (mode.Exclusive? ==> Low(s.threads[t].irql))
    ensures Run(s, By(t, Calls(mode, s.threads[t].irql)), s)
  {
    if mode.Exclusive? {
      ExclusiveCall(s, t);
    } else if Low(s.threads[t].irql) {
      SharedCall(s, t);
    } else {
      RaisedCall(s, t);
    }
  }

  lemma RunBy(s: State, t: nat, actions: seq<Action>)
    requires actions == []
    ensures Run(s, By(t, actions), s)
  {
  }

  lemma RunByStep(s: State, t: nat, actions: seq<Action>, i: nat, s': State)
    requires i < |actions| && Enabled(s, t, actions[i]) && Run(Next(s, t, actions[i]), By(t, actions[i + 1..]), s')
    ensures Run(s, By(t, actions[i..]), s')
  {
    assert actions[i..][0] == actions[i] && actions[i..][1..] == actions[i + 1..];
    RunStep(s, t, actions[i], By(t, actions[i + 1..]), s');
  }

  /** Shared bodies overlap: beside a thread that reads below DISPATCH_LEVEL another one can begin, by
      the ERESOURCE or, when nobody has the spin lock, at DISPATCH_LEVEL. */
  lemma ReadersOverlap(s: State, t: nat, u: nat) returns (steps: seq<(nat, Action)>, s': State)
    requires Inv(s) && t < |s.threads| && u < |s.threads| && t != u
    requires s.threads[u].pc.Body? && s.threads[u].pc.mode.Shared? && Low(s.threads[u].pc.at)
    requires s.threads[t].pc.Outside? && (!Low(s.threads[t].irql) ==> s.spin.None?)
    ensures BalancedRun(s, steps) && Run(s, steps, s')
    ensures |s'.threads| == |s.threads|
    ensures s'.threads[t].pc == Body(Shared, s.threads[t].irql) && s'.threads[u] == s.threads[u]
  {
    assert Agrees(s, u) && Agrees(s, t);
    var s1 := Next(s, t, Enter(Shared));
    var a := if Low(s.threads[t].irql) then AcquireResource else AcquireSpin;
    s' := Next(s1, t, a);
    RunStep(s1, t, a, [], s');
    RunStep(s, t, Enter(Shared), [(t, a)] + [], s');
    steps := [(t, Enter(Shared))] + ([(t, a)] + []);
    assert steps[1..] == [(t, a)] && [(t, a)][1..] == [];
    assert BalancedRun(s', []);
    assert BalancedRun(s1, [(t, a)]);
  }

  lemma InitialInv(s: State)
    requires Initial(s)
    ensures Inv(s)
  {
  }

  /** One thread that raises the IRQL in a shared body releases a spin lock it never took. */
  lemma RaisedBodyFaults()
    ensures var s0 := State([Thread(Outside, PASSIVE_LEVEL, 0)], {}, None, None, false);
            exists s: State :: s.fault
              && Run(s0, [(0, Enter(Shared)), (0, AcquireResource), (0, SetIrql(DISPATCH_LEVEL)), (0, Destruct)], s)
  {
    var s0 := State([Thread(Outside, PASSIVE_LEVEL, 0)], {}, None, None, false);
    var s1 := Next(s0, 0, Enter(Shared));
    var s2 := Next(s1, 0, AcquireResource);
    var s3 := Next(s2, 0, SetIrql(DISPATCH_LEVEL));
    var s4 := Next(s3, 0, Destruct);
    var l: seq<(nat, Action)> := [(0, Destruct)];
    assert Run(s4, [], s4);
    assert Run(s3, l, s4) by { assert l[1..] == []; }
    var l2 := [(0, SetIrql(DISPATCH_LEVEL))] + l;
    assert Run(s2, l2, s4) by { assert l2[1..] == l; }
    var l1 := [(0, AcquireResource)] + l2;
    assert Run(s1, l1, s4) by { assert l1[1..] == l2; }
    var l0 := [(0, Enter(Shared))] + l1;
    assert Run(s0, l0, s4) by { assert l0[1..] == l1; }
    assert l0 == [(0, Enter(Shared)), (0, AcquireResource), (0, SetIrql(DISPATCH_LEVEL)), (0, Destruct)];
  }
}
