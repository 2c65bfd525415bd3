/** LpcServLib.cpp, the table of clients, and what one message does to it, on values.

  `C` is the type of a client context's address. */
module LpcProtocol {
  import opened Wrappers

  const SLOTS := 10
  const CLIENT_MAGIC := 0xDEADBEEF
  const SERVER_MAGIC := 0xCAFEDEAD

  type Pid = n: int | 0 <= n < 0x1_0000_0000_0000_0000
  type Handle = nat

  datatype Client<C> = Client(context: C, port: Handle, pid: Pid)

  /** `live` are the contexts that are allocated, `open` the communication ports that are open and
      `connected` the contexts the kernel may still send messages for. */
  datatype Server<C> = Server(
    table: seq<Option<Client<C>>>, live: set<C>, open: set<Handle>, connected: set<C>)

  /** The answers of the kernel to one connection request. */
  datatype Reply = Reply(acceptOk: bool, port: Option<Handle>, completeOk: bool)

  datatype Message<C> =
    | ConnectionRequest(pid: Pid, magic: int, context: C, reply: Reply)
    | PortClosed(closed: Option<C>)
    | Request(from: C)
    | Datagram
    | Nothing                        // a timeout or a failed receive

  /** AcceptConnect, when the server was started with callbacks. */
  type Callback = Option<(Pid, bool) -> bool>

  // ---- the searches ----

  ghost predicate IsFree<C>(table: seq<Option<Client<C>>>, i: int) {
    0 <= i < |table| && table[i].None?
  }

  ghost predicate HasContext<C>(table: seq<Option<Client<C>>>, i: int, c: C) {
    0 <= i < |table| && table[i].Some? && table[i].value.context == c
  }

  ghost predicate HasPort<C>(table: seq<Option<Client<C>>>, i: int, h: Handle) {
    0 <= i < |table| && table[i].Some? && table[i].value.port == h
  }

  ghost predicate HasPid<C>(table: seq<Option<Client<C>>>, i: int, pid: Pid) {
    0 <= i < |table| && table[i].Some? && table[i].value.pid == pid
  }

  /** The first free slot, or the length of the table. */
  ghost function FreeSlot<C>(table: seq<Option<Client<C>>>): (k: nat)
    ensures k <= |table| && (k < |table| ==> IsFree(table, k))
    ensures forall i | 0 <= i < k :: !IsFree(table, i)
  {
    if table == [] || table[0].None? then 0
    else
      var k := FreeSlot(table[1..]);
      assert forall i | 1 <= i < k + 1 :: IsFree(table, i) <==> IsFree(table[1..], i - 1);
      k + 1
  }

  ghost predicate PidConnected<C>(table: seq<Option<Client<C>>>, pid: Pid) {
    exists i :: HasPid(table, i, pid)
  }

  ghost predicate Accepts<C>(table: seq<Option<Client<C>>>, callback: Callback, pid: Pid, magic: int) {
    && FreeSlot(table) < |table|
    && callback.Some? && callback.value(pid, PidConnected(table, pid))
    && magic == CLIENT_MAGIC
  }

  // ---- one message ----

  ghost predicate Enters<C>(s: Server<C>, callback: Callback, m: Message<C>)
    requires m.ConnectionRequest?
  {
    && Accepts(s.table, callback, m.pid, m.magic)
    && m.reply.acceptOk && m.reply.port.Some? && m.reply.completeOk
  }

  ghost function Step<C>(s: Server<C>, callback: Callback, m: Message<C>): Server<C> {
    match m
    case ConnectionRequest(pid, _, context, reply) =>
      if Enters(s, callback, m) then
        Server(s.table[FreeSlot(s.table) := Some(Client(context, reply.port.value, pid))],
               s.live + {context}, s.open + {reply.port.value}, s.connected + {context})
      else s
    case PortClosed(closed) =>
      if closed.None? then s
      else if i :| HasContext(s.table, i, closed.value) then
        Server(s.table[i := None], s.live - {closed.value}, s.open - {s.table[i].value.port},
               s.connected - {closed.value})
      else s.(connected := s.connected - {closed.value})
    case Request(_) => s
    case Datagram => s
    case Nothing => s
  }

  /** What is assumed of the kernel: a failed accept gives no port, new handles and new contexts are
      not in use, and requests come from connected clients. */
  ghost predicate KernelOk<C>(s: Server<C>, m: Message<C>) {
    match m
    case ConnectionRequest(_, _, context, reply) =>
      && context !in s.live
      && (!reply.acceptOk ==> reply.port.None?)
      && (reply.port.Some? ==> reply.port.value !in s.open)
    case Request(from) => from in s.connected
    case _ => true
  }

  // ---- ownership ----

  ghost predicate Separate<C>(table: seq<Option<Client<C>>>) {
    forall i, j | 0 <= i < j < |table| && table[i].Some? && table[j].Some? ::
      table[i].value.context != table[j].value.context && table[i].value.port != table[j].value.port
  }

  ghost predicate InUse<C>(table: seq<Option<Client<C>>>, live: set<C>, open: set<Handle>) {
    forall i | 0 <= i < |table| && table[i].Some? :: table[i].value.context in live && table[i].value.port in open
  }

  ghost predicate NoLostContext<C>(table: seq<Option<Client<C>>>, live: set<C>) {
    forall c | c in live :: exists i :: HasContext(table, i, c)
  }

  ghost predicate NoLostPort<C>(table: seq<Option<Client<C>>>, open: set<Handle>) {
    forall h | h in open :: exists i :: HasPort(table, i, h)
  }

  /** Every allocated context and every open port belongs to exactly one slot. */
  ghost predicate Inv<C>(s: Server<C>) {
    && |s.table| == SLOTS
    && Separate(s.table) && InUse(s.table, s.live, s.open)
    && NoLostContext(s.table, s.live) && NoLostPort(s.table, s.open)
    && s.connected == s.live
  }

  /** A context sits in one slot only, and is allocated with its port open. */
  lemma UniqueSlot<C>(s: Server<C>, i: nat)
    requires Inv(s) && i < SLOTS && s.table[i].Some?
    ensures s.table[i].value.context in s.live && s.table[i].value.port in s.open
    ensures forall j | HasContext(s.table, j, s.table[i].value.context) :: j == i
  {
  }

  lemma SlotOf<C>(s: Server<C>, c: C) returns (i: nat)
    requires Inv(s) && c in s.connected
    ensures i < SLOTS && HasContext(s.table, i, c) && c in s.live && s.table[i].value.port in s.open
  {
    i :| HasContext(s.table, i, c);
  }

  lemma EnterSeparate<C>(table: seq<Option<Client<C>>>, live: set<C>, open: set<Handle>, i: nat, c: Client<C>)
    requires IsFree(table, i) && Separate(table) && InUse(table, live, open)
    requires c.context !in live && c.port !in open
    ensures Separate(table[i := Some(c)])
    ensures InUse(table[i := Some(c)], live + {c.context}, open + {c.port})
  {
  }

  lemma EnterNoLost<C>(table: seq<Option<Client<C>>>, live: set<C>, open: set<Handle>, i: nat, c: Client<C>)
    requires IsFree(table, i) && NoLostContext(table, live) && NoLostPort(table, open)
    ensures NoLostContext(table[i := Some(c)], live + {c.context})
    ensures NoLostPort(table[i := Some(c)], open + {c.port})
  {
    var t := table[i := Some(c)];
    assert HasContext(t, i, c.context) && HasPort(t, i, c.port);
    forall x | x in live ensures exists j :: HasContext(t, j, x) {
      var j :| HasContext(table, j, x);
      assert HasContext(t, j, x);
    }
    forall h | h in open ensures exists j :: HasPort(t, j, h) {
      var j :| HasPort(table, j, h);
      assert HasPort(t, j, h);
    }
  }

  lemma LeaveSeparate<C>(table: seq<Option<Client<C>>>, live: set<C>, open: set<Handle>, i: nat)
    requires i < |table| && table[i].Some? && Separate(table) && InUse(table, live, open)
    ensures Separate(table[i := None])
    ensures InUse(table[i := None], live - {table[i].value.context}, open - {table[i].value.port})
  {
  }

  lemma LeaveNoLost<C>(table: seq<Option<Client<C>>>, live: set<C>, open: set<Handle>, i: nat)
    requires i < |table| && table[i].Some? && NoLostContext(table, live) && NoLostPort(table, open)
    ensures NoLostContext(table[i := None], live - {table[i].value.context})
    ensures NoLostPort(table[i := None], open - {table[i].value.port})
  {
    var c, t := table[i].value, table[i := None];
    forall x | x in live && x != c.context ensures exists j :: HasContext(t, j, x) {
      var j :| HasContext(table, j, x);
      assert HasContext(t, j, x);
    }
    forall h | h in open && h != c.port ensures exists j :: HasPort(t, j, h) {
      var j :| HasPort(table, j, h);
      assert HasPort(t, j, h);
    }
  }

  lemma StepKeeps<C>(s: Server<C>, callback: Callback, m: Message<C>)
    requires Inv(s) && KernelOk(s, m)
    ensures Inv(Step(s, callback, m))
  {
    if m.ConnectionRequest? && Enters(s, callback, m) {
      var i, c := FreeSlot(s.table), Client(m.context, m.reply.port.value, m.pid);
      EnterSeparate(s.table, s.live, s.open, i, c);
      EnterNoLost(s.table, s.live, s.open, i, c);
    } else if m.PortClosed? && m.closed.Some? {
      if i :| HasContext(s.table, i, m.closed.value) {
        assert forall j | HasContext(s.table, j, m.closed.value) :: j == i;
        LeaveSeparate(s.table, s.live, s.open, i);
        LeaveNoLost(s.table, s.live, s.open, i);
      }
    }
  }

  // ---- all runs ----

  ghost function Run<C>(s: Server<C>, callback: Callback, ms: seq<Message<C>>): Server<C>
    decreases |ms|
  {
    if ms == [] then s else Run(Step(s, callback, ms[0]), callback, ms[1..])
  }

  ghost predicate RunOk<C>(s: Server<C>, callback: Callback, ms: seq<Message<C>>)
    decreases |ms|
  {
    ms == [] || (KernelOk(s, ms[0]) && RunOk(Step(s, callback, ms[0]), callback, ms[1..]))
  }

  function Empty<C>(): Server<C> {
    Server(seq(SLOTS, _ => None), {}, {}, {})
  }

  /** Whatever messages arrive and whatever calls fail, nothing is lost and nothing is shared; and a
      request, which the loop answers through its context, always finds that context allocated. */
  lemma {:induction false} RunKeeps<C>(s: Server<C>, callback: Callback, ms: seq<Message<C>>)
    requires Inv(s) && RunOk(s, callback, ms)
    ensures Inv(Run(s, callback, ms))
    decreases |ms|
  {
    if ms != [] {
      StepKeeps(s, callback, ms[0]);
      RunKeeps(Step(s, callback, ms[0]), callback, ms[1..]);
    }
  }

  lemma RunFromEmpty<C>(callback: Callback, ms: seq<Message<C>>)
    requires RunOk(Empty<C>(), callback, ms)
    ensures Inv(Run(Empty<C>(), callback, ms))
  {
    RunKeeps(Empty<C>(), callback, ms);
  }

  // ---- the accept policy of the service ----

  /** MyServerCallbacks::AcceptConnect. The process id is cut to 32 bits before it is compared. */
  function ServicePolicy(debug: bool): Callback {
    Some((pid: Pid, connected: bool) => if Exempt(debug, pid) then true else !connected)
  }

  predicate Exempt(debug: bool, pid: Pid) {
    !debug && pid % 0x1_0000_0000 == 4
  }

  ghost predicate PidsDistinct<C>(table: seq<Option<Client<C>>>, debug: bool) {
    forall i, j, pid | i != j && HasPid(table, i, pid) && HasPid(table, j, pid) :: Exempt(debug, pid)
  }

  lemma {:induction false} PidsStayDistinct<C>(s: Server<C>, debug: bool, ms: seq<Message<C>>)
    requires PidsDistinct(s.table, debug)
    ensures PidsDistinct(Run(s, ServicePolicy(debug), ms).table, debug)
    ensures forall i, j, pid | i != j && HasPid(Run(s, ServicePolicy(debug), ms).table, i, pid)
              && HasPid(Run(s, ServicePolicy(debug), ms).table, j, pid) :: !debug && pid % 0x1_0000_0000 == 4
    decreases |ms|
  {
    if ms != [] {
      var s' := Step(s, ServicePolicy(debug), ms[0]);
      forall i, j, pid | i != j && HasPid(s'.table, i, pid) && HasPid(s'.table, j, pid) ensures Exempt(debug, pid) {
        if HasPid(s.table, i, pid) && HasPid(s.table, j, pid) {
        } else if HasPid(s.table, i, pid) || HasPid(s.table, j, pid) {
          assert PidConnected(s.table, pid);
        }
      }
      PidsStayDistinct(s', debug, ms[1..]);
    }
  }

  /** The exception is real: a process whose id ends in the 32 bits of 4 connects twice. */
  lemma ExemptPidTwice(pid: Pid)
    requires pid % 0x1_0000_0000 == 4
    ensures var ms := [ConnectionRequest(pid, CLIENT_MAGIC, 1, Reply(true, Some(1), true)),
                       ConnectionRequest(pid, CLIENT_MAGIC, 2, Reply(true, Some(2), true))];
            && RunOk(Empty<nat>(), ServicePolicy(false), ms)
            && exists i, j :: i != j && HasPid(Run(Empty<nat>(), ServicePolicy(false), ms).table, i, pid)
                           && HasPid(Run(Empty<nat>(), ServicePolicy(false), ms).table, j, pid)
  {
    var p, s0 := ServicePolicy(false), Empty<nat>();
    var m1 := ConnectionRequest(pid, CLIENT_MAGIC, 1, Reply(true, Some(1), true));
    var m2 := ConnectionRequest(pid, CLIENT_MAGIC, 2, Reply(true, Some(2), true));
    assert IsFree(s0.table, 0) && FreeSlot(s0.table) == 0;
    var s1 := Step(s0, p, m1);
    assert IsFree(s1.table, 1) && !IsFree(s1.table, 0) && FreeSlot(s1.table) == 1;
    var s2 := Step(s1, p, m2);
    assert [m1, m2][1..] == [m2] && [m2][1..] == [];
    assert Run(s2, p, []) == s2;
    assert Run(s1, p, [m2]) == s2;
    assert Run(s0, p, [m1, m2]) == s2;
    assert RunOk(s1, p, [m2]);
    assert HasPid(s2.table, 0, pid) && HasPid(s2.table, 1, pid);
  }

  // ---- a message, slot by slot ----

  ghost predicate Granted<C>(s: Server<C>, callback: Callback, m: Message<C>)
    requires m.ConnectionRequest?
  {
    && (exists k | 0 <= k < |s.table| :: s.table[k].None?)
    && callback.Some?
    && callback.value(m.pid, exists k | 0 <= k < |s.table| :: s.table[k].Some? && s.table[k].value.pid == m.pid)
    && m.magic == 0xDEADBEEF
    && m.reply.acceptOk && m.reply.port.Some? && m.reply.completeOk
  }

  /** A request fills the first free slot, or changes nothing; it is granted exactly when there is a
      free slot, the callback agrees, the number is right and no call of the kernel fails. */
  lemma RequestExactly<C>(s: Server<C>, callback: Callback, m: Message<C>) returns (k: nat)
    requires m.ConnectionRequest?
    ensures var s' := Step(s, callback, m);
            if !Granted(s, callback, m) then s' == s
            else
              && k < |s.table| == |s'.table| && s.table[k].None? && (forall j | 0 <= j < k :: s.table[j].Some?)
              && s'.table[k] == Some(Client(m.context, m.reply.port.value, m.pid))
              && (forall j | 0 <= j < |s.table| && j != k :: s'.table[j] == s.table[j])
              && s'.live == s.live + {m.context} && s'.open == s.open + {m.reply.port.value}
              && s'.connected == s.connected + {m.context}
  {
    k := FreeSlot(s.table);
    forall i ensures IsFree(s.table, i) <==> 0 <= i < |s.table| && s.table[i].None? {
    }
    forall j | 0 <= j < k ensures s.table[j].Some? {
      assert !IsFree(s.table, j);
    }
    assert PidConnected(s.table, m.pid)
           <==> exists i | 0 <= i < |s.table| :: s.table[i].Some? && s.table[i].value.pid == m.pid by {
      if PidConnected(s.table, m.pid) {
        var i :| HasPid(s.table, i, m.pid);
        assert s.table[i].Some? && s.table[i].value.pid == m.pid;
      }
      if i :| 0 <= i < |s.table| && s.table[i].Some? && s.table[i].value.pid == m.pid {
        assert HasPid(s.table, i, m.pid);
      }
    }
    if i :| 0 <= i < |s.table| && s.table[i].None? {
      assert IsFree(s.table, i);
    }
  }

  /** A close empties exactly the slot of its context, and closes exactly that slot's port. */
  lemma CloseExactly<C>(s: Server<C>, callback: Callback, c: C)
    requires Inv(s)
    ensures var s' := Step(s, callback, PortClosed(Some(c)));
            && |s'.table| == |s.table|
            && (forall k | 0 <= k < |s.table| ::
                  s'.table[k] == if s.table[k].Some? && s.table[k].value.context == c then None else s.table[k])
            && s'.live == s.live - {c} && s'.connected == s.connected - {c}
            && (forall h :: h in s'.open <==> h in s.open && !PortOf(s.table, c, h))
  {
    if i :| HasContext(s.table, i, c) {
      UniqueSlot(s, i);
      assert PortOf(s.table, c, s.table[i].value.port);
    } else {
      forall k | 0 <= k < |s.table| && s.table[k].Some? ensures s.table[k].value.context != c {
        assert !HasContext(s.table, k, c);
      }
      assert c !in s.live;
    }
  }

  ghost predicate PortOf<C>(table: seq<Option<Client<C>>>, c: C, h: Handle) {
    exists k | 0 <= k < |table| :: table[k].Some? && table[k].value.context == c && table[k].value.port == h
  }

  /** The first `k` slots hold the first `k` processes. */
  ghost predicate Filled(s: Server<nat>, pids: seq<Pid>, k: nat) {
    && k <= |pids| && |s.table| == 10
    && (forall i: nat | i < 10 :: if i < k then s.table[i] == Some(Client(i, i, pids[i])) else s.table[i].None?)
    && (forall c | c in s.live :: c < k) && (forall h | h in s.open :: h < k)
  }

  lemma FillOne(s: Server<nat>, debug: bool, pids: seq<Pid>, k: nat)
    requires Filled(s, pids, k) && k < |pids| <= 10 && forall i, j | 0 <= i < j < |pids| :: pids[i] != pids[j]
    ensures var m := ConnectionRequest(pids[k], 0xDEADBEEF, k, Reply(true, Some(k), true));
            KernelOk(s, m) && Filled(Step(s, ServicePolicy(debug), m), pids, k + 1)
  {
    var m := ConnectionRequest(pids[k], 0xDEADBEEF, k, Reply(true, Some(k), true));
    assert s.table[k].None?;
    var j := RequestExactly(s, ServicePolicy(debug), m);
  }

  /** From the empty table the service lets in any ten different processes, each into its own slot. */
  lemma TenProcesses(debug: bool, pids: seq<Pid>) returns (ms: seq<Message<nat>>)
    requires |pids| == 10 && forall i, j | 0 <= i < j < 10 :: pids[i] != pids[j]
    ensures RunOk(Empty<nat>(), ServicePolicy(debug), ms)
    ensures var table := Run(Empty<nat>(), ServicePolicy(debug), ms).table;
            |table| == 10 && forall i: nat | i < 10 :: table[i] == Some(Client(i, i, pids[i]))
  {
    ms := LetsTenIn(Empty<nat>(), debug, pids, 0);
  }

  lemma {:induction false} LetsTenIn(s: Server<nat>, debug: bool, pids: seq<Pid>, k: nat) returns (ms: seq<Message<nat>>)
    requires Filled(s, pids, k) && |pids| <= 10 && forall i, j | 0 <= i < j < |pids| :: pids[i] != pids[j]
    ensures RunOk(s, ServicePolicy(debug), ms) && Filled(Run(s, ServicePolicy(debug), ms), pids, |pids|)
    decreases |pids| - k
  {
    ms := [];
    if k < |pids| {
      var m := ConnectionRequest(pids[k], 0xDEADBEEF, k, Reply(true, Some(k), true));
      FillOne(s, debug, pids, k);
      var rest := LetsTenIn(Step(s, ServicePolicy(debug), m), debug, pids, k + 1);
      ms := [m] + rest;
      assert ms[1..] == rest;
    }
  }
}
