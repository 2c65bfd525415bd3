/** The handshake of LpcClientLib.cpp and LpcServLib.cpp: any number of client programs and the
  message loop of one server, with the kernel between them. */
module LpcHandshake {
  import opened Wrappers
  import opened LpcProtocol

  type Context = nat

  /** A client program. A program that uses the client library sends 0xDEADBEEF. */
  datatype Peer = Peer(pid: Pid, library: bool, pc: PeerPc)

  datatype PeerPc =
    | Stopped
    | Requesting(magic: int)                    // inside ZwConnectPort
    | Connected(context: Context, answer: int)  // ZwConnectPort succeeded; the answer is not checked yet
    | Started(context: Context)                 // Start returned TRUE

  /** Where the loop stands inside LPC_CONNECTION_REQUEST. */
  datatype Loop =
    | Head
    | Deciding(i: nat)
    | Completing(i: nat, magic: int, context: Context, port: Handle)
    | Storing(i: nat, magic: int, context: Context, port: Handle)

  datatype Grant = Grant(pid: Pid, magic: int)

  /** `closing` are the LPC_PORT_CLOSED messages under way, `used` all contexts ever allocated and
      `granted` the requests for which a port was opened. `joined` are the connections for which Start
      returned TRUE and the server has not processed a close, with the client's process id. */
  datatype System = System(
    peers: seq<Peer>, loop: Loop, server: Server<Context>,
    closing: set<Context>, used: set<Context>, granted: map<Context, Grant>,
    joined: map<Context, Pid>)

  datatype Action =
    | PeerStart(i: nat, magic: int)
    | PeerChecks(i: nat)                        // the client looks at the answer
    | PeerCloses(i: nat)                        // Stop, or the process ends
    | Receive(i: nat)
    | Accept(context: Context, port: Option<Handle>)
    | Complete(ok: bool, notice: bool)          // `notice`: a failed completion is announced as a close
    | Store
    | ReceiveClosed(context: Context)

  ghost predicate Enabled(s: System, a: Action) {
    match a
    case PeerStart(i, magic) =>
      i < |s.peers| && s.peers[i].pc.Stopped? && (s.peers[i].library ==> magic == CLIENT_MAGIC)
    case PeerChecks(i) => i < |s.peers| && s.peers[i].pc.Connected?
    case PeerCloses(i) => i < |s.peers| && (s.peers[i].pc.Connected? || s.peers[i].pc.Started?)
    case Receive(i) => s.loop.Head? && i < |s.peers| && s.peers[i].pc.Requesting?
    case Accept(context, port) =>
      s.loop.Deciding? && context !in s.used && (port.Some? ==> port.value !in s.server.open)
    case Complete(_, _) => s.loop.Completing?
    case Store => s.loop.Storing?
    case ReceiveClosed(context) => s.loop.Head? && context in s.closing
  }

  ghost function SetPc(s: System, i: nat, pc: PeerPc): System
    requires i < |s.peers|
  {
    s.(peers := s.peers[i := s.peers[i].(pc := pc)])
  }

  function Request(s: System): Message<Context>
    requires s.loop.Storing? && s.loop.i < |s.peers|
  {
    ConnectionRequest(s.peers[s.loop.i].pid, s.loop.magic, s.loop.context, Reply(true, Some(s.loop.port), true))
  }

  ghost function Next(s: System, callback: Callback, a: Action): System
    requires Enabled(s, a) && LoopOk(s, callback)
  {
    match a
    case PeerStart(i, magic) => SetPc(s, i, Requesting(magic))
    case PeerChecks(i) =>
      var pc := s.peers[i].pc;
      if s.peers[i].library && pc.answer != SERVER_MAGIC
      then SetPc(s, i, Stopped).(closing := s.closing + {pc.context})
      else SetPc(s, i, Started(pc.context)).(joined := s.joined[pc.context := s.peers[i].pid])
    case PeerCloses(i) => SetPc(s, i, Stopped).(closing := s.closing + {s.peers[i].pc.context})
    case Receive(i) => s.(loop := Deciding(i))
    case Accept(context, port) =>
      var i := s.loop.i;
      var magic := s.peers[i].pc.magic;
      if port.None? || !Accepts(s.server.table, callback, s.peers[i].pid, magic)
      then SetPc(s, i, Stopped).(loop := Head, used := s.used + {context})
      else s.(loop := Completing(i, magic, context, port.value), used := s.used + {context},
              granted := s.granted[context := Grant(s.peers[i].pid, magic)])
    case Complete(ok, notice) =>
      var Completing(i, magic, context, port) := s.loop;
      if ok then SetPc(s, i, Connected(context, SERVER_MAGIC)).(loop := Storing(i, magic, context, port))
      else SetPc(s, i, Stopped).(loop := Head, closing := if notice then s.closing + {context} else s.closing)
    case Store => s.(loop := Head, server := Step(s.server, callback, Request(s)))
    case ReceiveClosed(context) =>
      s.(closing := s.closing - {context}, joined := s.joined - {context}, server := Step(s.server, callback, PortClosed(Some(context))))
  }

  // ---- invariant ----

  predicate HasConnection(p: Peer, c: Context) {
    (p.pc.Connected? || p.pc.Started?) && p.pc.context == c
  }

  /** The loop works on a request that is still pending, and has decided on the table as it is. */
  ghost predicate LoopOk(s: System, callback: Callback) {
    match s.loop
    case Head => true
    case Deciding(i) => i < |s.peers| && s.peers[i].pc.Requesting?
    case Completing(i, magic, context, port) =>
      && i < |s.peers| && s.peers[i].pc == Requesting(magic)
      && NewClient(s, callback, i, magic, context, port)
      && context !in s.closing && forall j | 0 <= j < |s.peers| :: !HasConnection(s.peers[j], context)
    case Storing(i, magic, context, port) =>
      && i < |s.peers|
      && NewClient(s, callback, i, magic, context, port)
  }

  ghost predicate NewClient(s: System, callback: Callback, i: nat, magic: int, context: Context, port: Handle)
    requires i < |s.peers|
  {
    && Accepts(s.server.table, callback, s.peers[i].pid, magic)
    && context in s.used && context !in s.server.live && port !in s.server.open
    && context in s.granted && s.granted[context] == Grant(s.peers[i].pid, magic)
  }

  /** The slot of a connection, or its place in the loop just before the slot is filled. */
  ghost predicate Placed(s: System, j: nat, c: Context)
    requires j < |s.peers|
  {
    || (s.loop.Storing? && s.loop.context == c && s.loop.i == j)
    || exists k :: HasContext(s.server.table, k, c)
  }

  ghost predicate SlotOk(s: System, k: nat)
    requires k < |s.server.table| && s.server.table[k].Some?
  {
    var c := s.server.table[k].value;
    && c.context in s.granted && s.granted[c.context] == Grant(c.pid, 0xDEADBEEF)
  }

  ghost predicate PeerOk(s: System, j: nat)
    requires j < |s.peers|
  {
    var p := s.peers[j];
    p.pc.Connected? || p.pc.Started? ==>
      && p.pc.context in s.used && p.pc.context !in s.closing && Placed(s, j, p.pc.context)
      && p.pc.context in s.granted && s.granted[p.pc.context].pid == p.pid
      && (p.pc.Started? ==> p.pc.context in s.joined)
  }

  /** A joined connection has a slot, or is in the loop just before its slot is filled. */
  ghost predicate JoinedOk(s: System, c: Context)
    requires c in s.joined
  {
    && c in s.granted && s.granted[c].pid == s.joined[c]
    && ((s.loop.Storing? && s.loop.context == c) || exists k :: HasContext(s.server.table, k, c))
  }

  /** A context that the loop works on or that has a slot is a client's, or its close is under way. */
  ghost predicate Accounted(s: System, c: Context) {
    c in s.closing || exists j :: 0 <= j < |s.peers| && HasConnection(s.peers[j], c)
  }

  ghost predicate Good(s: System, callback: Callback) {
    && Inv(s.server) && LoopOk(s, callback)
    && s.server.live <= s.used && s.closing <= s.used && s.granted.Keys <= s.used
    && (forall j | 0 <= j < |s.peers| :: PeerOk(s, j))
    && Apart(s)
    && (forall c | c in s.joined :: JoinedOk(s, c))
    && (forall k | 0 <= k < SLOTS && s.server.table[k].Some? ::
          SlotOk(s, k) && Accounted(s, s.server.table[k].value.context))
    && (s.loop.Storing? ==> Accounted(s, s.loop.context))
  }

  lemma PeerKeepsAccounted(s: System, callback: Callback, a: Action, c: Context)
    requires LoopOk(s, callback) && Enabled(s, a) && (a.PeerStart? || a.PeerChecks? || a.PeerCloses?)
    requires Accounted(s, c)
    ensures Accounted(Next(s, callback, a), c)
  {
    if c !in s.closing {
      var j :| 0 <= j < |s.peers| && HasConnection(s.peers[j], c);
      assert HasConnection(Next(s, callback, a).peers[j], c) || c in Next(s, callback, a).closing;
    }
  }

  lemma PeerClosingUsed(s: System, callback: Callback, a: Action)
    requires LoopOk(s, callback) && Enabled(s, a) && (a.PeerStart? || a.PeerChecks? || a.PeerCloses?)
    requires s.closing <= s.used && PeerOk(s, a.i)
    ensures Next(s, callback, a).closing <= Next(s, callback, a).used
  {
  }

  ghost predicate Apart(s: System) {
    forall j, k, c | 0 <= j < k < |s.peers| && HasConnection(s.peers[j], c) :: !HasConnection(s.peers[k], c)
  }

  /** The contexts of two connections differ, so one client's close leaves the others alone. */
  lemma PeerKeepsPeer(s: System, callback: Callback, a: Action, j: nat)
    requires LoopOk(s, callback) && Enabled(s, a) && (a.PeerStart? || a.PeerChecks? || a.PeerCloses?)
    requires j < |s.peers| && PeerOk(s, j) && Apart(s)
    ensures PeerOk(Next(s, callback, a), j)
  {
    var s' := Next(s, callback, a);
    if j != a.i && (s.peers[j].pc.Connected? || s.peers[j].pc.Started?) {
      var c := s.peers[j].pc.context;
      assert HasConnection(s.peers[j], c) && !HasConnection(s.peers[a.i], c);
    }
  }

  lemma PeerKeepsLoop(s: System, callback: Callback, a: Action)
    requires LoopOk(s, callback) && Enabled(s, a) && (a.PeerStart? || a.PeerChecks? || a.PeerCloses?)
    requires Apart(s)
    ensures LoopOk(Next(s, callback, a), callback) && Apart(Next(s, callback, a))
  {
    var s' := Next(s, callback, a);
    assert forall j, c | 0 <= j < |s.peers| && HasConnection(s'.peers[j], c) :: HasConnection(s.peers[j], c);
  }

  lemma PeerKeepsJoined(s: System, callback: Callback, a: Action, c: Context)
    requires LoopOk(s, callback) && Enabled(s, a) && (a.PeerStart? || a.PeerChecks? || a.PeerCloses?)
    requires PeerOk(s, a.i) && (c in s.joined ==> JoinedOk(s, c)) && c in Next(s, callback, a).joined
    ensures JoinedOk(Next(s, callback, a), c)
  {
  }

  lemma PeerKeeps(s: System, callback: Callback, a: Action)
    requires Good(s, callback) && Enabled(s, a) && (a.PeerStart? || a.PeerChecks? || a.PeerCloses?)
    ensures Good(Next(s, callback, a), callback)
  {
    var s' := Next(s, callback, a);
    assert PeerOk(s, a.i);
    PeerClosingUsed(s, callback, a);
    PeerKeepsLoop(s, callback, a);
    forall j | 0 <= j < |s'.peers| ensures PeerOk(s', j) {
      PeerKeepsPeer(s, callback, a, j);
    }
    forall c | c in s'.joined ensures JoinedOk(s', c) {
      PeerKeepsJoined(s, callback, a, c);
    }
    forall k | 0 <= k < SLOTS && s'.server.table[k].Some?
      ensures SlotOk(s', k) && Accounted(s', s'.server.table[k].value.context) {
      assert SlotOk(s, k);
      PeerKeepsAccounted(s, callback, a, s.server.table[k].value.context);
    }
    if s.loop.Storing? {
      PeerKeepsAccounted(s, callback, a, s.loop.context);
    }
  }

  predicate Refuses(a: Action) {
    a.Receive? || a.Accept? || (a.Complete? && !a.ok)
  }

  /** A connection that exists is not touched. */
  lemma RefuseKeepsPeer(s: System, callback: Callback, a: Action, j: nat)
    requires LoopOk(s, callback) && Enabled(s, a) && Refuses(a)
    requires j < |s.peers| && PeerOk(s, j) && s.granted.Keys <= s.used
    ensures PeerOk(Next(s, callback, a), j)
    ensures forall c :: HasConnection(Next(s, callback, a).peers[j], c) <==> HasConnection(s.peers[j], c)
  {
  }

  lemma RefuseKeepsSlot(s: System, callback: Callback, a: Action, k: nat)
    requires LoopOk(s, callback) && Enabled(s, a) && Refuses(a)
    requires k < |s.server.table| && s.server.table[k].Some? && SlotOk(s, k)
    requires s.granted.Keys <= s.used && Accounted(s, s.server.table[k].value.context)
    ensures SlotOk(Next(s, callback, a), k) && Accounted(Next(s, callback, a), s.server.table[k].value.context)
  {
    var s', c := Next(s, callback, a), s.server.table[k].value.context;
    if c !in s.closing {
      var j :| 0 <= j < |s.peers| && HasConnection(s.peers[j], c);
      assert HasConnection(s'.peers[j], c);
    }
  }

  /** The loop moves on without a new connection, and the client may have been turned away. */
  lemma RefuseKeeps(s: System, callback: Callback, a: Action)
    requires Good(s, callback) && Enabled(s, a) && Refuses(a)
    ensures Good(Next(s, callback, a), callback)
  {
    var s' := Next(s, callback, a);
    forall j | 0 <= j < |s'.peers|
      ensures PeerOk(s', j) && forall c :: HasConnection(s'.peers[j], c) <==> HasConnection(s.peers[j], c) {
      RefuseKeepsPeer(s, callback, a, j);
    }
    forall k | 0 <= k < SLOTS && s'.server.table[k].Some?
      ensures SlotOk(s', k) && Accounted(s', s'.server.table[k].value.context) {
      RefuseKeepsSlot(s, callback, a, k);
    }
    forall c | c in s'.joined ensures JoinedOk(s', c) {
      assert JoinedOk(s, c);
    }
    if s'.loop.Completing? {
      forall j | 0 <= j < |s'.peers| ensures !HasConnection(s'.peers[j], s'.loop.context) {
        assert PeerOk(s, j);
      }
    }
  }

  lemma CompleteKeeps(s: System, callback: Callback, a: Action)
    requires Good(s, callback) && Enabled(s, a) && a.Complete? && a.ok
    ensures Good(Next(s, callback, a), callback)
  {
    var s' := Next(s, callback, a);
    var i, context := s.loop.i, s.loop.context;
    assert HasConnection(s'.peers[i], context);
    forall j, c | 0 <= j < |s.peers| && HasConnection(s.peers[j], c) ensures HasConnection(s'.peers[j], c) {
    }
    forall j | 0 <= j < |s'.peers| ensures PeerOk(s', j) {
      assert PeerOk(s, j);
    }
    forall c | c in s'.joined ensures JoinedOk(s', c) {
      assert JoinedOk(s, c);
    }
    forall k | 0 <= k < SLOTS && s'.server.table[k].Some?
      ensures SlotOk(s', k) && Accounted(s', s'.server.table[k].value.context) {
      assert SlotOk(s, k);
      assert Accounted(s, s.server.table[k].value.context);
    }
  }

  lemma StoreKeeps(s: System, callback: Callback)
    requires Good(s, callback) && Enabled(s, Store)
    ensures Good(Next(s, callback, Store), callback)
  {
    var s' := Next(s, callback, Store);
    var k0 := FreeSlot(s.server.table);
    StepKeeps(s.server, callback, Request(s));
    assert HasContext(s'.server.table, k0, s.loop.context);
    forall k, c | HasContext(s.server.table, k, c) ensures HasContext(s'.server.table, k, c) {
      assert k != k0;
    }
    forall j | 0 <= j < |s'.peers| ensures PeerOk(s', j) {
      assert PeerOk(s, j);
    }
    forall c | c in s'.joined ensures JoinedOk(s', c) {
      assert JoinedOk(s, c);
    }
    forall k | 0 <= k < SLOTS && s'.server.table[k].Some?
      ensures SlotOk(s', k) && Accounted(s', s'.server.table[k].value.context) {
      if k != k0 {
        assert SlotOk(s, k);
        assert Accounted(s, s.server.table[k].value.context);
      } else {
        assert Accounted(s, s.loop.context);
      }
    }
  }

  lemma ClosedKeeps(s: System, callback: Callback, context: Context)
    requires Good(s, callback) && Enabled(s, ReceiveClosed(context))
    ensures Good(Next(s, callback, ReceiveClosed(context)), callback)
  {
    var m := PortClosed(Some(context));
    var s' := Next(s, callback, ReceiveClosed(context));
    StepKeeps(s.server, callback, m);
    forall k | 0 <= k < SLOTS && s'.server.table[k].Some?
      ensures s.server.table[k] == s'.server.table[k] && s.server.table[k].value.context != context {
      ClosedTable(s.server, callback, context, k);
    }
    forall c | c in s'.joined ensures JoinedOk(s', c) {
      assert JoinedOk(s, c);
      var k :| HasContext(s.server.table, k, c);
      ClosedTable(s.server, callback, context, k);
      assert HasContext(s'.server.table, k, c);
    }
    forall j | 0 <= j < |s'.peers| ensures PeerOk(s', j) {
      assert PeerOk(s, j);
      if s.peers[j].pc.Connected? || s.peers[j].pc.Started? {
        var k :| HasContext(s.server.table, k, s.peers[j].pc.context);
        ClosedTable(s.server, callback, context, k);
        assert HasContext(s'.server.table, k, s.peers[j].pc.context);
      }
    }
    forall k | 0 <= k < SLOTS && s'.server.table[k].Some?
      ensures SlotOk(s', k) && Accounted(s', s'.server.table[k].value.context) {
      assert SlotOk(s, k);
      assert Accounted(s, s.server.table[k].value.context);
    }
  }

  /** A close empties the slot of its context and no other. */
  lemma ClosedTable(v: Server<Context>, callback: Callback, context: Context, k: nat)
    requires Inv(v) && k < SLOTS
    ensures var t := Step(v, callback, PortClosed(Some(context))).table;
            t[k] == if HasContext(v.table, k, context) then None else v.table[k]
  {
    if k' :| HasContext(v.table, k', context) {
      UniqueSlot(v, k');
    }
  }

  lemma Keeps(s: System, callback: Callback, a: Action)
    requires Good(s, callback) && Enabled(s, a)
    ensures Good(Next(s, callback, a), callback)
  {
    match a
    case PeerStart(_, _) => PeerKeeps(s, callback, a);
    case PeerChecks(_) => PeerKeeps(s, callback, a);
    case PeerCloses(_) => PeerKeeps(s, callback, a);
    case Receive(_) => RefuseKeeps(s, callback, a);
    case Accept(_, _) => RefuseKeeps(s, callback, a);
    case Complete(ok, _) =>
      if ok {
        CompleteKeeps(s, callback, a);
      } else {
        RefuseKeeps(s, callback, a);
      }
    case Store => StoreKeeps(s, callback);
    case ReceiveClosed(context) => ClosedKeeps(s, callback, context);
  }

  // ---- all runs ----

  ghost predicate Run(s: System, callback: Callback, as_: seq<Action>, s': System)
    decreases |as_|
  {
    if as_ == [] then s == s'
    else Enabled(s, as_[0]) && LoopOk(s, callback) && Run(Next(s, callback, as_[0]), callback, as_[1..], s')
  }

  ghost predicate Initial(s: System) {
    && (forall j | 0 <= j < |s.peers| :: s.peers[j].pc.Stopped?)
    && s.loop.Head? && s.server == Empty() && s.closing == {} && s.used == {} && s.granted == map[] && s.joined == map[]
  }

  lemma {:induction false} RunKeeps(s: System, callback: Callback, as_: seq<Action>, s': System)
    requires Good(s, callback) && Run(s, callback, as_, s')
    ensures Good(s', callback)
    decreases |as_|
  {
    if as_ != [] {
      Keeps(s, callback, as_[0]);
      RunKeeps(Next(s, callback, as_[0]), callback, as_[1..], s');
    }
  }

  /** At every loop head: a client whose Start returned TRUE, and whose close the server has not
      processed, has exactly one slot, with its process id, also when the client itself has stopped
      and its close is still queued; every slot goes back to an accepted request that carried
      0xDEADBEEF; and a slot that no client holds on to has its close under way. */
  lemma Agreement(s: System, callback: Callback, as_: seq<Action>, s': System)
    requires Initial(s) && Run(s, callback, as_, s') && s'.loop.Head?
    ensures forall c | c in s'.joined :: OneSlot(s', c)
    ensures forall j | 0 <= j < |s'.peers| && s'.peers[j].pc.Started? ::
              s'.peers[j].pc.context in s'.joined && s'.joined[s'.peers[j].pc.context] == s'.peers[j].pid
    ensures |s'.server.table| == SLOTS
    ensures forall k | 0 <= k < SLOTS && s'.server.table[k].Some? ::
              SlotOk(s', k) && Accounted(s', s'.server.table[k].value.context)
  {
    RunKeeps(s, callback, as_, s');
    forall c | c in s'.joined ensures OneSlot(s', c) {
      assert JoinedOk(s', c);
      var k :| HasContext(s'.server.table, k, c);
      assert SlotOk(s', k);
      UniqueSlot(s'.server, k);
      assert HasPid(s'.server.table, k, s'.joined[c]);
    }
    forall j | 0 <= j < |s'.peers| && s'.peers[j].pc.Started?
      ensures s'.peers[j].pc.context in s'.joined && s'.joined[s'.peers[j].pc.context] == s'.peers[j].pid {
      assert PeerOk(s', j) && JoinedOk(s', s'.peers[j].pc.context);
    }
  }

  /** Exactly one slot holds the context, with the process id of its client. */
  ghost predicate OneSlot(s: System, c: Context)
    requires c in s.joined
  {
    exists k :: HasContext(s.server.table, k, c) && HasPid(s.server.table, k, s.joined[c])
                && forall k' | HasContext(s.server.table, k', c) :: k' == k
  }

  // ---- consequences ----

  /** The client whose connection slot `k` stands for, or -1. */
  ghost function PeerOf(s: System, k: nat): int
    requires k < |s.server.table|
  {
    if j :| 0 <= j < |s.peers| && s.server.table[k].Some? && HasConnection(s.peers[j], s.server.table[k].value.context)
    then j else -1
  }

  lemma {:induction false} AtMost<T>(js: set<T>, n: nat, w: int -> T)
    requires forall j | j in js :: exists k {:trigger w(k)} :: 0 <= k < n && w(k) == j
    ensures |js| <= n
    decreases n
  {
    if n == 0 {
      assert forall j :: j !in js;
      assert js == {};
    } else {
      var rest := js - {w(n - 1)};
      forall j | j in rest ensures exists k {:trigger w(k)} :: 0 <= k < n - 1 && w(k) == j {
        var k {:trigger w(k)} :| 0 <= k < n && w(k) == j;
      }
      AtMost(rest, n - 1, w);
      assert |js| <= |rest| + 1;
    }
  }

  /** At every loop head at most ten connections are open, and at most ten have been started and not
      closed by the server, those included whose clients have stopped. */
  lemma AtMostTen(s: System, callback: Callback, as_: seq<Action>, s': System)
    requires Initial(s) && Run(s, callback, as_, s') && s'.loop.Head?
    ensures |set j | 0 <= j < |s'.peers| && (s'.peers[j].pc.Connected? || s'.peers[j].pc.Started?) :: j| <= 10
    ensures |s'.joined.Keys| <= 10
  {
    RunKeeps(s, callback, as_, s');
    PeersAtMostTen(s', callback);
    JoinedAtMostTen(s', callback);
  }

  lemma JoinedAtMostTen(s: System, callback: Callback)
    requires Good(s, callback) && s.loop.Head?
    ensures |s.joined.Keys| <= SLOTS
  {
    var w: int -> Context := (k: int) => if 0 <= k < |s.server.table| && s.server.table[k].Some?
                                         then s.server.table[k].value.context else 0;
    forall c | c in s.joined.Keys ensures exists k {:trigger w(k)} :: 0 <= k < SLOTS && w(k) == c {
      assert JoinedOk(s, c);
      var k :| HasContext(s.server.table, k, c);
      assert w(k) == c;
    }
    AtMost(s.joined.Keys, SLOTS, w);
  }

  lemma PeersAtMostTen(s: System, callback: Callback)
    requires Good(s, callback) && s.loop.Head?
    ensures |set j | 0 <= j < |s.peers| && (s.peers[j].pc.Connected? || s.peers[j].pc.Started?) :: j| <= SLOTS
  {
    var js: set<int> := set j | 0 <= j < |s.peers| && (s.peers[j].pc.Connected? || s.peers[j].pc.Started?) :: j;
    var w: int -> int := (k: int) => if 0 <= k < |s.server.table| then PeerOf(s, k) else -1;
    forall j | j in js ensures exists k {:trigger w(k)} :: 0 <= k < SLOTS && w(k) == j {
      assert PeerOk(s, j);
      var k :| HasContext(s.server.table, k, s.peers[j].pc.context);
      assert HasConnection(s.peers[j], s.server.table[k].value.context);
      assert w(k) == PeerOf(s, k) == j;
    }
    AtMost(js, SLOTS, w);
  }

  /** Under the policy of the service no process has two slots, the driver's id excepted. */
  lemma {:induction false} OneSlotPerPid(s: System, debug: bool, as_: seq<Action>, s': System)
    requires PidsDistinct(s.server.table, debug)
    requires Run(s, ServicePolicy(debug), as_, s')
    ensures PidsDistinct(s'.server.table, debug)
    decreases |as_|
  {
    if as_ != [] {
      var a, callback := as_[0], ServicePolicy(debug);
      if a.Store? {
        OneStep(s.server, debug, Request(s));
      } else if a.ReceiveClosed? {
        OneStep(s.server, debug, PortClosed(Some(a.context)));
      }
      OneSlotPerPid(Next(s, callback, a), debug, as_[1..], s');
    }
  }

  lemma OneStep(v: Server<Context>, debug: bool, m: Message<Context>)
    requires PidsDistinct(v.table, debug)
    ensures PidsDistinct(Step(v, ServicePolicy(debug), m).table, debug)
  {
    var callback := ServicePolicy(debug);
    PidsStayDistinct(v, debug, [m]);
    assert LpcProtocol.Run(Step(v, callback, m), callback, [m][1..]) == Step(v, callback, m);
  }

  // ---- a connection can be made ----

  lemma RunStep(s: System, callback: Callback, a: Action, as_: seq<Action>, s': System)
    requires Enabled(s, a) && LoopOk(s, callback) && Run(Next(s, callback, a), callback, as_, s')
    ensures Run(s, callback, [a] + as_, s')
  {
    assert ([a] + as_)[1..] == as_;
  }

  /** The steps of one connection. */
  function Connection(i: nat, context: Context, port: Handle): seq<Action> {
    [PeerStart(i, 0xDEADBEEF), Receive(i), Accept(context, Some(port)), Complete(true, false), Store, PeerChecks(i)]
  }

  /** When a slot is free, the callback agrees and no call fails, a program that uses the client
      library gets TRUE from Start, and a slot with its process id; no other slot and no other client
      changes. */
  lemma Connects(s: System, callback: Callback, i: nat, context: Context, port: Handle) returns (s': System, k: nat)
    requires Good(s, callback) && s.loop.Head? && i < |s.peers| && s.peers[i].pc.Stopped?
    requires context !in s.used && port !in s.server.open
    requires exists j | 0 <= j < SLOTS :: s.server.table[j].None?
    requires callback.Some? && callback.value(s.peers[i].pid, PidConnected(s.server.table, s.peers[i].pid))
    ensures Run(s, callback, Connection(i, context, port), s') && s'.loop.Head?
    ensures s'.peers == s.peers[i := s.peers[i].(pc := Started(context))]
    ensures context in s'.joined && s'.joined[context] == s.peers[i].pid
    ensures k < SLOTS && s.server.table[k].None?
    ensures s'.server.table == s.server.table[k := Some(Client(context, port, s.peers[i].pid))]
  {
    var as_ := Connection(i, context, port);
    k := FreeSlot(s.server.table);
    var j :| 0 <= j < SLOTS && s.server.table[j].None?;
    assert IsFree(s.server.table, j);
    var s1 := Next(s, callback, as_[0]);
    var s2 := Next(s1, callback, as_[1]);
    Keeps(s, callback, as_[0]);
    Keeps(s1, callback, as_[1]);
    assert Accepts(s2.server.table, callback, s.peers[i].pid, 0xDEADBEEF);
    var s3 := Next(s2, callback, as_[2]);
    Keeps(s2, callback, as_[2]);
    s' := Completes(s3, callback, i, context, port);
    assert s'.peers == s.peers[i := s.peers[i].(pc := Started(context))];
    RunStep(s2, callback, as_[2], as_[3..], s');
    RunStep(s1, callback, as_[1], [as_[2]] + as_[3..], s');
    RunStep(s, callback, as_[0], [as_[1]] + ([as_[2]] + as_[3..]), s');
    assert as_ == [as_[0]] + ([as_[1]] + ([as_[2]] + as_[3..]));
  }

  lemma Completes(s: System, callback: Callback, i: nat, context: Context, port: Handle) returns (s': System)
    requires Good(s, callback) && s.loop == Completing(i, 0xDEADBEEF, context, port)
    ensures i < |s.peers|
    ensures Run(s, callback, [Complete(true, false), Store, PeerChecks(i)], s') && s'.loop.Head?
    ensures s'.peers == s.peers[i := s.peers[i].(pc := Started(context))]
    ensures context in s'.joined && s'.joined[context] == s.peers[i].pid
    ensures s'.server.table == s.server.table[FreeSlot(s.server.table) := Some(Client(context, port, s.peers[i].pid))]
  {
    var as_ := [Complete(true, false), Store, PeerChecks(i)];
    var s1 := Next(s, callback, as_[0]);
    Keeps(s, callback, as_[0]);
    var s2 := Next(s1, callback, as_[1]);
    Keeps(s1, callback, as_[1]);
    s' := Next(s2, callback, as_[2]);
    RunStep(s2, callback, as_[2], [], s');
    RunStep(s1, callback, as_[1], [as_[2]], s');
    RunStep(s, callback, as_[0], [as_[1], as_[2]], s');
  }

  /** When a client that has started stops and the server gets to its close, exactly its slot is free
      again, and the client can start anew. */
  lemma Disconnects(s: System, callback: Callback, i: nat) returns (s': System)
    requires Good(s, callback) && s.loop.Head? && i < |s.peers| && s.peers[i].pc.Started?
    ensures Run(s, callback, [PeerCloses(i), ReceiveClosed(s.peers[i].pc.context)], s') && s'.loop.Head?
    ensures s'.peers == s.peers[i := s.peers[i].(pc := Stopped)]
    ensures s'.joined.Keys == s.joined.Keys - {s.peers[i].pc.context}
    ensures |s'.server.table| == SLOTS
    ensures forall k | 0 <= k < SLOTS ::
              s'.server.table[k] == if s.server.table[k].Some? && s.server.table[k].value.context == s.peers[i].pc.context
                                    then None else s.server.table[k]
    ensures exists k :: HasContext(s.server.table, k, s.peers[i].pc.context)
  {
    var context := s.peers[i].pc.context;
    assert PeerOk(s, i);
    var s1 := Next(s, callback, PeerCloses(i));
    Keeps(s, callback, PeerCloses(i));
    s' := Closes(s1, callback, context);
    RunStep(s, callback, PeerCloses(i), [ReceiveClosed(context)], s');
  }

  lemma Closes(s: System, callback: Callback, context: Context) returns (s': System)
    requires Good(s, callback) && s.loop.Head? && context in s.closing
    ensures Run(s, callback, [ReceiveClosed(context)], s') && s'.loop.Head? && s'.peers == s.peers
    ensures s'.joined.Keys == s.joined.Keys - {context}
    ensures |s'.server.table| == SLOTS
    ensures forall k | 0 <= k < SLOTS ::
              s'.server.table[k] == if s.server.table[k].Some? && s.server.table[k].value.context == context
                                    then None else s.server.table[k]
  {
    s' := Next(s, callback, ReceiveClosed(context));
    CloseExactly(s.server, callback, context);
    RunStep(s, callback, ReceiveClosed(context), [], s');
  }
}
