/** LpcServLib.cpp: the message loop of the server over its table of client contexts. */
module LpcServer {
  import opened Wrappers
  import opened LpcProtocol

  class ClientContext {
    var CommPortHandle: Handle
    var ClientPid: Pid

    constructor ()
    {
      CommPortHandle, ClientPid := 0, 0;
    }
  }

  type ServerMessage = Message<ClientContext?>

  class CLpcServLibU {
    const m_ClientContexts: array<ClientContext?>
    const m_LpcReceiverCallBacks: Callback

    // The table as a value, and what the kernel and the heap know.
    ghost var Table: seq<Option<Client<ClientContext?>>>
    ghost var Live: set<ClientContext?>
    ghost var Open: set<Handle>
    ghost var Connected: set<ClientContext?>

    ghost function Abs(): Server<ClientContext?>
      reads this
    {
      Server(Table, Live, Open, Connected)
    }

    ghost predicate Holds(i: int)
      requires 0 <= i < m_ClientContexts.Length && |Table| == m_ClientContexts.Length
      reads this, m_ClientContexts, m_ClientContexts[..]
    {
      var c := m_ClientContexts[i];
      if c == null then Table[i].None? else Table[i] == Some(Client(c, c.CommPortHandle, c.ClientPid))
    }

    /** The array is the table. What the methods do to the table keeps `Inv` by LpcProtocol.StepKeeps. */
    ghost predicate Valid()
      reads this, m_ClientContexts, m_ClientContexts[..]
    {
      && m_ClientContexts.Length == SLOTS && |Table| == SLOTS
      && forall i | 0 <= i < SLOTS :: Holds(i)
    }

    constructor (callback: Callback)
      ensures Valid() && Abs() == Empty() && m_LpcReceiverCallBacks == callback
      ensures fresh(m_ClientContexts)
    {
      m_ClientContexts := new ClientContext?[SLOTS](_ => null);
      m_LpcReceiverCallBacks := callback;
      Table, Live, Open, Connected := seq(SLOTS, _ => None), {}, {}, {};
    }

    // ---- the searches ----

    method FindFreeClientSlot() returns (slot: int)
      requires Valid()
      ensures if slot < 0 then slot == -1 && FreeSlot(Table) == SLOTS else slot == FreeSlot(Table) < SLOTS
    {
      for i := 0 to m_ClientContexts.Length
        invariant forall j | 0 <= j < i :: !IsFree(Table, j)
      {
        assert Holds(i);
        if m_ClientContexts[i] == null {
          assert IsFree(Table, i);
          return i;
        }
      }
      return -1;
    }

    method FindClientSlot(context: ClientContext?) returns (slot: int)
      requires Valid() && context != null
      ensures slot >= 0 ==> HasContext(Table, slot, context) && m_ClientContexts[slot] == context
      ensures slot < 0 ==> forall i :: !HasContext(Table, i, context)
    {
      for i := 0 to m_ClientContexts.Length
        invariant forall j | 0 <= j < i :: !HasContext(Table, j, context)
      {
        assert Holds(i);
        if m_ClientContexts[i] == context {
          return i;
        }
      }
      return -1;
    }

    method FindClientSlotByPid(pid: Pid) returns (slot: int)
      requires Valid()
      ensures slot >= 0 ==> HasPid(Table, slot, pid)
      ensures slot >= 0 <==> PidConnected(Table, pid)
    {
      for i := 0 to m_ClientContexts.Length
        invariant forall j | 0 <= j < i :: !HasPid(Table, j, pid)
      {
        assert Holds(i);
        if m_ClientContexts[i] != null && m_ClientContexts[i].ClientPid == pid {
          assert HasPid(Table, i, pid);
          return i;
        }
      }
      return -1;
    }

    // ---- resources ----

    /** ZwClose of a communication port: it must be open. */
    method Close(port: Handle)
      requires port in Open
      modifies this`Open
      ensures Open == old(Open) - {port}
    {
      Open := Open - {port};
    }

    /** delete: the context must be allocated. */
    method Delete(context: ClientContext)
      requires context in Live
      modifies this`Live
      ensures Live == old(Live) - {context}
    {
      Live := Live - {context};
    }

    // ---- the messages ----

    /** Whether the request is to be accepted. */
    method Decide(pid: Pid, magic: int) returns (accept: bool)
      requires Valid()
      ensures accept <==> Accepts(Table, m_LpcReceiverCallBacks, pid, magic)
    {
      var slot := FindFreeClientSlot();
      if slot < 0 {
        return false;
      }
      if m_LpcReceiverCallBacks.Some? {
        var other := FindClientSlotByPid(pid);
        accept := m_LpcReceiverCallBacks.value(pid, other >= 0);
      } else {
        accept := false;
      }
      if magic != CLIENT_MAGIC {
        accept := false;
      }
    }

    /** LPC_CONNECTION_REQUEST. The port handle is opened by the kernel while it accepts. */
    method HandleConnectionRequest(pid: Pid, magic: int, reply: Reply)
      returns (answerMagic: int, pClientContext: ClientContext)
      requires Valid()
      requires (!reply.acceptOk ==> reply.port.None?) && (reply.port.Some? ==> reply.port.value !in Open)
      modifies this, m_ClientContexts
      ensures Valid() && fresh(pClientContext) && answerMagic == 0xCAFEDEAD
      ensures Abs() == Step(old(Abs()), m_LpcReceiverCallBacks,
                            ConnectionRequest(pid, magic, pClientContext as ClientContext?, reply))
    {
      ghost var s := Abs();
      var accept := Decide(pid, magic);
      var slot := FindFreeClientSlot();
      pClientContext := new ClientContext();
      Live := Live + {pClientContext};
      answerMagic := SERVER_MAGIC;
      if reply.port.Some? {
        Open := Open + {reply.port.value};
      }
      assert Live - {pClientContext} == s.live;
      assert reply.port.Some? ==> Open - {reply.port.value} == s.open;
      if !reply.acceptOk {
        Delete(pClientContext);
        return;
      }
      if reply.port.None? {
        Delete(pClientContext);
        return;
      }
      var port := reply.port.value;
      if !accept {
        Close(port);
        Delete(pClientContext);
        return;
      }
      pClientContext.CommPortHandle := port;
      pClientContext.ClientPid := pid;
      if !reply.completeOk {
        Close(port);
        Delete(pClientContext);
        return;
      }
      forall j | 0 <= j < SLOTS ensures Holds(j) && m_ClientContexts[j] != pClientContext {
        assert old(Holds(j)) && m_ClientContexts[j] == old(m_ClientContexts[j]);
      }
      StoreClient(slot, pClientContext);
    }

    /** The new context goes to its slot, and the kernel may send messages for it. */
    method StoreClient(slot: nat, client: ClientContext)
      requires Valid() && slot < SLOTS && forall i | 0 <= i < SLOTS :: m_ClientContexts[i] != client
      modifies this`Table, this`Connected, m_ClientContexts
      ensures Valid() && Connected == old(Connected) + {client}
      ensures Table == old(Table)[slot := Some(Client(client, client.CommPortHandle, client.ClientPid))]
    {
      Connected := Connected + {client};
      m_ClientContexts[slot] := client;
      Table := Table[slot := Some(Client(client, client.CommPortHandle, client.ClientPid))];
      forall j | 0 <= j < SLOTS ensures Holds(j) {
        if j != slot {
          assert old(Holds(j)) && m_ClientContexts[j] == old(m_ClientContexts[j]);
        }
      }
    }

    /** A context of the table sits in one slot, and is allocated with its port open. */
    ghost predicate Owned(context: ClientContext)
      reads this
    {
      forall i | HasContext(Table, i, context) ::
        && context in Live && Table[i].value.port in Open
        && forall j | HasContext(Table, j, context) :: j == i
    }

    method CloseClient(context: ClientContext)
      requires Valid() && Owned(context)
      modifies this, m_ClientContexts
      ensures Valid()
      ensures Abs() == Step(old(Abs()), m_LpcReceiverCallBacks, PortClosed(Some(context)))
    {
      var slot := FindClientSlot(context);
      if slot >= 0 {
        assert Holds(slot);
        Close(context.CommPortHandle);
        Delete(context);
        m_ClientContexts[slot] := null;
        Table := Table[slot := None];
      }
      Connected := Connected - {context};
      forall j | 0 <= j < SLOTS ensures Holds(j) {
        assert old(Holds(j));
      }
    }

    /** LPC_PORT_CLOSED. An unknown context is not looked into. */
    method HandlePortClosed(context: ClientContext?)
      requires Valid() && Inv(Abs())
      modifies this, m_ClientContexts
      ensures Valid()
      ensures Abs() == Step(old(Abs()), m_LpcReceiverCallBacks,
                            PortClosed(if context == null then None else Some(context)))
    {
      if context != null {
        forall i | HasContext(Table, i, context)
          ensures context in Live && Table[i].value.port in Open && forall j | HasContext(Table, j, context) :: j == i {
          UniqueSlot(Abs(), i);
        }
        CloseClient(context);
      }
    }

    /** LPC_REQUEST and LPC_DATAGRAM, apart from the data: only a request is answered, through the
        port in its context, which is allocated and open. */
    method HandleDataRequest(context: ClientContext?, request: bool) returns (repliedTo: Handle)
      requires Valid() && Inv(Abs()) && (request ==> context in Connected && context != null)
      ensures request ==> context in Live && repliedTo in Open
                          && exists i :: HasContext(Table, i, context) && HasPort(Table, i, repliedTo)
    {
      repliedTo := 0;
      if request {
        ghost var i := SlotOf(Abs(), context);
        assert Holds(i);
        repliedTo := context.CommPortHandle;
        assert HasPort(Table, i, repliedTo);
      }
    }

    /** One turn of the message loop: it is one step of the protocol, so whatever arrives, no context
        and no port is lost or shared. `message` is what arrived, with the new context filled in. */
    method HandleMessage(m: Incoming) returns (ghost message: ServerMessage)
      requires Valid() && Inv(Abs())
      requires m.Connect? ==> (!m.reply.acceptOk ==> m.reply.port.None?)
                              && (m.reply.port.Some? ==> m.reply.port.value !in Open)
      requires m.Request? ==> m.context in Connected && m.context != null
      modifies this, m_ClientContexts
      ensures Valid() && Inv(Abs())
      ensures Abs() == Step(old(Abs()), m_LpcReceiverCallBacks, message)
      ensures KernelOk(old(Abs()), message) && Delivers(m, message)
      ensures m.Closed? && m.context != null ==> forall i :: !HasContext(Table, i, m.context)
    {
      ghost var s, callback := Abs(), m_LpcReceiverCallBacks;
      match m
      case Connect(pid, magic, reply) =>
        var answer, context := HandleConnectionRequest(pid, magic, reply);
        message := LpcProtocol.ConnectionRequest(pid, magic, context as ClientContext?, reply);
        StepKeeps(s, callback, message);
      case Closed(context) =>
        message := LpcProtocol.PortClosed(if context == null then None else Some(context));
        HandlePortClosed(context);
        StepKeeps(s, callback, message);
        if context != null {
          ClosedIsGone(s, callback, context);
        }
      case Request(context) =>
        message := LpcProtocol.Request(context);
        var port := HandleDataRequest(context, true);
      case Datagram =>
        message := LpcProtocol.Datagram;
        var port := HandleDataRequest(null, false);
      case Nothing =>
        message := LpcProtocol.Nothing;
    }
  }

  ghost predicate Delivers(m: Incoming, message: ServerMessage) {
    match m
    case Connect(pid, magic, reply) =>
      message.ConnectionRequest? && message.pid == pid && message.magic == magic && message.reply == reply
    case Closed(context) => message == LpcProtocol.PortClosed(if context == null then None else Some(context))
    case Request(context) => message == LpcProtocol.Request(context)
    case Datagram => message == LpcProtocol.Datagram
    case Nothing => message == LpcProtocol.Nothing
  }

  lemma ClosedIsGone(s: Server<ClientContext?>, callback: Callback, context: ClientContext)
    requires Inv(s)
    ensures forall i :: !HasContext(Step(s, callback, LpcProtocol.PortClosed(Some(context))).table, i, context)
  {
    if i :| HasContext(s.table, i, context) {
      UniqueSlot(s, i);
    }
  }

  /** A message as the loop receives it. */
  datatype Incoming =
    | Connect(pid: Pid, magic: int, reply: Reply)
    | Closed(context: ClientContext?)
    | Request(context: ClientContext?)
    | Datagram
    | Nothing
}
