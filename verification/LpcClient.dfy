/** LpcClientLib.cpp: the client's end of the handshake. */
module LpcClient {
  import opened Wrappers
  import opened LpcProtocol

  /** The answer of ZwConnectPort: a port handle only when it succeeds. */
  datatype Answer = Refused | Accepted(port: Handle, magic: int, serverPid: Pid, maxMessageSize: nat)

  class CLpcClientLibU {
    var m_PortHandle: Option<Handle>
    var m_ServerPid: Pid
    var m_PortMessageSize: nat

    // The ports the kernel holds open for this object.
    ghost var Open: set<Handle>

    ghost predicate Valid()
      reads this
    {
      Open == if m_PortHandle.Some? then {m_PortHandle.value} else {}
    }

    constructor ()
      ensures Valid() && m_PortHandle.None?
    {
      m_PortHandle, m_ServerPid, m_PortMessageSize := None, 0, 0;
      Open := {};
    }

    /** `sent` is what the server receives. Start fails, with nothing left open, unless the kernel
        accepts and the server has put its own number into the connection data. */
    method Start(answer: Answer) returns (ok: bool, sent: int)
      requires Valid() && m_PortHandle.None?
      modifies this
      ensures Valid() && sent == 0xDEADBEEF
      ensures ok <==> answer.Accepted? && answer.magic == 0xCAFEDEAD
      ensures if ok then m_PortHandle == Some(answer.port) && m_ServerPid == answer.serverPid
                         && m_PortMessageSize == answer.maxMessageSize % 0x1_0000
              else Open == {} && m_ServerPid == old(m_ServerPid) && m_PortMessageSize == old(m_PortMessageSize)
    {
      sent := CLIENT_MAGIC;
      ok := false;
      if answer.Accepted? {
        m_PortHandle := Some(answer.port);
        Open := Open + {answer.port};
        if answer.magic == SERVER_MAGIC {
          m_ServerPid := answer.serverPid;
          m_PortMessageSize := answer.maxMessageSize % 0x1_0000;
          ok := true;
        }
      }
      if !ok {
        Stop();
      }
    }

    method Stop()
      requires Valid()
      modifies this`m_PortHandle, this`Open
      ensures Valid() && m_PortHandle.None? && Open == {}
    {
      if m_PortHandle.Some? {
        Open := Open - {m_PortHandle.value};
        m_PortHandle := None;
      }
    }
  }
}
