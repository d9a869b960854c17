/** `ConnectionInfo`: whether this node is the server, or a client that knows its server. */
module ConnectionInfos {
  import opened Models

  datatype ConnectionInfo =
    | Server(addr: SocketAddr)
    | Client(id: u128, addr: SocketAddr, server: SocketAddr)
  {
    predicate IsServer()
    {
      match this
      case Server(_) => true
      case _ => false
    }

    predicate IsClient()
    {
      match this
      case Client(_, _, _) => true
      case _ => false
    }

    /** This node's own address. */
    function Addr(): SocketAddr
    {
      match this
      case Client(_, addr, _) => addr
      case Server(addr) => addr
    }

    /** The address of the server: a client's `server`, or a server's own address. */
    function ServerAddr(): SocketAddr
    {
      match this
      case Client(_, _, server) => server
      case Server(addr) => addr
    }
  }

  /** Every node has exactly one role, and the role is its variant. */
  lemma ExactlyOneRole(info: ConnectionInfo)
    ensures info.IsServer() <==> info.Server?
    ensures info.IsClient() <==> info.Client?
    ensures info.IsServer() != info.IsClient()
  {
  }

  /** A server is its own server; a client's server address is the one it was configured
      with, and its own address is kept apart from it. */
  lemma ServerAddrByRole(info: ConnectionInfo)
    ensures info.IsServer() ==> info.ServerAddr() == info.Addr()
    ensures info.IsClient() ==> info.ServerAddr() == info.server && info.Addr() == info.addr
  {
  }
}
