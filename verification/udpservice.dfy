/** UDP service proxies of internal/pserver/udpservice.go: a service is registered
    before its socket is opened, and unregistered again when opening fails. The
    socket is an opaque handle; the read loop and the forwarder map are not
    modelled. */
module UdpServices {
  import opened Basics
  import opened ServiceMaps

  class UdpService {
    /** The port of `srvAddr`, under which the service is registered. */
    const port: int
    /** The socket, none until it is opened. */
    var conn: Option<nat>
    var connClosed: bool

    constructor(port: int)
      ensures this.port == port && conn.None? && !connClosed
    {
      this.port := port;
      conn := None;
      connClosed := false;
    }

    /** `stopService`: closes the socket, which ends the read loop. */
    method StopService()
      modifies this
      ensures connClosed && conn == old(conn)
    {
      connClosed := true;
    }
  }

  /** `runUDPService`: `listen` is the outcome of opening a socket on `srvPort` (none
      when it fails). The service is returned only when the port was free and the
      socket opened; in every other case the registry is left as it was. */
  method RunUdpService(services: ServiceMap<UdpService>, srvPort: int, listen: Option<nat>)
    returns (srv: UdpService?)
    modifies services
    ensures srv != null <==> srvPort !in old(services.Entries()) && listen.Some?
    ensures srv == null ==> services.Entries() == old(services.Entries())
    ensures srv != null ==>
      fresh(srv) && srv.port == srvPort && srv.conn == listen && !srv.connClosed &&
      services.Entries() == old(services.Entries())[srvPort := srv]
  {
    var s := new UdpService(srvPort);
    var added := services.Add(srvPort, s);
    if added {
      if listen.None? {
        services.Del(srvPort);
        return null;
      }
      s.conn := listen;
      return s;
    }
    return null;
  }
}
