/** TCP service proxies of internal/cmd/tcpservice.go: a service owns a listener on
    its port and a done flag that tells its accept loop a listener error is a
    shutdown. The listener is an opaque handle that the caller obtains from the
    network; the accept loop and the forwarders are not modelled. */
module TcpServices {
  import opened Basics
  import opened ServiceMaps

  class TcpService {
    /** The port of `srvAddr`, under which the service is registered. */
    const port: int
    /** The listener, as a handle. */
    const listener: nat
    var listenerClosed: bool
    var done: bool

    constructor(port: int, listener: nat)
      ensures this.port == port && this.listener == listener
      ensures !listenerClosed && !done
    {
      this.port := port;
      this.listener := listener;
      listenerClosed := false;
      done := false;
    }

    /** `setDone`: marks the service as shutting down. */
    method SetDone()
      modifies this
      ensures done && listenerClosed == old(listenerClosed)
    {
      done := true;
    }

    /** `getDone`: whether the service is shutting down. */
    method GetDone() returns (d: bool)
      ensures d <==> done
    {
      d := done;
    }

    /** `stopService`: marks the service done, then closes its listener, so the accept
        loop sees the error after the flag is set. */
    method StopService()
      modifies this
      ensures done && listenerClosed
    {
      SetDone();
      listenerClosed := true;
    }
  }

  /** `runTCPService`: `listen` is the outcome of listening on `srvPort` (none when
      it fails, which is fatal in the source). A new service is registered when the
      port is free and returned; null means the port was already registered. */
  method RunTcpService(services: ServiceMap<TcpService>, srvPort: int, listen: Option<nat>)
    returns (r: Result<TcpService?>)
    modifies services
    ensures r.Err? <==> listen.None?
    ensures r.Err? ==> services.Entries() == old(services.Entries())
    ensures r.Ok? ==> (r.value != null <==> srvPort !in old(services.Entries()))
    ensures r.Ok? && r.value == null ==> services.Entries() == old(services.Entries())
    ensures r.Ok? && r.value != null ==>
      fresh(r.value) && r.value.port == srvPort && Some(r.value.listener) == listen &&
      !r.value.done && !r.value.listenerClosed &&
      services.Entries() == old(services.Entries())[srvPort := r.value]
  {
    if listen.None? {
      return Err("listen tcp failed");
    }
    var srv := new TcpService(srvPort, listen.value);
    var added := services.Add(srvPort, srv);
    if added {
      return Ok(srv);
    }
    return Ok(null);
  }
}
