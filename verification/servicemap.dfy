/** The registry of active services keyed by listening port: `tcpServiceMap` of
    internal/cmd/tcpservice.go and `udpServiceMap` of internal/pserver/udpservice.go,
    which are the same code over different service types. */
module ServiceMaps {
  import opened Basics

  class ServiceMap<S> {
    /** The Go map, nil until the first `add`. */
    var m: Option<map<int, S>>

    /** The registered services; a nil map holds none. */
    function Entries(): map<int, S>
      reads this
    {
      if m.Some? then m.value else map[]
    }

    /** The zero value of the struct: a nil map. */
    constructor()
      ensures Entries() == map[]
    {
      m := None;
    }

    /** `add`: registers `service` under `port` unless the port is taken; the map is
        created on first use. */
    method Add(port: int, service: S) returns (added: bool)
      modifies this
      ensures added <==> port !in old(Entries())
      ensures Entries() == if added then old(Entries())[port := service] else old(Entries())
    {
      if m.None? {
        m := Some(map[]);
      }
      if port !in m.value {
        m := Some(m.value[port := service]);
        return true;
      }
      return false;
    }

    /** `del`: forgets the service under `port`, if any. */
    method Del(port: int)
      modifies this
      ensures Entries() == old(Entries()) - {port}
    {
      if m.Some? {
        m := Some(m.value - {port});
      }
    }

    /** `get`: the service under `port`, or none (nil in the source). */
    method Get(port: int) returns (s: Option<S>)
      ensures s.Some? <==> port in Entries()
      ensures s.Some? ==> s.value == Entries()[port]
    {
      if m.Some? && port in m.value {
        s := Some(m.value[port]);
      } else {
        s := None;
      }
    }
  }
}
