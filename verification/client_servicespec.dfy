/** Service specifications of internal/pclient/servicespec.go: the client's copy of
    the conversions in internal/cmd/servicespec.go, with exported names. */
module ClientSpecs {
  import opened Basics
  import opened Text
  import M = Message
  import ServiceSpecs

  datatype ServiceSpec = ServiceSpec(Protocol: string, Port: uint16, DestPort: uint16)

  /** `ToMessage`: an ADD request for the spec's ports; "tcp" is 6, "udp" is 17,
      any other name is fatal. */
  function ToMessage(s: ServiceSpec): (r: Result<M.Message>)
    ensures r.Ok? <==> s.Protocol == "tcp" || s.Protocol == "udp"
    ensures r.Ok? ==> r.value.op == M.ADD && r.value.port == s.Port && r.value.destPort == s.DestPort
    ensures r.Ok? ==> r.value.protocol == if s.Protocol == "tcp" then M.TCP else M.UDP
  {
    var m := M.Message(M.ADD, 0, s.Port, s.DestPort);
    if s.Protocol == "tcp" then Ok(m.(protocol := M.TCP))
    else if s.Protocol == "udp" then Ok(m.(protocol := M.UDP))
    else Err("unknown protocol in service specification")
  }

  /** `FromMessage`: the ports of the message and the protocol's name, "unknown"
      for a number other than 6 and 17. */
  function FromMessage(m: M.Message): (s: ServiceSpec)
    ensures s.Port == m.port && s.DestPort == m.destPort
    ensures s.Protocol == if m.protocol == M.TCP then "tcp" else if m.protocol == M.UDP then "udp" else "unknown"
  {
    ServiceSpec(if m.protocol == M.TCP then "tcp" else if m.protocol == M.UDP then "udp" else "unknown",
                m.port, m.destPort)
  }

  /** `String`: "<protocol>:<port>:<destPort>". */
  function Format(s: ServiceSpec): string
  {
    s.Protocol + ":" + Decimal(s.Port) + ":" + Decimal(s.DestPort)
  }

  /** `ParseServiceSpec`: three ':'-separated parts, the protocol verbatim, both ports
      decimal and at most 65535; any failure is fatal in the source. */
  function ParseServiceSpec(spec: string): (r: Result<ServiceSpec>)
    ensures r.Ok? ==> ':' !in r.value.Protocol
  {
    var parts := Split(spec, ':');
    if |parts| != 3 then Err("error parsing service specification")
    else
      var port := ParseUint16(parts[1]);
      if port.None? then Err("error parsing service specification")
      else
        var destPort := ParseUint16(parts[2]);
        if destPort.None? then Err("error parsing service specification")
        else Ok(ServiceSpec(parts[0], port.value, destPort.value))
  }

  function AsCmd(s: ServiceSpec): ServiceSpecs.ServiceSpec
  {
    ServiceSpecs.ServiceSpec(s.Protocol, s.Port, s.DestPort)
  }

  /** The client's conversions compute the same as those of internal/cmd. */
  lemma SameAsCmd(s: ServiceSpec, m: M.Message, spec: string)
    ensures ToMessage(s) == ServiceSpecs.ToMessage(AsCmd(s))
    ensures AsCmd(FromMessage(m)) == ServiceSpecs.FromMessage(m)
    ensures Format(s) == ServiceSpecs.Format(AsCmd(s))
    ensures ParseServiceSpec(spec).Ok? <==> ServiceSpecs.Parse(spec).Ok?
    ensures ParseServiceSpec(spec).Ok? ==> AsCmd(ParseServiceSpec(spec).value) == ServiceSpecs.Parse(spec).value
  {
  }

  /** A TCP or UDP spec survives the trip through an ADD message. */
  lemma FromToMessage(s: ServiceSpec)
    requires s.Protocol == "tcp" || s.Protocol == "udp"
    ensures FromMessage(ToMessage(s).value) == s
  {
    SameAsCmd(s, ToMessage(s).value, "");
    ServiceSpecs.FromToMessage(AsCmd(s));
  }

  /** Formatting a spec whose protocol holds no ':' and parsing the text gives the
      spec back. */
  lemma ParseFormat(s: ServiceSpec)
    requires ':' !in s.Protocol
    ensures ParseServiceSpec(Format(s)) == Ok(s)
  {
    SameAsCmd(s, M.Message(0, 0, 0, 0), Format(s));
    ServiceSpecs.ParseFormat(AsCmd(s));
  }

  /** The texts `ParseServiceSpec` accepts, and what it makes of them, exactly: three
      fields without ':' whose last two are decimal numbers of at most 65535. */
  lemma ParseAccepts(spec: string, s: ServiceSpec)
    ensures ParseServiceSpec(spec) == Ok(s) <==>
      exists port, destPort :: ServiceSpecs.SpecText(spec, s.Protocol, port, destPort) &&
        ParseUint16(port) == Some(s.Port) && ParseUint16(destPort) == Some(s.DestPort)
  {
    SameAsCmd(s, M.Message(0, 0, 0, 0), spec);
    ServiceSpecs.ParseAccepts(spec, AsCmd(s));
  }

  /** The cases of internal/pclient/servicespec_test.go. */
  lemma TestVectors()
    ensures ToMessage(ServiceSpec("tcp", 1024, 1024)) == Ok(M.Message(M.ADD, M.TCP, 1024, 1024))
    ensures FromMessage(M.Message(M.ADD, M.TCP, 1024, 1024)) == ServiceSpec("tcp", 1024, 1024)
    ensures Format(ServiceSpec("tcp", 1024, 1024)) == "tcp:1024:1024"
    ensures ParseServiceSpec("tcp:1024:1024") == Ok(ServiceSpec("tcp", 1024, 1024))
  {
    assert Decimal(1024) == "1024";
    ParseFormat(ServiceSpec("tcp", 1024, 1024));
  }
}
