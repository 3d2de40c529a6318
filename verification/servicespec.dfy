/** Service specifications of internal/cmd/servicespec.go: a protocol name and two
    ports, convertible to an ADD control message and to and from the text
    "<protocol>:<port>:<destPort>". */
module ServiceSpecs {
  import opened Basics
  import opened Text
  import M = Message

  datatype ServiceSpec = ServiceSpec(protocol: string, port: uint16, destPort: uint16)

  /** `toMessage`: an ADD request for the spec's ports; only "tcp" and "udp" have a
      protocol number, any other name is fatal. */
  function ToMessage(s: ServiceSpec): (r: Result<M.Message>)
    ensures r.Ok? <==> s.protocol == "tcp" || s.protocol == "udp"
    ensures r.Ok? ==> r.value.op == M.ADD && r.value.port == s.port && r.value.destPort == s.destPort
    ensures r.Ok? ==> r.value.protocol == if s.protocol == "tcp" then M.TCP else M.UDP
  {
    var m := M.Message(M.ADD, 0, s.port, s.destPort);
    if s.protocol == "tcp" then Ok(m.(protocol := M.TCP))
    else if s.protocol == "udp" then Ok(m.(protocol := M.UDP))
    else Err("unknown protocol in service specification")
  }

  /** `fromMessage`: the ports of the message, and the protocol's name ("unknown"
      for a number other than 6 and 17); the op is ignored. */
  function FromMessage(m: M.Message): (s: ServiceSpec)
    ensures s.port == m.port && s.destPort == m.destPort
    ensures s.protocol == if m.protocol == M.TCP then "tcp" else if m.protocol == M.UDP then "udp" else "unknown"
  {
    ServiceSpec(if m.protocol == M.TCP then "tcp" else if m.protocol == M.UDP then "udp" else "unknown",
                m.port, m.destPort)
  }

  /** `String`: "<protocol>:<port>:<destPort>" with decimal ports. */
  function Format(s: ServiceSpec): string
  {
    s.protocol + ":" + Decimal(s.port) + ":" + Decimal(s.destPort)
  }

  /** `parseServiceSpec`: exactly three ':'-separated parts; the protocol is taken
      as it is, both ports must be decimal numbers of at most 65535. Any failure is
      fatal in the source. */
  function Parse(spec: string): (r: Result<ServiceSpec>)
    ensures r.Ok? ==> ':' !in r.value.protocol
  {
    var parts := Split(spec, ':');
    if |parts| != 3 then Err("error parsing service specification")
    else
      var port := ParseUint16(parts[1]);
      if port.None? then Err("error parsing service specification")
      else
        var destPort := ParseUint16(parts[2]);
        if destPort.None? then Err("error parsing service specification")
        else Ok(ServiceSpec(parts[0], port.value, destPort.value))
  }

  /** A TCP or UDP spec survives the trip through an ADD message. */
  lemma FromToMessage(s: ServiceSpec)
    requires s.protocol == "tcp" || s.protocol == "udp"
    ensures FromMessage(ToMessage(s).value) == s
  {
  }

  /** A message becomes a spec and back into the same message with op ADD exactly
      when its protocol is TCP or UDP; other protocols end as a fatal "unknown". */
  lemma ToFromMessage(m: M.Message)
    ensures ToMessage(FromMessage(m)).Ok? <==> m.protocol == M.TCP || m.protocol == M.UDP
    ensures ToMessage(FromMessage(m)).Ok? ==> ToMessage(FromMessage(m)).value == m.(op := M.ADD)
  {
  }

  lemma SplitSpec(protocol: string, a: string, b: string)
    requires ':' !in protocol && ':' !in a && ':' !in b
    ensures Split(protocol + ":" + a + ":" + b, ':') == [protocol, a, b]
  {
    assert protocol + ":" + a + ":" + b == protocol + [':'] + (a + [':'] + b);
    SplitAtSeparator(protocol, ':', a + [':'] + b);
    SplitAtSeparator(a, ':', b);
    SplitNoSeparator(b, ':');
  }

  /** The text of a spec: three fields without ':' joined by ':'. */
  predicate SpecText(spec: string, protocol: string, port: string, destPort: string)
  {
    ':' !in protocol && ':' !in port && ':' !in destPort && spec == protocol + ":" + port + ":" + destPort
  }

  /** A text of three fields parses exactly when both port fields are decimal
      numbers of at most 65535, and then gives the protocol field as it is. */
  lemma ParseSpecText(spec: string, protocol: string, port: string, destPort: string)
    requires SpecText(spec, protocol, port, destPort)
    ensures Parse(spec).Ok? <==> ParseUint16(port).Some? && ParseUint16(destPort).Some?
    ensures Parse(spec).Ok? ==> Parse(spec).value == ServiceSpec(protocol, ParseUint16(port).value, ParseUint16(destPort).value)
  {
    SplitSpec(protocol, port, destPort);
  }

  /** Only a text of three fields parses: fewer or more ':' are refused. */
  lemma ParsedSpecText(spec: string)
    requires Parse(spec).Ok?
    ensures exists port, destPort :: SpecText(spec, Parse(spec).value.protocol, port, destPort)
  {
    var parts := Split(spec, ':');
    JoinSplit(spec, ':');
    assert Join(parts[1..], ':') == parts[1] + [':'] + parts[2];
    assert spec == parts[0] + ":" + parts[1] + ":" + parts[2];
    assert SpecText(spec, parts[0], parts[1], parts[2]);
  }

  /** The texts `Parse` accepts, and what it makes of them, exactly. */
  lemma ParseAccepts(spec: string, s: ServiceSpec)
    ensures Parse(spec) == Ok(s) <==>
      exists port, destPort :: SpecText(spec, s.protocol, port, destPort) &&
        ParseUint16(port) == Some(s.port) && ParseUint16(destPort) == Some(s.destPort)
  {
    if Parse(spec) == Ok(s) {
      ParsedSpecText(spec);
      var port, destPort :| SpecText(spec, s.protocol, port, destPort);
      ParseSpecText(spec, s.protocol, port, destPort);
    }
    if exists port, destPort :: SpecText(spec, s.protocol, port, destPort) &&
         ParseUint16(port) == Some(s.port) && ParseUint16(destPort) == Some(s.destPort) {
      var port, destPort :| SpecText(spec, s.protocol, port, destPort) &&
        ParseUint16(port) == Some(s.port) && ParseUint16(destPort) == Some(s.destPort);
      ParseSpecText(spec, s.protocol, port, destPort);
    }
  }

  /** Formatting a spec whose protocol holds no ':' and parsing the text gives the
      spec back. */
  lemma ParseFormat(s: ServiceSpec)
    requires ':' !in s.protocol
    ensures Parse(Format(s)) == Ok(s)
  {
    SplitSpec(s.protocol, Decimal(s.port), Decimal(s.destPort));
    ParseDecimal(s.port);
    ParseDecimal(s.destPort);
  }

  /** Every parsed spec is a fixed point of formatting and parsing again, so the
      round trip holds for everything `Parse` can produce. */
  lemma FormatParse(spec: string)
    requires Parse(spec).Ok?
    ensures Parse(Format(Parse(spec).value)) == Parse(spec)
  {
    ParseFormat(Parse(spec).value);
  }

  /** A port above 65535 is fatal. */
  lemma ParsePortTooLarge(protocol: string, port: nat, destPort: uint16)
    requires ':' !in protocol && port >= 0x1_0000
    ensures Parse(protocol + ":" + Decimal(port) + ":" + Decimal(destPort)).Err?
  {
    SplitSpec(protocol, Decimal(port), Decimal(destPort));
    ParseDecimalTooLarge(port);
  }

  /** A destination port above 65535 is fatal. */
  lemma ParseDestPortTooLarge(protocol: string, port: uint16, destPort: nat)
    requires ':' !in protocol && destPort >= 0x1_0000
    ensures Parse(protocol + ":" + Decimal(port) + ":" + Decimal(destPort)).Err?
  {
    SplitSpec(protocol, Decimal(port), Decimal(destPort));
    ParseDecimal(port);
    ParseDecimalTooLarge(destPort);
  }

  /** The cases of internal/cmd/servicespec_test.go. */
  lemma TestVectors()
    ensures ToMessage(ServiceSpec("tcp", 1024, 1024)) == Ok(M.Message(M.ADD, M.TCP, 1024, 1024))
    ensures FromMessage(M.Message(M.ADD, M.TCP, 1024, 1024)) == ServiceSpec("tcp", 1024, 1024)
    ensures Format(ServiceSpec("tcp", 1024, 1024)) == "tcp:1024:1024"
    ensures Parse("tcp:1024:1024") == Ok(ServiceSpec("tcp", 1024, 1024))
  {
    assert Decimal(1024) == "1024";
    ParseFormat(ServiceSpec("tcp", 1024, 1024));
  }
}
