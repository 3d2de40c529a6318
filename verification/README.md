# service-proxy: a verified model of the proxy's core

service-proxy is a reverse port-forwarding proxy written in Go. A client connects
to the proxy server over a control connection and asks it to open TCP or UDP
services on its behalf. The server accepts only the ports of its allow-list, and
only clients from its allowed networks. This project models, in Dafny, the
sequential logic of that system and proves what it promises:

- `PortRanges` (portrangelist.dfy): the allow-list of protocol/port ranges of
  `internal/cmd/portrangelist.go`. It covers range containment and merging, the
  in-place `addRange` that coalesces overlapping ranges, the `containsPort` search,
  and the text parser `add` for `"<proto>:<port>"` and `"<proto>:<min>-<max>"`.
  `addRange` is proved against `Added`, a function that walks the list as the loop
  does. About `Added` the model proves five things:
  - the covered (protocol, port) pairs grow by exactly the new range;
  - entries of one protocol stay pairwise port-disjoint;
  - a contained range leaves the list unchanged;
  - otherwise the untouched entries keep their order and the grown range comes last;
  - entries of other protocols are untouched.
- `Message` (message.dfy): the 6-byte big-endian control message of
  `internal/cmd/message.go`, with its constants and both round trips. The
  decoder reads the message's fields as exported ones (see "## Left out").
- `ServiceSpecs` and `ClientSpecs` (servicespec.dfy, client_servicespec.dfy): the
  service specifications `"<protocol>:<port>:<destPort>"` of
  `internal/cmd/servicespec.go` and their exported twin in
  `internal/pclient/servicespec.go`. They convert a spec to and from an ADD message
  and to and from text. Both round trips are proved, and so is the fact that the
  two copies agree.
- `ServiceMaps`, `TcpServices`, `UdpServices` (servicemap.dfy, tcpservice.dfy,
  udpservice.dfy): the registries of active services keyed by port. A registry
  inserts only when the port is absent, and deletes and looks up by port. The model
  also covers the done flag of a TCP service and the register-then-roll-back logic
  of `runUDPService`. The TCP and the UDP registries are the same code, so one
  generic class models both.
- `IpNets` (ipnetlist.dfy): the append-only list of allowed client networks in
  `internal/cmd/ipnetlist.go`, with its "some network contains the address" search.
- `ControlClient` (controlclient.dfy): the registration loop of `runClient` in
  `internal/pclient/controlclient.go`, and the spec-list parsing of
  `RunControlClient`. The loop is proved against `Dialogue`, the conversation as a
  function of the specs and of the frames the server sends. The lemmas about
  `Dialogue` cover five things:
  - requests and replies alternate;
  - `active` counts the OK replies;
  - a failed read or an unknown reply ends the loop;
  - the loop ends fatally exactly at a spec whose protocol is neither tcp nor udp;
  - the connection is kept exactly when every spec was sent, every reply was OK or
    ERR, and at least one was OK.
- `Basics` and `Text` (basics.dfy, text.dfy) hold the shared pieces. These are
  unsigned 8- and 16-bit integers, `Option`/`Result`, and the Go library behaviour
  the core relies on:
  - `strings.Split` with a one-character separator;
  - `strconv.ParseUint(s, 10, 16)`;
  - `%d` formatting.

A call to `log.Fatal` ends the Go process. In the model it is an explicit error
result: `Err` of `Result`, the `Fatal` outcome, or a `false` success flag.

## Model

| member | source | states |
|---|---|---|
| Text.Decimal | internal/cmd/servicespec.go:54 | `%d` of a number is a non-empty string of decimal digits with no leading zero unless the number is 0 |
| Text.DecimalValue | internal/cmd/servicespec.go:54 | the digits `%d` prints denote the number printed |
| Text.ParseUint16 | internal/cmd/servicespec.go:70 | `strconv.ParseUint(s, 10, 16)`: a non-empty string of decimal digits whose value is at most 65535, else an error; `ParseDecimal` and `ParseDecimalTooLarge` prove it against `%d` |
| Text.ParseDecimal | internal/cmd/servicespec.go:70-73 | `ParseUint(…, 10, 16)` reads back any 16-bit number printed with `%d` |
| Text.ParseDecimalTooLarge | internal/cmd/servicespec.go:70-73 | `ParseUint(…, 10, 16)` refuses a printed number of 65536 or more |
| Text.Split | internal/cmd/servicespec.go:61 | `strings.Split` returns at least one part, and no part holds the separator |
| Text.SplitNoSeparator | internal/cmd/servicespec.go:61 | a string without the separator splits into itself alone |
| Text.SplitAtSeparator | internal/cmd/servicespec.go:61 | splitting at the first separator yields the text before it, then the split of the rest |
| Text.SplitJoin | internal/pclient/controlclient.go:104 | parts without the separator, joined with it, split back into the same parts |
| Text.JoinSplit | internal/pclient/controlclient.go:104 | joining the parts of a split with the separator restores the string |
| Message.Serialize | internal/cmd/message.go:33-40 | the frame is 6 bytes: op, protocol, then port and destPort as big-endian 16-bit values |
| Message.Parse | internal/cmd/message.go:43-49 | a message results exactly when the buffer holds at least 6 bytes; op and protocol are not checked |
| Message.ParseSerialize | internal/cmd/message.go:33-49 | parsing a serialized message gives the message back, for every field value |
| Message.SerializeParse | internal/cmd/message.go:43-49 | a buffer of 6 or more bytes parses, and serializing the result gives its first 6 bytes back |
| Message.TestVectors | internal/cmd/message_test.go:8-37 | the two frames of the message tests, serialized and parsed |
| PortRanges.InRange | internal/cmd/portrangelist.go:45-47 | `containsPort` of one range: the protocol matches and min ≤ port ≤ max (a definition; `ContainsMeansSubset` and `CoversAppend` state what follows) |
| PortRanges.Contains | internal/cmd/portrangelist.go:24-28 | `contains`: same protocol, and this range reaches at least as far on both ends; `ContainsMeansSubset` proves this is port-set inclusion |
| PortRanges.ContainsMeansSubset | internal/cmd/portrangelist.go:24-28 | `contains` holds iff every port of the other range is a port of this one, same protocol |
| PortRanges.OverlapMeansSharedPort | internal/cmd/portrangelist.go:31-42 | the merge condition holds iff the two ranges share a port of one protocol |
| PortRanges.Merge | internal/cmd/portrangelist.go:31-42 | `merge` never shrinks the receiver or changes its protocol; it becomes the hull when the ranges share a port and stays as it was otherwise |
| PortRanges.AdjacentNotMerged | internal/cmd/portrangelist.go:36-41 | ranges that only touch end to end are not merged |
| PortRanges.HullIsUnion | internal/cmd/portrangelist.go:36-41 | the ports of two merged ranges are the ports of their union |
| PortRanges.MergeStep | internal/cmd/portrangelist.go:90-95 | after `merge`, the growing range contains an entry iff they shared a port, and it then covers the ports of both |
| PortRanges.ContainsTransitive | internal/cmd/portrangelist.go:24-28 | `contains` is transitive |
| PortRanges.NoOtherContainer | internal/cmd/portrangelist.go:84-95 | in a port-disjoint list, once the growing range contains entry i, no other entry contains the range, so the loop cannot stop early after it |
| PortRanges.ScanContained | internal/cmd/portrangelist.go:84-88 | the loop stops early iff some remaining entry contains the range |
| PortRanges.ScanMerged | internal/cmd/portrangelist.go:84-106 | without an early stop, the loop keeps in order the entries sharing no port with the final range; that range covers the new ports and those of the dropped entries, and contains every entry it overlaps |
| PortRanges.AddedShape | internal/cmd/portrangelist.go:84-106 | `addRange` leaves the list as it was if an entry contains the range; otherwise the result is the entries that share no port with the grown range, in order, followed by that range |
| PortRanges.CoversAppend | internal/cmd/portrangelist.go:111-118 | a port is covered by two lists appended iff it is covered by one of them |
| PortRanges.UnsharedEntries | internal/cmd/portrangelist.go:97-99 | every kept entry was in the list and shares no port with the grown range |
| PortRanges.UnsharedKeepsPort | internal/cmd/portrangelist.go:91-99 | a port of the list is still covered by the kept entries or by the range that contains the dropped ones |
| PortRanges.UnsharedDisjoint | internal/cmd/portrangelist.go:97-106 | the kept entries followed by the grown range are port-disjoint |
| PortRanges.AddedCoverage | internal/cmd/portrangelist.go:72-107 | after `addRange(p, min, max)` with min ≤ max, a (protocol, port) pair is covered iff it was covered before or lies in `p`×[min, max] |
| PortRanges.AddedDisjoint | internal/cmd/portrangelist.go:72-107 | `addRange` with min ≤ max keeps the entries of one protocol pairwise port-disjoint |
| PortRanges.OfProtocolAppend | internal/cmd/portrangelist.go:103-106 | filtering by protocol distributes over appending |
| PortRanges.UnsharedOtherProtocol | internal/cmd/portrangelist.go:91-99 | no entry of another protocol is dropped |
| PortRanges.AddedOtherProtocols | internal/cmd/portrangelist.go:84-106 | `addRange` leaves the entries of every other protocol exactly as they were, in order |
| PortRanges.CoalescingExample | internal/pserver/portrangelist_test.go:66-77 | the five overlapping ranges of the test coalesce into tcp:1024-32768 |
| PortRanges.SeparateRangesExample | internal/pserver/portrangelist_test.go:124-130 | three port-disjoint ranges are kept in the order they were added |
| PortRanges.Format | internal/cmd/portrangelist.go:50-64 | `String`: "tcp", "udp" or the protocol number, then ":min-max"; `ParseFormat` proves a TCP or UDP range reads back from it |
| PortRanges.ScanFrom | internal/cmd/portrangelist.go:83-101 | the loop of `addRange`, one entry per step: stop at an entry that contains the range, otherwise merge it in and keep it unless the range now contains it; `ScanContained` and `ScanMerged` state the result |
| PortRanges.Added | internal/cmd/portrangelist.go:72-107 | the list after `addRange`: unchanged after an early stop, otherwise the kept entries then the grown range; `AddedCoverage`, `AddedDisjoint`, `AddedShape` and `AddedOtherProtocols` state what it means |
| PortRanges.ParsePortRange | internal/cmd/portrangelist.go:126-165 | an accepted text gives a well-formed TCP or UDP range |
| PortRanges.SplitProtocol | internal/cmd/portrangelist.go:128-131 | "tcp:…" and "udp:…" split into the name and the port part |
| PortRanges.ParseSinglePort | internal/cmd/portrangelist.go:145-162 | "proto:n" gives the range n-n |
| PortRanges.ParsePortPair | internal/cmd/portrangelist.go:145-165 | "proto:a-b" gives the range from the smaller to the larger of a and b |
| PortRanges.ParseFormat | internal/cmd/portrangelist.go:50-64 | the text `String` prints for a TCP or UDP range parses back to the range |
| PortRanges.ParseUnknownProtocol | internal/cmd/portrangelist.go:135-142 | a protocol name other than tcp and udp is refused |
| PortRanges.ParsePortTooLarge | internal/cmd/portrangelist.go:149-152 | a port above 65535 is refused |
| PortRanges.ParseUpperTooLarge | internal/cmd/portrangelist.go:153-162 | an upper bound above 65535 in "proto:a-b" is refused |
| PortRanges.ParseRangeText | internal/cmd/portrangelist.go:128-165 | a text "tcp"/"udp", ':', then one port field or two joined by '-' parses iff the fields are decimal numbers of at most 65535, giving the range from the smaller to the larger |
| PortRanges.ParsedRangeText | internal/cmd/portrangelist.go:128-148 | only such a text parses: another protocol name, other than one ':', or more than one '-' is refused |
| PortRanges.ParseRangeAccepts | internal/cmd/portrangelist.go:126-165 | the parsing half of `add` yields a range exactly for those texts, and that range is the one their fields denote |
| PortRanges.ParseExampleSingle | internal/pserver/portrangelist_test.go:134 | "udp:1024" gives udp 1024-1024 |
| PortRanges.ParseExampleRange | internal/pserver/portrangelist_test.go:135 | "tcp:1024-2048" gives tcp 1024-2048 |
| PortRanges.ParseExampleInverted | internal/pserver/portrangelist_test.go:136 | "tcp:8192-4096" gives tcp 4096-8192 |
| PortRanges.PortRangeList.constructor | internal/cmd/portrangelist.go:67-69 | a new list is empty |
| PortRanges.PortRangeList.AddRange | internal/cmd/portrangelist.go:72-107 | the in-place loop leaves exactly `Added(old list, range)`, and keeps the list port-disjoint when min ≤ max |
| PortRanges.PortRangeList.GetAll | internal/cmd/portrangelist.go:121-123 | returns the stored ranges in list order |
| PortRanges.PortRangeList.ContainsPort | internal/cmd/portrangelist.go:111-118 | true iff some entry has the protocol and min ≤ port ≤ max |
| PortRanges.PortRangeList.Add | internal/cmd/portrangelist.go:126-169 | succeeds iff the text parses, and then adds the parsed range; otherwise the list is unchanged; the list stays port-disjoint |
| ServiceSpecs.ToMessage | internal/cmd/servicespec.go:20-36 | succeeds iff the protocol is "tcp" or "udp"; the message is an ADD carrying both ports, with protocol 6 for "tcp" and 17 for "udp" |
| ServiceSpecs.FromMessage | internal/cmd/servicespec.go:39-50 | the spec carries the message's ports; its protocol is "tcp" for 6, "udp" for 17 and "unknown" for any other number |
| ServiceSpecs.Parse | internal/cmd/servicespec.go:59-88 | an accepted text gives a spec whose protocol holds no ':' |
| ServiceSpecs.ParseSpecText | internal/cmd/servicespec.go:61-87 | a text of three ':'-free fields parses iff both port fields are decimal numbers of at most 65535, and gives the protocol field as it is with those ports |
| ServiceSpecs.ParsedSpecText | internal/cmd/servicespec.go:61-64 | only a text of three ':'-free fields parses; fewer or more ':' are refused |
| ServiceSpecs.ParseAccepts | internal/cmd/servicespec.go:59-88 | `parseServiceSpec` yields a spec exactly for the texts protocol:port:destPort of ':'-free fields whose ports read as that spec's ports |
| ServiceSpecs.Format | internal/cmd/servicespec.go:53-55 | `String`: protocol, port and destPort in decimal, joined by ':'; `ParseFormat` and `FormatParse` prove it inverse to `Parse` |
| ServiceSpecs.FromToMessage | internal/cmd/servicespec.go:20-50 | a TCP or UDP spec survives the trip through an ADD message |
| ServiceSpecs.ToFromMessage | internal/cmd/servicespec.go:20-50 | a message converts to a spec and back iff its protocol is TCP or UDP, and comes back as the same message with op ADD |
| ServiceSpecs.SplitSpec | internal/cmd/servicespec.go:61-64 | a text with two ':' splits into its three parts |
| ServiceSpecs.ParseFormat | internal/cmd/servicespec.go:53-88 | the text `String` prints parses back to the spec when the protocol holds no ':' |
| ServiceSpecs.FormatParse | internal/cmd/servicespec.go:53-88 | an accepted text, printed and parsed again, gives the same spec |
| ServiceSpecs.ParsePortTooLarge | internal/cmd/servicespec.go:70-73 | a port above 65535 is refused |
| ServiceSpecs.ParseDestPortTooLarge | internal/cmd/servicespec.go:76-79 | a destination port above 65535 is refused |
| ServiceSpecs.TestVectors | internal/cmd/servicespec_test.go:5-66 | the four cases of the service spec tests |
| ClientSpecs.ToMessage | internal/pclient/servicespec.go:20-36 | succeeds iff the protocol is "tcp" or "udp"; the message is an ADD carrying both ports, with protocol 6 for "tcp" and 17 for "udp" |
| ClientSpecs.FromMessage | internal/pclient/servicespec.go:39-50 | the spec carries the message's ports; its protocol is "tcp" for 6, "udp" for 17 and "unknown" for any other number |
| ClientSpecs.ParseServiceSpec | internal/pclient/servicespec.go:59-88 | an accepted text gives a spec whose protocol holds no ':' |
| ClientSpecs.ParseAccepts | internal/pclient/servicespec.go:59-88 | `ParseServiceSpec` yields a spec exactly for the texts protocol:port:destPort of ':'-free fields whose ports read as that spec's ports |
| ClientSpecs.Format | internal/pclient/servicespec.go:53-55 | `String`: protocol, port and destPort in decimal, joined by ':'; `SameAsCmd` proves it the same as the internal/cmd copy, `ParseFormat` its round trip |
| ClientSpecs.SameAsCmd | internal/pclient/servicespec.go:20-88 | the four client conversions compute what their internal/cmd counterparts compute |
| ClientSpecs.FromToMessage | internal/pclient/servicespec.go:20-50 | a TCP or UDP spec survives the trip through an ADD message |
| ClientSpecs.ParseFormat | internal/pclient/servicespec.go:53-88 | the text `String` prints parses back to the spec when the protocol holds no ':' |
| ClientSpecs.TestVectors | internal/pclient/servicespec_test.go:9-70 | the four cases of the client's service spec tests |
| ServiceMaps.ServiceMap.constructor | internal/cmd/tcpservice.go:15-18 | the zero registry holds no service |
| ServiceMaps.ServiceMap.Add | internal/cmd/tcpservice.go:22-34 | inserts and reports true iff the port was free; a taken port keeps its entry |
| ServiceMaps.ServiceMap.Del | internal/cmd/tcpservice.go:37-42 | removes that port and nothing else |
| ServiceMaps.ServiceMap.Get | internal/cmd/tcpservice.go:45-50 | returns the service under the port, or none, and changes nothing |
| TcpServices.TcpService.constructor | internal/cmd/tcpservice.go:121-127 | a new service is not done and its listener is open |
| TcpServices.TcpService.SetDone | internal/cmd/tcpservice.go:89-94 | the service is done afterwards |
| TcpServices.TcpService.GetDone | internal/cmd/tcpservice.go:97-102 | reports the done flag |
| TcpServices.TcpService.StopService | internal/cmd/tcpservice.go:105-111 | the service is done and its listener closed |
| TcpServices.RunTcpService | internal/cmd/tcpservice.go:115-136 | a failed listen is fatal; otherwise a new service comes back iff the port was free, and the registry then maps the port to it; otherwise the registry is unchanged |
| UdpServices.UdpService.constructor | internal/pserver/udpservice.go:89-93 | a new service has no socket yet |
| UdpServices.UdpService.StopService | internal/pserver/udpservice.go:80-83 | the socket is closed |
| UdpServices.RunUdpService | internal/pserver/udpservice.go:87-113 | a service comes back iff the port was free and the socket opened, and the registry then maps the port to it with the socket set; in every other case, including a failed listen after registering, the registry ends as it began |
| IpNets.NetContains | internal/cmd/ipnetlist.go:22 | `net.IPNet.Contains` as a prefix match: the address has the network's length and agrees with the network address on the first `prefix` bits, or on all bits when the prefix is longer (a definition; the lemmas below state what follows) |
| IpNets.ContainsOwnAddress | internal/cmd/ipnetlist.go:20-27 | a network contains its own address |
| IpNets.ShorterPrefixWider | internal/cmd/ipnetlist.go:20-27 | a shorter prefix on the same address contains whatever the longer one contains |
| IpNets.ZeroPrefixContainsAll | internal/cmd/ipnetlist.go:20-27 | a /0 network contains exactly the addresses of its length |
| IpNets.EmptyContainsNothing | internal/cmd/ipnetlist.go:20-27 | an empty list contains no address |
| IpNets.AnyContainsAppend | internal/cmd/ipnetlist.go:15-27 | after `add(n)`, an address is contained iff it was before or `n` contains it |
| IpNets.Example | internal/cmd/ipnetlist.go:20-27 | 10.0.0.0/8 contains 10.1.2.3 and not 11.0.0.1 |
| IpNets.IpNetList.constructor | internal/cmd/ipnetlist.go:10-12 | a new list is empty |
| IpNets.IpNetList.Add | internal/cmd/ipnetlist.go:15-17 | appends the network at the end, with no deduplication or merging |
| IpNets.IpNetList.ContainsIp | internal/cmd/ipnetlist.go:20-27 | true iff some stored network contains the address |
| ControlClient.ReplyOp | internal/pclient/controlclient.go:44-50 | the op of a reply is its first byte when the frame is a whole message, else the zero op |
| ControlClient.Dialogue | internal/pclient/controlclient.go:37-78 | the registration loop as a function of the specs and the frames the server sends: the events, the count of OK replies, the outcome and the frames left; `RunClient` is proved equal to it and the lemmas below state its properties |
| ControlClient.Conn.Write | internal/pclient/controlclient.go:41 | `WriteToConn` logs the bytes sent and changes nothing else |
| ControlClient.Conn.Read | internal/pclient/controlclient.go:45 | `ReadFromConn` returns the next frame and consumes it, or no buffer when the server sends nothing more; the log records which |
| ControlClient.Conn.Close | internal/pclient/controlclient.go:33 | the deferred `Close`: the connection is closed, with its input and log unchanged |
| ControlClient.ActiveBound | internal/pclient/controlclient.go:37-69 | `active` never decreases, and grows by at most one for each request sent, so by at most the number of remaining specs |
| ControlClient.ActiveCountsOks | internal/pclient/controlclient.go:55-62 | `active` is the number of OK replies read; ERR replies do not count |
| ControlClient.Lockstep | internal/pclient/controlclient.go:38-50 | requests and reads alternate, one ADD for each spec in order, each followed by exactly one read |
| ControlClient.EndsAtBadReply | internal/pclient/controlclient.go:45-68 | a failed read or a reply other than OK and ERR is the last event and closes the connection |
| ControlClient.KeptOpenIff | internal/pclient/controlclient.go:38-78 | the connection is kept iff every spec was sent, every reply was OK or ERR, and `active` > 0 |
| ControlClient.FatalAtUnknownProtocol | internal/pclient/controlclient.go:38-41 | a fatal end happens at a spec whose protocol is neither tcp nor udp |
| ControlClient.EarlyStopIsFatal | internal/pclient/controlclient.go:38-68 | when every reply was OK or ERR but fewer than all specs were sent, the end is fatal, so the loop stops early only at an unknown protocol, a failed read or a bad reply |
| ControlClient.Client.constructor | internal/pclient/controlclient.go:123-127 | the client holds the specs and no connection yet |
| ControlClient.Client.RunClient | internal/pclient/controlclient.go:23-78 | a failed dial is fatal; otherwise the writes and reads on the connection, the outcome and the frames left unread are those of `Dialogue`, and the connection is closed iff the outcome is `Closed` |
| ControlClient.ParseAll | internal/pclient/controlclient.go:104-108 | the list parses iff every piece parses, and then it holds the parsed pieces in order |
| ControlClient.ParseSpecs | internal/pclient/controlclient.go:104-108 | splitting on ',' and parsing each piece in a loop gives `ParseAll` of the pieces |
| ControlClient.SpecListRoundTrip | internal/pclient/controlclient.go:104-108 | a non-empty spec list, printed and joined with ',', parses back to itself when no protocol holds ':' or ',' |

## Left out

- Forwarding is not modelled. This covers the TCP forwarder pump, the UDP forwarder
  and its map, and the write-all helpers. It also covers the accept and receive
  loops `tcpService.runService` and `udpService.runService` and the goroutines that
  run them. All of these are socket I/O and concurrency.
- Sockets are opaque handles, and the outcome of listening is an input.
  `net.ListenTCP`, `net.ListenUDP` and `net.DialTCP` are not modelled; a connection
  is a sequence of frames still to come plus a log of what was written and read.
- TLS wrapping, the 15-second keep-alive phase after `runClient` keeps the connection
  (NOP messages and the read loop until EOF), `time.Sleep` and all logging are
  outside the model. `FromMessage` on a reply only feeds the log, so the loop does
  not call it.
- `sync.Mutex` locking is not modelled; each registry operation is atomic.
- The `network` package (its `Message` type, `WriteToConn`, `ReadFromConn`) is not
  part of this model. The client's messages use the layout of
  `internal/cmd/message.go`. A read that returns no buffer is `ReadFailed`. The
  result of `WriteToConn` is ignored, as the client ignores it. A short frame leaves
  the zero message, as `binary.Read` does.
- `net.IPNet.Contains` is a prefix match on address bytes of equal length. IPv4 to
  IPv6 normalisation, masks that are not prefixes, and `net.ParseCIDR` are not
  modelled. The IP-list tests in internal/cmd expect merging of nested networks and
  a `getAll` method that `internal/cmd/ipnetlist.go` does not have. The model
  follows the code: no merging.
- Message.Parse: internal/cmd/message.go declares the fields of `message` unexported, and `binary.Read` cannot set such fields, so `parse` there fails at run time for any buffer of 6 or more bytes (by a reading of the Go library). The model decodes the message with exported fields, as the tests in internal/cmd/message_test.go and the client's use of `network.Message` expect. The round trips are proved for that decoder, not for the code as written.
- PortRanges.Merge: `merge` updates its receiver in place; the model returns the
  receiver's new value instead.
- PortRanges.PortRangeList.AddRange: requires the list invariant (entries of one
  protocol share no port), which the source does not state. Without it, an early
  return after a dropped entry could leave a duplicated entry behind. The invariant
  is re-established only when min ≤ max. `add` always passes min ≤ max.
- PortRanges.PortRangeList.Add: a text that does not parse ends the process in the
  source. Here it returns false and leaves the list as it was.
- ServiceMaps.ServiceMap.Add: `udpServiceMap` in internal/pserver/udpservice.go:22-50
  is the same code as `tcpServiceMap`. One generic class models both, and its rows
  cite the TCP copy.
- TcpServices.TcpService.StopService: closing the listener is a flag. Waking the
  accept loop is not modelled.
- UdpServices.UdpService.StopService: stopping the forwarders of the service is not
  modelled.
