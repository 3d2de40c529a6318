/** The control-message codec of internal/cmd/message.go: a fixed 6-byte
    record `op | protocol | port | destPort`, multi-byte fields big-endian. */
module Message {
  import opened Basics

  const MessageLen: nat := 6

  // message types
  const OK: uint8 := 1
  const ADD: uint8 := 2
  const DEL: uint8 := 3
  const ERR: uint8 := 4

  // protocol numbers
  const TCP: uint8 := 6
  const UDP: uint8 := 17

  datatype Message = Message(op: uint8, protocol: uint8, port: uint16, destPort: uint16)

  /** The value of a big-endian 16-bit field. */
  function BigEndian(hi: uint8, lo: uint8): uint16 { hi * 0x100 + lo }

  /** `serialize`: the fields in declaration order, 16-bit fields big-endian. */
  function Serialize(m: Message): (b: seq<uint8>)
    ensures |b| == MessageLen
    ensures b[0] == m.op && b[1] == m.protocol
    ensures BigEndian(b[2], b[3]) == m.port && BigEndian(b[4], b[5]) == m.destPort
  {
    [m.op, m.protocol, m.port / 0x100, m.port % 0x100, m.destPort / 0x100, m.destPort % 0x100]
  }

  /** `parse`: reads the first six bytes; a shorter buffer is an error and the
      receiver keeps its previous value. Neither op nor protocol is checked. */
  function Parse(b: seq<uint8>): (r: Result<Message>)
    ensures r.Ok? <==> |b| >= MessageLen
  {
    if |b| < MessageLen then Err("error reading message: unexpected EOF")
    else Ok(Message(b[0], b[1], BigEndian(b[2], b[3]), BigEndian(b[4], b[5])))
  }

  /** Parsing a serialized message gives the message back, for every field value. */
  lemma ParseSerialize(m: Message)
    ensures Parse(Serialize(m)) == Ok(m)
  {
  }

  lemma SplitBigEndian(hi: uint8, lo: uint8)
    ensures BigEndian(hi, lo) / 0x100 == hi && BigEndian(hi, lo) % 0x100 == lo
  {
    var v: int := hi * 0x100 + lo;
    assert v == hi * 0x100 + lo;
  }

  /** Serializing what was parsed from a long enough buffer gives back its first
      six bytes: trailing bytes are ignored and no byte value is rejected. */
  lemma SerializeParse(b: seq<uint8>)
    requires |b| >= MessageLen
    ensures Parse(b).Ok?
    ensures Serialize(Parse(b).value) == b[..MessageLen]
  {
    SplitBigEndian(b[2], b[3]);
    SplitBigEndian(b[4], b[5]);
  }

  /** The two 6-byte frames of internal/cmd/message_test.go. */
  lemma TestVectors()
    ensures Serialize(Message(ADD, UDP, 65535, 65535)) == [ADD, UDP, 255, 255, 255, 255]
    ensures Parse([OK, TCP, 255, 255, 255, 255]) == Ok(Message(OK, TCP, 65535, 65535))
  {
  }
}
