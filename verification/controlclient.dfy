/** The client side of the control protocol, internal/pclient/controlclient.go: the
    client sends one ADD request per service specification, reads one reply after
    each, counts the accepted ones, and keeps the connection only if at least one
    was accepted. The connection is a sequence of reply frames still to come and a
    log of what the client wrote and read; TLS, the keep-alive and logging are not
    modelled. */
module ControlClient {
  import opened Basics
  import opened Text
  import M = Message
  import opened ClientSpecs

  /** One step on the connection, as the client sees it. */
  datatype Event =
    | Sent(data: seq<uint8>)          // a request written
    | Received(frame: seq<uint8>)     // a reply frame read
    | ReadFailed                      // the read returned no buffer

  /** How the registration phase ends: the connection is kept for the keep-alive
      phase, it is closed, or the process exits on a fatal error. */
  datatype Outcome = KeptOpen | Closed | Fatal

  datatype Session = Session(events: seq<Event>, active: nat, outcome: Outcome, rest: seq<seq<uint8>>)

  /** The op of the reply as the client decodes it: a frame shorter than a message
      leaves the zero message, whose op is neither OK nor ERR. */
  function ReplyOp(frame: seq<uint8>): (op: uint8)
    ensures op == if |frame| >= M.MessageLen then frame[0] else 0
  {
    var r := M.Parse(frame);
    if r.Ok? then r.value.op else 0
  }

  /** A reply the loop goes on after: OK or ERR. */
  predicate Answered(e: Event)
  {
    e.Received? && (ReplyOp(e.frame) == M.OK || ReplyOp(e.frame) == M.ERR)
  }

  /** Number of OK replies read. */
  function Oks(events: seq<Event>): nat
  {
    if events == [] then 0
    else (if events[0].Received? && ReplyOp(events[0].frame) == M.OK then 1 else 0) + Oks(events[1..])
  }

  /** What `runClient` does from the `i`-th spec on, with `active` services
      registered so far and `input` the frames the server still sends. */
  function Dialogue(specs: seq<ServiceSpec>, i: nat, input: seq<seq<uint8>>, active: nat): Session
    requires i <= |specs|
    decreases |specs| - i
  {
    if i == |specs| then Session([], active, if active == 0 then Closed else KeptOpen, input)
    else match ToMessage(specs[i])
      case Err(_) => Session([], active, Fatal, input)
      case Ok(m) =>
        var request := Sent(M.Serialize(m));
        if input == [] then Session([request, ReadFailed], active, Closed, input)
        else
          var op := ReplyOp(input[0]);
          if op == M.OK || op == M.ERR then
            var s := Dialogue(specs, i + 1, input[1..], if op == M.OK then active + 1 else active);
            s.(events := [request, Received(input[0])] + s.events)
          else Session([request, Received(input[0])], active, Closed, input[1..])
  }

  /** The client never counts more registrations than it sent requests, and so
      never more than there are specs left. */
  lemma {:induction false} ActiveBound(specs: seq<ServiceSpec>, i: nat, input: seq<seq<uint8>>, active: nat)
    requires i <= |specs|
    ensures active <= Dialogue(specs, i, input, active).active <= active + |specs| - i
    ensures Dialogue(specs, i, input, active).active <= active + |Dialogue(specs, i, input, active).events| / 2
    decreases |specs| - i
  {
    if i < |specs| && ToMessage(specs[i]).Ok? && input != [] {
      var op := ReplyOp(input[0]);
      if op == M.OK || op == M.ERR {
        ActiveBound(specs, i + 1, input[1..], if op == M.OK then active + 1 else active);
      }
    }
  }

  /** `active` grows by one for each OK reply and for nothing else. */
  lemma {:induction false} ActiveCountsOks(specs: seq<ServiceSpec>, i: nat, input: seq<seq<uint8>>, active: nat)
    requires i <= |specs|
    ensures Dialogue(specs, i, input, active).active == active + Oks(Dialogue(specs, i, input, active).events)
    decreases |specs| - i
  {
    if i < |specs| && ToMessage(specs[i]).Ok? {
      var request := Sent(M.Serialize(ToMessage(specs[i]).value));
      if input == [] {
        var e := [request, ReadFailed];
        assert e[1..][1..] == [];
        assert Oks(e) == Oks(e[1..]) == 0;
      } else {
        var op := ReplyOp(input[0]);
        if op == M.OK || op == M.ERR {
          var s := Dialogue(specs, i + 1, input[1..], if op == M.OK then active + 1 else active);
          ActiveCountsOks(specs, i + 1, input[1..], if op == M.OK then active + 1 else active);
          var e := [request, Received(input[0])] + s.events;
          assert e[1..][1..] == s.events;
          assert Oks(e) == Oks(e[1..]);
          assert Oks(e[1..]) == (if op == M.OK then 1 else 0) + Oks(s.events);
        } else {
          var e := [request, Received(input[0])];
          assert e[1..][1..] == [];
          assert Oks(e) == Oks(e[1..]) == 0;
        }
      }
    }
  }

  /** The shape of the conversation from the `i`-th spec on: each request is the ADD
      message of the next spec and is followed by exactly one read before the next
      request. */
  predicate Alternates(specs: seq<ServiceSpec>, i: nat, events: seq<Event>)
    decreases |events|
  {
    events == [] ||
    (|events| >= 2 && i < |specs| && ToMessage(specs[i]).Ok? &&
     events[0] == Sent(M.Serialize(ToMessage(specs[i]).value)) && !events[1].Sent? &&
     Alternates(specs, i + 1, events[2..]))
  }

  /** There is no pipelining: requests and reads alternate, one pair per spec, in
      the order of the specs. */
  lemma {:induction false} Lockstep(specs: seq<ServiceSpec>, i: nat, input: seq<seq<uint8>>, active: nat)
    requires i <= |specs|
    ensures Alternates(specs, i, Dialogue(specs, i, input, active).events)
    decreases |specs| - i
  {
    if i < |specs| && ToMessage(specs[i]).Ok? {
      var request := Sent(M.Serialize(ToMessage(specs[i]).value));
      if input == [] {
        var e := [request, ReadFailed];
        assert e[2..] == [];
      } else {
        var op := ReplyOp(input[0]);
        if op == M.OK || op == M.ERR {
          var s := Dialogue(specs, i + 1, input[1..], if op == M.OK then active + 1 else active);
          Lockstep(specs, i + 1, input[1..], if op == M.OK then active + 1 else active);
          var e := [request, Received(input[0])] + s.events;
          assert e[2..] == s.events;
        } else {
          var e := [request, Received(input[0])];
          assert e[2..] == [];
        }
      }
    }
  }

  /** A failed read or a reply other than OK and ERR can only be the last event,
      and the connection is then closed. */
  predicate StopsAtBadReply(s: Session)
  {
    forall j :: 0 <= j < |s.events| && !s.events[j].Sent? && !Answered(s.events[j]) ==>
      j == |s.events| - 1 && s.outcome == Closed
  }

  /** The loop ends at the first failed read or unknown reply. */
  lemma {:induction false} EndsAtBadReply(specs: seq<ServiceSpec>, i: nat, input: seq<seq<uint8>>, active: nat)
    requires i <= |specs|
    ensures StopsAtBadReply(Dialogue(specs, i, input, active))
    decreases |specs| - i
  {
    if i < |specs| && ToMessage(specs[i]).Ok? && input != [] {
      var op := ReplyOp(input[0]);
      if op == M.OK || op == M.ERR {
        var a := if op == M.OK then active + 1 else active;
        var s := Dialogue(specs, i + 1, input[1..], a);
        EndsAtBadReply(specs, i + 1, input[1..], a);
        var e := [Sent(M.Serialize(ToMessage(specs[i]).value)), Received(input[0])] + s.events;
        assert Dialogue(specs, i, input, active) == s.(events := e);
        assert Answered(e[1]);
        forall j | 0 <= j < |e| && !e[j].Sent? && !Answered(e[j])
          ensures j == |e| - 1 && s.outcome == Closed
        {
          assert j >= 2;
          assert e[j] == s.events[j - 2];
        }
      }
    }
  }

  /** After the loop the connection is kept exactly when every spec was sent, every
      reply was OK or ERR, and at least one registration succeeded. */
  lemma {:induction false} KeptOpenIff(specs: seq<ServiceSpec>, i: nat, input: seq<seq<uint8>>, active: nat)
    requires i <= |specs|
    ensures var s := Dialogue(specs, i, input, active);
      s.outcome == KeptOpen <==>
        s.active > 0 && |s.events| == 2 * (|specs| - i) &&
        forall j :: 0 <= j < |s.events| && !s.events[j].Sent? ==> Answered(s.events[j])
    decreases |specs| - i
  {
    if i < |specs| && ToMessage(specs[i]).Ok? {
      var request := Sent(M.Serialize(ToMessage(specs[i]).value));
      if input == [] {
        var e := [request, ReadFailed];
        assert !Answered(e[1]);
      } else {
        var op := ReplyOp(input[0]);
        var e0 := [request, Received(input[0])];
        if op == M.OK || op == M.ERR {
          var a := if op == M.OK then active + 1 else active;
          var s := Dialogue(specs, i + 1, input[1..], a);
          KeptOpenIff(specs, i + 1, input[1..], a);
          var e := e0 + s.events;
          assert Answered(e[1]);
          forall j | 2 <= j < |e|
            ensures e[j] == s.events[j - 2]
          {
          }
          if (forall j :: 0 <= j < |e| && !e[j].Sent? ==> Answered(e[j])) {
            forall j | 0 <= j < |s.events| && !s.events[j].Sent?
              ensures Answered(s.events[j])
            {
              assert e[j + 2] == s.events[j];
            }
          }
        } else {
          assert !Answered(e0[1]);
        }
      }
    }
  }

  /** A fatal end lies at a spec whose protocol has no message form. */
  lemma {:induction false} FatalAtUnknownProtocol(specs: seq<ServiceSpec>, i: nat, input: seq<seq<uint8>>, active: nat)
    requires i <= |specs|
    ensures var s := Dialogue(specs, i, input, active);
      s.outcome == Fatal ==> i + |s.events| / 2 < |specs| && ToMessage(specs[i + |s.events| / 2]).Err?
    decreases |specs| - i
  {
    if i < |specs| && ToMessage(specs[i]).Ok? && input != [] {
      var op := ReplyOp(input[0]);
      if op == M.OK || op == M.ERR {
        FatalAtUnknownProtocol(specs, i + 1, input[1..], if op == M.OK then active + 1 else active);
      }
    }
  }

  /** The converse: a loop that stops before the last spec although every reply
      was OK or ERR has stopped at a spec with no message form, fatally. */
  lemma {:induction false} EarlyStopIsFatal(specs: seq<ServiceSpec>, i: nat, input: seq<seq<uint8>>, active: nat)
    requires i <= |specs|
    ensures var s := Dialogue(specs, i, input, active);
      ((forall j :: 0 <= j < |s.events| && !s.events[j].Sent? ==> Answered(s.events[j])) &&
       |s.events| < 2 * (|specs| - i)) ==> s.outcome == Fatal
    decreases |specs| - i
  {
    if i < |specs| && ToMessage(specs[i]).Ok? {
      var request := Sent(M.Serialize(ToMessage(specs[i]).value));
      if input == [] {
        var e := [request, ReadFailed];
        assert !Answered(e[1]);
      } else {
        var op := ReplyOp(input[0]);
        var e0 := [request, Received(input[0])];
        if op == M.OK || op == M.ERR {
          var a := if op == M.OK then active + 1 else active;
          var s := Dialogue(specs, i + 1, input[1..], a);
          EarlyStopIsFatal(specs, i + 1, input[1..], a);
          var e := e0 + s.events;
          if (forall j :: 0 <= j < |e| && !e[j].Sent? ==> Answered(e[j])) {
            forall j | 0 <= j < |s.events| && !s.events[j].Sent?
              ensures Answered(s.events[j])
            {
              assert e[j + 2] == s.events[j];
            }
          }
        } else {
          assert !Answered(e0[1]);
        }
      }
    }
  }

  /** The connection: frames the server still sends, and the client's log. */
  class Conn {
    var input: seq<seq<uint8>>
    var log: seq<Event>
    var closed: bool

    constructor(input: seq<seq<uint8>>)
      ensures this.input == input && log == [] && !closed
    {
      this.input := input;
      log := [];
      closed := false;
    }

    /** Writes a whole buffer. */
    method Write(data: seq<uint8>)
      modifies this
      ensures log == old(log) + [Sent(data)]
      ensures input == old(input) && closed == old(closed)
    {
      log := log + [Sent(data)];
    }

    /** Reads the next frame; no buffer once the server sends nothing more. */
    method Read() returns (buf: Option<seq<uint8>>)
      modifies this
      ensures old(input) == [] ==> buf == None && input == [] && log == old(log) + [ReadFailed]
      ensures old(input) != [] ==>
        buf == Some(old(input)[0]) && input == old(input)[1..] && log == old(log) + [Received(old(input)[0])]
      ensures closed == old(closed)
    {
      if input == [] {
        buf := None;
        log := log + [ReadFailed];
      } else {
        buf := Some(input[0]);
        log := log + [Received(input[0])];
        input := input[1..];
      }
    }

    method Close()
      modifies this
      ensures closed && input == old(input) && log == old(log)
    {
      closed := true;
    }
  }

  lemma Associative(a: seq<Event>, b: seq<Event>, c: seq<Event>)
    ensures a + (b + c) == (a + b) + c
  {
  }

  /** Two events appended one after the other, and a log continued in two parts. */
  lemma Appended(log: seq<Event>, done: seq<Event>, x: Event, y: Event)
    ensures log + done + [x] + [y] == log + (done + [x, y])
  {
  }

  /** `whole` is the session `part` continues after the events `done`. */
  ghost predicate Later(whole: Session, done: seq<Event>, part: Session)
  {
    whole == part.(events := done + part.events)
  }

  class Client {
    const specs: seq<ServiceSpec>
    var conn: Conn?

    constructor(specs: seq<ServiceSpec>)
      ensures this.specs == specs && conn == null
    {
      this.specs := specs;
      conn := null;
    }

    /** `runClient` up to the keep-alive phase. `dialed` is the connection to the
        server, null when dialing fails, which is fatal. The conversation on the
        connection is `Dialogue` from the first spec with no registrations; the
        connection is closed exactly when the outcome is `Closed`. */
    method RunClient(dialed: Conn?) returns (outcome: Outcome)
      modifies this, dialed
      ensures dialed == null ==> outcome == Fatal
      ensures dialed != null ==>
        var s := Dialogue(specs, 0, old(dialed.input), 0);
        conn == dialed && outcome == s.outcome &&
        dialed.log == old(dialed.log) + s.events && dialed.input == s.rest &&
        dialed.closed == (old(dialed.closed) || outcome == Closed)
    {
      if dialed == null {
        return Fatal;
      }
      conn := dialed;
      ghost var whole := Dialogue(specs, 0, dialed.input, 0);
      ghost var done: seq<Event> := [];
      var active := 0;
      var i := 0;
      while i < |specs|
        invariant 0 <= i <= |specs|
        invariant conn == dialed
        invariant dialed.log == old(dialed.log) + done
        invariant dialed.closed == old(dialed.closed)
        invariant Later(whole, done, Dialogue(specs, i, dialed.input, active))
      {
        var m := ToMessage(specs[i]);
        if m.Err? {
          return Fatal;
        }
        var request := M.Serialize(m.value);
        dialed.Write(request);
        var buf := dialed.Read();
        if buf.None? {
          dialed.Close();
          Appended(old(dialed.log), done, Sent(request), ReadFailed);
          return Closed;
        }
        var op := ReplyOp(buf.value);
        if op == M.OK {
          active := active + 1;
        } else if op == M.ERR {
        } else {
          dialed.Close();
          Appended(old(dialed.log), done, Sent(request), Received(buf.value));
          return Closed;
        }
        Appended(old(dialed.log), done, Sent(request), Received(buf.value));
        Associative(done, [Sent(request), Received(buf.value)], Dialogue(specs, i + 1, dialed.input, active).events);
        done := done + [Sent(request), Received(buf.value)];
        i := i + 1;
      }
      if active == 0 {
        dialed.Close();
        return Closed;
      }
      return KeptOpen;
    }
  }

  /** The specs given as "<spec>,<spec>,…", parsed in order; the first that does not
      parse is fatal. */
  function ParseAll(pieces: seq<string>): (r: Result<seq<ServiceSpec>>)
    ensures r.Ok? <==> forall i :: 0 <= i < |pieces| ==> ParseServiceSpec(pieces[i]).Ok?
    ensures r.Ok? ==> |r.value| == |pieces|
    ensures r.Ok? ==> forall i :: 0 <= i < |pieces| ==> Ok(r.value[i]) == ParseServiceSpec(pieces[i])
  {
    if pieces == [] then Ok([])
    else match ParseServiceSpec(pieces[0])
      case Err(e) => Err(e)
      case Ok(s) =>
        match ParseAll(pieces[1..])
          case Err(e) => Err(e)
          case Ok(rest) => Ok([s] + rest)
  }

  /** The spec list of `RunControlClient`: split on ',' and parse each piece. */
  method ParseSpecs(serviceSpecs: string) returns (r: Result<seq<ServiceSpec>>)
    ensures r.Ok? <==> ParseAll(Split(serviceSpecs, ',')).Ok?
    ensures r.Ok? ==> r.value == ParseAll(Split(serviceSpecs, ',')).value
  {
    var services := Split(serviceSpecs, ',');
    var specs: seq<ServiceSpec> := [];
    for i := 0 to |services|
      invariant |specs| == i
      invariant forall j :: 0 <= j < i ==> Ok(specs[j]) == ParseServiceSpec(services[j])
    {
      var s := ParseServiceSpec(services[i]);
      if s.Err? {
        return Err(s.reason);
      }
      specs := specs + [s.value];
    }
    return Ok(specs);
  }

  function FormatAll(specs: seq<ServiceSpec>): (texts: seq<string>)
    ensures |texts| == |specs|
  {
    seq(|specs|, i requires 0 <= i < |specs| => Format(specs[i]))
  }

  /** A non-empty list of specs whose protocols hold neither ':' nor ',' is read back
      from its comma-separated text form. */
  lemma SpecListRoundTrip(specs: seq<ServiceSpec>)
    requires |specs| >= 1
    requires forall i :: 0 <= i < |specs| ==> ':' !in specs[i].Protocol && ',' !in specs[i].Protocol
    ensures ParseAll(Split(Join(FormatAll(specs), ','), ',')) == Ok(specs)
  {
    var texts := FormatAll(specs);
    forall i | 0 <= i < |texts|
      ensures ',' !in texts[i] && ParseServiceSpec(texts[i]) == Ok(specs[i])
    {
      var s := specs[i];
      assert AllDigits(Decimal(s.Port)) && AllDigits(Decimal(s.DestPort));
      assert ',' !in Decimal(s.Port) && ',' !in Decimal(s.DestPort);
      ParseFormat(s);
    }
    SplitJoin(texts, ',');
    var r := ParseAll(texts);
    assert r.Ok?;
    assert r.value == specs;
  }
}
