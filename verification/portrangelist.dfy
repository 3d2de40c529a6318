/** The allow-list of protocol/port ranges of internal/cmd/portrangelist.go. */
module PortRanges {
  import opened Basics
  import opened Text
  import Message

  /** A range of ports `min..max` (both included) of one protocol. */
  datatype PortRange = PortRange(protocol: uint8, min: uint16, max: uint16)

  /** The range holds at least one port. */
  predicate WellFormed(r: PortRange) { r.min <= r.max }

  /** `portRange.containsPort`. */
  predicate InRange(r: PortRange, protocol: int, port: int)
  {
    protocol == r.protocol && r.min <= port <= r.max
  }

  /** `portRange.contains`: this range is at least as wide as the other on both ends. */
  predicate Contains(p: PortRange, o: PortRange)
  {
    p.protocol == o.protocol && p.min <= o.min && p.max >= o.max
  }

  /** The two ranges share at least one port of the same protocol. */
  predicate Overlap(a: PortRange, b: PortRange)
  {
    a.protocol == b.protocol && Max(a.min, b.min) <= Min(a.max, b.max)
  }

  /** The smallest range holding both. */
  function Hull(a: PortRange, b: PortRange): PortRange
  {
    PortRange(a.protocol, Min(a.min, b.min), Max(a.max, b.max))
  }

  /** `contains` means: every port of the other range is a port of this one. */
  lemma ContainsMeansSubset(p: PortRange, o: PortRange)
    requires WellFormed(o)
    ensures Contains(p, o) <==> forall proto, port :: InRange(o, proto, port) ==> InRange(p, proto, port)
  {
    if !Contains(p, o) {
      if p.protocol != o.protocol || p.min > o.min {
        assert InRange(o, o.protocol, o.min);
      } else {
        assert InRange(o, o.protocol, o.max);
      }
    }
  }

  /** Overlap is exactly "some port lies in both ranges". */
  lemma OverlapMeansSharedPort(a: PortRange, b: PortRange)
    ensures Overlap(a, b) <==> exists port :: InRange(a, a.protocol, port) && InRange(b, a.protocol, port)
  {
    if Overlap(a, b) {
      assert InRange(a, a.protocol, Max(a.min, b.min));
    }
  }

  /** `portRange.merge`, with the receiver's new value as the result: each end of
      `p` moves to the other range's end only when it lies inside the other range. */
  function Merge(p: PortRange, o: PortRange): (r: PortRange)
    ensures r.protocol == p.protocol && r.min <= p.min && r.max >= p.max
    ensures WellFormed(p) ==> r == if Overlap(p, o) then Hull(p, o) else p
  {
    if p.protocol != o.protocol then p
    else
      var lo := if o.min <= p.min && o.max >= p.min then o.min else p.min;
      var hi := if o.max >= p.max && o.min <= p.max then o.max else p.max;
      PortRange(p.protocol, lo, hi)
  }

  /** Ranges that only touch (`p.max + 1 == o.min`) are not merged. */
  lemma AdjacentNotMerged(p: PortRange, o: PortRange)
    requires WellFormed(p) && WellFormed(o) && p.protocol == o.protocol
    requires p.max + 1 == o.min || o.max + 1 == p.min
    ensures Merge(p, o) == p
  {
  }

  /** The hull of two overlapping ranges holds exactly the ports of both. */
  lemma HullIsUnion(a: PortRange, b: PortRange)
    requires WellFormed(a) && WellFormed(b) && Overlap(a, b)
    ensures forall proto, port :: InRange(Hull(a, b), proto, port) <==> InRange(a, proto, port) || InRange(b, proto, port)
  {
  }

  /** `portRange.String`: "tcp", "udp" or the protocol number, then ":min-max". */
  function ProtocolName(p: uint8): string
  {
    if p == Message.TCP then "tcp" else if p == Message.UDP then "udp" else Decimal(p)
  }

  function Format(r: PortRange): string
  {
    ProtocolName(r.protocol) + ":" + Decimal(r.min) + "-" + Decimal(r.max)
  }

  // ---------------------------------------------------------------------------
  // The list

  /** The list invariant: every entry holds a port, and no two entries of the same
      protocol share a port. */
  ghost predicate Disjoint(l: seq<PortRange>)
  {
    && (forall i :: 0 <= i < |l| ==> WellFormed(l[i]))
    && (forall i, j :: 0 <= i < |l| && 0 <= j < |l| && i != j ==> !Overlap(l[i], l[j]))
  }

  /** Some entry of the list holds the port. */
  predicate Covers(l: seq<PortRange>, protocol: int, port: int)
  {
    exists i :: 0 <= i < |l| && InRange(l[i], protocol, port)
  }

  /** The entries of `l` that share no port with `r`, in their order. */
  function Unshared(l: seq<PortRange>, r: PortRange): seq<PortRange>
  {
    if l == [] then []
    else (if Overlap(l[0], r) then [] else [l[0]]) + Unshared(l[1..], r)
  }

  /** The entries of protocol `q`, in their order. */
  function OfProtocol(l: seq<PortRange>, q: int): seq<PortRange>
  {
    if l == [] then []
    else (if l[0].protocol == q then [l[0]] else []) + OfProtocol(l[1..], q)
  }

  /** How the loop of `addRange` ends: at an entry that contains the growing range,
      or after the last entry with the entries kept and the final range. */
  datatype Scan = Contained | Merged(kept: seq<PortRange>, last: PortRange)

  /** The loop of `addRange` from index `i`, with the entries kept so far and the
      range grown so far: stop at an entry containing the range, otherwise merge the
      entry into the range and keep the entry unless the range now contains it. */
  function ScanFrom(l: seq<PortRange>, i: nat, kept: seq<PortRange>, r: PortRange): Scan
    requires i <= |l|
    decreases |l| - i
  {
    if i == |l| then Merged(kept, r)
    else if Contains(l[i], r) then Contained
    else
      var r' := Merge(r, l[i]);
      ScanFrom(l, i + 1, if Contains(r', l[i]) then kept else kept + [l[i]], r')
  }

  /** The list after `addRange(r)`: unchanged when the loop stops at a containing
      entry, otherwise the kept entries followed by the grown range. */
  function Added(l: seq<PortRange>, r: PortRange): seq<PortRange>
  {
    match ScanFrom(l, 0, [], r)
    case Contained => l
    case Merged(kept, last) => kept + [last]
  }

  lemma ContainsTransitive(a: PortRange, b: PortRange, c: PortRange)
    requires Contains(a, b) && Contains(b, c)
    ensures Contains(a, c)
  {
  }

  /** Once the range contains one entry, no other entry of a disjoint list can
      contain the range. */
  lemma NoOtherContainer(l: seq<PortRange>, i: nat, r: PortRange)
    requires Disjoint(l) && i < |l| && Contains(r, l[i])
    ensures forall j :: 0 <= j < |l| && j != i ==> !Contains(l[j], r)
  {
    forall j | 0 <= j < |l| && j != i
      ensures !Contains(l[j], r)
    {
      assert !Overlap(l[j], l[i]);
    }
  }

  /** An entry is kept exactly when it shares no port with the (well-formed) range;
      a kept entry leaves the range unchanged. */
  lemma MergeStep(r: PortRange, e: PortRange)
    requires WellFormed(r) && WellFormed(e)
    ensures WellFormed(Merge(r, e))
    ensures Contains(Merge(r, e), e) <==> Overlap(r, e)
    ensures !Overlap(r, e) ==> Merge(r, e) == r
    ensures Overlap(r, e) ==> forall proto, port :: InRange(Merge(r, e), proto, port) <==> InRange(r, proto, port) || InRange(e, proto, port)
  {
    if Overlap(r, e) { HullIsUnion(r, e); }
  }

  /** The loop stops early exactly when some remaining entry contains the range. */
  lemma {:induction false} ScanContained(l: seq<PortRange>, i: nat, kept: seq<PortRange>, r: PortRange)
    requires Disjoint(l) && WellFormed(r) && i <= |l|
    ensures ScanFrom(l, i, kept, r).Contained? <==> exists j :: i <= j < |l| && Contains(l[j], r)
    decreases |l| - i
  {
    if i < |l| && !Contains(l[i], r) {
      var r' := Merge(r, l[i]);
      MergeStep(r, l[i]);
      ScanContained(l, i + 1, if Contains(r', l[i]) then kept else kept + [l[i]], r');
      if Overlap(r, l[i]) {
        // l[i] shares a port with the range, so no later entry can contain the
        // range, before or after it grows
        NoOtherContainer(l, i, r');
        forall j | i < j < |l|
          ensures !Contains(l[j], r)
        {
          assert !Overlap(l[j], l[i]);
        }
      }
    }
  }

  /** What the loop leaves when it runs to the end: the kept entries are those that
      share no port with the final range, the final range contains the starting one
      and every scanned entry it overlaps, and every port of it was in the starting
      range or in a scanned entry. */
  lemma {:induction false} ScanMerged(l: seq<PortRange>, i: nat, kept: seq<PortRange>, r: PortRange)
    requires Disjoint(l) && WellFormed(r) && i <= |l|
    requires ScanFrom(l, i, kept, r).Merged?
    ensures var s := ScanFrom(l, i, kept, r);
      && s.kept == kept + Unshared(l[i..], s.last)
      && Contains(s.last, r)
      && (forall j :: i <= j < |l| && Overlap(l[j], s.last) ==> Contains(s.last, l[j]))
      && (forall port :: InRange(s.last, r.protocol, port) ==>
            InRange(r, r.protocol, port) || exists j :: i <= j < |l| && InRange(l[j], r.protocol, port))
    decreases |l| - i
  {
    var s := ScanFrom(l, i, kept, r);
    if i == |l| {
      assert l[i..] == [];
    } else {
      var e := l[i];
      var r' := Merge(r, e);
      MergeStep(r, e);
      var kept' := if Contains(r', e) then kept else kept + [e];
      assert s == ScanFrom(l, i + 1, kept', r');
      ScanMerged(l, i + 1, kept', r');
      assert l[i..] == [e] + l[i + 1..];
      assert Unshared(l[i..], s.last) == (if Overlap(e, s.last) then [] else [e]) + Unshared(l[i + 1..], s.last);
      if Contains(r', e) {
        // e was dropped: it lies inside the final range
        ContainsTransitive(s.last, r', e);
        assert Overlap(e, s.last);
        forall port | InRange(s.last, r.protocol, port)
          ensures InRange(r, r.protocol, port) || exists j :: i <= j < |l| && InRange(l[j], r.protocol, port)
        {
          if InRange(e, r.protocol, port) {
            assert i <= i < |l| && InRange(l[i], r.protocol, port);
          }
        }
      } else {
        // e was kept: the range did not grow, and e shares no port with it, since
        // it shares none with the range nor with any later entry
        assert r' == r && !Overlap(r, e);
        forall j | i + 1 <= j < |l|
          ensures !Overlap(l[j], e)
        {
          assert j != i;
        }
        var w := Max(e.min, s.last.min);
        assert Overlap(e, s.last) ==> InRange(s.last, r.protocol, w) && InRange(e, r.protocol, w);
        assert !Overlap(e, s.last);
      }
    }
  }

  /** The shape of the new list: unchanged when some entry already contains the new
      range; otherwise the old entries sharing no port with the grown range, in their
      order, followed by the grown range, which contains the new one. */
  lemma AddedShape(l: seq<PortRange>, r: PortRange)
    requires Disjoint(l) && WellFormed(r)
    ensures (exists j :: 0 <= j < |l| && Contains(l[j], r)) ==> Added(l, r) == l
    ensures (forall j :: 0 <= j < |l| ==> !Contains(l[j], r)) ==>
      var last := Added(l, r)[|Added(l, r)| - 1];
      |Added(l, r)| >= 1 && Contains(last, r) && Added(l, r) == Unshared(l, last) + [last]
  {
    ScanContained(l, 0, [], r);
    if ScanFrom(l, 0, [], r).Merged? {
      ScanMerged(l, 0, [], r);
      assert l[0..] == l;
    }
  }

  lemma CoversAppend(a: seq<PortRange>, b: seq<PortRange>, proto: int, port: int)
    ensures Covers(a + b, proto, port) <==> Covers(a, proto, port) || Covers(b, proto, port)
  {
    if Covers(a + b, proto, port) {
      var i :| 0 <= i < |a + b| && InRange((a + b)[i], proto, port);
      if i >= |a| { assert InRange(b[i - |a|], proto, port); }
    }
    if Covers(b, proto, port) {
      var i :| 0 <= i < |b| && InRange(b[i], proto, port);
      assert InRange((a + b)[|a| + i], proto, port);
    }
    if Covers(a, proto, port) {
      var i :| 0 <= i < |a| && InRange(a[i], proto, port);
      assert InRange((a + b)[i], proto, port);
    }
  }

  /** Every entry of `Unshared(l, x)` is an entry of `l` that shares no port with `x`. */
  lemma {:induction false} UnsharedEntries(l: seq<PortRange>, x: PortRange)
    ensures forall i :: 0 <= i < |Unshared(l, x)| ==>
      !Overlap(Unshared(l, x)[i], x) && exists j :: 0 <= j < |l| && Unshared(l, x)[i] == l[j]
    decreases |l|
  {
    if l != [] {
      UnsharedEntries(l[1..], x);
      var u := Unshared(l, x);
      var head := if Overlap(l[0], x) then [] else [l[0]];
      var tail := Unshared(l[1..], x);
      assert u == head + tail;
      forall i | 0 <= i < |u|
        ensures !Overlap(u[i], x) && exists j :: 0 <= j < |l| && u[i] == l[j]
      {
        if i < |head| {
          assert u[i] == l[0];
        } else {
          assert u[i] == tail[i - |head|];
          var j :| 0 <= j < |l[1..]| && tail[i - |head|] == l[1..][j];
          assert u[i] == l[j + 1];
        }
      }
    }
  }

  /** A port held by an entry of `l` outside `x` is still held by an entry of
      `Unshared(l, x)`, provided every entry of `l` that overlaps `x` lies inside it. */
  lemma {:induction false} UnsharedKeepsPort(l: seq<PortRange>, x: PortRange, proto: int, port: int)
    requires forall j :: 0 <= j < |l| && Overlap(l[j], x) ==> Contains(x, l[j])
    requires Covers(l, proto, port) && !InRange(x, proto, port)
    ensures Covers(Unshared(l, x), proto, port)
    decreases |l|
  {
    var head := if Overlap(l[0], x) then [] else [l[0]];
    var tail := Unshared(l[1..], x);
    assert Unshared(l, x) == head + tail;
    var j :| 0 <= j < |l| && InRange(l[j], proto, port);
    if j == 0 {
      assert !Contains(x, l[0]);
      assert InRange(head[0], proto, port);
    } else {
      assert InRange(l[1..][j - 1], proto, port);
      UnsharedKeepsPort(l[1..], x, proto, port);
    }
    CoversAppend(head, tail, proto, port);
  }

  lemma {:induction false} UnsharedDisjoint(l: seq<PortRange>, x: PortRange)
    requires Disjoint(l) && WellFormed(x)
    ensures Disjoint(Unshared(l, x) + [x])
    decreases |l|
  {
    var u := Unshared(l, x);
    UnsharedEntries(l, x);
    if l != [] {
      var head := if Overlap(l[0], x) then [] else [l[0]];
      var tail := Unshared(l[1..], x);
      assert u == head + tail;
      assert Disjoint(l[1..]) by {
        forall i, j | 0 <= i < |l[1..]| && 0 <= j < |l[1..]| && i != j
          ensures !Overlap(l[1..][i], l[1..][j])
        {
          assert l[1..][i] == l[i + 1] && l[1..][j] == l[j + 1];
        }
      }
      UnsharedDisjoint(l[1..], x);
      UnsharedEntries(l[1..], x);
      var v := u + [x];
      forall i, j | 0 <= i < |v| && 0 <= j < |v| && i != j
        ensures !Overlap(v[i], v[j])
      {
        if i < |head| && j < |u| {
          // the kept head against an entry taken from the rest of the list
          var k :| 0 <= k < |l[1..]| && tail[j - 1] == l[1..][k];
          assert v[j] == l[k + 1] && v[i] == l[0];
        } else if j < |head| && i < |u| {
          var k :| 0 <= k < |l[1..]| && tail[i - 1] == l[1..][k];
          assert v[i] == l[k + 1] && v[j] == l[0];
        } else if i < |head| || j < |head| {
          assert v[i] == x || v[j] == x;
        } else {
          var w := tail + [x];
          assert v[i] == w[i - |head|] && v[j] == w[j - |head|];
        }
      }
    }
  }

  /** With `min <= max`, the ports held after `addRange` are exactly the ports held
      before together with the new range. */
  lemma AddedCoverage(l: seq<PortRange>, r: PortRange)
    requires Disjoint(l) && WellFormed(r)
    ensures forall proto, port :: Covers(Added(l, r), proto, port) <==> Covers(l, proto, port) || InRange(r, proto, port)
  {
    ScanContained(l, 0, [], r);
    if s :| s == ScanFrom(l, 0, [], r) && s.Merged? {
      ScanMerged(l, 0, [], r);
      assert l[0..] == l;
      var u := Unshared(l, s.last);
      assert Added(l, r) == u + [s.last];
      forall proto, port
        ensures Covers(Added(l, r), proto, port) <==> Covers(l, proto, port) || InRange(r, proto, port)
      {
        CoversAppend(u, [s.last], proto, port);
        UnsharedEntries(l, s.last);
        if Covers(u, proto, port) {
          var i :| 0 <= i < |u| && InRange(u[i], proto, port);
          var j :| 0 <= j < |l| && u[i] == l[j];
          assert InRange(l[j], proto, port);
        }
        if Covers(l, proto, port) && !InRange(s.last, proto, port) {
          UnsharedKeepsPort(l, s.last, proto, port);
        }
        if InRange(s.last, proto, port) {
          assert InRange([s.last][0], proto, port);
        }
      }
    } else {
      var j :| 0 <= j < |l| && Contains(l[j], r);
      forall proto, port | InRange(r, proto, port)
        ensures Covers(l, proto, port)
      {
        assert InRange(l[j], proto, port);
      }
    }
  }

  /** With `min <= max`, `addRange` keeps the list invariant. */
  lemma AddedDisjoint(l: seq<PortRange>, r: PortRange)
    requires Disjoint(l) && WellFormed(r)
    ensures Disjoint(Added(l, r))
  {
    if ScanFrom(l, 0, [], r).Merged? {
      var s := ScanFrom(l, 0, [], r);
      ScanMerged(l, 0, [], r);
      assert l[0..] == l;
      assert Added(l, r) == Unshared(l, s.last) + [s.last];
      UnsharedDisjoint(l, s.last);
    }
  }

  lemma OfProtocolAppend(a: seq<PortRange>, b: seq<PortRange>, q: int)
    ensures OfProtocol(a + b, q) == OfProtocol(a, q) + OfProtocol(b, q)
  {
    if a == [] {
      assert a + b == b;
    } else {
      assert (a + b)[0] == a[0] && (a + b)[1..] == a[1..] + b;
      OfProtocolAppend(a[1..], b, q);
    }
  }

  lemma {:induction false} UnsharedOtherProtocol(l: seq<PortRange>, x: PortRange, q: int)
    requires q != x.protocol
    ensures OfProtocol(Unshared(l, x), q) == OfProtocol(l, q)
    decreases |l|
  {
    if l != [] {
      var head := if Overlap(l[0], x) then [] else [l[0]];
      UnsharedOtherProtocol(l[1..], x, q);
      OfProtocolAppend(head, Unshared(l[1..], x), q);
    }
  }

  /** `addRange` leaves the entries of every other protocol as they were, in order. */
  lemma AddedOtherProtocols(l: seq<PortRange>, r: PortRange, q: int)
    requires Disjoint(l) && WellFormed(r) && q != r.protocol
    ensures OfProtocol(Added(l, r), q) == OfProtocol(l, q)
  {
    if ScanFrom(l, 0, [], r).Merged? {
      var s := ScanFrom(l, 0, [], r);
      ScanMerged(l, 0, [], r);
      assert l[0..] == l;
      assert Added(l, r) == Unshared(l, s.last) + [s.last];
      UnsharedOtherProtocol(l, s.last, q);
      OfProtocolAppend(Unshared(l, s.last), [s.last], q);
    }
  }

  /** Overlapping ranges added out of order coalesce into one range (the last case
      of the addRange test in internal/pserver/portrangelist_test.go). */
  lemma CoalescingExample()
    ensures var tcp := Message.TCP;
      Added(Added(Added(Added(Added([], PortRange(tcp, 4096, 8192)), PortRange(tcp, 16384, 32768)),
        PortRange(tcp, 2048, 4096)), PortRange(tcp, 8192, 16384)), PortRange(tcp, 1024, 2048))
      == [PortRange(tcp, 1024, 32768)]
  {
    var tcp := Message.TCP;
    var a, b := PortRange(tcp, 4096, 8192), PortRange(tcp, 16384, 32768);
    var c, d := PortRange(tcp, 2048, 8192), PortRange(tcp, 2048, 32768);
    // 16384-32768 is apart from 4096-8192: both stay
    var r := PortRange(tcp, 16384, 32768);
    assert ScanFrom([a], 0, [], r) == ScanFrom([a], 1, [a], r) == Merged([a], r);
    // 2048-4096 touches 4096-8192 at port 4096: they merge into 2048-8192
    r := PortRange(tcp, 2048, 4096);
    assert ScanFrom([a, b], 0, [], r) == ScanFrom([a, b], 1, [], c) == ScanFrom([a, b], 2, [b], c);
    // 8192-16384 shares a port with both: everything merges into 2048-32768
    r := PortRange(tcp, 8192, 16384);
    assert ScanFrom([b, c], 0, [], r) == ScanFrom([b, c], 1, [], PortRange(tcp, 8192, 32768)) == ScanFrom([b, c], 2, [], d);
    // 1024-2048 extends it down to 1024
    r := PortRange(tcp, 1024, 2048);
    assert ScanFrom([d], 0, [], r) == ScanFrom([d], 1, [], PortRange(tcp, 1024, 32768));
    assert Added([], a) == [a];
    assert Added([a], b) == [a, b];
    assert Added([a, b], PortRange(tcp, 2048, 4096)) == [b, c];
    assert Added([b, c], PortRange(tcp, 8192, 16384)) == [d];
    assert Added([d], r) == [PortRange(tcp, 1024, 32768)];
  }

  // ---------------------------------------------------------------------------
  // The text form "<proto>:<port>" or "<proto>:<min>-<max>"

  function ParseProtocol(name: string): Option<uint8>
  {
    if name == "tcp" then Some(Message.TCP) else if name == "udp" then Some(Message.UDP) else None
  }

  /** The parsing half of `portRangeList.add`: exactly one ':', protocol "tcp" or
      "udp", then one port or two ports separated by '-', each a decimal number of
      at most 65535; inverted bounds are swapped. Any failure is fatal in the source. */
  function ParsePortRange(s: string): (r: Result<PortRange>)
    ensures r.Ok? ==> WellFormed(r.value) && (r.value.protocol == Message.TCP || r.value.protocol == Message.UDP)
  {
    var protPorts := Split(s, ':');
    if |protPorts| != 2 then Err("cannot parse allowed port")
    else
      var protocol := ParseProtocol(protPorts[0]);
      if protocol.None? then Err("unknown protocol in allowed port")
      else
        var minmax := Split(protPorts[1], '-');
        if |minmax| < 1 || |minmax| > 2 then Err("cannot parse allowed port")
        else
          var min := ParseUint16(minmax[0]);
          if min.None? then Err("invalid syntax")
          else
            var max := ParseUint16(if |minmax| == 2 then minmax[1] else minmax[0]);
            if max.None? then Err("invalid syntax")
            else if min.value > max.value then Ok(PortRange(protocol.value, max.value, min.value))
            else Ok(PortRange(protocol.value, min.value, max.value))
  }

  lemma SplitProtocol(name: string, rest: string)
    requires name == "tcp" || name == "udp"
    requires ':' !in rest
    ensures Split(name + ":" + rest, ':') == [name, rest]
  {
    assert ':' !in name;
    SplitAtSeparator(name, ':', rest);
    SplitNoSeparator(rest, ':');
  }

  /** A single port "proto:n" stands for the range n-n. */
  lemma ParseSinglePort(name: string, n: uint16)
    requires name == "tcp" || name == "udp"
    ensures ParsePortRange(name + ":" + Decimal(n)) == Ok(PortRange(ParseProtocol(name).value, n, n))
  {
    SplitProtocol(name, Decimal(n));
    SplitNoSeparator(Decimal(n), '-');
    ParseDecimal(n);
  }

  /** "proto:a-b" stands for the range from the smaller to the larger of a and b. */
  lemma ParsePortPair(name: string, a: uint16, b: uint16)
    requires name == "tcp" || name == "udp"
    ensures ParsePortRange(name + ":" + Decimal(a) + "-" + Decimal(b))
         == Ok(PortRange(ParseProtocol(name).value, Min(a, b), Max(a, b)))
  {
    var rest := Decimal(a) + "-" + Decimal(b);
    assert name + ":" + Decimal(a) + "-" + Decimal(b) == name + ":" + rest;
    assert ':' !in rest by {
      assert forall i :: 0 <= i < |rest| ==> rest[i] == '-' || IsDigit(rest[i]);
    }
    SplitProtocol(name, rest);
    SplitAtSeparator(Decimal(a), '-', Decimal(b));
    SplitNoSeparator(Decimal(b), '-');
    ParseDecimal(a);
    ParseDecimal(b);
  }

  /** Formatting a TCP or UDP range and parsing the text gives the range back. */
  lemma ParseFormat(r: PortRange)
    requires WellFormed(r) && (r.protocol == Message.TCP || r.protocol == Message.UDP)
    ensures ParsePortRange(Format(r)) == Ok(r)
  {
    ParsePortPair(ProtocolName(r.protocol), r.min, r.max);
  }

  /** A protocol other than "tcp" and "udp" is refused. */
  lemma ParseUnknownProtocol(name: string, rest: string)
    requires name != "tcp" && name != "udp" && ':' !in name && ':' !in rest
    ensures ParsePortRange(name + ":" + rest).Err?
  {
    SplitAtSeparator(name, ':', rest);
    SplitNoSeparator(rest, ':');
  }

  /** A port number above 65535 is refused. */
  lemma ParsePortTooLarge(name: string, n: nat)
    requires name == "tcp" || name == "udp"
    requires n >= 0x1_0000
    ensures ParsePortRange(name + ":" + Decimal(n)).Err?
  {
    SplitProtocol(name, Decimal(n));
    SplitNoSeparator(Decimal(n), '-');
    ParseDecimalTooLarge(n);
  }

  /** The text of an allowed port range: "tcp" or "udp", ':', then one port field,
      or two joined by '-'; no field holds ':' or '-'. A single port is read as
      both bounds, so `hi` is `lo` then. */
  predicate RangeText(s: string, name: string, lo: string, hi: string)
  {
    && (name == "tcp" || name == "udp")
    && ':' !in lo && '-' !in lo && ':' !in hi && '-' !in hi
    && (s == name + ":" + lo + "-" + hi || (hi == lo && s == name + ":" + lo))
  }

  /** A text of that shape parses exactly when both port fields are decimal numbers
      of at most 65535; the range then runs from the smaller to the larger. */
  lemma ParseRangeText(s: string, name: string, lo: string, hi: string)
    requires RangeText(s, name, lo, hi)
    ensures ParsePortRange(s).Ok? <==> ParseUint16(lo).Some? && ParseUint16(hi).Some?
    ensures ParsePortRange(s).Ok? ==>
      ParsePortRange(s).value == PortRange(ParseProtocol(name).value, Min(ParseUint16(lo).value, ParseUint16(hi).value),
                                           Max(ParseUint16(lo).value, ParseUint16(hi).value))
  {
    if s == name + ":" + lo + "-" + hi {
      var rest := lo + "-" + hi;
      assert s == name + ":" + rest;
      forall i | 0 <= i < |rest|
        ensures rest[i] != ':'
      {
        if i < |lo| {
          assert rest[i] == lo[i];
        } else if i > |lo| {
          assert rest[i] == hi[i - |lo| - 1];
        }
      }
      SplitProtocol(name, rest);
      SplitAtSeparator(lo, '-', hi);
      SplitNoSeparator(hi, '-');
    } else {
      SplitProtocol(name, lo);
      SplitNoSeparator(lo, '-');
    }
  }

  /** Only a text of that shape parses: another protocol name, other than one ':',
      or more than one '-' is refused. */
  lemma ParsedRangeText(s: string)
    requires ParsePortRange(s).Ok?
    ensures exists name, lo, hi :: RangeText(s, name, lo, hi)
  {
    var protPorts := Split(s, ':');
    JoinSplit(s, ':');
    assert s == protPorts[0] + ":" + protPorts[1];
    var rest := protPorts[1];
    var minmax := Split(rest, '-');
    JoinSplit(rest, '-');
    if |minmax| == 1 {
      assert RangeText(s, protPorts[0], minmax[0], minmax[0]);
    } else {
      var lo, hi := minmax[0], minmax[1];
      assert rest == lo + "-" + hi;
      forall i | 0 <= i < |lo|
        ensures lo[i] != ':'
      {
        assert rest[i] == lo[i];
      }
      forall i | 0 <= i < |hi|
        ensures hi[i] != ':'
      {
        assert rest[|lo| + 1 + i] == hi[i];
      }
      assert RangeText(s, protPorts[0], lo, hi);
    }
  }

  /** The texts `add` accepts, and the range it makes of them, exactly. */
  lemma ParseRangeAccepts(s: string, r: PortRange)
    ensures ParsePortRange(s) == Ok(r) <==>
      exists name, lo, hi :: RangeText(s, name, lo, hi) &&
        ParseUint16(lo).Some? && ParseUint16(hi).Some? &&
        r == PortRange(ParseProtocol(name).value, Min(ParseUint16(lo).value, ParseUint16(hi).value),
                       Max(ParseUint16(lo).value, ParseUint16(hi).value))
  {
    if ParsePortRange(s) == Ok(r) {
      ParsedRangeText(s);
      var name, lo, hi :| RangeText(s, name, lo, hi);
      ParseRangeText(s, name, lo, hi);
    }
    if exists name, lo, hi :: RangeText(s, name, lo, hi) &&
         ParseUint16(lo).Some? && ParseUint16(hi).Some? &&
         r == PortRange(ParseProtocol(name).value, Min(ParseUint16(lo).value, ParseUint16(hi).value),
                        Max(ParseUint16(lo).value, ParseUint16(hi).value)) {
      var name, lo, hi :| RangeText(s, name, lo, hi) &&
        ParseUint16(lo).Some? && ParseUint16(hi).Some? &&
        r == PortRange(ParseProtocol(name).value, Min(ParseUint16(lo).value, ParseUint16(hi).value),
                       Max(ParseUint16(lo).value, ParseUint16(hi).value));
      ParseRangeText(s, name, lo, hi);
    }
  }

  /** An upper bound above 65535 in "proto:a-b" is refused. */
  lemma ParseUpperTooLarge(name: string, a: uint16, n: nat)
    requires name == "tcp" || name == "udp"
    requires n >= 0x1_0000
    ensures ParsePortRange(name + ":" + Decimal(a) + "-" + Decimal(n)).Err?
  {
    var lo, hi := Decimal(a), Decimal(n);
    assert forall i :: 0 <= i < |lo| ==> IsDigit(lo[i]);
    assert forall i :: 0 <= i < |hi| ==> IsDigit(hi[i]);
    assert RangeText(name + ":" + lo + "-" + hi, name, lo, hi);
    ParseRangeText(name + ":" + lo + "-" + hi, name, lo, hi);
    ParseDecimalTooLarge(n);
  }

  /** Ranges that share no port are kept apart, in the order they were added (the
      getAll test in internal/pserver/portrangelist_test.go). */
  lemma SeparateRangesExample()
    ensures var tcp := Message.TCP;
      Added(Added(Added([], PortRange(tcp, 1024, 2048)), PortRange(tcp, 4096, 8192)), PortRange(tcp, 16384, 32768))
      == [PortRange(tcp, 1024, 2048), PortRange(tcp, 4096, 8192), PortRange(tcp, 16384, 32768)]
  {
    var tcp := Message.TCP;
    var a, b, c := PortRange(tcp, 1024, 2048), PortRange(tcp, 4096, 8192), PortRange(tcp, 16384, 32768);
    assert ScanFrom([a], 0, [], b) == ScanFrom([a], 1, [a], b);
    assert ScanFrom([a, b], 0, [], c) == ScanFrom([a, b], 1, [a], c) == ScanFrom([a, b], 2, [a, b], c);
  }

  /** The texts of the add test in internal/pserver/portrangelist_test.go: a single
      port, a range, and an inverted range. */
  lemma ParseExampleSingle()
    ensures ParsePortRange("udp:1024") == Ok(PortRange(Message.UDP, 1024, 1024))
  {
    assert Decimal(1024) == "1024";
    assert "udp:1024" == "udp" + ":" + Decimal(1024);
    ParseSinglePort("udp", 1024);
  }

  lemma ParseExampleRange()
    ensures ParsePortRange("tcp:1024-2048") == Ok(PortRange(Message.TCP, 1024, 2048))
  {
    assert Decimal(1024) == "1024" && Decimal(2048) == "2048";
    assert "tcp:1024-2048" == "tcp" + ":" + Decimal(1024) + "-" + Decimal(2048);
    ParsePortPair("tcp", 1024, 2048);
  }

  lemma ParseExampleInverted()
    ensures ParsePortRange("tcp:8192-4096") == Ok(PortRange(Message.TCP, 4096, 8192))
  {
    assert Decimal(8192) == "8192" && Decimal(4096) == "4096";
    assert "tcp:8192-4096" == "tcp" + ":" + Decimal(8192) + "-" + Decimal(4096);
    ParsePortPair("tcp", 8192, 4096);
  }

  // ---------------------------------------------------------------------------
  // The list object

  /** `portRangeList`: the slice `l` of ranges (`getAll` returns it as it is). */
  class PortRangeList {
    var l: seq<PortRange>

    constructor ()
      ensures l == []
    {
      l := [];
    }

    ghost predicate Valid()
      reads this
    {
      Disjoint(l)
    }

    /** `addRange`: one pass with a write index `k` that compacts the slice in place,
        stopping early when an entry contains the growing range, then truncation to
        `k` entries and an append of the grown range. */
    method AddRange(protocol: uint8, min: uint16, max: uint16)
      requires Valid()
      modifies this
      ensures l == Added(old(l), PortRange(protocol, min, max))
      ensures min <= max ==> Valid()
    {
      var r := PortRange(protocol, min, max);
      ghost var L, r0 := l, r;
      var k := 0;
      var i := 0;
      while i < |l|
        invariant |l| == |L| && 0 <= k <= i <= |L|
        invariant l[i..] == L[i..]
        invariant ScanFrom(L, 0, [], r0) == ScanFrom(L, i, l[..k], r)
        invariant k == i ==> l == L
        invariant k < i ==> forall j :: i <= j < |L| ==> !Contains(L[j], r)
      {
        var existing := l[i];
        assert existing == L[i];
        if Contains(existing, r) {
          // an entry already contains the new range: stop here
          return;
        }
        // try building a bigger range with the entry
        r := Merge(r, existing);
        if Contains(r, existing) {
          // the range now contains the entry: drop it
          NoOtherContainer(L, i, r);
        } else {
          // keep the entry
          assert l[k := existing][..k + 1] == l[..k] + [existing];
          l := l[k := existing];
          k := k + 1;
        }
        i := i + 1;
      }
      l := l[..k];
      l := l + [r];
      if min <= max {
        AddedDisjoint(L, r0);
      }
    }

    /** `getAll`: the ranges, in the order the list holds them. */
    method GetAll() returns (all: seq<PortRange>)
      ensures all == l
    {
      all := l;
    }

    /** `portRangeList.containsPort`: a linear search for an entry holding the port. */
    method ContainsPort(protocol: uint8, port: uint16) returns (found: bool)
      ensures found <==> Covers(l, protocol, port)
    {
      for i := 0 to |l|
        invariant forall j :: 0 <= j < i ==> !InRange(l[j], protocol, port)
      {
        if InRange(l[i], protocol, port) {
          return true;
        }
      }
      return false;
    }

    /** `portRangeList.add`: parse the text and add the range; a text that does not
        parse is fatal in the source and leaves the list unchanged here. */
    method Add(port: string) returns (ok: bool)
      requires Valid()
      modifies this
      ensures Valid()
      ensures ok <==> ParsePortRange(port).Ok?
      ensures l == if ok then Added(old(l), ParsePortRange(port).value) else old(l)
    {
      var r := ParsePortRange(port);
      if r.Err? {
        return false;
      }
      AddRange(r.value.protocol, r.value.min, r.value.max);
      return true;
    }
  }
}
