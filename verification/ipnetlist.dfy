/** The allow-list of client networks of internal/cmd/ipnetlist.go. A network is its
    address bytes and a prefix length, and contains an address of the same length
    whose leading `prefix` bits agree with it. */
module IpNets {
  import opened Basics

  datatype IpNet = IpNet(ip: seq<uint8>, prefix: nat)

  function Pow2(n: nat): (p: nat)
    ensures p >= 1
  {
    if n == 0 then 1 else 2 * Pow2(n - 1)
  }

  /** Bit `i` of the address, counting from the most significant bit of byte 0. */
  function Bit(ip: seq<uint8>, i: nat): (b: int)
    requires i < 8 * |ip|
    ensures b == 0 || b == 1
  {
    (ip[i / 8] / Pow2(7 - i % 8)) % 2
  }

  /** `net.IPNet.Contains` on a network given by address and prefix length: the
      lengths must agree and the first `prefix` bits must match; a prefix longer than
      the address compares every bit. */
  predicate NetContains(n: IpNet, ip: seq<uint8>)
  {
    |ip| == |n.ip| &&
    forall i :: 0 <= i < Min(n.prefix, 8 * |ip|) ==> Bit(ip, i) == Bit(n.ip, i)
  }

  /** Some network of the list contains the address. */
  predicate AnyContains(nets: seq<IpNet>, ip: seq<uint8>)
  {
    exists j :: 0 <= j < |nets| && NetContains(nets[j], ip)
  }

  /** A network contains its own address. */
  lemma ContainsOwnAddress(n: IpNet)
    ensures NetContains(n, n.ip)
  {
  }

  /** A shorter prefix on the same address is a larger network: whatever the longer
      one contains, the shorter one contains too. */
  lemma ShorterPrefixWider(ip: seq<uint8>, short: nat, long: nat, x: seq<uint8>)
    requires short <= long
    requires NetContains(IpNet(ip, long), x)
    ensures NetContains(IpNet(ip, short), x)
  {
  }

  /** A prefix of length 0 contains every address of the same length. */
  lemma ZeroPrefixContainsAll(ip: seq<uint8>, x: seq<uint8>)
    ensures NetContains(IpNet(ip, 0), x) <==> |x| == |ip|
  {
  }

  /** An empty list contains no address. */
  lemma EmptyContainsNothing(ip: seq<uint8>)
    ensures !AnyContains([], ip)
  {
  }

  /** Appending a network adds exactly the addresses it contains. */
  lemma AnyContainsAppend(nets: seq<IpNet>, n: IpNet, ip: seq<uint8>)
    ensures AnyContains(nets + [n], ip) <==> AnyContains(nets, ip) || NetContains(n, ip)
  {
    if AnyContains(nets, ip) {
      var j :| 0 <= j < |nets| && NetContains(nets[j], ip);
      assert (nets + [n])[j] == nets[j];
    }
    if NetContains(n, ip) {
      assert (nets + [n])[|nets|] == n;
    }
    if AnyContains(nets + [n], ip) && !NetContains(n, ip) {
      var j :| 0 <= j < |nets + [n]| && NetContains((nets + [n])[j], ip);
      assert j < |nets| && (nets + [n])[j] == nets[j];
    }
  }

  /** 10.0.0.0/8 holds 10.1.2.3 but not 11.0.0.1. */
  lemma Example()
    ensures NetContains(IpNet([10, 0, 0, 0], 8), [10, 1, 2, 3])
    ensures !NetContains(IpNet([10, 0, 0, 0], 8), [11, 0, 0, 1])
  {
    forall i | 0 <= i < 8
      ensures Bit([10, 1, 2, 3], i) == Bit([10, 0, 0, 0], i)
    {
      assert i / 8 == 0;
    }
    assert Bit([11, 0, 0, 1], 7) != Bit([10, 0, 0, 0], 7);
  }

  class IpNetList {
    var l: seq<IpNet>

    constructor()
      ensures l == []
    {
      l := [];
    }

    /** `add`: appends the network, without removing duplicates or merging nested
        networks. */
    method Add(ipNet: IpNet)
      modifies this
      ensures l == old(l) + [ipNet]
    {
      l := l + [ipNet];
    }

    /** `containsIP`: searches the list in order for a network holding `ip`. */
    method ContainsIp(ip: seq<uint8>) returns (found: bool)
      ensures found <==> AnyContains(l, ip)
    {
      for i := 0 to |l|
        invariant forall j :: 0 <= j < i ==> !NetContains(l[j], ip)
      {
        if NetContains(l[i], ip) {
          return true;
        }
      }
      return false;
    }
  }
}
