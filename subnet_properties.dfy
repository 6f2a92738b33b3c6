/**
 * Properties of the subnet calculator as written: octet-wise and numeric
 * ordering of network, address and broadcast, the host range, the host count,
 * the `/0` mask and the rendered strings. Numeric order is the unsigned order
 * of the 32-bit word `Word(q)` that an address's four octets make; it agrees
 * with dotted-quad order `Before`, which compares octets left to right.
 */
module SubnetProperties {
  import opened Wrappers
  import opened SubnetCalculator
  import DottedDecimal

  /** `a <= b` in each of the four octets. */
  predicate OctetwiseLe(a: Quad, b: Quad) {
    a.o0 <= b.o0 && a.o1 <= b.o1 && a.o2 <= b.o2 && a.o3 <= b.o3
  }

  /** `a` comes strictly before `b` in dotted-quad order: the first octet that differs is smaller. */
  predicate Before(a: Quad, b: Quad) {
    a.o0 < b.o0 || (a.o0 == b.o0 && (a.o1 < b.o1 || (a.o1 == b.o1 && (a.o2 < b.o2 || (a.o2 == b.o2 && a.o3 < b.o3)))))
  }

  predicate NotAfter(a: Quad, b: Quad) {
    Before(a, b) || a == b
  }

  // ---------------------------------------------------------------------------
  // Dotted-quad order is numeric order

  lemma FirstOctetDecides(a: Quad, b: Quad)
    requires a.o0 < b.o0
    ensures Word(a) < Word(b)
  {}

  lemma SecondOctetDecides(a: Quad, b: Quad)
    requires a.o0 == b.o0 && a.o1 < b.o1
    ensures Word(a) < Word(b)
  {}

  lemma ThirdOctetDecides(a: Quad, b: Quad)
    requires a.o0 == b.o0 && a.o1 == b.o1 && a.o2 < b.o2
    ensures Word(a) < Word(b)
  {}

  lemma LastOctetDecides(a: Quad, b: Quad)
    requires a.o0 == b.o0 && a.o1 == b.o1 && a.o2 == b.o2 && a.o3 < b.o3
    ensures Word(a) < Word(b)
  {}

  /** An address before another in dotted-quad order is numerically smaller. */
  lemma BeforeWord(a: Quad, b: Quad)
    requires Before(a, b)
    ensures Word(a) < Word(b)
  {
    if a.o0 < b.o0 {
      FirstOctetDecides(a, b);
    } else if a.o1 < b.o1 {
      SecondOctetDecides(a, b);
    } else if a.o2 < b.o2 {
      ThirdOctetDecides(a, b);
    } else {
      LastOctetDecides(a, b);
    }
  }

  lemma NotAfterWord(a: Quad, b: Quad)
    requires NotAfter(a, b)
    ensures Word(a) <= Word(b)
  {
    if Before(a, b) {
      BeforeWord(a, b);
    }
  }

  /** Octet-wise `<=` implies dotted-quad order. */
  lemma OctetwiseNotAfter(a: Quad, b: Quad)
    requires OctetwiseLe(a, b)
    ensures NotAfter(a, b)
  {}

  // ---------------------------------------------------------------------------
  // Network and broadcast

  /** The complemented mask, octet by octet: the host part of the block. */
  function HostMask(m: bv32): Quad {
    var k := MaskOctets(m);
    Quad(!k.o0, !k.o1, !k.o2, !k.o3)
  }

  /** Each network octet is at most the address octet. */
  lemma NetworkBelowAddress(a: Quad, m: bv32)
    ensures OctetwiseLe(NetworkParts(a, m), a)
  {}

  /** Each address octet is at most the broadcast octet. */
  lemma AddressBelowBroadcast(a: Quad, m: bv32)
    ensures OctetwiseLe(a, BroadcastParts(NetworkParts(a, m), m))
  {}

  /** Broadcast octets are network octets with the host bits added; the two share no bit. */
  lemma BroadcastSplits(a: Quad, m: bv32)
    ensures var n := NetworkParts(a, m); var b := BroadcastParts(n, m); var h := HostMask(m);
      && b.o0 == n.o0 | h.o0 && b.o1 == n.o1 | h.o1 && b.o2 == n.o2 | h.o2 && b.o3 == n.o3 | h.o3
      && n.o0 & h.o0 == 0 && n.o1 & h.o1 == 0 && n.o2 & h.o2 == 0 && n.o3 & h.o3 == 0
  {}

  lemma FactsParts(a: Quad, m: bv32, hostCount: int)
    ensures var f := FactsWithMask(a, m, hostCount);
      && f.network == NetworkParts(a, m) && f.broadcast == BroadcastParts(f.network, m)
      && f.firstHost == FirstHost(f.network) && f.lastHost == LastHost(f.broadcast)
      && f.hostCount == hostCount && f.subnetMask == MaskOctets(m)
  {}

  /** The host part, read as a word, is the complemented mask. */
  lemma HostMaskWord(m: bv32)
    ensures Word(HostMask(m)) == !m
  {}

  /** Octet by octet AND with the mask octets is the 32-bit AND with the mask. */
  lemma NetworkWord(a: Quad, m: bv32)
    ensures Word(NetworkParts(a, m)) == Word(a) & m
  {
    MaskOctetsWord(m);
  }

  /** Octet by octet OR with the complemented mask octets is the 32-bit OR with `~mask`. */
  lemma BroadcastWord(n: Quad, m: bv32)
    ensures Word(BroadcastParts(n, m)) == Word(n) | !m
  {
    MaskOctetsWord(m);
  }

  /** `network <= address <= broadcast`, octet by octet, in dotted-quad order and as 32-bit numbers. */
  lemma AddressOrdering(parts: seq<int>, prefix: Prefix)
    requires ValidAddress(parts)
    ensures var f := Facts(parts, prefix); var a := Octets(parts);
      && OctetwiseLe(f.network, a) && OctetwiseLe(a, f.broadcast)
      && NotAfter(f.network, a) && NotAfter(a, f.broadcast)
      && Word(f.network) <= Word(a) <= Word(f.broadcast)
  {
    var a := Octets(parts);
    var m := NetworkMask(prefix);
    var f := Facts(parts, prefix);
    FactsParts(a, m, HostCount(prefix));
    NetworkBelowAddress(a, m);
    AddressBelowBroadcast(a, m);
    OctetwiseNotAfter(f.network, a);
    OctetwiseNotAfter(a, f.broadcast);
    NotAfterWord(f.network, a);
    NotAfterWord(a, f.broadcast);
  }

  /** The broadcast address is the network address plus the complemented mask, as 32-bit numbers. */
  lemma BroadcastIsNetworkPlusHostBits(parts: seq<int>, prefix: Prefix)
    requires ValidAddress(parts)
    ensures Word(Facts(parts, prefix).broadcast) == Word(Facts(parts, prefix).network) + !NetworkMask(prefix)
  {
    var a := Octets(parts);
    var m := NetworkMask(prefix);
    FactsParts(a, m, HostCount(prefix));
    NetworkWord(a, m);
    BroadcastWord(NetworkParts(a, m), m);
  }

  // ---------------------------------------------------------------------------
  // Host addresses

  /** For a prefix of 1 to 30 the mask's two lowest bits are clear; `/31` and `/32` give the masks 0xFFFFFFFE and 0xFFFFFFFF. */
  lemma MaskLowBits(prefix: Prefix)
    requires 1 <= prefix
    ensures prefix <= 30 ==> NetworkMask(prefix) & 3 == 0
    ensures prefix == 31 ==> NetworkMask(prefix) == 0xFFFF_FFFE
    ensures prefix == 32 ==> NetworkMask(prefix) == 0xFFFF_FFFF
  {
    PrefixShift(prefix);
    var k := ShiftCount((32 - prefix) % 32);
    ShiftedOnesLowBits(k);
    Bv5Order(2, k);
  }

  lemma ShiftedOnesLowBits(k: bv5)
    ensures 2 <= k ==> ((0xFFFF_FFFF as bv32) << k) & 3 == 0
    ensures k == 1 ==> (0xFFFF_FFFF as bv32) << k == 0xFFFF_FFFE
    ensures k == 0 ==> (0xFFFF_FFFF as bv32) << k == 0xFFFF_FFFF
  {}

  /** Without wrap-around, the first host is the network address plus one. */
  lemma IncrementLastOctet(n: Quad)
    requires n.o3 != 255
    ensures Word(FirstHost(n)) == Word(n) + 1
  {}

  /** Without wrap-around, the last host is the broadcast address minus one. */
  lemma DecrementLastOctet(b: Quad)
    requires b.o3 != 0
    ensures Word(LastHost(b)) == Word(b) - 1
  {}

  /** The two lowest bits of the last network and broadcast octets when the mask clears them. */
  lemma LowOctets(a: Quad, m: bv32)
    requires m & 3 == 0
    ensures NetworkParts(a, m).o3 & 3 == 0 && BroadcastParts(NetworkParts(a, m), m).o3 & 3 == 3
  {}

  /**
   * With the two lowest mask bits clear, neither host step wraps and
   * `network < firstHost <= lastHost < broadcast` in dotted-quad order.
   */
  lemma HostRangeForMask(a: Quad, m: bv32)
    requires m & 3 == 0
    ensures var n := NetworkParts(a, m); var b := BroadcastParts(n, m);
      && n.o3 != 255 && b.o3 != 0
      && Before(n, FirstHost(n)) && NotAfter(FirstHost(n), LastHost(b)) && Before(LastHost(b), b)
  {
    var n := NetworkParts(a, m);
    var b := BroadcastParts(n, m);
    LowOctets(a, m);
    NetworkBelowAddress(a, m);
    AddressBelowBroadcast(a, m);
    assert OctetwiseLe(n, b);
    HostRangeOrder(n, b);
  }

  /** A network and broadcast octet pair whose last octets end in binary 00 and 11 leave room for two hosts. */
  lemma HostRangeOrder(n: Quad, b: Quad)
    requires OctetwiseLe(n, b) && n.o3 & 3 == 0 && b.o3 & 3 == 3
    ensures n.o3 != 255 && b.o3 != 0
    ensures Before(n, FirstHost(n)) && NotAfter(FirstHost(n), LastHost(b)) && Before(LastHost(b), b)
  {
    LastOctetGap(n.o3, b.o3);
    var f, l := FirstHost(n), LastHost(b);
    assert f.o3 == n.o3 + 1 && l.o3 == b.o3 - 1;
    if n.o0 == b.o0 && n.o1 == b.o1 && n.o2 == b.o2 {
      LastOctetDecidesOrder(f, l);
    } else {
      EarlierOctetDecidesOrder(n, b, f, l);
    }
  }

  lemma LastOctetGap(x: bv8, y: bv8)
    requires x <= y && x & 3 == 0 && y & 3 == 3
    ensures x != 255 && y != 0 && x < x + 1 <= y - 1 < y
  {}

  lemma LastOctetDecidesOrder(f: Quad, l: Quad)
    requires f.o0 == l.o0 && f.o1 == l.o1 && f.o2 == l.o2 && f.o3 <= l.o3
    ensures NotAfter(f, l)
  {}

  lemma EarlierOctetDecidesOrder(n: Quad, b: Quad, f: Quad, l: Quad)
    requires OctetwiseLe(n, b) && !(n.o0 == b.o0 && n.o1 == b.o1 && n.o2 == b.o2)
    requires f.o0 == n.o0 && f.o1 == n.o1 && f.o2 == n.o2
    requires l.o0 == b.o0 && l.o1 == b.o1 && l.o2 == b.o2
    ensures Before(f, l)
  {}

  /**
   * For a prefix of 1 to 30 neither host step wraps, and
   * `network < firstHost <= lastHost < broadcast` in dotted-quad order.
   */
  lemma HostRange(parts: seq<int>, prefix: Prefix)
    requires ValidAddress(parts) && 1 <= prefix <= 30
    ensures var f := Facts(parts, prefix);
      && f.network.o3 != 255 && f.broadcast.o3 != 0
      && Before(f.network, f.firstHost) && NotAfter(f.firstHost, f.lastHost) && Before(f.lastHost, f.broadcast)
  {
    var a := Octets(parts);
    var m := NetworkMask(prefix);
    MaskLowBits(prefix);
    FactsParts(a, m, HostCount(prefix));
    HostRangeForMask(a, m);
  }

  /** network < firstHost <= lastHost < broadcast as 32-bit numbers. */
  predicate HostWordsOrdered(f: SubnetFacts) {
    Word(f.network) < Word(f.firstHost) <= Word(f.lastHost) < Word(f.broadcast)
  }

  /** For a prefix of 1 to 30 the four addresses are in strictly increasing numeric order, the hosts possibly equal. */
  lemma HostRangeWords(parts: seq<int>, prefix: Prefix)
    requires ValidAddress(parts) && 1 <= prefix <= 30
    ensures HostWordsOrdered(Facts(parts, prefix))
  {
    HostRange(parts, prefix);
    OrderedHostWords(Facts(parts, prefix));
  }

  lemma OrderedHostWords(f: SubnetFacts)
    requires Before(f.network, f.firstHost) && NotAfter(f.firstHost, f.lastHost) && Before(f.lastHost, f.broadcast)
    ensures HostWordsOrdered(f)
  {
    OrderedWords(f.network, f.firstHost, f.lastHost, f.broadcast);
  }

  lemma OrderedWords(n: Quad, f: Quad, l: Quad, b: Quad)
    requires Before(n, f) && NotAfter(f, l) && Before(l, b)
    ensures Word(n) < Word(f) <= Word(l) < Word(b)
  {
    BeforeWord(n, f);
    NotAfterWord(f, l);
    BeforeWord(l, b);
  }

  /** For a prefix of 1 to 30 the first host is the network address plus one, as 32-bit numbers. */
  lemma FirstHostIsNetworkPlusOne(parts: seq<int>, prefix: Prefix)
    requires ValidAddress(parts) && 1 <= prefix <= 30
    ensures Word(Facts(parts, prefix).firstHost) == Word(Facts(parts, prefix).network) + 1
  {
    HostRange(parts, prefix);
    IncrementLastOctet(Facts(parts, prefix).network);
  }

  /** For a prefix of 1 to 30 the last host is the broadcast address minus one, as 32-bit numbers. */
  lemma LastHostIsBroadcastMinusOne(parts: seq<int>, prefix: Prefix)
    requires ValidAddress(parts) && 1 <= prefix <= 30
    ensures Word(Facts(parts, prefix).lastHost) == Word(Facts(parts, prefix).broadcast) - 1
  {
    HostRange(parts, prefix);
    DecrementLastOctet(Facts(parts, prefix).broadcast);
  }

  /** For `/31` the first host is the broadcast address and the last host the network address. */
  lemma PointToPointHosts(parts: seq<int>)
    requires ValidAddress(parts)
    ensures var f := Facts(parts, 31);
      f.firstHost == f.broadcast && f.lastHost == f.network && f.hostCount == 0
  {
    var a := Octets(parts);
    var m := NetworkMask(31);
    MaskLowBits(31);
    FactsParts(a, m, HostCount(31));
    PointToPointOctets(a.o3, m);
  }

  lemma PointToPointOctets(x: bv8, m: bv32)
    requires m == 0xFFFF_FFFE
    ensures (x & MaskOctets(m).o3) + 1 == (x & MaskOctets(m).o3) | !MaskOctets(m).o3
    ensures ((x & MaskOctets(m).o3) | !MaskOctets(m).o3) - 1 == x & MaskOctets(m).o3
  {}

  /**
   * For `/32` network and broadcast are the address itself, and the host
   * steps wrap the last octet: `x.x.x.255/32` has first host `x.x.x.0`.
   */
  lemma SingleAddressHosts(parts: seq<int>)
    requires ValidAddress(parts)
    ensures var f := Facts(parts, 32); var a := Octets(parts);
      && f.network == a && f.broadcast == a && f.hostCount == -1
      && f.firstHost == FirstHost(a) && f.lastHost == LastHost(a)
      && (a.o3 == 255 ==> f.firstHost.o3 == 0) && (a.o3 == 0 ==> f.lastHost.o3 == 255)
  {
    var a := Octets(parts);
    var m := NetworkMask(32);
    MaskLowBits(32);
    FactsParts(a, m, HostCount(32));
  }

  // ---------------------------------------------------------------------------
  // The `/0` mask

  /**
   * `/0` shifts by 32, which JavaScript takes as a shift by 0: the mask is all
   * ones, the subnet mask reads 255.255.255.255, and network and broadcast
   * are the address itself.
   */
  lemma ZeroPrefixMask(parts: seq<int>)
    requires ValidAddress(parts)
    ensures NetworkMask(0) == 0xFFFF_FFFF
    ensures var f := Facts(parts, 0); var a := Octets(parts);
      && f.subnetMask == Quad(255, 255, 255, 255)
      && f.network == a && f.broadcast == a
      && f.hostCount == Pow2(32) - 2
  {
    var a := Octets(parts);
    var m := NetworkMask(0);
    assert m == 0xFFFF_FFFF;
    FactsParts(a, m, HostCount(0));
  }

  // ---------------------------------------------------------------------------
  // Host count

  /** `2^(32 - prefix) - 2` for the everyday prefixes: 254 hosts for `/24`, 2 for `/30`. */
  lemma HostCountValues()
    ensures HostCount(24) == 254 && HostCount(30) == 2
  {
    assert Pow2(2) == 4;
  }

  /**
   * For a prefix of 1 to 32 the count is the size of the block the mask
   * leaves free, less the network and broadcast addresses: the complemented
   * mask is the highest host offset, so the block has `!mask + 1` addresses.
   */
  lemma HostCountFromMask(prefix: Prefix)
    requires 1 <= prefix
    ensures HostCount(prefix) == (!NetworkMask(prefix)) as int - 1
  {
    PrefixShift(prefix);
    HostBlockSize(32 - prefix);
  }

  /** At /0 the all-ones mask leaves no host offset, so the count no longer matches the mask. */
  lemma ZeroPrefixCountDisagrees()
    ensures HostCount(0) != (!NetworkMask(0)) as int - 1
  {}

  const AllOnes: bv32 := 0xFFFF_FFFF

  /** The complement of the ones shifted left by `c` is `c` low one-bits: the number `2^c - 1`. */
  lemma {:induction false} HostBlockSize(c: nat)
    requires c < 32
    ensures (!(AllOnes << ShiftCount(c))) as int + 1 == Pow2(c)
  {
    if c > 0 {
      HostBlockSize(c - 1);
      var k := ShiftCount(c - 1);
      ShiftOnce(k);
      LowOnesBelowTop(k);
      DoublePlusOne(!(AllOnes << k));
    }
  }

  lemma ShiftOnce(k: bv5)
    requires k < 31
    ensures !(AllOnes << (k + 1)) == ((!(AllOnes << k)) << 1) | 1
  {}

  lemma LowOnesBelowTop(k: bv5)
    requires k < 31
    ensures !(AllOnes << k) < 0x8000_0000
  {}

  lemma DoublePlusOne(y: bv32)
    requires y < 0x8000_0000
    ensures ((y << 1) | 1) as int == 2 * y as int + 1
  {}


  // ---------------------------------------------------------------------------
  // Rendered strings

  /** Every rendered address parses back to its four octet values. */
  lemma RenderParses(q: Quad)
    ensures DottedDecimal.Parse(Render(q)) == Some(Values(q))
    ensures |Values(q)| == 4
  {
    DottedDecimal.ParseFormat(Values(q));
  }
}
