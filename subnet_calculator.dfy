/**
 * The server's IPv4 subnet calculator (`calculateSubnet`). The inputs are
 * taken after JavaScript's string coercion: the address as the numbers that
 * `ip.split('.').map(Number)` produces, and the prefix as the integer that
 * `parseInt` produces. All mask arithmetic is 32-bit, as in JavaScript's
 * bitwise operators; octets are bytes.
 */
module SubnetCalculator {
  import opened Wrappers
  import DottedDecimal

  type Prefix = p: int | 0 <= p <= 32

  /** A four-element octet array, most significant octet (index 0) first. */
  datatype Quad = Quad(o0: bv8, o1: bv8, o2: bv8, o3: bv8)

  const NetworkErrorPrefix := "Ungültiges Netzwerk: "
  const PrefixErrorMessage := "Ungültige Präfix-Länge"
  const AddressErrorMessage := "Ungültige IP-Adresse"

  /** The arrays the calculator builds before joining them. */
  datatype SubnetFacts = SubnetFacts(
    network: Quad, broadcast: Quad, firstHost: Quad, lastHost: Quad,
    hostCount: int, subnetMask: Quad)

  /** The object the calculator returns: octet arrays joined with '.'. */
  datatype SubnetResponse = SubnetResponse(
    network: string, broadcast: string, firstHost: string, lastHost: string,
    hostCount: int, subnetMask: string)

  // ---------------------------------------------------------------------------
  // Validation

  /** The prefix written after '/' in the network string wins over the separate argument. */
  function EffectivePrefix(embedded: Option<int>, prefixLength: int): int {
    match embedded
    case Some(n) => n
    case None => prefixLength
  }

  predicate OctetInRange(part: int) { 0 <= part <= 255 }

  /** Exactly four parts, none below 0 or above 255. */
  predicate ValidAddress(parts: seq<int>) {
    |parts| == 4 && forall i :: 0 <= i < 4 ==> OctetInRange(parts[i])
  }

  /** A validated address part as a byte. */
  function ToOctet(part: int): (o: bv8)
    requires 0 <= part < 256
    ensures o as int == part
  {
    if part == 0 then 0 else ToOctet(part - 1) + 1
  }

  function Octets(parts: seq<int>): Quad
    requires ValidAddress(parts)
  {
    Quad(ToOctet(parts[0]), ToOctet(parts[1]), ToOctet(parts[2]), ToOctet(parts[3]))
  }

  // ---------------------------------------------------------------------------
  // 32-bit mask

  /** A shift count in 0..31 as the five-bit amount the shift uses. */
  function ShiftCount(c: int): (k: bv5)
    requires 0 <= c < 32
    ensures k as int == c
  {
    if c == 0 then 0 else ShiftCount(c - 1) + 1
  }

  /** JavaScript's `x << count`: only the count's low five bits are used, i.e. the count modulo 32. */
  function ShiftLeft(x: bv32, count: int): bv32 {
    x << ShiftCount(count % 32)
  }

  /**
   * `(0xFFFFFFFF << (32 - prefix)) >>> 0`. For a prefix of 1 to 32 exactly the
   * top `prefix` bits are set; for /0 the count 32 acts as 0 and every bit is set.
   */
  function NetworkMask(prefix: Prefix): (m: bv32)
    ensures prefix == 0 ==> m == 0xFFFF_FFFF
    ensures 1 <= prefix ==> forall i: bv5 :: BitSet(m, i) <==> 32 - prefix <= i as int
  {
    PrefixShift(prefix);
    var k := ShiftCount((32 - prefix) % 32);
    ShiftedOnesAllBits(0xFFFF_FFFF << k, k);
    ShiftLeft(0xFFFF_FFFF, 32 - prefix)
  }

  predicate BitSet(w: bv32, i: bv5) { (w >> i) & 1 == 1 }

  lemma ShiftedOnesBits(k: bv5, i: bv5)
    ensures BitSet(0xFFFF_FFFF << k, i) <==> k <= i
  {}

  lemma ShiftedOnesAllBits(w: bv32, k: bv5)
    requires w == 0xFFFF_FFFF << k
    ensures forall i: bv5 :: BitSet(w, i) <==> k as int <= i as int
  {
    forall i: bv5
      ensures BitSet(w, i) <==> k as int <= i as int
    {
      ShiftedOnesBits(k, i);
      Bv5Order(k, i);
    }
  }

  lemma PrefixShift(prefix: Prefix)
    ensures 1 <= prefix ==> (32 - prefix) % 32 == 32 - prefix
    ensures prefix == 0 ==> (32 - prefix) % 32 == 0
  {}

  lemma Bv5Order(x: bv5, y: bv5)
    ensures x <= y <==> x as int <= y as int
  {}

  /** The subnet mask's octets: `(networkMask >>> 24) & 0xFF`, `>>> 16`, `>>> 8` and `& 0xFF`. */
  function MaskOctets(m: bv32): Quad {
    Quad(((m >> 24) & 0xFF) as bv8, ((m >> 16) & 0xFF) as bv8, ((m >> 8) & 0xFF) as bv8, (m & 0xFF) as bv8)
  }

  /** The 32-bit word whose bytes, most significant first, are `q`. */
  function Word(q: Quad): bv32 {
    WordOf(q.o0, q.o1, q.o2, q.o3)
  }

  function WordOf(b0: bv8, b1: bv8, b2: bv8, b3: bv8): bv32 {
    ((b0 as bv32) << 24) | ((b1 as bv32) << 16) | ((b2 as bv32) << 8) | (b3 as bv32)
  }

  /** Re-assembling the mask's four octets gives the mask back. */
  lemma MaskOctetsWord(m: bv32)
    ensures Word(MaskOctets(m)) == m
  {
    var q := MaskOctets(m);
    assert Word(q) == WordOf(q.o0, q.o1, q.o2, q.o3);
  }

  // ---------------------------------------------------------------------------
  // Network, broadcast and host addresses

  /**
   * The network octets, each computed as its own line of the calculator does:
   * `(ip[0] & (networkMask >>> 24)) >>> 0` and `(ip[k] & (networkMask >>> s)) & 0xFF`
   * for the other three. Each is the address octet ANDed with the mask octet.
   */
  function NetworkParts(a: Quad, m: bv32): (n: Quad)
    ensures var k := MaskOctets(m);
      n.o0 == a.o0 & k.o0 && n.o1 == a.o1 & k.o1 && n.o2 == a.o2 & k.o2 && n.o3 == a.o3 & k.o3
  {
    Quad(((a.o0 as bv32) & (m >> 24)) as bv8,
         (((a.o1 as bv32) & (m >> 16)) & 0xFF) as bv8,
         (((a.o2 as bv32) & (m >> 8)) & 0xFF) as bv8,
         (((a.o3 as bv32) & m) & 0xFF) as bv8)
  }

  /**
   * The broadcast octets, `network[k] | ((~networkMask >>> s) & 0xFF)`: each
   * network octet ORed with the complemented mask octet.
   */
  function BroadcastParts(n: Quad, m: bv32): (b: Quad)
    ensures var k := MaskOctets(m);
      b.o0 == n.o0 | !k.o0 && b.o1 == n.o1 | !k.o1 && b.o2 == n.o2 | !k.o2 && b.o3 == n.o3 | !k.o3
  {
    Quad(((n.o0 as bv32) | ((!m >> 24) & 0xFF)) as bv8,
         ((n.o1 as bv32) | ((!m >> 16) & 0xFF)) as bv8,
         ((n.o2 as bv32) | ((!m >> 8) & 0xFF)) as bv8,
         ((n.o3 as bv32) | (!m & 0xFF)) as bv8)
  }

  /**
   * A copy of the network octets whose last octet is `(octet + 1) % 256`:
   * byte addition wraps modulo 256 and never carries into the third octet.
   */
  function FirstHost(n: Quad): (f: Quad)
    ensures f.o0 == n.o0 && f.o1 == n.o1 && f.o2 == n.o2
    ensures f.o3 as int == (n.o3 as int + 1) % 256
  {
    ByteSuccessor(n.o3);
    n.(o3 := n.o3 + 1)
  }

  /** A copy of the broadcast octets whose last octet is `(octet - 1 + 256) % 256`, without borrow. */
  function LastHost(b: Quad): (l: Quad)
    ensures l.o0 == b.o0 && l.o1 == b.o1 && l.o2 == b.o2
    ensures l.o3 as int == (b.o3 as int - 1 + 256) % 256
  {
    BytePredecessor(b.o3);
    b.(o3 := b.o3 - 1)
  }

  lemma ByteSuccessor(x: bv8)
    ensures (x + 1) as int == (x as int + 1) % 256
  {}

  lemma BytePredecessor(x: bv8)
    ensures (x - 1) as int == (x as int - 1 + 256) % 256
  {}

  function Pow2(k: nat): (r: nat)
    ensures r >= 1
  {
    if k == 0 then 1 else 2 * Pow2(k - 1)
  }

  lemma Pow2Monotone(j: nat, k: nat)
    requires j <= k
    ensures Pow2(j) <= Pow2(k)
    decreases k
  {
    if j < k {
      Pow2Monotone(j, k - 1);
    }
  }

  /**
   * `Math.pow(2, 32 - prefix) - 2`, with no floor: at least 2 up to /30,
   * 0 for /31 and -1 for /32.
   */
  function HostCount(prefix: Prefix): (c: int)
    ensures prefix <= 30 ==> c >= 2
    ensures prefix == 31 ==> c == 0
    ensures prefix == 32 ==> c == -1
    ensures c >= -1
  {
    assert Pow2(1) == 2 && Pow2(2) == 4;
    if prefix <= 30 then
      Pow2Monotone(2, 32 - prefix);
      Pow2(32 - prefix) - 2
    else
      Pow2(32 - prefix) - 2
  }

  function Facts(parts: seq<int>, prefix: Prefix): SubnetFacts
    requires ValidAddress(parts)
  {
    FactsWithMask(Octets(parts), NetworkMask(prefix), HostCount(prefix))
  }

  /** The calculator's arrays for an address, a 32-bit mask and a host count. */
  function FactsWithMask(a: Quad, m: bv32, hostCount: int): SubnetFacts {
    var n := NetworkParts(a, m);
    var b := BroadcastParts(n, m);
    SubnetFacts(n, b, FirstHost(n), LastHost(b), hostCount, MaskOctets(m))
  }

  /** The octets as the numbers that `join('.')` prints. */
  function Values(q: Quad): seq<nat> {
    [q.o0 as int, q.o1 as int, q.o2 as int, q.o3 as int]
  }

  function Render(q: Quad): string {
    DottedDecimal.Format(Values(q))
  }

  function Respond(f: SubnetFacts): SubnetResponse {
    SubnetResponse(Render(f.network), Render(f.broadcast), Render(f.firstHost),
                   Render(f.lastHost), f.hostCount, Render(f.subnetMask))
  }

  /**
   * `calculateSubnet`: the prefix is checked before the address, and every
   * error message is prefixed by the catch block's wrapper text.
   */
  function CalculateSubnet(parts: seq<int>, embedded: Option<int>, prefixLength: int): (r: Result<SubnetResponse>)
    ensures r.Success? <==> 0 <= EffectivePrefix(embedded, prefixLength) <= 32 && ValidAddress(parts)
    ensures !(0 <= EffectivePrefix(embedded, prefixLength) <= 32) ==>
      r == Failure(NetworkErrorPrefix + PrefixErrorMessage)
    ensures 0 <= EffectivePrefix(embedded, prefixLength) <= 32 && !ValidAddress(parts) ==>
      r == Failure(NetworkErrorPrefix + AddressErrorMessage)
    ensures r.Failure? ==> |r.message| > |NetworkErrorPrefix| && r.message[..|NetworkErrorPrefix|] == NetworkErrorPrefix
    ensures r.Success? ==> r.value == Respond(Facts(parts, EffectivePrefix(embedded, prefixLength)))
  {
    var prefix := EffectivePrefix(embedded, prefixLength);
    if prefix < 0 || prefix > 32 then
      Failure(NetworkErrorPrefix + PrefixErrorMessage)
    else if |parts| != 4 || exists i :: 0 <= i < 4 && !OctetInRange(parts[i]) then
      Failure(NetworkErrorPrefix + AddressErrorMessage)
    else
      Success(Respond(Facts(parts, prefix)))
  }
}
