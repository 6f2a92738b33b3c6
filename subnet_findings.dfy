/**
 * The /0 prefix. JavaScript takes a shift count modulo 32, so
 * `0xFFFFFFFF << (32 - 0)` shifts by nothing and the "mask" for /0 is all
 * ones instead of all zeros: the network and broadcast of any /0 request
 * are the address itself. Here the calculator's mask as written is shown
 * to break the "top `prefix` bits set" property at /0, and a corrected
 * mask is given that has it for every prefix.
 *
 * The host count. `2^(32 - prefix) - 2` is meant as the number of usable
 * addresses once the network and broadcast addresses are reserved, but for
 * /32 it is -1. The corrected count is floored at zero.
 */
module SubnetFindings {
  import opened SubnetCalculator
  import opened SubnetProperties

  /** As written: the /0 mask is all ones, so it breaks the top-`prefix`-bits rule that every other prefix keeps. */
  lemma AsWrittenZeroPrefixMask()
    ensures NetworkMask(0) == 0xFFFF_FFFF
    ensures !(forall i: bv5 :: BitSet(NetworkMask(0), i) <==> 32 - 0 <= i as int)
  {
    assert BitSet(NetworkMask(0), 0);
  }

  /** The mask the prefix describes: the prefix's top bits set, all others clear. */
  function IntendedMask(prefix: Prefix): bv32 {
    if prefix == 0 then 0 else NetworkMask(prefix)
  }

  /** Bit `i` of the corrected mask is set exactly when it is one of the top `prefix` bits. */
  lemma IntendedMaskBits(prefix: Prefix, i: bv5)
    ensures BitSet(IntendedMask(prefix), i) <==> 32 - prefix <= i as int
  {
    if prefix == 0 {
      assert 32 - prefix > i as int;
    }
  }

  /** The calculator's facts computed with the corrected mask. */
  function IntendedFacts(parts: seq<int>, prefix: Prefix): SubnetFacts
    requires ValidAddress(parts)
  {
    FactsWithMask(Octets(parts), IntendedMask(prefix), HostCount(prefix))
  }

  /** Away from /0 the correction changes nothing. */
  lemma IntendedAgrees(parts: seq<int>, prefix: Prefix)
    requires ValidAddress(parts) && 1 <= prefix
    ensures IntendedFacts(parts, prefix) == Facts(parts, prefix)
  {}

  /** With the corrected mask, /0 is the whole address space: 0.0.0.0 to 255.255.255.255. */
  lemma IntendedZeroPrefix(parts: seq<int>)
    requires ValidAddress(parts)
    ensures var f := IntendedFacts(parts, 0);
      && f.subnetMask == Quad(0, 0, 0, 0)
      && f.network == Quad(0, 0, 0, 0)
      && f.broadcast == Quad(255, 255, 255, 255)
      && f.firstHost == Quad(0, 0, 0, 1)
      && f.lastHost == Quad(255, 255, 255, 254)
  {
    FactsParts(Octets(parts), 0, HostCount(0));
  }

  /** As written: a /32 request reports a negative number of hosts. */
  lemma AsWrittenSingleAddressCount()
    ensures HostCount(32) == -1
  {}

  /** The number of usable host addresses, never negative. */
  function UsableHostCount(prefix: Prefix): int {
    if HostCount(prefix) < 0 then 0 else HostCount(prefix)
  }

  /** The corrected count is never negative, is zero for /31 and /32, and agrees with the formula elsewhere. */
  lemma UsableHostCountBounds(prefix: Prefix)
    ensures UsableHostCount(prefix) >= 0
    ensures prefix >= 31 ==> UsableHostCount(prefix) == 0
    ensures prefix <= 30 ==> UsableHostCount(prefix) == HostCount(prefix) >= 2
  {}
}
