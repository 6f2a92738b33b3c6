/**
 * Worked examples of the subnet calculator and the precedence of its two
 * prefix inputs.
 */
module SubnetExamples {
  import opened Wrappers
  import opened SubnetCalculator
  import DottedDecimal

  /** A prefix written after '/' behaves exactly like the same value passed separately. */
  lemma PrefixPrecedence(parts: seq<int>, p: int, prefixLength: int)
    ensures CalculateSubnet(parts, Some(p), prefixLength) == CalculateSubnet(parts, None, p)
  {}

  /** A request whose prefix is out of range is refused for the prefix even when the address is bad too. */
  lemma PrefixCheckedFirst()
    ensures CalculateSubnet([300, 1], None, 33) == Failure(NetworkErrorPrefix + PrefixErrorMessage)
    ensures CalculateSubnet([300, 1], None, 24) == Failure(NetworkErrorPrefix + AddressErrorMessage)
  {}

  /** The facts for 192.168.1.10/24. */
  lemma Slash24Facts()
    ensures Facts([192, 168, 1, 10], 24) ==
      SubnetFacts(Quad(192, 168, 1, 0), Quad(192, 168, 1, 255), Quad(192, 168, 1, 1),
                  Quad(192, 168, 1, 254), 254, Quad(255, 255, 255, 0))
  {
    PrefixShift(24);
    assert NetworkMask(24) == 0xFFFF_FF00;
  }

  /** 192.168.1.10/24 is accepted and answered with the /24 facts above. */
  lemma Slash24Example()
    ensures CalculateSubnet([192, 168, 1, 10], None, 24) ==
      Success(Respond(SubnetFacts(Quad(192, 168, 1, 0), Quad(192, 168, 1, 255), Quad(192, 168, 1, 1),
                                  Quad(192, 168, 1, 254), 254, Quad(255, 255, 255, 0))))
  {
    var parts := [192, 168, 1, 10];
    assert ValidAddress(parts) by {
      assert OctetInRange(parts[0]) && OctetInRange(parts[1]) && OctetInRange(parts[2]) && OctetInRange(parts[3]);
    }
    Slash24Facts();
  }

  lemma JoinFour(s0: string, s1: string, s2: string, s3: string, sep: char)
    ensures DottedDecimal.Join([s0, s1, s2, s3], sep) == s0 + [sep] + s1 + [sep] + s2 + [sep] + s3
  {
    var p := [s0, s1, s2, s3];
    assert p[1..] == [s1, s2, s3];
    assert p[1..][1..] == [s2, s3];
    assert p[1..][1..][1..] == [s3];
    assert DottedDecimal.Join([s3], sep) == s3;
    assert DottedDecimal.Join([s2, s3], sep) == s2 + [sep] + s3;
    assert DottedDecimal.Join([s1, s2, s3], sep) == s1 + [sep] + s2 + [sep] + s3;
  }

  /** A rendered address is its four octets in decimal, separated by dots. */
  lemma RenderFour(q: Quad)
    ensures Render(q) == DottedDecimal.DecimalString(q.o0 as int) + "." + DottedDecimal.DecimalString(q.o1 as int) + "."
      + DottedDecimal.DecimalString(q.o2 as int) + "." + DottedDecimal.DecimalString(q.o3 as int)
  {
    var ds := DottedDecimal.DecimalStrings(Values(q));
    assert ds == [ds[0], ds[1], ds[2], ds[3]];
    JoinFour(ds[0], ds[1], ds[2], ds[3], '.');
  }

  lemma DecimalOf255()
    ensures DottedDecimal.DecimalString(255) == "255"
  {
    assert DottedDecimal.DecimalString(25) == "25";
  }

  lemma RenderOf(q: Quad, s0: string, s1: string, s2: string, s3: string, r: string)
    requires DottedDecimal.DecimalString(q.o0 as int) == s0 && DottedDecimal.DecimalString(q.o1 as int) == s1
    requires DottedDecimal.DecimalString(q.o2 as int) == s2 && DottedDecimal.DecimalString(q.o3 as int) == s3
    requires r == s0 + "." + s1 + "." + s2 + "." + s3
    ensures Render(q) == r
  {
    RenderFour(q);
  }

  /** The /24 mask renders as "255.255.255.0". */
  lemma MaskRenderExample()
    ensures Render(Quad(255, 255, 255, 0)) == "255.255.255.0"
  {
    DecimalOf255();
    assert DottedDecimal.DecimalString(0) == "0";
    RenderOf(Quad(255, 255, 255, 0), "255", "255", "255", "0", "255.255.255.0");
  }
}
