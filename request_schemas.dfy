/**
 * The literal constraints in the server's request schemas: the hex colour
 * and MAC address patterns, and the integer ranges, null permissions and
 * defaults of the VLAN id, port and speed fields.
 *
 * A field of a request body is absent, explicitly null, or given a value.
 * Validating a field either refuses the request (`None`) or yields the
 * field as the handler sees it, with a default filled in.
 */
module RequestSchemas {
  import opened Wrappers

  datatype Field<T> = Absent | Null | Given(value: T)

  // ---------------------------------------------------------------------------
  // Patterns

  predicate IsHexDigit(c: char) {
    '0' <= c <= '9' || 'a' <= c <= 'f' || 'A' <= c <= 'F'
  }

  predicate IsSeparator(c: char) {
    c == ':' || c == '-'
  }

  /** `[0-9A-Fa-f]{n}$`: exactly `n` hex digits and then the end of the input. */
  predicate HexRun(s: string, n: nat)
    decreases n
  {
    if n == 0 then s == [] else |s| > 0 && IsHexDigit(s[0]) && HexRun(s[1..], n - 1)
  }

  /** `([0-9A-Fa-f]{2}[:-]){k}[0-9A-Fa-f]{2}$`, one group at a time. */
  predicate MacGroups(s: string, k: nat)
    decreases k
  {
    if k == 0 then HexRun(s, 2)
    else |s| >= 3 && IsHexDigit(s[0]) && IsHexDigit(s[1]) && IsSeparator(s[2]) && MacGroups(s[3..], k - 1)
  }

  /** `^#[0-9A-Fa-f]{6}$` */
  predicate MatchesColour(s: string) {
    |s| >= 1 && s[0] == '#' && HexRun(s[1..], 6)
  }

  /** `^([0-9A-Fa-f]{2}[:-]){5}([0-9A-Fa-f]{2})$` */
  predicate MatchesMac(s: string) {
    MacGroups(s, 5)
  }

  /** Reference reading of the colour pattern: '#' and six hex digits, seven characters in all. */
  predicate ColourShape(s: string) {
    |s| == 7 && s[0] == '#' && forall i :: 1 <= i < 7 ==> IsHexDigit(s[i])
  }

  /** Reference reading of a MAC group run: every third character a separator, the others hex digits. */
  predicate GroupShape(s: string, k: nat) {
    |s| == 3 * k + 2 && forall i :: 0 <= i < |s| ==> if i % 3 == 2 then IsSeparator(s[i]) else IsHexDigit(s[i])
  }

  /** Reference reading of the MAC pattern: 17 characters, separators at positions 2, 5, 8, 11 and 14. */
  predicate MacShape(s: string) {
    GroupShape(s, 5)
  }

  lemma {:induction false} HexRunShape(s: string, n: nat)
    ensures HexRun(s, n) <==> |s| == n && forall i :: 0 <= i < n ==> IsHexDigit(s[i])
    decreases n
  {
    if n > 0 && |s| > 0 {
      HexRunShape(s[1..], n - 1);
      if |s| == n && forall i :: 0 <= i < n ==> IsHexDigit(s[i]) {
        assert forall i :: 0 <= i < n - 1 ==> IsHexDigit(s[1..][i]) by {
          forall i | 0 <= i < n - 1 ensures IsHexDigit(s[1..][i]) {
            assert s[1..][i] == s[i + 1];
          }
        }
      }
    }
  }

  lemma ColourMatchesShape(s: string)
    ensures MatchesColour(s) <==> ColourShape(s)
  {
    if |s| >= 1 {
      HexRunShape(s[1..], 6);
    }
  }

  lemma {:induction false} MacGroupsShape(s: string, k: nat)
    ensures MacGroups(s, k) <==> GroupShape(s, k)
    decreases k
  {
    if k == 0 {
      HexRunShape(s, 2);
    } else if |s| >= 3 {
      MacGroupsShape(s[3..], k - 1);
      var t := s[3..];
      forall i | 3 <= i < |s|
        ensures (if i % 3 == 2 then IsSeparator(s[i]) else IsHexDigit(s[i]))
            <==> (if (i - 3) % 3 == 2 then IsSeparator(t[i - 3]) else IsHexDigit(t[i - 3]))
      {
        assert t[i - 3] == s[i];
        assert (i - 3) % 3 == i % 3;
      }
      if GroupShape(s, k) {
        assert IsSeparator(s[2]) && IsHexDigit(s[0]) && IsHexDigit(s[1]);
        forall j | 0 <= j < |t|
          ensures if j % 3 == 2 then IsSeparator(t[j]) else IsHexDigit(t[j])
        {
          assert (j + 3) % 3 == j % 3;
        }
      }
      if MacGroups(s, k) {
        forall i | 0 <= i < |s|
          ensures if i % 3 == 2 then IsSeparator(s[i]) else IsHexDigit(s[i])
        {
          if i >= 3 {
            assert (i - 3) % 3 == i % 3;
          }
        }
      }
    } else {
      assert !MacGroups(s, k);
    }
  }

  lemma MacMatchesShape(s: string)
    ensures MatchesMac(s) <==> MacShape(s)
  {
    MacGroupsShape(s, 5);
  }

  /** The pattern does not insist on one separator: colons and hyphens may be mixed. */
  lemma MixedSeparatorsAccepted()
    ensures MatchesMac("00:1A-2b:3C-4d:5E")
  {
    var s := "00:1A-2b:3C-4d:5E";
    assert HexRun(s[15..][1..][1..], 0);
    assert MacGroups(s[15..], 0);
    assert MacGroups(s[12..], 1) by { assert s[12..][3..] == s[15..]; }
    assert MacGroups(s[9..], 2) by { assert s[9..][3..] == s[12..]; }
    assert MacGroups(s[6..], 3) by { assert s[6..][3..] == s[9..]; }
    assert MacGroups(s[3..], 4) by { assert s[3..][3..] == s[6..]; }
  }

  // ---------------------------------------------------------------------------
  // String fields

  const DefaultColour: string := "#3498db"

  /** `Joi.string().pattern(/^#[0-9A-Fa-f]{6}$/).default('#3498db')` */
  function ValidateColour(f: Field<string>): (r: Option<string>)
    ensures f.Given? ==> (r.Some? <==> ColourShape(f.value))
    ensures f.Given? && r.Some? ==> r.value == f.value
    ensures f.Null? ==> r.None?
    ensures f.Absent? ==> r == Some(DefaultColour)
    ensures r.Some? ==> ColourShape(r.value)
  {
    match f
    case Absent =>
      ColourMatchesShape(DefaultColour);
      Some(DefaultColour)
    case Null => None
    case Given(s) =>
      ColourMatchesShape(s);
      if MatchesColour(s) then Some(s) else None
  }

  /** `Joi.string().pattern(/^([0-9A-Fa-f]{2}[:-]){5}([0-9A-Fa-f]{2})$/).allow('')` */
  function ValidateMac(f: Field<string>): (r: Option<Field<string>>)
    ensures f.Given? ==> (r.Some? <==> f.value == "" || MacShape(f.value))
    ensures f.Null? ==> r.None?
    ensures f.Absent? ==> r == Some(Absent)
    ensures r.Some? ==> r.value == f
  {
    match f
    case Absent => Some(Absent)
    case Null => None
    case Given(s) =>
      MacMatchesShape(s);
      if s == "" || MatchesMac(s) then Some(f) else None
  }

  const DeviceTypes: seq<string> :=
    ["pc", "handy", "server", "router", "modem", "firewall", "cluster", "vm", "nas", "switch_managed", "switch_unmanaged"]

  /** `Joi.string().valid(...).required()` for a device's type. */
  function ValidateDeviceType(f: Field<string>): (r: Option<string>)
    ensures r.Some? <==> f.Given? && f.value in DeviceTypes
    ensures r.Some? ==> r.value == f.value
  {
    if f.Given? && f.value in DeviceTypes then Some(f.value) else None
  }

  // ---------------------------------------------------------------------------
  // Integer fields

  /** `Joi.number().integer().min(min).max(max)` with its `allow(null)`, `required()` and `default(...)`. */
  datatype NumberRule = NumberRule(min: int, max: int, allowNull: bool, required: bool, default: Option<int>)

  /** vlan_id of devices, connections and subnets. */
  const OptionalVlanRule := NumberRule(1, 4094, true, false, None)
  /** vlan_id of a VLAN. */
  const RequiredVlanRule := NumberRule(1, 4094, false, true, None)
  /** from_port and to_port of a connection. */
  const PortRule := NumberRule(1, 48, true, false, None)
  /** speed of devices and connections. */
  const SpeedRule := NumberRule(10, 100000, false, false, Some(1000))

  function CheckNumber(rule: NumberRule, f: Field<int>): (r: Option<Field<int>>)
    ensures f.Given? ==> (r.Some? <==> rule.min <= f.value <= rule.max)
    ensures f.Null? ==> (r.Some? <==> rule.allowNull)
    ensures f.Absent? ==> (r.Some? <==> !rule.required)
    ensures r.Some? && !f.Absent? ==> r.value == f
    ensures r.Some? && f.Absent? ==> r.value == if rule.default.Some? then Given(rule.default.value) else Absent
  {
    match f
    case Absent =>
      if rule.required then None
      else if rule.default.Some? then Some(Given(rule.default.value))
      else Some(Absent)
    case Null => if rule.allowNull then Some(Null) else None
    case Given(n) => if rule.min <= n <= rule.max then Some(f) else None
  }

  /** An accepted value obeys the rule's range: the default is within range too. */
  lemma AcceptedWithinRange(rule: NumberRule, f: Field<int>)
    requires rule.default.Some? ==> rule.min <= rule.default.value <= rule.max
    ensures var r := CheckNumber(rule, f); r.Some? && r.value.Given? ==> rule.min <= r.value.value <= rule.max
    ensures var r := CheckNumber(rule, f); r.Some? && r.value.Null? ==> rule.allowNull
  {}

  /** An optional VLAN id is accepted when absent, null, or in 1..4094. */
  lemma OptionalVlanAccepts(f: Field<int>)
    ensures CheckNumber(OptionalVlanRule, f).Some? <==> !f.Given? || 1 <= f.value <= 4094
  {}

  /** A VLAN's own id must be given and lie in 1..4094. */
  lemma RequiredVlanAccepts(f: Field<int>)
    ensures CheckNumber(RequiredVlanRule, f).Some? <==> f.Given? && 1 <= f.value <= 4094
  {}

  /** A connection port is accepted when absent, null, or in 1..48. */
  lemma PortAccepts(f: Field<int>)
    ensures CheckNumber(PortRule, f).Some? <==> !f.Given? || 1 <= f.value <= 48
  {}

  /** A speed is never null; an accepted speed is always a value in 10..100000, 1000 when absent. */
  lemma SpeedAccepts(f: Field<int>)
    ensures var r := CheckNumber(SpeedRule, f);
      && (r.Some? <==> f.Absent? || (f.Given? && 10 <= f.value <= 100000))
      && (r.Some? ==> r.value.Given? && 10 <= r.value.value <= 100000)
      && (f.Absent? ==> r == Some(Given(1000)))
  {}
}
