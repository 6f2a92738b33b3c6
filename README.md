# Network planner core in Dafny

This project models two pieces of a small network-planning web application:

* the server's IPv4 subnet calculator `calculateSubnet`, together with the
  literal patterns and integer ranges its request schemas impose on colours,
  MAC addresses, VLAN ids, ports and link speeds;
* the client's project state: its initial value and the reducer that turns a
  state and a dispatched action into the next state.

The subnet calculator is modelled on what the JavaScript does, not on the
textbook result:

* the shift count of `0xFFFFFFFF << (32 - prefix)` is taken modulo 32, so
  `/0` yields an all-ones mask;
* `firstHost` and `lastHost` rewrite only the last octet, modulo 256, with no
  carry into the third octet;
* `hostCount` is `2^(32 - prefix) - 2` with no floor, so `/32` reports -1;
* the prefix is checked before the address.

Octets are `bv8` values in a `Quad` record and the mask is a `bv32`. `Word`
reads a quad as its 32-bit number, so the octet-by-octet code can be related
to 32-bit arithmetic.

The calculator's inputs are the values the JavaScript has after its own
parsing:

* the address pieces after `split('.').map(Number)`;
* the prefix written after `/`, as `Some(n)`, or `None` when there is no `/`
  or nothing after it;
* the separate `prefixLength` argument.

A well-formed request renders its six facts with `join('.')`. A rejected
request yields the message `"Ungültiges Netzwerk: "` followed by the reason.

Modules:

* `Wrappers`: `Option` and `Result`.
* `DottedDecimal`: JavaScript `String(n)`, `split` and `join`, and a reference
  parser for dotted-decimal text.
* `SubnetCalculator`: the calculator.
* `SubnetProperties`: what is proved about it.
* `SubnetExamples`: worked requests.
* `SubnetFindings`: the two places where the code departs from its evident
  intent.
* `RequestSchemas`: the schema patterns and ranges.
* `ProjectReducer`: the client state and the reducer.
* `ReducerProperties`: what is proved about the reducer.

In three places the program's results differ from the textbook CIDR
results, and the model keeps the program's:

* **The `/0` mask.** CIDR gives mask 0 for `/0`. The program computes
  `0xFFFFFFFF`.
* **The host count.** The comment `// -2 für Netzwerk und Broadcast` on
  line 26 of server/index.js shows the count means usable hosts. Such a
  count cannot be negative, yet `/32` yields -1.
* **The host addresses.** The program steps the last octet with wrap-around
  and never carries into the third octet. For `/31` the first host comes after
  the last one, and for `/32` both steps leave the one-address subnet.

The first two are recorded under Findings, each with a corrected definition.

## Model

| member | source | states |
|---|---|---|
| SubnetCalculator.CalculateSubnet | server/index.js:11-71 | A request succeeds exactly when the effective prefix is in 0..32 and the address has four parts in 0..255. An out-of-range prefix gives the prefix error even when the address is bad as well. A good prefix with a bad address gives the address error. Every error message is "Ungültiges Netzwerk: " followed by a non-empty reason. A success renders the facts computed at the effective prefix. |
| SubnetCalculator.ToOctet | server/index.js:20-21 | A validated address part becomes the byte with the same numeric value. |
| SubnetCalculator.NetworkMask | server/index.js:29 | /0 gives the all-ones mask, because the shift count is taken modulo 32. For a prefix of 1..32, bit i of the mask is set exactly when i >= 32 - prefix, so exactly the top `prefix` bits are set. |
| SubnetCalculator.HostCount | server/index.js:25-26 | The host count is at least 2 up to /30, 0 for /31 and -1 for /32, and never below -1. |
| SubnetCalculator.FirstHost | server/index.js:46-47 | The first host keeps the network's first three octets. Its last octet is the network's plus one, modulo 256. |
| SubnetCalculator.LastHost | server/index.js:49-50 | The last host keeps the broadcast's first three octets. Its last octet is the broadcast's minus one, modulo 256. |
| SubnetCalculator.MaskOctetsWord | server/index.js:52-58 | The four subnet-mask bytes, most significant first, reassemble into the mask. |
| SubnetCalculator.NetworkParts | server/index.js:30-35 | Each network octet is the address octet ANDed with the matching mask octet. |
| SubnetCalculator.BroadcastParts | server/index.js:38-43 | Each broadcast octet is the network octet ORed with the complement of the matching mask octet. |
| SubnetProperties.NetworkBelowAddress | server/index.js:30-35 | Each network octet is at most the address octet. |
| SubnetProperties.AddressBelowBroadcast | server/index.js:38-43 | Each address octet is at most the matching broadcast octet. |
| SubnetProperties.BroadcastSplits | server/index.js:38-43 | Broadcast octets are network octets plus the host bits, and the network and host bits never overlap. |
| SubnetProperties.HostMaskWord | server/index.js:39-42 | The complemented mask octets, read as a 32-bit word, are the complement of the mask. |
| SubnetProperties.NetworkWord | server/index.js:29-35 | Read as a 32-bit number, the network address is the address ANDed with the mask. |
| SubnetProperties.BroadcastWord | server/index.js:38-43 | Read as a 32-bit number, the broadcast is the network ORed with the complemented mask. |
| SubnetProperties.AddressOrdering | server/index.js:30-43 | Network <= address <= broadcast holds octet by octet, in dotted-quad order and as 32-bit numbers, for every valid address and prefix. |
| SubnetProperties.BroadcastIsNetworkPlusHostBits | server/index.js:29-43 | As 32-bit numbers, the broadcast is the network plus the complemented mask. |
| SubnetProperties.MaskLowBits | server/index.js:29 | For prefixes 1..30 the two lowest mask bits are clear. The mask is 0xFFFFFFFE for /31 and 0xFFFFFFFF for /32. |
| SubnetProperties.IncrementLastOctet | server/index.js:46-47 | When the last octet is not 255, the first host is the network plus one as a 32-bit number. |
| SubnetProperties.DecrementLastOctet | server/index.js:49-50 | When the last octet is not 0, the last host is the broadcast minus one as a 32-bit number. |
| SubnetProperties.HostRange | server/index.js:46-50 | For prefixes 1..30 neither host step wraps, and network < firstHost <= lastHost < broadcast in dotted-quad order. |
| SubnetProperties.HostRangeWords | server/index.js:30-50 | For prefixes 1..30, network < firstHost <= lastHost < broadcast as 32-bit numbers. |
| SubnetProperties.FirstHostIsNetworkPlusOne | server/index.js:46-47 | For prefixes 1..30 the first host is the network plus one, as 32-bit numbers. |
| SubnetProperties.LastHostIsBroadcastMinusOne | server/index.js:49-50 | For prefixes 1..30 the last host is the broadcast minus one, as 32-bit numbers. |
| SubnetProperties.PointToPointHosts | server/index.js:25-50 | For /31 neither step wraps. The first host is the broadcast, the last host is the network, and the host count is 0. |
| SubnetProperties.SingleAddressHosts | server/index.js:25-50 | For /32 the network and broadcast are the address itself and the host count is -1. The host steps wrap the last octet: 255 becomes 0 and 0 becomes 255. |
| SubnetProperties.ZeroPrefixMask | server/index.js:29 | /0 produces an all-ones mask and the subnet mask 255.255.255.255. Network and broadcast are the address itself, and the host count is 2^32 - 2. |
| SubnetProperties.HostCountValues | server/index.js:25-26 | The host count is 254 for /24 and 2 for /30. |
| SubnetProperties.HostCountFromMask | server/index.js:25-29 | For prefixes 1..32 the host count is the size of the address block the mask leaves free, `!mask + 1`, less the network and broadcast addresses. |
| SubnetProperties.ZeroPrefixCountDisagrees | server/index.js:25-29 | At /0 the count no longer matches the mask: the all-ones mask leaves a block of one address, yet the count is 2^32 - 2. |
| SubnetProperties.RenderParses | server/index.js:61-66 | Every rendered address parses back to its four octet values. |
| DottedDecimal.DecimalString | server/index.js:61-66 | A number renders as a non-empty run of decimal digits with no leading zero. |
| DottedDecimal.ParseDecimal | server/index.js:61-66 | A parse succeeds exactly on non-empty all-digit text. |
| DottedDecimal.ParseDecimalString | server/index.js:61-66 | Parsing a rendered number gives the number back. |
| DottedDecimal.Split | server/index.js:20 | `split` yields at least one piece, and no piece contains the separator. |
| DottedDecimal.SplitJoin | server/index.js:20 | Splitting joined pieces that avoid the separator gives the pieces back. |
| DottedDecimal.ParseFormat | server/index.js:61-66 | Joining a non-empty list of numbers with '.' and parsing the text gives the list back. |
| SubnetExamples.PrefixPrecedence | server/index.js:13-14 | A prefix written after '/' behaves exactly like the same value passed as `prefixLength`, whatever `prefixLength` is. |
| SubnetExamples.PrefixCheckedFirst | server/index.js:16-22 | An out-of-range prefix is reported even when the address is bad too. With a good prefix, the bad address is reported. |
| SubnetExamples.Slash24Facts | server/index.js:25-58 | 192.168.1.10/24 gives network 192.168.1.0, broadcast 192.168.1.255, hosts 192.168.1.1 to 192.168.1.254, 254 hosts and mask 255.255.255.0. |
| SubnetExamples.Slash24Example | server/index.js:11-71 | The calculator accepts 192.168.1.10 with prefix length 24 and answers with those facts. |
| SubnetExamples.RenderFour | server/index.js:61-66 | A rendered address is its four octets in decimal, joined by dots. |
| SubnetExamples.MaskRenderExample | server/index.js:53-66 | The /24 mask renders as "255.255.255.0". |
| SubnetFindings.AsWrittenZeroPrefixMask | server/index.js:29 | As written, the /0 mask is all ones. It therefore breaks the rule that bit i is set exactly when i >= 32 - prefix, which every other prefix keeps. |
| SubnetFindings.IntendedMaskBits | server/index.js:29 | The corrected mask has bit i set exactly when i >= 32 - prefix, for every prefix 0..32. |
| SubnetFindings.IntendedAgrees | server/index.js:29-58 | For prefixes 1..32 the corrected facts equal the calculator's facts. |
| SubnetFindings.IntendedZeroPrefix | server/index.js:29-50 | With the corrected mask, /0 spans 0.0.0.0 to 255.255.255.255 (mask 0.0.0.0, hosts 0.0.0.1 to 255.255.255.254). |
| SubnetFindings.AsWrittenSingleAddressCount | server/index.js:25-26 | As written, /32 reports -1 hosts. |
| SubnetFindings.UsableHostCountBounds | server/index.js:25-26 | The corrected count is never negative. It is 0 for /31 and /32, and equals 2^(32-prefix) - 2 (at least 2) up to /30. |
| RequestSchemas.HexRunShape | server/index.js:180 | `[0-9A-Fa-f]{n}$` matches exactly the texts of n hex digits. |
| RequestSchemas.ColourMatchesShape | server/index.js:180 | `^#[0-9A-Fa-f]{6}$` matches exactly seven-character texts made of '#' and six hex digits. |
| RequestSchemas.MacGroupsShape | server/index.js:166 | k groups of two hex digits and a separator, then two hex digits, match exactly the texts of length 3k + 2. In those texts every third character is ':' or '-' and all the others are hex digits. |
| RequestSchemas.MacMatchesShape | server/index.js:166 | The MAC pattern matches exactly the 17-character texts with separators at positions 2, 5, 8, 11 and 14 and hex digits elsewhere. |
| RequestSchemas.MixedSeparatorsAccepted | server/index.js:166 | The MAC pattern accepts ':' and '-' mixed in one address. |
| RequestSchemas.ValidateColour | server/index.js:180 | A given colour is accepted exactly when it has the hex-colour shape, and it is kept. An absent colour becomes '#3498db'. Null is refused. Every accepted colour has the shape. |
| RequestSchemas.ValidateMac | server/index.js:166 | A given MAC address is accepted exactly when it is empty or has the MAC shape. Absence is accepted. Null is refused. An accepted value is never changed. |
| RequestSchemas.ValidateDeviceType | server/index.js:162 | A device type is accepted exactly when it is given and is one of the eleven listed types. |
| RequestSchemas.CheckNumber | server/index.js:167-168 | A given number is accepted exactly within min..max. Null is accepted exactly when allowed. Absence is accepted exactly when not required, and then the default is filled in. |
| RequestSchemas.AcceptedWithinRange | server/index.js:167-179 | When a rule's default lies within its range, every accepted number lies within the range, and null is accepted only where allowed. |
| RequestSchemas.OptionalVlanAccepts | server/index.js:167 | A device, connection or subnet VLAN id is accepted exactly when absent, null or in 1..4094. |
| RequestSchemas.RequiredVlanAccepts | server/index.js:185 | A VLAN's own id is accepted exactly when given and in 1..4094. |
| RequestSchemas.PortAccepts | server/index.js:176-177 | A connection port is accepted exactly when absent, null or in 1..48. |
| RequestSchemas.SpeedAccepts | server/index.js:168 | A speed is accepted exactly when absent or in 10..100000, and never when null. The accepted speed always lies in 10..100000, and is 1000 when absent. |
| ProjectReducer.ReplaceById | client/src/context/ProjectContext.js:34-36 | Replacing by id keeps the length. It puts the payload exactly at the positions whose id matches and leaves every other position as it was. |
| ProjectReducer.RemoveById | client/src/context/ProjectContext.js:41 | Filtering by id keeps exactly the items with another id, and never grows the list. |
| ReducerProperties.RemoveDistributes | client/src/context/ProjectContext.js:41 | Filtering a concatenation is the concatenation of the filtered parts. Together with RemoveSingle, kept items stay in their original order. |
| ReducerProperties.RemoveSingle | client/src/context/ProjectContext.js:41 | A single item is kept exactly when its id differs. |
| ReducerProperties.RemoveUnchangedIff | client/src/context/ProjectContext.js:38-42 | Filtering leaves a list unchanged exactly when no item carries the id. |
| ReducerProperties.RemoveIdempotent | client/src/context/ProjectContext.js:38-42 | Filtering twice by the same id equals filtering once. |
| ReducerProperties.ReplaceIdempotent | client/src/context/ProjectContext.js:31-37 | Replacing twice with the same record equals replacing once. |
| ReducerProperties.ReplaceAbsent | client/src/context/ProjectContext.js:31-37 | Replacing leaves a list without the record's id unchanged. |
| ReducerProperties.ReplaceThenRemove | client/src/context/ProjectContext.js:31-42 | A record replaced and then filtered out by its own id leaves the same list as filtering alone. |
| ReducerProperties.InitialStateEmpty | client/src/context/ProjectContext.js:6-15 | The initial state has no projects, no current project, empty device, connection, VLAN and subnet lists, loading false and no error. |
| ReducerProperties.AddActionsAppend | client/src/context/ProjectContext.js:29-30 | ADD_DEVICE, and likewise ADD_CONNECTION, ADD_VLAN and ADD_SUBNET (lines 45-46, 54-55, 58-59), appends the payload at the end of its own list. The old list is kept as the prefix and every other field is unchanged. |
| ReducerProperties.UpdateDeviceReplaces | client/src/context/ProjectContext.js:31-37 | UPDATE_DEVICE keeps the device list's length and order. It swaps in the payload exactly where the id matches, and every other field is unchanged. |
| ReducerProperties.DeleteDeviceFilters | client/src/context/ProjectContext.js:38-42 | DELETE_DEVICE keeps exactly the devices with another id and changes no other field. Deleting again changes nothing. |
| ReducerProperties.DeleteConnectionFilters | client/src/context/ProjectContext.js:47-51 | DELETE_CONNECTION keeps exactly the connections with another id. Devices and every other field are unchanged. Deleting again changes nothing. |
| ReducerProperties.AddThenDeleteConnection | client/src/context/ProjectContext.js:45-51 | Adding a connection and then deleting its id equals deleting that id from the original state. |
| ReducerProperties.UpdateThenDeleteDevice | client/src/context/ProjectContext.js:31-42 | Updating a device and then deleting its id equals deleting that id from the original state. |
| ReducerProperties.FlagActions | client/src/context/ProjectContext.js:19-24 | SET_ERROR stores the error and SET_PROJECTS stores the projects, and both set loading to false. SET_LOADING changes only the loading flag. |
| ReducerProperties.SetActionsReplace | client/src/context/ProjectContext.js:25-28 | SET_CURRENT_PROJECT and SET_DEVICES, and likewise SET_CONNECTIONS, SET_VLANS and SET_SUBNETS (lines 43-44, 52-53, 56-57), store their payload and change nothing else. |
| ReducerProperties.UnknownActionIgnored | client/src/context/ProjectContext.js:60-61 | An action whose type is none of the fifteen handled types returns the state unchanged. |
| ProjectReducer.Reduce | client/src/context/ProjectContext.js:17-63 | Each state field changes only under the actions that name it: the device list only under the four device actions, loading only under SET_LOADING, SET_ERROR and SET_PROJECTS, and so on. An action of any other type leaves the whole state unchanged. |

## Left out

Calculator input parsing:

- JavaScript `parseInt` and `Number` coercion are not modelled: the inputs are already integers. In the source, `NaN` passes both range checks because every comparison with `NaN` is false. A fractional address part passes as well, and an empty piece counts as 0. A dotted mask such as "255.255.255.0" passed as `prefixLength` parses to 255 and is refused.
- A request body without `network` makes `network.split('/')` throw a TypeError (server/index.js:13). The catch block wraps it, and the route (server/index.js:424-427) answers 400 with "Ungültiges Netzwerk: " and the runtime's own message. The model's inputs always carry an address, so this case is not represented.
- Splitting the network string at '/' is given as an optional prefix, and any text after a second '/' is ignored. A '/' with nothing after it falls back to `prefixLength`, because the empty string is falsy.

Calculator representation:

- The arrays `firstHost` and `lastHost` are copied and then updated at index 3 in place. The model uses a record update on a `Quad`; there is no aliasing to lose.
- `hostCount` is a JavaScript double. Every value it takes, at most 2^32 - 2, is exact, so it is modelled as an integer.

Request schemas:

- Joi's `.ip()` check, string coercion of numbers and `integer()` on non-integer input are not modelled. Neither are the `x`/`y` defaults, the boolean and free-text fields, and object-level validation (unknown and missing keys). They are library behaviour rather than literal constraints of this code.

Server:

- The Express routes, the SQLite schema and queries, uuid generation and signal handling (server/index.js:73-447) are not modelled. They are I/O and persistence.

Client:

- The reducer's payloads are untyped in JavaScript. The model gives each a type: SET_LOADING takes a boolean, SET_ERROR an optional string and SET_CURRENT_PROJECT an optional record. Records are compared only by their `id` string.
- The asynchronous `api` object (axios requests and `dispatch` calls) and all React components are not modelled. They are network I/O and user interface.

## Findings

| source | as written | input that shows it | evidently intended | confidence | as-written member | corrected member |
|---|---|---|---|---|---|---|
| server/index.js:29 | `(0xFFFFFFFF << (32 - prefix)) >>> 0` shifts by 32 for /0, which JavaScript performs as a shift by 0, so the mask is all ones | any address with prefix 0, e.g. 172.16.0.0/0: mask 255.255.255.255, network and broadcast 172.16.0.0 | mask 0.0.0.0, network 0.0.0.0, broadcast 255.255.255.255 | not executed | SubnetFindings.AsWrittenZeroPrefixMask | SubnetFindings.IntendedMaskBits |
| server/index.js:26 | `Math.pow(2, hostBits) - 2` with no floor | any address with prefix 32: hostCount -1 | a usable-host count floored at 0 | not executed | SubnetFindings.AsWrittenSingleAddressCount | SubnetFindings.UsableHostCountBounds |

`SubnetCalculator.CalculateSubnet` keeps the behaviour as written, so that the
model describes the program. `SubnetFindings.IntendedFacts` is the computation
with the corrected mask, and `SubnetFindings.UsableHostCount` is the corrected
count. `SubnetProperties.ZeroPrefixCountDisagrees` shows a consequence of the
first finding: at /0 the count no longer describes the block the mask leaves
free, although `SubnetProperties.HostCountFromMask` shows it does for every
other prefix.
