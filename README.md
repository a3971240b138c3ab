# netwrangler layout compiler, modelled in Dafny

This project models the network-layout compiler of netwrangler. The compiler does its work in one pass:

1. It reads a netplan-style declaration of ethernets, bonds, bridges and vlans.
2. It resolves the ethernets against a fixed list of physical NICs.
3. It checks the result as an ownership graph of interfaces.
4. It returns the layout together with one aggregated error.

The model follows the source's six core files, one Dafny module per concern:

| module (file) | models |
|---|---|
| `Errs` (errs.dfy) | The `Err` accumulator: a class with a prefix and a message list that `Errorf` and `Merge` grow in place. Go's `error` values are the datatype `ErrValue`: nil, a plain error, or an `*Err`. |
| `Values` (values.dfy) | Go's `interface{}` as a tagged datatype, plus how such a value prints (`%v`, `%T`) and turns into JSON text. |
| `Ints` (ints.dfy) | Decimal rendering, `strconv.ParseInt` with base 0 and 64 bits (prefixes, `_` separators, range before syntax), and int64 bounds. |
| `Order` (order.dfy) | Go's byte-wise string order, `sort.Strings`, and the sorted key list of a map. |
| `Net` (net.dfy) | An abstract IP and MAC. `net.ParseCIDR`, `net.ParseIP` and `net.ParseMAC` are parameters (`NetLib`). Also `IP.UnmarshalText`, `IsCIDR` and `String`. |
| `Coerce` (coerce.dfy) | The permissive validators `ValidateUnsupp`, `ValidateBool`, `ValidateInt`, `ValidateStrIn`, `ValidateMac`, `ValidateIP`, `ValidateIPList`, and the element loop of `VSS`. |
| `Validation` (validate.dfy) | The per-field rule table (`Check` with `keyName`, `D`, `C`, `K`, `V`), the checker constructors `VB` … `VMAC`, and `ValidateAndMarshal`. |
| `Glob` (glob.dfy) | The semantics of `Glob2RE` as a recursive, anchored match predicate. |
| `Phys` (phy.dfy) | `Match`, `Phy` and the `MatchPhys` filter loop. |
| `Layer3` (l3.dfy) | `Route`, `RoutePolicy`, `NSInfo` and `Network` with their `validate` methods. Also the `Configure` / `SetupStaticOnly` / `SetupDHCPOnly` predicates and both `IPString` builders. |
| `LayoutRules` (layout_rules.dfy) | `Interface`, and the nesting and ownership rules of `Interface.validate` as functions. Also the specification of `Layout.Validate` (`ValidateSpec`) and what it guarantees. |
| `Cycles` (cycles.dfy) | `Layout.cyclic` as written (`Cyclic`, `CyclicEach`), a corrected depth-first search (`Visit`, `VisitEach`), and graph-theoretic statements of both. |
| `Layouts` (layout.dfy) | The `Layout` class: `Interface.validate` and `Layout.Validate` as methods that update `interfaces`, `child2Parent` and `roots` in place. The cycle walk is the one the source has. |
| `NetplanParse` (netplan_parse.dfy) | The netplan validator tables and the per-kind declaration parsers `ethernet`, `bb` / `bond` / `bridge` and `vlan`. Also the match defaulting of `phy.matchPhys`. |
| `Netplan` (netplan.dfy) | `getNames` and `Compile`. `Compile` fills a `Layout` through `addOther`, keeps `matchChildren`, rewrites member lists with `realSubs`, and ends with `Layout.Validate`. |

How the model is structured:

- **Methods against specification functions.** Each method that changes state is proved against a function of the old state. For example, `Layouts.Layout.Validate` ensures its new state and result equal `LayoutRules.ValidateSpec(old(interfaces), old(roots))`. The properties the source promises are then lemmas about those functions.
- **Validators report messages.** A validator that takes a shared `*Err` is a function returning the messages it would record, together with its value and validity. The methods holding an `Err` append those messages.
- **Integers are unbounded.** `ValidateInt` models Go's 64-bit `int` bounds explicitly.
- **As written first.** The compile path (`Run`, `Layout.Validate`, `Compile`) runs the source's own `VIP4`/`VIP6`, its own `cyclic` and its own routing-policy tags. Where these are wrong, "## Findings" names a corrected member, and the corrected behaviour is proved beside the as-written one.
- **Map iteration.** Go visits a map's keys in an unspecified order; the model visits them in sorted key order (`Order.SortedSet`). The outputs the source sorts (the layout roots, `getNames`, the parent lists) do not depend on that order. The order of `ValidateAndMarshal`'s messages, and which cycle `Layout.Validate` reports with which path text, do depend on it, and the model fixes one of the possible orders.

Where the code and its description disagree, the model follows the code:

- An ethernet declaration that resolves to no NIC is not silently skipped. `Compile` records "Ethernet interface K does not resolve to any interfaces" for it (netplan/netplan.go:522-525).
- `Netplan.EtherStepCases` states this.

## Model

| member | source | states |
|---|---|---|
| Errs.Err.constructor | util/err.go:10-13 | A new accumulator has the given prefix and no messages. |
| Errs.Err.Errorf | util/err.go:16-21 | Appends exactly one message. Earlier messages are kept, in order, and the prefix is unchanged. |
| Errs.Err.Error | util/err.go:24-30 | The text is the prefix and ":", then one line per message, then a final newline. |
| Errs.ErrorTextLayout | util/err.go:24-30 | Joining `prefix:`, the messages and `"\n"` with newlines gives `prefix + ":\n" + Lines(msgs) + "\n"`. |
| Errs.Merged | util/err.go:39-53 | Merging nil adds nothing. Merging a plain error adds its text as one message. Merging an `*Err` adds each of its messages, in order, as `"<prefix>: <msg>"`, so the count grows by exactly its message count. |
| Errs.Err.Merge | util/err.go:39-53 | The new message list is the old one followed by `Merged(other)`. The prefix is unchanged. |
| Errs.Err.OrNil | util/err.go:57-62 | Nil iff `Empty()`. Otherwise the accumulator itself, with its prefix and messages. |
| Errs.OrNilOf | util/err.go:57-62 | The same decision as a function of a prefix and a message list. Nil iff the list is empty. |
| Errs.ErrorfEach | util/err.go:16-21 | Recording a list of messages one by one appends exactly that list. |
| Errs.MergedEachStep | util/err.go:39-53 | Checking one more item and merging its error adds exactly that error's messages after the earlier ones. |
| Errs.MergedEachEmptyIff | util/err.go:39-53 | Checking a list of items and merging each error in turn adds no message iff no item's error adds one. |
| Coerce.ValidateUnsupp | util/validate.go:22-25 | Always invalid. Records exactly the one "not supported" message and hands the value back. |
| Coerce.ValidateBool | util/validate.go:28-42 | A native bool passes as valid. "0"/"f"/"false"/"off" give false and "1"/"t"/"true"/"on" give true. Valid iff one of those cases holds. Anything else gives (false, invalid) with exactly one message. |
| Coerce.ValidateBoolReadsShow | util/validate.go:28-42 | The `%v` text of a boolean validates, under any key, to that same boolean, exactly as the boolean itself does. |
| Coerce.AsInt | util/validate.go:47-64 | `int`/`int64` convert as they are and `uint`/`uint64` through Go's `int(u)` wrap. Strings go through `ParseInt` with base 0, `_` separators included. A converted string always lies in int64. |
| Coerce.ValidateInt | util/validate.go:46-73 | Valid iff the value converts and `min <= res <= max`. An out-of-range value is still returned. An unconvertible value yields 0, not a default. Exactly one message on failure and none on success. |
| Coerce.ValidateIntKeepsValue | util/validate.go:58-64 | The decimal text of any int64 converts back to the same number. It is valid iff that number lies in range. |
| Ints.WrapInt64 | util/validate.go:53-55 | Converting a uint64 to `int` keeps values up to 2^63-1 and otherwise wraps modulo 2^64 into int64. |
| Ints.ParseInt | util/validate.go:58-64 | A successful parse gives an int64 whose sign follows a leading "-", and whose magnitude is the base-0 unsigned parse of the rest. |
| Ints.ParseUintBase0 | util/validate.go:58-64 | Succeeds only on a non-empty text whose digits, with `_` removed and after the `0b`/`0o`/`0x`/`0` prefix, are digits of that base; and a text with `_` then passes Go's `underscoreOK`. |
| Ints.UnderscoreSeparates | util/validate.go:58-64 | "1_000" parses to 1000. |
| Ints.UnderscoreAfterPrefix | util/validate.go:58-64 | "0x_1f" parses to 31: a `_` may follow the base prefix. |
| Ints.UnderscoreMisplaced | util/validate.go:58-64 | "_1", "1_" and "1__0" are refused: an underscore must sit between two digits. |
| Ints.ParseDec | util/validate.go:58-64 | The decimal text of any natural number parses back to it. |
| Ints.Dec | util/validate.go:70 | The decimal text of a number is a non-empty digit string without a leading zero. |
| Ints.DecValue | util/validate.go:70 | Reading the decimal text back as digits gives the number. |
| Ints.ParseDecRoundTrip | util/validate.go:58-64 | `ParseInt(DecInt(i)) == Some(i)` for every int64 `i`. |
| Coerce.ValidateStrIn | util/validate.go:77-92 | A non-string is invalid. With no allowed values any string is valid. Otherwise a string is valid iff it is one of them. The string is returned either way, with at most one message. |
| Coerce.StrIn | util/validate.go:84-88 | The search loop finds the string iff it is among the allowed values. |
| Coerce.ValidateMac | util/validate.go:95-105 | A hardware address passes. A string is valid iff `ParseMAC` accepts it, and then yields the parsed bytes. |
| Coerce.ValidateIP | util/validate.go:108-118 | Valid iff the value renders as JSON text, which `UnmarshalText` then reads without failing. The result is that address. |
| Coerce.ValidateIPReadsText | util/validate.go:108-118 | Validating the `String` of an address that reads back gives that same address. |
| Coerce.AsIPList | util/validate.go:122-131 | Defined iff the value is a list whose every element converts. Element i becomes the address of item i. |
| Coerce.FormatMsgsEmptyIff | util/validate.go:132-138 | No format message iff every address's `IsCIDR` equals the requested `cidr`. At most one message per address. |
| Coerce.CheckFormats | util/validate.go:132-138 | The loop records exactly the format messages. It reports valid iff there are none. |
| Coerce.ValidateIPList | util/validate.go:122-140 | A non-list is invalid with one message. Otherwise the value is the converted list and the messages are its format messages. Valid iff there are no messages. |
| Coerce.ValidateIPListValidIff | util/validate.go:122-140 | Valid iff the list converts and every address has the requested CIDR-ness. |
| Coerce.StrsMsgsEmptyIff | util/validate.go:262-277 | No element message iff every element is allowed, or no values are listed. |
| Coerce.ValidateStrs | util/validate.go:262-277 | A non-list is invalid. Otherwise the value is the list of strings and each element is checked by `ValidateStrIn`. |
| Coerce.ValidateStrsValidIff | util/validate.go:262-277 | `VSS` is valid iff every element passes `ValidateStrIn`. |
| Coerce.ValidateStrsInto | util/validate.go:262-277 | The loop records exactly `ValidateStrs`' messages and returns its value and validity. |
| Coerce.ValidateIP4 | util/validate.go:288-294 | As written: valid iff the value reads as an address with an IPv4 form, but only `ValidateIP`'s messages are recorded. |
| Coerce.ValidateIP6 | util/validate.go:298-304 | As written: valid iff the value reads (as text, possibly to a nil address) and has no IPv4 form, but only `ValidateIP`'s messages are recorded. |
| Coerce.WrongFamilyIsSilent | util/validate.go:288-304 | An IPv6 address given to `VIP4`, and an IPv4 address given to `VIP6`, are refused with no message at all. |
| Coerce.UnreadableAddress | util/models.go:106-109 | Text `ParseIP` cannot read becomes a nil address: `VIP4` refuses it with no message, and `VIP6` accepts it as a nil address. |
| Coerce.ValidateIP4Reported | util/validate.go:288-294 | Corrected: valid iff the address has an IPv4 form, and a refusal always records a message. |
| Coerce.ValidateIP6Reported | util/validate.go:298-304 | Corrected: valid iff the value reads as a real address (not nil) without an IPv4 form, and a refusal always records a message. |
| Values.JsonText | util/validate.go:10-20 | Only strings, addresses and hardware addresses marshal to a JSON string. |
| Values.ItemIP | util/validate.go:108-118 | An element is an address iff it marshals to JSON text. A string is read through `UnmarshalText` and an `*IP` is kept as it is. |
| Values.Generic | util/validate.go:10-20 | A JSON round trip into `interface{}` turns addresses into their text. Strings, integers and booleans come back unchanged (see "## Left out" for Go's `float64`). |
| Validation.Check.KeyName | util/validate.go:157-162 | The override key when one is set, else the field name. |
| Validation.Check.D | util/validate.go:165-168 | Sets the default and leaves the checker, key and transform. |
| Validation.Check.C | util/validate.go:171-174 | Sets the checker and leaves the default, key and transform. |
| Validation.Check.K | util/validate.go:177-180 | Sets the output key and leaves the rest. |
| Validation.Check.V | util/validate.go:183-186 | Sets the value transform and leaves the rest. |
| Validation.D | util/validate.go:189-191 | A new rule with a default, a checker, no key and no transform. |
| Validation.C | util/validate.go:194-196 | A new rule with a checker and nothing else. |
| Validation.RunReports | util/validate.go:238-320 | An accepted value records no message. A plain checker refuses without a message exactly when it is `VIP4` given an address without an IPv4 form, or `VIP6` given one with an IPv4 form (`WrongFamily`). An address without an IPv4 form includes text `ParseIP` cannot read, a nil address. Every other refusal is explained. |
| Validation.Run | util/validate.go:238-320 | Dispatches each checker to its validator as written. For a plain checker: acceptance records no message, and a silent refusal happens exactly for `WrongFamily`: `VIP4` given an address without an IPv4 form (including unreadable text), or `VIP6` given one with an IPv4 form. A record list that is not a list is refused with one message. |
| Validation.Records | netplan/netplan.go:54-72 | The record loop keeps at most one entry per item, keeps every item when valid, and an invalid list has at least one message. |
| Validation.MarshalReports | util/validate.go:201-235 | An accepted `ValidateAndMarshal` recorded no message. The converse does not hold for `VIP4`/`VIP6` (`NetplanParse.SilentEthernet`). |
| Validation.MarshalQuietIff | util/validate.go:208-221 | No message iff no table field present in the input recorded one. |
| Validation.FieldsQuietIff | util/validate.go:208-221 | The field loop (`Fields`) records no message iff no table field present in the input recorded one. |
| Validation.FieldsOkIff | util/validate.go:208-221 | The field loop succeeds iff every table field present in the input passes its checker. |
| Validation.ValidateAndMarshal | util/validate.go:202-206 | Non-map input fails with exactly one message. Field checkers run as written, so a wrong-family address is refused silently. |
| Validation.MarshalOkIff | util/validate.go:208-221 | Succeeds iff every table field present in the input passes its checker. One failure does not stop the others from being checked. |
| Validation.MarshalMsgsKept | util/validate.go:208-221 | Every present field's messages appear, contiguously, in the result's messages. |
| Validation.MarshalField | util/validate.go:209-226 | An absent field stores its default under `keyName(key)` without running the checker, or is omitted when it has none. A present field is stored, transformed, iff its checker accepts it. |
| Validation.MarshalKeysFromTable | util/validate.go:208-226 | Every output key comes from some table entry. |
| Validation.MarshalIgnoresOthers | util/validate.go:208-221 | Input keys not in the table change nothing. |
| Validation.RecordsValidIff | netplan/netplan.go:43-103 | A list of sub-records is valid iff every record passes its table. |
| Validation.ValidateAndMarshalInto | util/validate.go:201-235 | The imperative version records exactly the specification's messages and returns its validity and fields. |
| Validation.FieldsInto | util/validate.go:208-226 | The table loop records exactly the messages of `Fields` and returns its map and flag. |
| Glob.LiteralMatchesItselfOnly | util/models.go:19-22 | A pattern without `*` or `?` matches exactly itself, regex metacharacters included, and only as a whole string. |
| Glob.StarMatchesAnyRun | util/models.go:20 | `*` followed by a rest matches `s` iff some newline-free prefix of `s` (possibly empty) is consumed and the rest matches what follows. |
| Glob.QuestionMatchesOneChar | util/models.go:21 | `?` followed by a rest matches `s` iff `s` starts with one non-newline character and the rest matches what follows. |
| Glob.MatchesConcat | util/models.go:18-23 | Matches compose: if `p1` matches `s1` and `p2` matches `s2`, then `p1+p2` matches `s1+s2`. |
| Glob.MatchLength | util/models.go:18-23 | A match is at least as long as the pattern's fixed characters. A pattern without `*` matches only strings of its own length, so matching is anchored. |
| Net.UnmarshalText | util/models.go:100-110 | Never fails. The result is CIDR iff `ParseCIDR` accepts the text. Otherwise it is the plain `ParseIP` address with no mask. |
| Net.String | util/models.go:124-129 | The bare address when there is no mask. Otherwise the address, "/", and decimal digits that read back as the prefix length. |
| Net.StringRoundTrip | util/models.go:100-129 | Reading back the text of an address that the parsers read back faithfully gives the same address. |
| Net.MacString | util/models.go:154-156 | Colon-separated pairs of hex digits: `3n-1` characters for `n` bytes. |
| Phys.Matched | util/phy.go:28-49 | Never longer than the NIC list. |
| Phys.MatchPhys | util/phy.go:28-49 | The filter loop returns exactly `Matched(m, tmpl, phys)`. |
| Phys.MatchedAppend | util/phy.go:29-48 | Filtering distributes over concatenation of NIC lists, so the result is an order-preserving subsequence. |
| Phys.EmptyMatchKeepsAll | util/phy.go:28-48 | An empty match yields one interface per NIC, in input order. |
| Phys.MatchedSound | util/phy.go:31-46 | Every result is the template bound to a NIC the match selects: name glob on `Name` or `StableName`, exact driver, exact MAC. |
| Phys.MatchedComplete | util/phy.go:31-46 | Every selected NIC contributes its bound interface. |
| Phys.ResultsFollowTemplate | util/phy.go:42-46 | Each result equals the template except for its name, its physical kind and its current hardware address. |
| Layer3.Route.Msgs | util/layout.go:74-90 | At most two messages. A CIDR `Via` is reported first. A missing `To` is reported last, with the unicast wording for a unicast route and "<type> routes require 'to'" otherwise. A unicast route without `Via` gets exactly the unicast message. |
| Layer3.Route.Validate | util/layout.go:74-90 | No error iff `Via` is not CIDR, `To` is set, and a unicast route has `Via`. Otherwise a "Route" error with one or two messages. |
| Layer3.Route.ToWords | util/layout.go:45-51 | The "to [type] address" prefix of an `ip route` line, present iff `To` is set. |
| Layer3.Route.OptionWords | util/layout.go:52-70 | The options part starts with one of the option keywords and ends with "dev" and the device name. |
| Layer3.Route.OptionWordsRead | util/layout.go:52-70 | Reading the options back keyword by keyword gives `Shown`: `src` iff set, `metric` unless 0 or 100, `table` unless 0 or 253, `via` iff set, `onlink` iff set, `scope` unless empty or "global", then the device, each with its value, in this order. |
| Layer3.Route.Words | util/layout.go:43-72 | The line starts with "to" iff `To` is set, is the destination words followed by the option words, and ends with "dev <device>". |
| Layer3.RoutePolicy.Validate | util/layout.go:138-145 | No error iff exactly one of `From` and `To` is set. |
| Layer3.RoutePolicy.Words | util/layout.go:115-136 | Empty iff nothing is set. A set `From` comes first as "from <address>". |
| Layer3.RoutePolicy.WordsRead | util/layout.go:115-136 | Reading the words back gives `Shown`: `from` and `to` iff set, `pref` (the priority), `fwmark`, `tos` and `table` iff non-zero, each with its value, in this order. |
| Layer3.NSInfo.Validate | util/layout.go:157-161 | No error iff no nameserver address is CIDR. |
| Layer3.SetupModes | util/layout.go:204-225 | A nil network neither configures nor sets up. Static-only and DHCP-only exclude each other, and each implies `Configure`. |
| Layer3.IdentifierMsgs | util/layout.go:229 | No message iff the DHCP identifier is "mac" or empty. |
| Layer3.AddressMsgs | util/layout.go:230-233 | No message iff every address is CIDR. |
| Layer3.GatewayMsgs | util/layout.go:234-239 | No message iff `Gateway4` is IPv4 and `Gateway6` is not. |
| Layer3.NameserverMsgs | util/layout.go:240-242 | No message iff the nameserver block is absent or valid. |
| Layer3.RoutesMsgsEmptyIff | util/layout.go:243-247 | No route message iff every route validates. |
| Layer3.PoliciesMsgsEmptyIff | util/layout.go:248-252 | No policy message iff every routing policy validates. |
| Layer3.NetworkMsgs | util/layout.go:227-254 | No message iff the network satisfies every layer-3 rule (`NetworkOk`). |
| Layer3.MergeRoutes | util/layout.go:243-247 | The loop merges exactly every route's messages, in order. |
| Layer3.MergePolicies | util/layout.go:248-252 | The loop merges exactly every policy's messages, in order. |
| Layer3.ValidateScalarsInto | util/layout.go:229-239 | Records the identifier, address and gateway messages, in source order. |
| Layer3.ValidateNetwork | util/layout.go:227-254 | Returns a "network" error holding all messages. Nil iff every layer-3 rule holds. |
| Layer3.NetworkErr | util/layout.go:324-326 | An interface's network adds no error iff it is absent or valid. |
| LayoutRules.ClaimOne | util/layout.go:359-380 | A vlan claim next to a vlan parent joins the sorted parent list. Any other claim on an owned child records one "already owned" message. |
| LayoutRules.Claims | util/layout.go:355-382 | Claims never drop a message. A non-vlan claim leaves the parent map alone and adds one message per existing parent. |
| LayoutRules.MemberOne | util/layout.go:327-382 | Never drops a message. A member that adds none is defined and, under a non-physical node, may be built on. |
| LayoutRules.Members | util/layout.go:327-382 | Never drops a message. If none is added, every member is defined and may be built on. |
| LayoutRules.CheckNode | util/layout.go:313-385 | A physical node leaves the parent map alone and is clean iff it has no members. A clean node's members are all defined and may be built on. |
| LayoutRules.ClaimsFacts | util/layout.go:355-382 | Claims keep the parent map well formed. They add no message iff every existing parent may share. A non-vlan claim adds one message per existing parent and changes nothing. |
| LayoutRules.MemberOneFacts | util/layout.go:327-382 | An accepted member is defined and may be built on. A non-vlan parent becomes its only parent. A vlan joins only vlan parents. |
| LayoutRules.MembersFacts | util/layout.go:327-382 | If no member is refused, every member is defined and may be built on. |
| LayoutRules.CheckNodeFacts | util/layout.go:313-385 | A node without messages satisfies `NodeOk`: bond members physical, bridge members not bridges, vlan members not vlans, network valid. A physical node is rejected iff it has members. |
| LayoutRules.Settle | util/layout.go:315-327 | Validating a node changes no kind, name or match id. Only its member list is sorted, in place. |
| LayoutRules.NodeStep | util/layout.go:484-487 | One validation step keeps the set of nodes and their kinds and names. |
| LayoutRules.CheckNodes | util/layout.go:477-487 | Validating all nodes keeps the node set, kinds and names. |
| LayoutRules.CheckNodesShape | util/layout.go:477-487 | The loop keeps the parent map well formed and recorded. Messages only grow. |
| LayoutRules.CheckNodesOk | util/layout.go:477-487 | If the loop records nothing, every visited node satisfies `NodeOk`. |
| LayoutRules.RootsOf | util/layout.go:501-506 | A name is a root iff it is a node with no parent entry. |
| LayoutRules.ClearEach | util/layout.go:491-500 | Clearing one node's members keeps every node, and keeps each entry under its own name. |
| LayoutRules.ClearNetworks | util/layout.go:491-500 | The clearing loop keeps every node, and keeps each entry under its own name. |
| LayoutRules.ClearNetworksFacts | util/layout.go:491-500 | Clearing keeps every node and drops the network of exactly those nodes that some bond or bridge lists as a member. |
| LayoutRules.Checked | util/layout.go:477-487 | The checking phase keeps the node names. |
| LayoutRules.SortedRoots | util/layout.go:501-508 | Sorting the roots keeps exactly the parentless nodes. |
| LayoutRules.ValidateChecksNodes | util/layout.go:476-510 | The parent map is well formed. If `Validate` succeeds, every node passed its rules. |
| LayoutRules.ValidateSpec | util/layout.go:476-510 | The parent map is that of the checking phase. A failing check returns the "layout" error with the old roots. The old roots are always kept. |
| LayoutRules.ValidateClearsMembers | util/layout.go:491-500 | On a clean check every node is kept. Every member of a bond or bridge has no network, and every other node keeps its own. |
| LayoutRules.ValidateFindsCycles | util/layout.go:501-509 | Once the node checks pass, an error from `Validate` means the parent graph has a cycle. Only this direction holds (`Cycles.MissedCycle`). |
| LayoutRules.ValidateCorrectedFindsCycles | util/layout.go:501-509 | Corrected: with the depth-first search `Cycles.VisitEach`, `Validate` succeeds iff the parent graph has no cycle, once the node checks pass. |
| LayoutRules.ValidateRoots | util/layout.go:501-508 | On a clean check the roots are sorted and are exactly the nodes with no parent. |
| LayoutRules.ValidateSpecFails | util/layout.go:488-490 | A failing node check returns the "layout" error before networks are cleared or roots computed. |
| Layouts.Layout.constructor | util/layout.go:389-402 | A new layout has the given interfaces, no parents and no roots. |
| Layouts.Layout.ClaimOneInto | util/layout.go:359-380 | One ownership claim updates `child2Parent` and the messages exactly as `ClaimOne`. |
| Layouts.Layout.ClaimFrom | util/layout.go:359-381 | The claims against all existing parents update `child2Parent` as `Claims`. |
| Layouts.Layout.ClaimMember | util/layout.go:328-382 | One member's checks and claim follow `MemberOne`. |
| Layouts.Layout.ClaimMembers | util/layout.go:327-382 | The member loop follows `Members`. |
| Layouts.Layout.NetworkInto | util/layout.go:324-326 | Merges exactly the network's error. |
| Layouts.Layout.ValidateInterface | util/layout.go:313-385 | The node's members are sorted in place, the parent map becomes `CheckNode`'s, and the error carries the node's prefix. |
| Layouts.Layout.CheckOne | util/layout.go:484-487 | One iteration of the check loop is `NodeStep`. |
| Layouts.Layout.CheckAll | util/layout.go:477-487 | The check loop is `CheckNodes` over the sorted names. |
| Layouts.Layout.CheckPhase | util/layout.go:477-487 | Resets `child2Parent` and checks every node: the new state is `Checked(old(interfaces))`. |
| Layouts.Layout.ClearMembers | util/layout.go:491-500 | Clears the network of each member of one node. |
| Layouts.Layout.ClearAll | util/layout.go:491-500 | The clearing loop is `ClearNetworks`. |
| Layouts.Layout.Cyclic | util/layout.go:447-470 | The recursive walk as written updates the clean set and the messages exactly as `Cycles.Cyclic`. |
| Layouts.Layout.RootAndCycles | util/layout.go:502-506 | One key: appended to the roots iff it has no parent, then walked for cycles as written. |
| Layouts.Layout.RootsAndCycles | util/layout.go:501-507 | The roots gain exactly the parentless keys, in order. The messages are those of `Cycles.CyclicEach`, the walk as written over all keys. |
| Layouts.Layout.Finish | util/layout.go:491-509 | Clears member networks as `ClearNetworks`, sorts the roots, and returns nil iff `Cycles.CyclicEach` recorded nothing. |
| Layouts.Layout.Validate | util/layout.go:476-510 | The new interfaces, parent map, roots and error are exactly `ValidateSpec` of the old state, which the lemmas above characterise. |
| Cycles.MissedCycle | util/layout.go:447-470 | As written, `cyclic` reports nothing for a graph that has a cycle, and the corrected walk reports it. |
| Cycles.Cyclic | util/layout.go:447-470 | The walk as written only adds messages. |
| Cycles.CyclicAll | util/layout.go:463-467 | The walk over one node's parents only adds messages. |
| Cycles.CyclicEach | util/layout.go:501-507 | The walk from every key only adds messages. |
| Cycles.CyclicSound | util/layout.go:447-470 | Along a path, a message from the walk as written means the graph has a cycle. |
| Cycles.CyclicAllSound | util/layout.go:463-467 | A message from the walk over a node's parents means the graph has a cycle. |
| Cycles.CyclicEachSound | util/layout.go:501-507 | Over all keys, a message means a cycle exists, so an acyclic graph gets no message. The converse fails (`MissedCycle`). |
| Cycles.Visit | util/layout.go:447-470 | The walk only adds messages. |
| Cycles.VisitSound | util/layout.go:447-470 | A message is reported only when the graph has a cycle. |
| Cycles.VisitComplete | util/layout.go:447-470 | Clean nodes stay cycle-free. A walk that reports nothing proves the node cycle-free off the current path. |
| Cycles.VisitEachIff | util/layout.go:501-509 | Over all keys, the corrected walk reports nothing iff the parent graph has no cycle. |
| Cycles.VisitEachSound | util/layout.go:501-509 | Any message the walk over all keys adds means a cycle exists. |
| Cycles.VisitEachComplete | util/layout.go:501-509 | A silent walk over all keys proves every key cycle-free. |
| Order.Insert | util/layout.go:378 | Inserting into a sorted list keeps it sorted and adds exactly the new element. |
| Order.Sort | util/layout.go:508 | `sort.Strings`: the result is sorted and a permutation of the input. |
| Order.Min | util/layout.go:483 | The least element of a non-empty set. |
| Order.SortedSet | netplan/netplan.go:323-333 | The keys in strictly increasing order, each exactly once. |
| Order.StrictlySortedUnique | netplan/netplan.go:323-333 | Two strictly sorted lists with the same elements are equal. |
| Order.SortedOfSet | util/layout.go:483 | Sorting the keys of a set gives exactly `SortedSet`. |
| Order.LessTotal | util/layout.go:483 | String order is total. |
| Order.LessTransitive | util/layout.go:483 | String order is transitive. |
| Netplan.GetNames | netplan/netplan.go:323-333 | Returns the map's keys sorted, each once. A nil (empty) map gives an empty list. |
| NetplanParse.EffectiveMatchSelects | netplan/netplan.go:165-172 | An empty match spec selects by the declaration key, on name or stable name. Any non-empty spec selects as given. |
| NetplanParse.NetworkOf | netplan/netplan.go:105-125 | The layer-3 block is accepted iff its table accepts it, and then it records no message. |
| NetplanParse.ToNetwork | netplan/netplan.go:105-125 | At most one route and one policy per list item, and every routing policy has TOS 0, as the struct tags make it. |
| NetplanParse.RoutesOf | netplan/netplan.go:43-73 | One route per item when every item is a map, each read from that item's fields in order. |
| NetplanParse.PoliciesOf | netplan/netplan.go:75-103 | At most one policy per item, each with TOS 0. |
| NetplanParse.RouteRead | netplan/netplan.go:44-52 | After validation, a route without `type` is "unicast", a given type is kept, and a given metric is kept. |
| NetplanParse.SilentEthernet | netplan/netplan.go:174-201 | `gateway4: 2001:db8::1` makes the network block and the ethernet both invalid with no message at all. |
| NetplanParse.OnlyField | util/validate.go:208-221 | An input with one table field is accepted, and is silent, exactly as that field's checker. |
| NetplanParse.EtherFrom | netplan/netplan.go:174-201 | Valid iff both the ethernet table and the network block pass, and silent-invalid exactly when the network block refused silently. Then the result is physical with no members, `wakeonlan` is a parameter iff true, and `Optional` is copied. |
| NetplanParse.EthernetOf | netplan/netplan.go:174-201 | A non-map declaration is refused. An accepted one recorded no message, and a silent refusal comes from a silent network block. |
| NetplanParse.BBFrom | netplan/netplan.go:211-232 | Valid iff the table and the network block pass, and silent-invalid exactly when the network block refused silently. Then the kind is the given one, the members are the `interfaces` list and `Optional` is copied. |
| NetplanParse.BBOf | netplan/netplan.go:211-268 | Bond and bridge parsers refuse non-maps and yield their own kind. An accepted one recorded no message, and a silent refusal comes from a silent network block. |
| NetplanParse.VlanFrom | netplan/netplan.go:270-303 | Valid iff all three sub-validations pass, and every sub-message is kept. Then the members are exactly `[link]`, `id` is the parameter, and the network is kept iff it configures something. |
| NetplanParse.VlanOf | netplan/netplan.go:270-303 | A vlan always has kind vlan and exactly one member. An accepted one recorded no message. |
| NetplanParse.PolicyTosKept | netplan/netplan.go:75-103 | Corrected: a validated `tos` reaches the routing policy unchanged, within 0..255. |
| NetplanParse.ToPolicyAsTagged | util/layout.go:93-111 | As written: the policy's TOS field is always 0. |
| NetplanParse.TosDropped | util/layout.go:110 | `tos: 8` validates, and the policy as tagged ends up with TOS 0. |
| Netplan.Prelude | netplan/netplan.go:471-474 | No header message iff the version is 2 and there is no wifi block. |
| Netplan.AddOther | netplan/netplan.go:477-498 | A duplicate name records one message and keeps the first definition. A new name stores the interface with that name and match id. Existing entries are never changed. |
| Netplan.AddMembers | netplan/netplan.go:484-496 | NICs matched by member names are added only when absent. Existing entries are kept. |
| Netplan.AddMembersComplete | netplan/netplan.go:484-496 | Every NIC a member name selects is in the layout afterwards. |
| Netplan.EtherStepCases | netplan/netplan.go:512-534 | A refused ethernet adds only its messages. One resolving to no NIC adds its messages and one "does not resolve" message. Otherwise its match children are the resolved names, in match order, and each is a layout entry. |
| Netplan.EtherStep | netplan/netplan.go:512-534 | One ethernet keeps every entry and message, keeps other ethernets' children, and an accepted one gets children or an "unresolved" message. |
| Netplan.Others | netplan/netplan.go:535-552 | The bond, bridge and vlan loops keep every entry, every message and the children map. |
| Netplan.EthernetDeclTraced | netplan/netplan.go:512-534 | Every accepted ethernet either has match children or is reported as unresolved. |
| Netplan.OtherDeclPresent | netplan/netplan.go:535-552 | Every accepted bond, bridge or vlan declaration is a layout entry under its key. |
| Netplan.ReadAll | netplan/netplan.go:512-552 | Reading the declarations never changes an existing entry, never drops a message, and keeps each entry stored under its own name. |
| Netplan.Built | netplan/netplan.go:467-552 | The header messages come first, and every entry is stored under its own name. |
| Netplan.ExpandMembers | netplan/netplan.go:499-511 | A name is in the expansion iff it is an ethernet's match child listed by key, or a listed name that is no ethernet key. |
| Netplan.RealSubsMeaning | netplan/netplan.go:499-511 | `realSubs` is sorted and holds exactly that expansion. |
| Netplan.RealSubsOf | netplan/netplan.go:499-511 | The loop computes `RealSubs`. |
| Netplan.RealSubs | netplan/netplan.go:499-511 | Sorted, and a permutation of the expansion of the member list. |
| Netplan.Rewrite | netplan/netplan.go:553-556 | Rewriting changes only an interface's member list. |
| Netplan.Rewritten | netplan/netplan.go:553-556 | Every entry is rewritten and no entry is added or lost. |
| Netplan.RewrittenNamesMatchKeys | netplan/netplan.go:553-556 | Rewriting keeps every entry under its own name. |
| Netplan.CompileRefusesHeader | netplan/netplan.go:471-474 | A wrong version or a wifi block makes `Compile` return an error, although compilation continues. |
| Netplan.FinishReports | netplan/netplan.go:557-558 | Any message recorded while reading makes the returned error non-nil. |
| Netplan.Finish | netplan/netplan.go:553-558 | Nil iff nothing was reported while reading and `Validate` (as written) passes. Otherwise a "netplan" error that starts with the reading messages. |
| Netplan.CompileSpec | netplan/netplan.go:467-559 | A nil error means the header was valid and reading recorded nothing. |
| Netplan.CompileFindsCycles | netplan/netplan.go:557-558 | Once the node checks pass, a nil error means nothing was reported while reading, and an acyclic graph with nothing reported gives nil. A cyclic graph may still pass (`Cycles.MissedCycle`). |
| Netplan.CompileCorrectedFindsCycles | netplan/netplan.go:557-558 | Corrected: with the depth-first search, `Compile` returns nil iff nothing was reported while reading and the parent graph is acyclic. |
| Netplan.CompileRoots | netplan/netplan.go:557-558 | Once the node checks pass, the roots are sorted and are exactly the parentless entries. |
| Netplan.AddSubsInto | netplan/netplan.go:488-495 | The loop adds matched NICs as `AddSubs` does. |
| Netplan.AddMembersInto | netplan/netplan.go:484-496 | The member loop updates the layout as `AddMembers`. |
| Netplan.AddOtherInto | netplan/netplan.go:477-498 | The closure updates the layout and the messages as `AddOther`. |
| Netplan.EtherAddsInto | netplan/netplan.go:527-532 | Returns the resolved names in order and adds each NIC as `EtherAdds`. |
| Netplan.EtherInto | netplan/netplan.go:513-533 | One ethernet iteration follows `EtherStep`. |
| Netplan.EthernetsInto | netplan/netplan.go:512-534 | The ethernet loop follows `Ethernets`. |
| Netplan.OtherInto | netplan/netplan.go:535-552 | One bond, bridge or vlan iteration follows `OtherStep`. |
| Netplan.OthersInto | netplan/netplan.go:535-552 | The bond, bridge and vlan loops follow `Others`. |
| Netplan.RewriteAll | netplan/netplan.go:553-556 | The final loop rewrites the layout's interfaces to `Rewritten`. |
| Netplan.CheckHeader | netplan/netplan.go:471-474 | Records exactly the header messages. |
| Netplan.ReadDecls | netplan/netplan.go:512-552 | The four declaration loops leave the layout and messages at `ReadAll`. |
| Netplan.FinishInto | netplan/netplan.go:553-558 | Rewriting, validating (with the walk as written) and merging give `Finish`. |
| Netplan.CompileWith | netplan/netplan.go:467-559 | Returns a fresh layout and an error equal to the specification over the given parsers. |
| Netplan.Compile | netplan/netplan.go:467-559 | Returns a fresh layout and an error equal to `CompileSpec`, with the source's validators, cycle walk and struct tags. |

## Left out

- The `float64` branch of `ValidateInt` (util/validate.go:56-57) is not modelled, because it is floating point. Decoded numbers are integers here.
- YAML decoding itself is not modelled, nor the difference between a nil and an empty list or map. Input arrives as `Values.Value`.
- `Values.Value` has no null. In Go, a YAML `~` for an address field passes `ValidateIP` as a nil address and then panics inside `VIP4`/`VIP6`. The model has no such input.
- Generic: Go's JSON round trip into `interface{}` turns integers into `float64`. The model keeps them as integers, because floating point is not modelled and the parsers only read them back as integers.
- Only Go's `int`/`int64` (`Values.Int`) and `uint`/`uint64` (`Values.Uint`) reach `ValidateInt`'s integer cases. The narrower integer types are `Values.Other`, which Go's switch also refuses.
- AsInt: `ParseInt`'s error text is approximated as "value out of range" or "invalid syntax". The order Go checks them in is kept.
- RunReports: only "accepted means no message" is promised, plus the exact case of a silent refusal. `VIP4` refuses an address without an IPv4 form, including text `ParseIP` cannot read, without any message. `VIP6` does the same for an address with an IPv4 form ("## Findings"). The same holds for MarshalReports, NetworkOf, EthernetOf, EtherFrom, BBOf, BBFrom, VlanOf and VlanFrom.
- ValidateFindsCycles: only one direction holds for `Validate` as written, because `cyclic` misses some cycles (`Cycles.MissedCycle`). The corrected `ValidateCorrectedFindsCycles` has both directions.
- CompileFindsCycles: as for `ValidateFindsCycles`. The corrected `CompileCorrectedFindsCycles` has both directions, and the same gap carries over to FinishInto, CompileWith and Compile.
- `net.ParseCIDR`, `net.ParseIP`, `net.ParseMAC` and `IP.To4` are foreign library calls. They are parameters of the model (`Net.NetLib`), and an address is abstract: family, text and optional prefix length.
- `Remarshal` into a Go struct is not modelled. It is the JSON round trip at the end of `ValidateAndMarshal`. The model assumes it does not fail on the assembled maps. That rests on the `UnmarshalText` of gohai's `IPNet` and `HardwareAddr`, which is not part of this model. The parsers read the validated field map directly, except that the struct tags are followed (a routing policy's TOS stays 0).
- `%v` and `%T` rendering in messages is approximated by `Values.Show` and `Values.TypeName`.
- Go map iteration order is unspecified. The loops over `checks`, over `l.Interfaces` and in `Layout.Validate`'s roots loop run in sorted key order here. Only the sorted outputs are promised by the source.
- `GatherPhys` is OS introspection, so the NIC list is a parameter. The same holds for the renderers, the `Read` / `Write` methods and the YAML I/O.
- The earlier root-package revision of the compiler (models.go, run.go) is not part of this model.
- The copy of `Err` in util/models.go:38-90 is modelled once, as `Errs.Err`.
- The `dhcp4-overrides` / `dhcp6-overrides` blocks rely on `util.Overrides`, which is not part of this model. Their checkers are opaque validators, and their contents are not kept.
- The error branch after `MatchPhys` in `Compile` and `matchPhys` is not modelled. The shown `MatchPhys` returns no error: `Glob2RE` quotes its input, so it always compiles.
- Validation.Check.D: the Go setters `D`, `C`, `K` and `V` mutate a shared `*Check` and return it. The model returns a new rule value, so it does not capture aliasing between table entries that share one `*Check`.
- Inside `Interface.validate`, `child.Network = nil` assigns to a copy of the map entry, so it changes nothing. The model clears nothing at that point. `Layout.Validate` does the real clearing later.
- `Layout.Validate` appends to `Roots` without resetting it, so validating twice duplicates the roots. The model keeps this behaviour: the old roots stay in the result.
- `Compile` calls the parsers as validator values built from `NetLib` (`NetplanParse.Validators`). `Netplan.CompileWith` is the same procedure over any parsers.
- The `log.Panicf` branches (util/layout.go:353, 380) cannot be reached given the four kinds, so they are not modelled.
- The vlan stacking quirk is modelled as written: a vlan is appended once per existing vlan parent.

## Findings

| source | as written | input that shows it | evidently intended | confidence | as-written member | corrected member |
|---|---|---|---|---|---|---|
| util/validate.go:288-304 | `VIP4` returns invalid for an address without an IPv4 form, including text `ParseIP` cannot read; `VIP6` returns invalid for one with an IPv4 form. Neither records any message | `gateway4: 2001:db8::1` is refused, and the accumulated error stays empty | a refused value records a message, as every other validator does | not executed | Coerce.WrongFamilyIsSilent | Coerce.ValidateIP4Reported |
| util/validate.go:298-304, util/models.go:106-109 | `VIP6` accepts text that is no address at all: `UnmarshalText` leaves a nil address, and a nil address has no IPv4 form | `gateway6: gateway` is accepted as a nil address | unreadable text is refused with a message | not executed | Coerce.UnreadableAddress | Coerce.ValidateIP6Reported |
| util/layout.go:447-470 | `cyclic` marks the whole working path clean once one branch reaches a root, so a later branch that closes a cycle through a clean node is missed | vlans `a` and `v1` both on link `br0`, and bridge `br0` with member `v1`: the parent map is `br0 -> [a, v1]`, `v1 -> [br0]`, and no error is reported | a layout whose parent graph has a cycle is rejected | not executed | Cycles.MissedCycle | LayoutRules.ValidateCorrectedFindsCycles |
| util/layout.go:110 | `RoutePolicy.TOS` has JSON tag `type-of-service`, while netplan validates the key `tos` (netplan/netplan.go:82), so the validated value is dropped when it is marshalled into the struct | routing policy `tos: 8` | the policy's TOS is 8 | not executed | NetplanParse.TosDropped | NetplanParse.PolicyTosKept |
