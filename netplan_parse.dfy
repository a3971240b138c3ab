// The declaration parsers of the netplan reader (netplan/netplan.go): the
// check tables each kind of declaration is validated against, the
// conversion of a validated map into the Go structure it is marshalled
// into, and the per-kind parsers `ethernet`, `bb` (`bond`, `bridge`) and
// `vlan`. A parser returns its value, its verdict and the messages it
// records into the shared `Err`.
module NetplanParse {

  import opened Wrappers
  import opened Net
  import opened Values
  import opened Coerce
  import opened Validation
  import opened Layer3
  import opened LayoutRules
  import opened Phys
  import opened Glob

  /** The 32-bit, 16-bit and 8-bit maxima the tables use. */
  const MaxUint32: int := 4294967295
  const MaxUint8: int := 255
  const MaxInt8: int := 127
  const MaxInt16: int := 32767

  /** `override()`: the DHCP override settings. */
  const OverrideChecks: map<string, Check> := map[
    "use-dns" := D(Bool(true), BoolV),
    "use-ntp" := D(Bool(true), BoolV),
    "send-hostname" := D(Bool(true), BoolV),
    "use-mtu" := D(Bool(true), BoolV),
    "hostname" := C(StrV([])),
    "use-routes" := D(Bool(true), BoolV),
    "route-metric" := C(IntV(0, MaxUint32)),
    "use-domains" := D(Bool(true), StrV(["true", "false", "route"]))]

  /** `nameservers()`. */
  const NameserverChecks: map<string, Check> := map[
    "search" := C(StrsV([])),
    "addresses" := C(IpsV(false))]

  /** `routes()`, per entry. */
  const RouteChecks: map<string, Check> := map[
    "from" := C(IpV),
    "to" := C(IpV),
    "via" := C(IpV),
    "on-link" := C(BoolV),
    "metric" := C(IntV(0, MaxUint32)),
    "table" := C(IntV(0, MaxUint32)),
    "scope" := C(StrV(["global", "link", "host"])),
    "type" := D(Str("unicast"), StrV(["unicast", "unreachable", "blackhole", "prohibit"]))]

  /** `routepolicy()`, per entry. */
  const PolicyChecks: map<string, Check> := map[
    "from" := C(IpV),
    "to" := C(IpV),
    "table" := C(IntV(0, MaxUint32)),
    "priority" := C(IntV(0, MaxUint32)),
    "mark" := C(IntV(0, MaxUint8)),
    "tos" := C(IntV(0, MaxUint8))]

  /** `network()`: the layer-3 block, read from the declaration itself. */
  const NetworkChecks: map<string, Check> := map[
    "dhcp4" := D(Bool(false), BoolV),
    "dhcp4-overrides" := C(Record(OverrideChecks)),
    "dhcp6" := D(Bool(false), BoolV),
    "dhcp6-overrides" := C(Record(OverrideChecks)),
    "dhcp-identifier" := C(StrV([])),
    "accept-ra" := D(Bool(true), BoolV),
    "addresses" := C(IpsV(true)),
    "gateway4" := C(Ip4V),
    "gateway6" := C(Ip6V),
    "nameservers" := C(Record(NameserverChecks)),
    "routes" := C(RecordList(RouteChecks, "Invalid route ")),
    "routing-policy" := C(RecordList(PolicyChecks, "Invalid routing policy: "))]

  /** `phymatch()`. */
  const MatchChecks: map<string, Check> := map[
    "name" := C(StrV([])),
    "macaddress" := C(MacV),
    "driver" := C(StrV([]))]

  /** `ethernet()`: renaming and setting the MAC address are refused. */
  const EthernetChecks: map<string, Check> := map[
    "match" := C(Record(MatchChecks)),
    "wakeonlan" := C(BoolV),
    "set-name" := C(Unsupported),
    "macaddress" := C(Unsupported),
    "optional" := C(BoolV)]

  /** `bridge()`'s parameters. */
  const BridgeParams: map<string, Check> := map[
    "stp" := D(Bool(true), BoolV),
    "max-age" := C(IntV(0, MaxInt8)),
    "hello-time" := C(IntV(0, MaxInt8)),
    "forward-delay" := C(IntV(0, MaxInt8)),
    "ageing-time" := C(IntV(0, MaxInt8)),
    "priority" := D(Int(32768), IntV(0, MaxInt16))]

  /** `bond()`'s parameters. */
  const BondParams: map<string, Check> := map[
    "ad-select" := C(StrV(["stable", "bandwidth", "count"])),
    "all-slaves-active" := C(BoolV),
    "arp-all-targets" := C(StrV(["any", "all"])),
    "arp-interval" := C(IntV(0, MaxInt8)),
    "arp-ip-targets" := C(IpsV(false)),
    "arp-validate" := C(StrV(["none", "active", "backup", "all"])),
    "down-delay" := C(IntV(0, MaxInt8)),
    "fail-over-mac-policy" := C(StrV(["none", "active", "follow"])),
    "gratuitous-arp" := C(IntV(1, 127)),
    "lacp-rate" := C(StrV(["fast", "slow"])),
    "learn-packet-interval" := C(IntV(1, 0x7fffffff)),
    "mii-monitor-interval" := C(IntV(0, MaxInt8)),
    "min-links" := C(IntV(1, MaxInt8)),
    "mode" := C(StrV(["balance-rr", "active-backup", "balance-xor", "broadcast", "802.3ad", "balance-tlb", "balance-alb"])),
    "packets-per-slave" := C(IntV(0, 65535)),
    "primary" := C(StrV([])),
    "primary-reselect-policy" := C(StrV(["always", "better", "failure"])),
    "resend-igmp" := C(IntV(0, 255)),
    "transmit-hash-policy" := C(StrV(["layer2", "layer3+4", "layer2+3", "encap2+3", "encap3+4"])),
    "up-delay" := C(IntV(0, MaxInt8))]

  /** `bb(kind, pchecks)`: the fields shared by bonds and bridges. */
  function BBChecks(pchecks: map<string, Check>): map<string, Check> {
    map[
      "macaddress" := C(MacV),
      "interfaces" := C(StrsV([])),
      "parameters" := C(Record(pchecks)),
      "optional" := C(BoolV)]
  }

  /** `vlan()`: the link and id, and separately the MAC address. */
  const VlanLinkChecks: map<string, Check> := map[
    "link" := C(StrV([])),
    "id" := C(IntV(0, 4094))]

  const VlanChecks: map<string, Check> := map[
    "macaddress" := C(MacV)]

  // Reading a validated map into a Go structure. Each field is read at the
  // type its checker produces; a field that is missing keeps Go's zero
  // value.

  function BoolField(m: map<string, Value>, key: string): bool {
    key in m && m[key].Bool? && m[key].b
  }

  function IntField(m: map<string, Value>, key: string): int {
    if key in m && m[key].Int? then m[key].i else 0
  }

  function StrField(m: map<string, Value>, key: string): string {
    if key in m && m[key].Str? then m[key].s else ""
  }

  function MacField(m: map<string, Value>, key: string): seq<bv8> {
    if key in m && m[key].Mac? then m[key].hw else []
  }

  function IPField(m: map<string, Value>, key: string): Option<IP> {
    if key in m && m[key].Ip? then Some(m[key].ip) else None
  }

  /** The addresses among `items`. */
  function IPsOf(items: seq<Value>): seq<IP>
    decreases |items|
  {
    if items == [] then []
    else IPsOf(items[..|items| - 1]) + (if items[|items| - 1].Ip? then [items[|items| - 1].ip] else [])
  }

  /** The strings among `items`. */
  function StrsOf(items: seq<Value>): seq<string>
    decreases |items|
  {
    if items == [] then []
    else StrsOf(items[..|items| - 1]) + (if items[|items| - 1].Str? then [items[|items| - 1].s] else [])
  }

  function ListField(m: map<string, Value>, key: string): seq<Value> {
    if key in m && m[key].List? then m[key].items else []
  }

  function MapField(m: map<string, Value>, key: string): map<string, Value> {
    if key in m && m[key].Map? then m[key].fields else map[]
  }

  function ToNSInfo(m: map<string, Value>): NSInfo {
    NSInfo(StrsOf(ListField(m, "search")), IPsOf(ListField(m, "addresses")))
  }

  function ToRoute(m: map<string, Value>): Route {
    Route(IPField(m, "from"), IPField(m, "to"), IPField(m, "via"), BoolField(m, "on-link"),
          IntField(m, "metric"), StrField(m, "type"), StrField(m, "scope"), IntField(m, "table"))
  }

  /** A routing policy as `Remarshal` fills it in: the structure's TOS
    * field is tagged "type-of-service", so the validated "tos" never
    * reaches it. */
  function ToPolicyAsTagged(m: map<string, Value>): (r: RoutePolicy)
    ensures r.tos == 0
  {
    RoutePolicy(IPField(m, "from"), IPField(m, "to"), IntField(m, "table"), IntField(m, "priority"),
                IntField(m, "mark"), 0)
  }

  /** A routing policy with its TOS read from the key the table validates. */
  function ToPolicy(m: map<string, Value>): RoutePolicy {
    RoutePolicy(IPField(m, "from"), IPField(m, "to"), IntField(m, "table"), IntField(m, "priority"),
                IntField(m, "mark"), IntField(m, "tos"))
  }

  /** The routes of a validated list, one per map entry, in order. */
  function RoutesOf(items: seq<Value>): (r: seq<Route>)
    ensures |r| <= |items|
    ensures (forall i :: 0 <= i < |items| ==> items[i].Map?) ==>
      |r| == |items| && forall i :: 0 <= i < |items| ==> r[i] == ToRoute(items[i].fields)
    decreases |items|
  {
    if items == [] then []
    else
      var last := items[|items| - 1];
      RoutesOf(items[..|items| - 1]) + (if last.Map? then [ToRoute(last.fields)] else [])
  }

  /** The routing policies of a validated list, one per map entry, each
    * filled in as tagged, so none carries a TOS. */
  function PoliciesOf(items: seq<Value>): (r: seq<RoutePolicy>)
    ensures |r| <= |items|
    ensures forall i :: 0 <= i < |r| ==> r[i].tos == 0
    decreases |items|
  {
    if items == [] then []
    else
      var last := items[|items| - 1];
      PoliciesOf(items[..|items| - 1]) + (if last.Map? then [ToPolicyAsTagged(last.fields)] else [])
  }

  /** A validated network map as the `util.Network` it is marshalled into. */
  function ToNetwork(m: map<string, Value>): (r: Network)
    ensures forall i :: 0 <= i < |r.routingPolicy| ==> r.routingPolicy[i].tos == 0
    ensures |r.routingPolicy| <= |ListField(m, "routing-policy")|
    ensures |r.routes| <= |ListField(m, "routes")|
  {
    Network(
      BoolField(m, "accept-ra"), BoolField(m, "dhcp4"), BoolField(m, "dhcp6"),
      StrField(m, "dhcp-identifier"), IPsOf(ListField(m, "addresses")),
      IPField(m, "gateway4"), IPField(m, "gateway6"),
      if "nameservers" in m && m["nameservers"].Map? then Some(ToNSInfo(m["nameservers"].fields)) else None,
      RoutesOf(ListField(m, "routes")), PoliciesOf(ListField(m, "routing-policy")))
  }

  /** A map after a JSON round trip into `map[string]interface{}`. */
  function GenericMap(m: map<string, Value>): map<string, Value> {
    map k | k in m :: Generic(m[k])
  }

  /** A parser's answer: its value, its verdict and its messages. */
  datatype Parsed<T> = Parsed(value: T, ok: bool, msgs: seq<string>)

  /** `NewInterface()` given the type it is about to receive: no members,
    * no parameters, no network. */
  function Blank(kind: Kind): Interface {
    Interface(kind, "", "", [], [], false, [], map[], None)
  }

  /** `network()`: a refused block is the zero `Network`. An accepted one
    * records no message; a refused one may record none, when `gateway4`
    * holds an address without an IPv4 form (unreadable text included) or
    * `gateway6` one with an IPv4 form (`SilentEthernet`). */
  function NetworkOf(lib: NetLib, v: Value): (r: Parsed<Network>)
    ensures r.ok ==> r.msgs == []
    ensures r.ok <==> ValidateAndMarshal(lib, v, NetworkChecks).ok
  {
    var r := ValidateAndMarshal(lib, v, NetworkChecks);
    MarshalReports(lib, v, NetworkChecks);
    Parsed(ToNetwork(if r.ok then r.fields else map[]), r.ok, r.msgs)
  }

  /** The `phy` record an ethernet declaration becomes: its interface
    * template and how it is matched. */
  datatype Ether = Ether(intf: Interface, phyMatch: Match)

  function ToMatch(m: map<string, Value>): Match {
    Match(StrField(m, "name"), MacField(m, "macaddress"), StrField(m, "driver"))
  }

  /** `ethernet()`: the declaration's own table, then its layer-3 block,
    * read from the same map. */
  function EthernetOf(lib: NetLib, v: Value): (r: Parsed<Ether>)
    ensures r.ok ==> r.msgs == []
    ensures !r.ok && r.msgs == [] ==> !NetworkOf(lib, v).ok && NetworkOf(lib, v).msgs == []
    ensures !v.Map? ==> !r.ok
  {
    var t := ValidateAndMarshal(lib, v, EthernetChecks);
    var nw := NetworkOf(lib, v);
    MarshalReports(lib, v, EthernetChecks);
    EtherFrom(t, nw, TypeName(v))
  }

  /** The body of `ethernet()` given what its table (`t`) and `network()`
    * (`nw`) make of the declaration, whose Go type is `typeName`. An
    * accepted one is a physical template that carries `wakeonlan` exactly
    * when it is set and the network block. An accepted one reports
    * nothing, and a refusal goes unreported only when the network block
    * was refused without a message. */
  function EtherFrom(t: Marshalled, nw: Parsed<Network>, typeName: string): (r: Parsed<Ether>)
    requires t.ok ==> t.msgs == []
    requires nw.ok ==> nw.msgs == []
    ensures r.ok ==> r.msgs == []
    ensures !r.ok && r.msgs == [] <==> t.ok && !nw.ok && nw.msgs == []
    ensures r.ok <==> t.ok && nw.ok
    ensures r.ok ==>
      && r.value.intf.kind == Physical
      && r.value.intf.network == Some(nw.value)
      && r.value.intf.members == []
      && ("wakeonlan" in r.value.intf.parameters <==> BoolField(t.fields, "wakeonlan"))
      && r.value.intf.optional == BoolField(t.fields, "optional")
  {
    var res := Ether(Blank(Physical), ToMatch(MapField(t.fields, "match")));
    if !t.ok then
      Parsed(res, false, t.msgs + [typeName + " not castable to an ethernet interface"])
    else if !nw.ok then Parsed(res, false, t.msgs + nw.msgs)
    else
      var wol := BoolField(t.fields, "wakeonlan");
      var intf := res.intf.(
        parameters := if wol then map["wakeonlan" := Bool(true)] else map[],
        optional := BoolField(t.fields, "optional"),
        network := Some(nw.value));
      Parsed(res.(intf := intf), true, t.msgs + nw.msgs)
  }

  /** A gateway4 of the wrong family refuses the ethernet declaration
    * that carries it without any message: `network()` fails silently and
    * `ethernet()` adds nothing when only its network block fails. */
  lemma SilentEthernet(lib: NetLib)
    requires lib.parseCIDR("2001:db8::1").None?
    requires lib.parseIP("2001:db8::1") == Addr(false, "2001:db8::1")
    requires lib.parseCIDR("192.0.2.1").None?
    requires lib.parseIP("192.0.2.1") == Addr(true, "192.0.2.1")
    ensures var v := Map(map["gateway4" := Str("2001:db8::1")]);
      && !NetworkOf(lib, v).ok && NetworkOf(lib, v).msgs == []
      && !EthernetOf(lib, v).ok && EthernetOf(lib, v).msgs == []
  {
    var m := map["gateway4" := Str("2001:db8::1")];
    GatewayTable(lib, m);
    SilentNetwork(lib, m);
    var t := ValidateAndMarshal(lib, Map(m), EthernetChecks);
    MarshalReports(lib, Map(m), EthernetChecks);
    assert EthernetOf(lib, Map(m)) == EtherFrom(t, NetworkOf(lib, Map(m)), TypeName(Map(m)));
  }

  /** The network block of that map is refused without a message. */
  lemma SilentNetwork(lib: NetLib, m: map<string, Value>)
    requires lib.parseCIDR("2001:db8::1").None?
    requires lib.parseIP("2001:db8::1") == Addr(false, "2001:db8::1")
    requires lib.parseCIDR("192.0.2.1").None?
    requires lib.parseIP("192.0.2.1") == Addr(true, "192.0.2.1")
    requires m == map["gateway4" := Str("2001:db8::1")]
    ensures !NetworkOf(lib, Map(m)).ok && NetworkOf(lib, Map(m)).msgs == []
  {
    GatewayCheck();
    SilentGateway(lib, m, NetworkChecks);
  }

  /** The same for any table that checks `gateway4` with `VIP4`. */
  lemma SilentGateway(lib: NetLib, m: map<string, Value>, checks: map<string, Check>)
    requires lib.parseCIDR("2001:db8::1").None?
    requires lib.parseIP("2001:db8::1") == Addr(false, "2001:db8::1")
    requires lib.parseCIDR("192.0.2.1").None?
    requires lib.parseIP("192.0.2.1") == Addr(true, "192.0.2.1")
    requires m == map["gateway4" := Str("2001:db8::1")]
    requires "gateway4" in checks && checks["gateway4"].checker == Ip4V
    ensures !ValidateAndMarshal(lib, Map(m), checks).ok && ValidateAndMarshal(lib, Map(m), checks).msgs == []
  {
    GatewayRun(lib);
    OnlyField(lib, m, checks, "gateway4");
  }

  /** The table checks `gateway4` with `VIP4`. */
  lemma GatewayCheck()
    ensures "gateway4" in NetworkChecks && NetworkChecks["gateway4"].checker == Ip4V
  {
  }

  /** `VIP4` refuses 2001:db8::1 without a message. */
  lemma GatewayRun(lib: NetLib)
    requires lib.parseCIDR("2001:db8::1").None?
    requires lib.parseIP("2001:db8::1") == Addr(false, "2001:db8::1")
    requires lib.parseCIDR("192.0.2.1").None?
    requires lib.parseIP("192.0.2.1") == Addr(true, "192.0.2.1")
    ensures !Run(lib, Ip4V, "gateway4", Str("2001:db8::1")).valid
    ensures Run(lib, Ip4V, "gateway4", Str("2001:db8::1")).msgs == []
  {
    WrongFamilyIsSilent(lib);
    assert Run(lib, Ip4V, "gateway4", Str("2001:db8::1")) == IpResult(ValidateIP4(lib, "gateway4", Str("2001:db8::1")));
  }

  /** A map with a single field the table names passes or fails, quietly
    * or not, exactly as that field's checker does. */
  lemma OnlyField(lib: NetLib, m: map<string, Value>, checks: map<string, Check>, key: string)
    requires m.Keys == {key} && key in checks
    ensures ValidateAndMarshal(lib, Map(m), checks).ok == Run(lib, checks[key].checker, key, m[key]).valid
    ensures ValidateAndMarshal(lib, Map(m), checks).msgs == [] <==> Run(lib, checks[key].checker, key, m[key]).msgs == []
  {
    MarshalOkIff(lib, m, checks);
    MarshalQuietIff(lib, m, checks);
  }

  /** A map holding only `gateway4` passes the ethernet table, which does
    * not name it. */
  lemma GatewayTable(lib: NetLib, m: map<string, Value>)
    requires m.Keys == {"gateway4"}
    ensures ValidateAndMarshal(lib, Map(m), EthernetChecks).ok
    ensures forall key :: key in m ==> key == "gateway4"
  {
    assert "gateway4" !in EthernetChecks;
    MarshalOkIff(lib, m, EthernetChecks);
  }

  /** `bb(kind, pchecks)`: the shared table, then the layer-3 block. */
  function BBOf(lib: NetLib, kind: Kind, pchecks: map<string, Check>, v: Value): (r: Parsed<Interface>)
    ensures r.ok ==> r.msgs == []
    ensures !r.ok && r.msgs == [] ==> !NetworkOf(lib, v).ok && NetworkOf(lib, v).msgs == []
    ensures !v.Map? ==> !r.ok
    ensures r.ok ==> r.value.kind == kind
  {
    var checks := BBChecks(pchecks);
    var t := ValidateAndMarshal(lib, v, checks);
    var nw := NetworkOf(lib, v);
    MarshalReports(lib, v, checks);
    BBFrom(kind, t, nw, TypeName(v))
  }

  /** The body of `bb`'s validator given what its table and `network()`
    * make of the declaration. An accepted one has the declared kind,
    * members and optionality, and the network block. An accepted one
    * reports nothing, and a refusal goes unreported only when the network
    * block was refused without a message. */
  function BBFrom(kind: Kind, t: Marshalled, nw: Parsed<Network>, typeName: string): (r: Parsed<Interface>)
    requires t.ok ==> t.msgs == []
    requires nw.ok ==> nw.msgs == []
    ensures r.ok ==> r.msgs == []
    ensures !r.ok && r.msgs == [] <==> t.ok && !nw.ok && nw.msgs == []
    ensures r.ok <==> t.ok && nw.ok
    ensures r.ok ==>
      && r.value.kind == kind
      && r.value.network == Some(nw.value)
      && r.value.members == StrsOf(ListField(t.fields, "interfaces"))
      && r.value.optional == BoolField(t.fields, "optional")
  {
    var res := Blank(kind).(
      macAddress := MacField(t.fields, "macaddress"),
      members := StrsOf(ListField(t.fields, "interfaces")),
      parameters := GenericMap(MapField(t.fields, "parameters")),
      optional := BoolField(t.fields, "optional"));
    if !t.ok then
      Parsed(Blank(kind), false, t.msgs + [typeName + " not castable to a " + KindName(kind) + " interface"])
    else if !nw.ok then Parsed(res, false, t.msgs + nw.msgs)
    else Parsed(res.(network := Some(nw.value)), true, t.msgs + nw.msgs)
  }

  /** `vlan()`: link and id, MAC address and layer-3 block are validated
    * independently, so each reports its own problems. */
  function VlanOf(lib: NetLib, v: Value): (r: Parsed<Interface>)
    ensures r.ok ==> r.msgs == []
    ensures r.value.kind == Vlan && |r.value.members| == 1
  {
    var li := ValidateAndMarshal(lib, v, VlanLinkChecks);
    var mi := ValidateAndMarshal(lib, v, VlanChecks);
    var nw := NetworkOf(lib, v);
    MarshalReports(lib, v, VlanLinkChecks);
    MarshalReports(lib, v, VlanChecks);
    VlanFrom(li, mi, nw)
  }

  /** The body of `vlan()` given what its two tables (`li`, `mi`) and
    * `network()` make of the declaration. The vlan is built on exactly
    * its link, records its id, and carries the network block exactly when
    * that block configures anything. An accepted one reports nothing, and
    * every part's messages are kept whether or not the others pass. */
  function VlanFrom(li: Marshalled, mi: Marshalled, nw: Parsed<Network>): (r: Parsed<Interface>)
    requires li.ok ==> li.msgs == []
    requires mi.ok ==> mi.msgs == []
    requires nw.ok ==> nw.msgs == []
    ensures r.ok ==> r.msgs == []
    ensures li.msgs <= r.msgs && |r.msgs| == |li.msgs| + |mi.msgs| + |nw.msgs|
    ensures r.ok <==> li.ok && mi.ok && nw.ok
    ensures r.value.kind == Vlan && "id" in r.value.parameters
    ensures r.value.network.Some? ==> Configure(r.value.network)
    ensures r.ok ==>
      && r.value.members == [StrField(li.fields, "link")]
      && r.value.parameters["id"] == Int(IntField(li.fields, "id"))
      && (Configure(Some(nw.value)) <==> r.value.network == Some(nw.value))
  {
    var link := if li.ok then StrField(li.fields, "link") else "";
    var id := if li.ok then IntField(li.fields, "id") else 0;
    var intf := Blank(Vlan).(
      macAddress := if mi.ok then MacField(mi.fields, "macaddress") else [],
      members := [link],
      parameters := map["id" := Int(id)],
      network := if nw.ok && Configure(Some(nw.value)) then Some(nw.value) else None);
    Parsed(intf, mi.ok && li.ok && nw.ok, li.msgs + mi.msgs + nw.msgs)
  }

  // The validators `ethernet()`, `bond()`, `bridge()` and `vlan()` as the
  // function values `Compile` applies to each declaration.

  function EthernetParser(lib: NetLib): Value -> Parsed<Ether> {
    v => EthernetOf(lib, v)
  }

  function BondParser(lib: NetLib): Value -> Parsed<Interface> {
    v => BBOf(lib, Bond, BondParams, v)
  }

  function BridgeParser(lib: NetLib): Value -> Parsed<Interface> {
    v => BBOf(lib, Bridge, BridgeParams, v)
  }

  function VlanParser(lib: NetLib): Value -> Parsed<Interface> {
    v => VlanOf(lib, v)
  }

  /** The validators of the four kinds of declaration. */
  datatype Parsers = Parsers(
    ethernet: Value -> Parsed<Ether>,
    bond: Value -> Parsed<Interface>,
    bridge: Value -> Parsed<Interface>,
    vlan: Value -> Parsed<Interface>)

  function Validators(lib: NetLib): Parsers {
    Parsers(EthernetParser(lib), BondParser(lib), BridgeParser(lib), VlanParser(lib))
  }

  /** `phy.matchPhys`'s defaulting: a match that names nothing matches on
    * the declaration's key. */
  function EffectiveMatch(m: Match, matchId: string): Match {
    if m.name == "" && m.driver == "" && |m.macAddress| == 0 then m.(name := matchId) else m
  }

  /** A declaration without a `match` block selects the NICs its key names
    * (as a glob over the name or the stable name); one with a `match`
    * block selects by that block alone. */
  lemma EffectiveMatchSelects(m: Match, matchId: string, p: Phy)
    requires matchId != ""
    ensures m == Match("", [], "") ==>
      (Selects(EffectiveMatch(m, matchId), p) <==> Matches(matchId, p.name) || Matches(matchId, p.stableName))
    ensures m.name != "" || m.driver != "" || |m.macAddress| > 0 ==>
      (Selects(EffectiveMatch(m, matchId), p) <==> Selects(m, p))
  {
  }

  /** Every table here stores each field under its own name. */
  lemma PlainKeys(checks: map<string, Check>)
    requires forall k :: k in checks ==> checks[k].key == ""
    ensures DistinctKeyNames(checks)
  {
  }

  lemma PolicyKeysDistinct()
    ensures DistinctKeyNames(PolicyChecks)
  {
    forall k | k in PolicyChecks
      ensures PolicyChecks[k].key == ""
    {
    }
    PlainKeys(PolicyChecks);
  }

  lemma RouteKeysDistinct()
    ensures DistinctKeyNames(RouteChecks)
  {
    forall k | k in RouteChecks
      ensures RouteChecks[k].key == ""
    {
    }
    PlainKeys(RouteChecks);
  }

  /** A route read from a validated entry: a missing `type` becomes
    * "unicast", the table's default, and a given one is kept; a given
    * metric is kept as the number it was. */
  lemma RouteRead(lib: NetLib, m: map<string, Value>)
    requires ValidateAndMarshal(lib, Map(m), RouteChecks).ok
    ensures var fields := ValidateAndMarshal(lib, Map(m), RouteChecks).fields;
      && ("type" !in m ==> ToRoute(fields).typ == "unicast")
      && ("type" in m && m["type"].Str? ==> ToRoute(fields).typ == m["type"].s)
      && ("metric" in m && m["metric"].Int? ==> ToRoute(fields).metric == m["metric"].i)
  {
    RouteKeysDistinct();
    MarshalOkIff(lib, m, RouteChecks);
    MarshalField(lib, m, RouteChecks, "type");
    MarshalField(lib, m, RouteChecks, "metric");
  }

  /** A routing policy's validated TOS, which the table bounds to 0..255,
    * reaches the policy the reader builds; `Remarshal` into the tagged
    * structure drops it. */
  lemma PolicyTosKept(lib: NetLib, m: map<string, Value>, n: int)
    requires ValidateAndMarshal(lib, Map(m), PolicyChecks).ok
    requires "tos" in m && m["tos"] == Int(n)
    ensures var fields := ValidateAndMarshal(lib, Map(m), PolicyChecks).fields;
      && 0 <= ToPolicy(fields).tos <= 255
      && ToPolicy(fields).tos == n
      && ToPolicyAsTagged(fields).tos == 0
  {
    PolicyKeysDistinct();
    MarshalOkIff(lib, m, PolicyChecks);
    MarshalField(lib, m, PolicyChecks, "tos");
  }

  /** The counterexample: a policy with TOS 8 is accepted, and the policy
    * built from it as written has TOS 0. */
  lemma TosDropped(lib: NetLib)
    ensures var r := ValidateAndMarshal(lib, Map(map["tos" := Int(8)]), PolicyChecks);
      && r.ok && ToPolicyAsTagged(r.fields).tos == 0 && ToPolicy(r.fields).tos == 8
  {
    var m := map["tos" := Int(8)];
    MarshalOkIff(lib, m, PolicyChecks);
    assert Run(lib, PolicyChecks["tos"].checker, "tos", Int(8)).valid;
    PolicyTosKept(lib, m, 8);
  }
}
