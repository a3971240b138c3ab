// The layer-3 blocks an interface of a layout can carry (util/layout.go):
// static routes, routing-policy rules, name servers and the network block
// that holds them, with their checks, the three predicates that say how an
// interface is to be configured, and the `ip` command arguments a route or
// a rule becomes.
module Layer3 {

  import opened Wrappers
  import opened Ints
  import opened Net
  import opened Errs
  import Coerce

  /** A static route. The addresses are `*gnet.IPNet` in the source, read
    * from the same text as `util.IP`. */
  datatype Route = Route(
    from: Option<IP>,
    to: Option<IP>,
    via: Option<IP>,
    onLink: bool,
    metric: int,
    typ: string,
    scope: string,
    table: int)
  {
    /** The messages `validate` records, in order. */
    function Msgs(): (msgs: seq<string>)
      ensures |msgs| <= 2
      ensures (via.Some? && IsCIDR(via.value)) ==>
        |msgs| >= 1 && msgs[0] == "Via must be a single IP address, not " + String(via.value)
      ensures to.None? ==>
        && msgs != []
        && msgs[|msgs| - 1] == (if typ == "unicast" then "unicast routes require 'to' and 'via'" else typ + " routes require 'to'")
      ensures typ == "unicast" && via.None? ==> msgs == ["unicast routes require 'to' and 'via'"]
    {
      (if via.Some? && IsCIDR(via.value) then ["Via must be a single IP address, not " + String(via.value)] else [])
      + (if typ == "unicast" then
           (if to.None? || via.None? then ["unicast routes require 'to' and 'via'"] else [])
         else if to.None? then [typ + " routes require 'to'"]
         else [])
    }

    /** `validate`: the gateway must be a single address, a unicast route
      * needs a destination and a gateway, any other type a destination. */
    function Validate(): (err: ErrValue)
      ensures err == NoError <==>
        && (via.None? || !IsCIDR(via.value))
        && to.Some?
        && (typ == "unicast" ==> via.Some?)
      ensures err != NoError ==> err.Accumulated? && err.prefix == "Route" && 1 <= |err.msgs| <= 2
    {
      OrNilOf("Route", Msgs())
    }

    /** The destination words of `IPString`: "to", the type if set, and
      * the destination; nothing without a destination. */
    function ToWords(): (w: seq<string>)
      ensures to.None? ==> w == []
      ensures to.Some? && typ != "" ==> w == ["to", typ, String(to.value)]
      ensures to.Some? && typ == "" ==> w == ["to", String(to.value)]
    {
      if to.None? then [] else ["to"] + (if typ != "" then [typ] else []) + [String(to.value)]
    }

    /** The remaining words of `IPString`: each optional setting with its
      * keyword, then the device. */
    function OptionWords(dev: string): (w: seq<string>)
      ensures |w| >= 2 && w[|w| - 2] == "dev" && w[|w| - 1] == dev
      ensures w[0] in {"src", "metric", "table", "via", "onlink", "scope", "dev"}
    {
      Setting(from.Some?, "src", FromText()) + MetricWords(dev)
    }

    /** The options from the metric on. */
    function MetricWords(dev: string): (w: seq<string>)
      ensures |w| >= 2 && w[|w| - 2] == "dev" && w[|w| - 1] == dev
      ensures w[0] in {"metric", "table", "via", "onlink", "scope", "dev"}
    {
      Setting(metric != 0 && metric != 100, "metric", DecInt(metric)) + TableWords(dev)
    }

    /** The options from the table on. */
    function TableWords(dev: string): (w: seq<string>)
      ensures |w| >= 2 && w[|w| - 2] == "dev" && w[|w| - 1] == dev
      ensures w[0] in {"table", "via", "onlink", "scope", "dev"}
    {
      Setting(table != 0 && table != 253, "table", DecInt(table)) + ViaWords(dev)
    }

    /** The options from the gateway on. */
    function ViaWords(dev: string): (w: seq<string>)
      ensures |w| >= 2 && w[|w| - 2] == "dev" && w[|w| - 1] == dev
      ensures w[0] in {"via", "onlink", "scope", "dev"}
    {
      Setting(via.Some?, "via", ViaText()) + LinkWords(dev)
    }

    /** The options from `onlink` on. */
    function LinkWords(dev: string): (w: seq<string>)
      ensures |w| >= 2 && w[|w| - 2] == "dev" && w[|w| - 1] == dev
      ensures w[0] in {"onlink", "scope", "dev"}
    {
      (if onLink then ["onlink"] else []) + ScopeWords(dev)
    }

    /** The scope, unless empty or "global", and the device. */
    function ScopeWords(dev: string): (w: seq<string>)
      ensures |w| >= 2 && w[|w| - 2] == "dev" && w[|w| - 1] == dev
      ensures w[0] in {"scope", "dev"}
    {
      Setting(scope != "" && scope != "global", "scope", scope) + ["dev", dev]
    }

    /** The source's text, when set. */
    function FromText(): string {
      if from.Some? then String(from.value) else ""
    }

    /** The gateway's bare address, when set. */
    function ViaText(): string {
      if via.Some? then AddrString(via.value.addr) else ""
    }

    /** What the options of `IPString` show: the source whenever it is
      * set; the metric unless it is 0 or 100; the table unless it is 0 or
      * 253 (the main table); the gateway's bare address whenever it is
      * set; `onlink` when set; the scope unless it is empty or "global";
      * and the device. */
    function Shown(dev: string): RouteArgs {
      RouteArgs(
        if from.Some? then Some(FromText()) else None,
        if metric != 0 && metric != 100 then Some(DecInt(metric)) else None,
        if table != 0 && table != 253 then Some(DecInt(table)) else None,
        if via.Some? then Some(ViaText()) else None,
        onLink,
        if scope != "" && scope != "global" then Some(scope) else None,
        dev)
    }

    /** The options of `IPString` read back give exactly what `Shown`
      * says, in the order `src`, `metric`, `table`, `via`, `onlink`,
      * `scope`, `dev`: each setting appears, with its value, exactly when
      * its condition holds. */
    lemma OptionWordsRead(dev: string)
      ensures ReadOptions(OptionWords(dev)) == Some(Shown(dev))
    {
      var rest := MetricWords(dev);
      MetricWordsRead(dev);
      TakeSetting(from.Some?, "src", FromText(), rest, {"metric", "table", "via", "onlink", "scope", "dev"});
      var p := TakePair(OptionWords(dev), "src");
      assert p == (if from.Some? then Some(FromText()) else None, rest);
      assert ReadMetric(p.1) == Some(Shown(dev).(src := None));
      assert Shown(dev) == Shown(dev).(src := None).(src := p.0);
    }

    /** Reading from the metric on, as `Shown` says. */
    lemma MetricWordsRead(dev: string)
      ensures ReadMetric(MetricWords(dev)) == Some(Shown(dev).(src := None))
    {
      TableWordsRead(dev);
      TakeSetting(metric != 0 && metric != 100, "metric", DecInt(metric), TableWords(dev), {"table", "via", "onlink", "scope", "dev"});
    }

    /** Reading from the table on, as `Shown` says. */
    lemma TableWordsRead(dev: string)
      ensures ReadRouteTable(TableWords(dev)) == Some(Shown(dev).(src := None, metric := None))
    {
      ViaWordsRead(dev);
      TakeSetting(table != 0 && table != 253, "table", DecInt(table), ViaWords(dev), {"via", "onlink", "scope", "dev"});
    }

    /** Reading from the gateway on, as `Shown` says. */
    lemma ViaWordsRead(dev: string)
      ensures ReadVia(ViaWords(dev)) == Some(Shown(dev).(src := None, metric := None, table := None))
    {
      LinkWordsRead(dev);
      TakeSetting(via.Some?, "via", ViaText(), LinkWords(dev), {"onlink", "scope", "dev"});
    }

    /** Reading from `onlink` on, as `Shown` says. */
    lemma LinkWordsRead(dev: string)
      ensures ReadOnLink(LinkWords(dev)) == Some(Shown(dev).(src := None, metric := None, table := None, via := None))
    {
      TakeSetting(scope != "" && scope != "global", "scope", scope, ["dev", dev], {"dev"});
      TakeOnLink(onLink, ScopeWords(dev), {"scope", "dev"});
    }

    /** The words of `IPString` for an interface named `dev`: the
      * destination words, then the options. */
    function Words(dev: string): (w: seq<string>)
      ensures |w| >= 2 && w[|w| - 2] == "dev" && w[|w| - 1] == dev
      ensures to.Some? <==> w[0] == "to"
      ensures w[..|ToWords()|] == ToWords() && w[|ToWords()|..] == OptionWords(dev)
    {
      ToWords() + OptionWords(dev)
    }

    /** `IPString`: the arguments of `ip route add` for this route on the
      * interface named `dev`. */
    function IPString(dev: string): string {
      Join(Words(dev), " ")
    }
  }

  /** A routing-policy rule. */
  datatype RoutePolicy = RoutePolicy(
    from: Option<IP>,
    to: Option<IP>,
    table: int,
    priority: int,
    fwMark: int,
    tos: int)
  {
    /** `validate`: a rule matches on exactly one of its source and its
      * destination. */
    function Validate(): (err: ErrValue)
      ensures err == NoError <==> from.Some? != to.Some?
      ensures err != NoError ==>
        err == Accumulated("RoutePolicy", ["Route policy must include either a From or a To"])
    {
      OrNilOf("RoutePolicy", if from.Some? == to.Some? then ["Route policy must include either a From or a To"] else [])
    }

    /** The words of `IPString`: each field that is set, with its keyword,
      * in a fixed order. */
    function Words(): (w: seq<string>)
      ensures w == [] <==> from.None? && to.None? && priority == 0 && fwMark == 0 && tos == 0 && table == 0
      ensures from.Some? ==> |w| >= 2 && w[0] == "from" && w[1] == String(from.value)
      ensures w == [] || w[0] in {"from", "to", "pref", "fwmark", "tos", "table"}
    {
      Setting(from.Some?, "from", if from.Some? then String(from.value) else "") + DestWords()
    }

    /** The words from the destination on. */
    function DestWords(): (w: seq<string>)
      ensures w == [] <==> to.None? && priority == 0 && fwMark == 0 && tos == 0 && table == 0
      ensures w == [] || w[0] in {"to", "pref", "fwmark", "tos", "table"}
    {
      Setting(to.Some?, "to", if to.Some? then String(to.value) else "") + PrefWords()
    }

    /** The words from the priority on. */
    function PrefWords(): (w: seq<string>)
      ensures w == [] <==> priority == 0 && fwMark == 0 && tos == 0 && table == 0
      ensures w == [] || w[0] in {"pref", "fwmark", "tos", "table"}
    {
      Setting(priority != 0, "pref", DecInt(priority)) + MarkWords()
    }

    /** The words from the firewall mark on. */
    function MarkWords(): (w: seq<string>)
      ensures w == [] <==> fwMark == 0 && tos == 0 && table == 0
      ensures w == [] || w[0] in {"fwmark", "tos", "table"}
    {
      Setting(fwMark != 0, "fwmark", DecInt(fwMark)) + TosWords()
    }

    /** The words from the TOS on. */
    function TosWords(): (w: seq<string>)
      ensures w == [] <==> tos == 0 && table == 0
      ensures w == [] || w[0] in {"tos", "table"}
    {
      Setting(tos != 0, "tos", DecInt(tos)) + Setting(table != 0, "table", DecInt(table))
    }

    /** What the arguments of `ip rule add` show: the source and the
      * destination whenever they are set, and the priority (as `pref`),
      * the firewall mark, the TOS and the table whenever they are not 0. */
    function Shown(): RuleArgs {
      RuleArgs(
        if from.Some? then Some(String(from.value)) else None,
        if to.Some? then Some(String(to.value)) else None,
        if priority != 0 then Some(DecInt(priority)) else None,
        if fwMark != 0 then Some(DecInt(fwMark)) else None,
        if tos != 0 then Some(DecInt(tos)) else None,
        if table != 0 then Some(DecInt(table)) else None)
    }

    /** The words of `IPString` read back give exactly what `Shown` says,
      * in the order `from`, `to`, `pref`, `fwmark`, `tos`, `table`. */
    lemma WordsRead()
      ensures ReadRule(Words()) == Some(Shown())
    {
      var sh := Shown();
      var last := Setting(table != 0, "table", DecInt(table));
      TakeSetting(table != 0, "table", DecInt(table), [], {});
      assert last + [] == last;
      assert ReadRuleTable(last) == Some(RuleArgs(None, None, None, None, None, sh.table));
      TakeSetting(tos != 0, "tos", DecInt(tos), last, {"table"});
      assert ReadTos(TosWords()) == Some(RuleArgs(None, None, None, None, sh.tos, sh.table));
      TakeSetting(fwMark != 0, "fwmark", DecInt(fwMark), TosWords(), {"tos", "table"});
      assert ReadFwMark(MarkWords()) == Some(RuleArgs(None, None, None, sh.fwMark, sh.tos, sh.table));
      TakeSetting(priority != 0, "pref", DecInt(priority), MarkWords(), {"fwmark", "tos", "table"});
      assert ReadPref(PrefWords()) == Some(RuleArgs(None, None, sh.pref, sh.fwMark, sh.tos, sh.table));
      TakeSetting(to.Some?, "to", if to.Some? then String(to.value) else "", PrefWords(), {"pref", "fwmark", "tos", "table"});
      assert ReadRuleTo(DestWords()) == Some(RuleArgs(None, sh.to, sh.pref, sh.fwMark, sh.tos, sh.table));
      TakeSetting(from.Some?, "from", if from.Some? then String(from.value) else "", DestWords(), {"to", "pref", "fwmark", "tos", "table"});
    }

    /** `IPString`: the arguments of `ip rule add` for this rule. */
    function IPString(): (s: string)
      ensures s == "" <==> from.None? && to.None? && priority == 0 && fwMark == 0 && tos == 0 && table == 0
      ensures var w := Words(); w != [] ==> |s| >= |w[0]| && s[..|w[0]|] == w[0]
    {
      Join(Words(), " ")
    }
  }

  /** The optional settings of a route's `ip route` arguments as written
    * out, each as its value text or None when left out, and the device. */
  datatype RouteArgs = RouteArgs(
    src: Option<string>,
    metric: Option<string>,
    table: Option<string>,
    via: Option<string>,
    onLink: bool,
    scope: Option<string>,
    dev: string)

  /** The settings of a rule's `ip rule` arguments as written out. */
  datatype RuleArgs = RuleArgs(
    from: Option<string>,
    to: Option<string>,
    pref: Option<string>,
    fwMark: Option<string>,
    tos: Option<string>,
    table: Option<string>)

  /** Reads `keyword` and its value off the front of `w`, if it is there. */
  function TakePair(w: seq<string>, keyword: string): (Option<string>, seq<string>) {
    if |w| >= 2 && w[0] == keyword then (Some(w[1]), w[2..]) else (None, w)
  }

  /** Reads the options of a route's arguments in their fixed order; None
    * when something other than `dev` and the device is left over. */
  function ReadOptions(w: seq<string>): Option<RouteArgs> {
    var p := TakePair(w, "src");
    var r := ReadMetric(p.1);
    if r.Some? then Some(r.value.(src := p.0)) else None
  }

  /** Reads the options from the metric on. */
  function ReadMetric(w: seq<string>): Option<RouteArgs> {
    var p := TakePair(w, "metric");
    var r := ReadRouteTable(p.1);
    if r.Some? then Some(r.value.(metric := p.0)) else None
  }

  /** Reads the options from the table on. */
  function ReadRouteTable(w: seq<string>): Option<RouteArgs> {
    var p := TakePair(w, "table");
    var r := ReadVia(p.1);
    if r.Some? then Some(r.value.(table := p.0)) else None
  }

  /** Reads the options from the gateway on. */
  function ReadVia(w: seq<string>): Option<RouteArgs> {
    var p := TakePair(w, "via");
    var r := ReadOnLink(p.1);
    if r.Some? then Some(r.value.(via := p.0)) else None
  }

  /** Reads the options from `onlink` on. */
  function ReadOnLink(w: seq<string>): Option<RouteArgs> {
    var f := TakeFlag(w, "onlink");
    var r := ReadScope(f.1);
    if r.Some? then Some(r.value.(onLink := f.0)) else None
  }

  /** Reads the scope, if set, then `dev` and the device, and nothing
    * more. */
  function ReadScope(w: seq<string>): Option<RouteArgs> {
    var p := TakePair(w, "scope");
    if |p.1| == 2 && p.1[0] == "dev" then Some(RouteArgs(None, None, None, None, false, p.0, p.1[1])) else None
  }

  /** Reads the flag `keyword` off the front of `w`, if it is there. */
  function TakeFlag(w: seq<string>, keyword: string): (bool, seq<string>) {
    if |w| >= 1 && w[0] == keyword then (true, w[1..]) else (false, w)
  }

  /** Reads a rule's arguments in their fixed order; None when anything is
    * left over. */
  function ReadRule(w: seq<string>): Option<RuleArgs> {
    var p := TakePair(w, "from");
    var r := ReadRuleTo(p.1);
    if r.Some? then Some(r.value.(from := p.0)) else None
  }

  /** Reads a rule's arguments from the destination on. */
  function ReadRuleTo(w: seq<string>): Option<RuleArgs> {
    var p := TakePair(w, "to");
    var r := ReadPref(p.1);
    if r.Some? then Some(r.value.(to := p.0)) else None
  }

  /** Reads a rule's arguments from the priority on. */
  function ReadPref(w: seq<string>): Option<RuleArgs> {
    var p := TakePair(w, "pref");
    var r := ReadFwMark(p.1);
    if r.Some? then Some(r.value.(pref := p.0)) else None
  }

  /** Reads a rule's arguments from the firewall mark on. */
  function ReadFwMark(w: seq<string>): Option<RuleArgs> {
    var p := TakePair(w, "fwmark");
    var r := ReadTos(p.1);
    if r.Some? then Some(r.value.(fwMark := p.0)) else None
  }

  /** Reads a rule's arguments from the TOS on. */
  function ReadTos(w: seq<string>): Option<RuleArgs> {
    var p := TakePair(w, "tos");
    var r := ReadRuleTable(p.1);
    if r.Some? then Some(r.value.(tos := p.0)) else None
  }

  /** Reads a rule's table, if set, and nothing more. */
  function ReadRuleTable(w: seq<string>): Option<RuleArgs> {
    var p := TakePair(w, "table");
    if p.1 == [] then Some(RuleArgs(None, None, None, None, None, p.0)) else None
  }

  /** A setting in front of words that start with a later keyword, or of
    * nothing, is read back as it was written, and the words then start
    * with its keyword or a later one. */
  lemma TakeSetting(present: bool, keyword: string, value: string, rest: seq<string>, later: set<string>)
    requires keyword !in later
    requires rest == [] || rest[0] in later
    ensures TakePair(Setting(present, keyword, value) + rest, keyword) == (if present then Some(value) else None, rest)
    ensures var w := Setting(present, keyword, value) + rest; w == [] || w[0] in later + {keyword}
  {
    var w := Setting(present, keyword, value) + rest;
    if present {
      assert w[0] == keyword && w[1] == value && w[2..] == rest;
    } else {
      assert w == rest;
    }
  }

  /** The same for the flag `onlink`. */
  lemma TakeOnLink(present: bool, rest: seq<string>, later: set<string>)
    requires "onlink" !in later
    requires rest == [] || rest[0] in later
    ensures TakeFlag((if present then ["onlink"] else []) + rest, "onlink") == (present, rest)
    ensures var w := (if present then ["onlink"] else []) + rest; w == [] || w[0] in later + {"onlink"}
  {
    var w := (if present then ["onlink"] else []) + rest;
    if present {
      assert w[0] == "onlink" && w[1..] == rest;
    } else {
      assert w == rest;
    }
  }

  /** A keyword and its value when `set`, nothing otherwise. */
  function Setting(present: bool, keyword: string, value: string): (w: seq<string>)
    ensures present ==> w == [keyword, value]
    ensures !present ==> w == []
  {
    if present then [keyword, value] else []
  }

  /** Name-service settings. */
  datatype NSInfo = NSInfo(search: seq<string>, addresses: seq<IP>) {
    /** `validate`: name-server addresses must be bare addresses, and each
      * one in CIDR form is reported. */
    function Validate(): (err: ErrValue)
      ensures err == NoError <==> forall i :: 0 <= i < |addresses| ==> !IsCIDR(addresses[i])
      ensures err != NoError ==>
        err == Accumulated("nameservers", Coerce.FormatMsgs("addresses", addresses, false))
    {
      Coerce.FormatMsgsEmptyIff("addresses", addresses, false);
      OrNilOf("nameservers", Coerce.FormatMsgs("addresses", addresses, false))
    }
  }

  /** The layer-3 configuration of an interface. A nil address list and an
    * empty one are the same value here. */
  datatype Network = Network(
    acceptRa: bool,
    dhcp4: bool,
    dhcp6: bool,
    dhcpIdentifier: string,
    addresses: seq<IP>,
    gateway4: Option<IP>,
    gateway6: Option<IP>,
    nameservers: Option<NSInfo>,
    routes: seq<Route>,
    routingPolicy: seq<RoutePolicy>)

  /** `(*Network).Configure`: a nil block configures nothing; a block does
    * when it asks for router advertisements, DHCP or static addresses. */
  predicate Configure(n: Option<Network>) {
    n.Some? && (n.value.acceptRa || n.value.dhcp4 || n.value.dhcp6 || |n.value.addresses| != 0)
  }

  /** `(*Network).SetupStaticOnly`. */
  predicate SetupStaticOnly(n: Option<Network>) {
    n.Some? && !(n.value.dhcp4 || n.value.dhcp6) && |n.value.addresses| > 0
  }

  /** `(*Network).SetupDHCPOnly`. */
  predicate SetupDHCPOnly(n: Option<Network>) {
    n.Some? && (n.value.dhcp4 || n.value.dhcp6) && |n.value.addresses| == 0
  }

  /** The three predicates agree: a nil block is never configured, static
    * only and DHCP only exclude each other, and either one means the block
    * is configured. */
  lemma SetupModes(n: Option<Network>)
    ensures n.None? ==> !Configure(n) && !SetupStaticOnly(n) && !SetupDHCPOnly(n)
    ensures !(SetupStaticOnly(n) && SetupDHCPOnly(n))
    ensures SetupStaticOnly(n) || SetupDHCPOnly(n) ==> Configure(n)
  {
  }

  const Gateway4Msg := " is not an IPv4 address"
  const Gateway6Msg := " is not an IPv6 address"

  /** The DHCP identifier check: "mac" or empty. */
  function IdentifierMsgs(id: string): (msgs: seq<string>)
    ensures msgs == [] <==> id == "mac" || id == ""
  {
    Coerce.ValidateStrIn("dhcp-identifier", Coerce.Values.Str(id), ["mac", ""]).msgs
  }

  /** The static addresses check: every address in CIDR form. */
  function AddressMsgs(addresses: seq<IP>): (msgs: seq<string>)
    ensures msgs == [] <==> forall i :: 0 <= i < |addresses| ==> IsCIDR(addresses[i])
  {
    Coerce.FormatMsgsEmptyIff("addresses", addresses, true);
    Coerce.FormatMsgs("addresses", addresses, true)
  }

  /** The gateway checks: the IPv4 gateway must have an IPv4 form, the
    * IPv6 one must not. */
  function GatewayMsgs(gateway4: Option<IP>, gateway6: Option<IP>): (msgs: seq<string>)
    ensures msgs == [] <==>
      (gateway4.Some? ==> IsV4(gateway4.value.addr)) && (gateway6.Some? ==> !IsV4(gateway6.value.addr))
  {
    (if gateway4.Some? && !IsV4(gateway4.value.addr) then ["Gateway4 " + String(gateway4.value) + Gateway4Msg] else [])
    + (if gateway6.Some? && IsV4(gateway6.value.addr) then ["Gateway6 " + String(gateway6.value) + Gateway6Msg] else [])
  }

  /** What the name servers' check contributes. */
  function NameserverMsgs(ns: Option<NSInfo>): (msgs: seq<string>)
    ensures msgs == [] <==> (ns.Some? ==> ns.value.Validate() == NoError)
  {
    if ns.Some? then Merged(ns.value.Validate()) else []
  }

  /** What the routes' checks contribute, each merged into the network's
    * `Err`, route by route. */
  function RoutesMsgs(routes: seq<Route>): seq<string> {
    MergedEach(routes, (x: Route) => x.Validate())
  }

  lemma RoutesMsgsEmptyIff(routes: seq<Route>)
    ensures RoutesMsgs(routes) == [] <==> forall i :: 0 <= i < |routes| ==> routes[i].Validate() == NoError
  {
    MergedEachEmptyIff(routes, (x: Route) => x.Validate());
    forall i | 0 <= i < |routes|
      ensures Merged(routes[i].Validate()) == [] <==> routes[i].Validate() == NoError
    {
      var err := routes[i].Validate();
      assert err != NoError ==> |Merged(err)| >= 1;
    }
  }

  /** What the rules' checks contribute, rule by rule. */
  function PoliciesMsgs(rps: seq<RoutePolicy>): seq<string> {
    MergedEach(rps, (x: RoutePolicy) => x.Validate())
  }

  lemma PoliciesMsgsEmptyIff(rps: seq<RoutePolicy>)
    ensures PoliciesMsgs(rps) == [] <==> forall i :: 0 <= i < |rps| ==> rps[i].Validate() == NoError
  {
    MergedEachEmptyIff(rps, (x: RoutePolicy) => x.Validate());
    forall i | 0 <= i < |rps|
      ensures Merged(rps[i].Validate()) == [] <==> rps[i].Validate() == NoError
    {
      var err := rps[i].Validate();
      assert err != NoError ==> |Merged(err)| >= 1;
    }
  }

  /** What `(*Network).validate` accepts: the DHCP identifier is "mac" or
    * empty, every static address is in CIDR form, the IPv4 gateway has an
    * IPv4 form and the IPv6 one has none, and the name servers, every
    * route and every rule pass their own checks. */
  predicate NetworkOk(n: Network) {
    && (n.dhcpIdentifier == "mac" || n.dhcpIdentifier == "")
    && (forall i :: 0 <= i < |n.addresses| ==> IsCIDR(n.addresses[i]))
    && (n.gateway4.Some? ==> IsV4(n.gateway4.value.addr))
    && (n.gateway6.Some? ==> !IsV4(n.gateway6.value.addr))
    && (n.nameservers.Some? ==> n.nameservers.value.Validate() == NoError)
    && (forall i :: 0 <= i < |n.routes| ==> n.routes[i].Validate() == NoError)
    && (forall i :: 0 <= i < |n.routingPolicy| ==> n.routingPolicy[i].Validate() == NoError)
  }

  /** The messages `(*Network).validate` records, in order: the DHCP
    * identifier, the static addresses, the two gateways, then everything
    * the name servers, the routes and the rules report. */
  function NetworkMsgs(n: Network): (msgs: seq<string>)
    ensures msgs == [] <==> NetworkOk(n)
  {
    RoutesMsgsEmptyIff(n.routes);
    PoliciesMsgsEmptyIff(n.routingPolicy);
    IdentifierMsgs(n.dhcpIdentifier)
    + AddressMsgs(n.addresses)
    + GatewayMsgs(n.gateway4, n.gateway6)
    + NameserverMsgs(n.nameservers)
    + RoutesMsgs(n.routes)
    + PoliciesMsgs(n.routingPolicy)
  }

  /** The loop of `(*Network).validate` over the routes. */
  method MergeRoutes(e: Err, routes: seq<Route>)
    modifies e
    ensures e.prefix == old(e.prefix)
    ensures e.msgs == old(e.msgs) + RoutesMsgs(routes)
  {
    ghost var m0 := e.msgs;
    var i := 0;
    while i < |routes|
      invariant 0 <= i <= |routes|
      invariant e.prefix == old(e.prefix)
      invariant e.msgs == m0 + RoutesMsgs(routes[..i])
    {
      var err := routes[i].Validate();
      e.Merge(err);
      MergedEachStep(routes, (x: Route) => x.Validate(), i);
      AppendAssoc(m0, RoutesMsgs(routes[..i]), Merged(err));
      i := i + 1;
    }
    assert routes[..i] == routes;
  }

  /** The loop of `(*Network).validate` over the rules. */
  method MergePolicies(e: Err, rps: seq<RoutePolicy>)
    modifies e
    ensures e.prefix == old(e.prefix)
    ensures e.msgs == old(e.msgs) + PoliciesMsgs(rps)
  {
    ghost var m0 := e.msgs;
    var i := 0;
    while i < |rps|
      invariant 0 <= i <= |rps|
      invariant e.prefix == old(e.prefix)
      invariant e.msgs == m0 + PoliciesMsgs(rps[..i])
    {
      var err := rps[i].Validate();
      e.Merge(err);
      MergedEachStep(rps, (x: RoutePolicy) => x.Validate(), i);
      AppendAssoc(m0, PoliciesMsgs(rps[..i]), Merged(err));
      i := i + 1;
    }
    assert rps[..i] == rps;
  }

  /** `(*Network).validate`, with its own `Err` prefixed "network". */
  method ValidateNetwork(n: Network) returns (err: ErrValue)
    ensures err == OrNilOf("network", NetworkMsgs(n))
    ensures err == NoError <==> NetworkOk(n)
  {
    var e := new Err("network");
    ValidateScalarsInto(e, n);
    ghost var m0 := e.msgs;
    assert m0 == IdentifierMsgs(n.dhcpIdentifier) + AddressMsgs(n.addresses) + GatewayMsgs(n.gateway4, n.gateway6) by {
      assert [] + IdentifierMsgs(n.dhcpIdentifier) == IdentifierMsgs(n.dhcpIdentifier);
    }
    if n.nameservers.Some? {
      e.Merge(n.nameservers.value.Validate());
    }
    assert e.msgs == m0 + NameserverMsgs(n.nameservers);
    ghost var m1 := e.msgs;
    MergeRoutes(e, n.routes);
    ghost var m2 := e.msgs;
    MergePolicies(e, n.routingPolicy);
    assert e.msgs == NetworkMsgs(n) by {
      assert m2 == m1 + RoutesMsgs(n.routes);
      assert e.msgs == m2 + PoliciesMsgs(n.routingPolicy);
      NetworkMsgsParts(n);
    }
    err := e.OrNil();
  }

  lemma NetworkMsgsParts(n: Network)
    ensures NetworkMsgs(n) == IdentifierMsgs(n.dhcpIdentifier) + AddressMsgs(n.addresses)
      + GatewayMsgs(n.gateway4, n.gateway6) + NameserverMsgs(n.nameservers)
      + RoutesMsgs(n.routes) + PoliciesMsgs(n.routingPolicy)
  {
  }

  /** The checks of `(*Network).validate` before the name servers: the
    * DHCP identifier, the addresses and the two gateways. */
  method ValidateScalarsInto(e: Err, n: Network)
    modifies e
    ensures e.prefix == old(e.prefix)
    ensures e.msgs == old(e.msgs) + IdentifierMsgs(n.dhcpIdentifier) + AddressMsgs(n.addresses)
      + GatewayMsgs(n.gateway4, n.gateway6)
  {
    var dhcpId := Coerce.ValidateStrIn("dhcp-identifier", Coerce.Values.Str(n.dhcpIdentifier), ["mac", ""]);
    ErrorfEach(e, dhcpId.msgs);
    var _ := Coerce.CheckFormats(e, "addresses", n.addresses, true);
    ghost var before := e.msgs;
    assert before == old(e.msgs) + IdentifierMsgs(n.dhcpIdentifier) + AddressMsgs(n.addresses);
    if n.gateway4.Some? && !IsV4(n.gateway4.value.addr) {
      e.Errorf("Gateway4 " + String(n.gateway4.value) + Gateway4Msg);
    }
    if n.gateway6.Some? && IsV4(n.gateway6.value.addr) {
      e.Errorf("Gateway6 " + String(n.gateway6.value) + Gateway6Msg);
    }
    assert e.msgs == before + GatewayMsgs(n.gateway4, n.gateway6);
  }

  /** The error an optional network block contributes: nothing when there
    * is none. */
  function NetworkErr(n: Option<Network>): (err: ErrValue)
    ensures err == NoError <==> n.None? || NetworkOk(n.value)
  {
    if n.None? then NoError
    else
      OrNilOf("network", NetworkMsgs(n.value))
  }
}
