// The permissive coercions of util/validate.go. Each validator turns one
// loosely typed value into the type a field needs and reports whether it
// could; every problem it finds becomes a message for the caller's `*Err`.
// The model returns those messages with the result instead of appending
// them to a shared accumulator; the loops that do append (`VSS`, the IP
// list check) are methods over an `Err` proved to append exactly them.
module Coerce {

  import opened Wrappers
  import opened Ints
  import opened Net
  import opened Values
  import opened Errs

  /** A validator's answer: the converted value, whether it may be used,
    * and the messages it recorded. */
  datatype Checked<T> = Checked(value: T, valid: bool, msgs: seq<string>)

  /** `ValidateUnsupp`: a key the format does not support. */
  function ValidateUnsupp(k: string, v: Value): (r: Checked<Value>)
    ensures !r.valid && r.value == v
    ensures r.msgs == ["Key " + k + " is not supported"]
  {
    Checked(v, false, ["Key " + k + " is not supported"])
  }

  /** The spellings `ValidateBool` accepts for false and for true. */
  const FalseWords: set<string> := {"0", "f", "false", "off"}
  const TrueWords: set<string> := {"1", "t", "true", "on"}

  /** `ValidateBool`. */
  function ValidateBool(k: string, v: Value): (r: Checked<bool>)
    ensures v.Bool? ==> r == Checked(v.b, true, [])
    ensures v.Str? && v.s in FalseWords ==> r == Checked(false, true, [])
    ensures v.Str? && v.s in TrueWords ==> r == Checked(true, true, [])
    ensures r.valid <==> v.Bool? || (v.Str? && v.s in FalseWords + TrueWords)
    ensures !r.valid ==> !r.value && |r.msgs| == 1
  {
    if v.Bool? then Checked(v.b, true, [])
    else if v.Str? && v.s in FalseWords then Checked(false, true, [])
    else if v.Str? && v.s in TrueWords then Checked(true, true, [])
    else Checked(false, false, [k + ": Cannot cast " + Show(v) + " to a boolean"])
  }

  /** The text `%v` prints for a boolean is read back as that boolean,
    * exactly as the boolean itself is. */
  lemma ValidateBoolReadsShow(k: string, b: bool)
    ensures ValidateBool(k, Str(Show(Bool(b)))) == Checked(b, true, [])
    ensures ValidateBool(k, Str(Show(Bool(b)))) == ValidateBool(k, Bool(b))
  {
  }

  /** The integer `ValidateInt` reads from a value, if any: Go's integers
    * as they are (an unsigned 64-bit value through `int(u)`, which wraps),
    * strings through `strconv.ParseInt(s, 0, 64)`. */
  function AsInt(v: Value): (r: Option<int>)
    ensures v.Int? ==> r == Some(v.i)
    ensures v.Str? ==> r == ParseInt(v.s)
    ensures r.Some? && !v.Int? ==> IsInt64(r.value)
  {
    match v
    case Int(i) => Some(i)
    case Uint(u) => Some(WrapInt64(u % Two64))
    case Str(s) => ParseInt(s)
    case _ => None
  }

  /** Why `strconv.ParseInt` rejected `s`: a range error when the digits
    * overflow 64 bits before any syntax error shows, or when the whole
    * literal parses but does not fit in an int64; else a syntax error. */
  function ParseIntError(s: string): string {
    var digits := if s != [] && (s[0] == '-' || s[0] == '+') then s[1..] else s;
    var reason :=
      if s != [] && (UintOverflows(digits) || ParseUintBase0(digits).Some?) then "value out of range"
      else "invalid syntax";
    "strconv.ParseInt: parsing \"" + s + "\": " + reason
  }

  /** `ValidateInt`: convert, then check `min <= res <= max`. */
  function ValidateInt(k: string, v: Value, min: int, max: int): (r: Checked<int>)
    ensures r.valid <==> AsInt(v).Some? && min <= AsInt(v).value <= max
    ensures AsInt(v).Some? ==> r.value == AsInt(v).value
    ensures AsInt(v).None? ==> r.value == 0
    ensures r.valid <==> r.msgs == []
    ensures |r.msgs| <= 1
  {
    var converted :=
      match v
      case Int(i) => Checked(i, true, [])
      case Uint(u) => Checked(WrapInt64(u % Two64), true, [])
      case Str(s) =>
        (match ParseInt(s)
         case Some(n) => Checked(n, true, [])
         case None => Checked(0, false, [k + ": Cannot cast " + s + " to an int: " + ParseIntError(s)]))
      case _ =>
        var shown := TypeName(v) + "(" + Show(v) + ")";
        Checked(0, false, [k + ": Cannot cast " + shown + " to an " + shown]);
    if !converted.valid then converted
    else if min <= converted.value <= max then converted
    else Checked(converted.value, false,
                 [k + ": " + DecInt(converted.value) + " out of range " + DecInt(min) + ":" + DecInt(max)])
  }

  /** A value out of range is reported but not replaced: the caller still
    * sees the number that was written, and a string that is not a number
    * gives 0 rather than some default. */
  lemma ValidateIntKeepsValue(k: string, n: int, min: int, max: int)
    requires IsInt64(n)
    ensures ValidateInt(k, Str(DecInt(n)), min, max).value == n
    ensures ValidateInt(k, Str(DecInt(n)), min, max).valid <==> min <= n <= max
  {
    ParseDecRoundTrip(n);
  }

  /** `ValidateStrIn`. */
  function ValidateStrIn(k: string, v: Value, vals: seq<string>): (r: Checked<string>)
    ensures r.valid <==> v.Str? && (|vals| == 0 || v.s in vals)
    ensures v.Str? ==> r.value == v.s
    ensures r.valid <==> r.msgs == []
    ensures |r.msgs| <= 1
  {
    match v
    case Str(s) =>
      if |vals| == 0 || s in vals then Checked(s, true, [])
      else Checked(s, false, [k + ": " + s + ": Not in valid set: false"])
    case _ => Checked("", false, [k + ": " + Show(v) + " is not a string"])
  }

  /** The loop `ValidateStrIn` runs over the allowed values. */
  method StrIn(res: string, vals: seq<string>) returns (valid: bool)
    ensures valid <==> res in vals
  {
    valid := false;
    var i := 0;
    while i < |vals|
      invariant 0 <= i <= |vals|
      invariant res !in vals[..i]
    {
      if res == vals[i] {
        return true;
      }
      i := i + 1;
    }
    assert vals[..i] == vals;
  }

  /** `ValidateMac`: a `HardwareAddr` as it is, or anything that marshals
    * to text and `net.ParseMAC` accepts. */
  function ValidateMac(lib: NetLib, k: string, v: Value): (r: Checked<seq<bv8>>)
    ensures v.Mac? ==> r == Checked(v.hw, true, [])
    ensures v.Str? ==> (r.valid <==> lib.parseMAC(v.s).Some?)
    ensures v.Str? && r.valid ==> r.value == lib.parseMAC(v.s).value
    ensures r.valid <==> r.msgs == []
    ensures |r.msgs| <= 1
  {
    match v
    case Mac(hw) => Checked(hw, true, [])
    case _ =>
      match JsonText(v)
      case None => Checked([], false, [k + ": Cannot cast " + Show(v) + " to a HardwareAddr:" + RemarshalError(v, "util.HardwareAddr")])
      case Some(t) =>
        match lib.parseMAC(t)
        case Some(hw) => Checked(hw, true, [])
        case None => Checked([], false, [k + ": Cannot cast " + Show(v) + " to a HardwareAddr:address " + t + ": invalid MAC address"])
  }

  /** `ValidateIP`: an `*IP` as it is, or text read by `UnmarshalText`;
    * None (a nil `*IP`) when the value is neither. */
  function ValidateIP(lib: NetLib, k: string, v: Value): (r: Checked<Option<IP>>)
    ensures r.valid <==> ItemIP(lib, v).Some?
    ensures r.value == ItemIP(lib, v)
    ensures r.valid <==> r.msgs == []
    ensures |r.msgs| <= 1
  {
    match ItemIP(lib, v)
    case Some(ip) => Checked(Some(ip), true, [])
    case None => Checked(None, false, [k + ": Cannot cast " + Show(v) + " to an IP: " + RemarshalError(v, "util.IP")])
  }

  /** `VIP4`: valid only when the address has an IPv4 form. An address
    * without one (an IPv6 address, or text `ParseIP` cannot read, which
    * leaves a nil address) is refused without a message. */
  function ValidateIP4(lib: NetLib, k: string, v: Value): (r: Checked<Option<IP>>)
    ensures r.valid <==> ItemIP(lib, v).Some? && IsV4(ItemIP(lib, v).value.addr)
    ensures r.msgs == ValidateIP(lib, k, v).msgs && r.value == ItemIP(lib, v)
  {
    var r := ValidateIP(lib, k, v);
    r.(valid := r.valid && IsV4(r.value.value.addr))
  }

  /** `VIP6`: valid only when the address has no IPv4 form. An IPv4
    * address is refused without a message; text `ParseIP` cannot read
    * leaves a nil address, which has no IPv4 form and so is accepted. */
  function ValidateIP6(lib: NetLib, k: string, v: Value): (r: Checked<Option<IP>>)
    ensures r.valid <==> ItemIP(lib, v).Some? && !IsV4(ItemIP(lib, v).value.addr)
    ensures r.msgs == ValidateIP(lib, k, v).msgs && r.value == ItemIP(lib, v)
  {
    var r := ValidateIP(lib, k, v);
    r.(valid := r.valid && !IsV4(r.value.value.addr))
  }

  /** `VIP4` with the refusal reported: an address without an
    * IPv4 form adds a message naming the key and the address, as every
    * other refusal of a validator does. */
  function ValidateIP4Reported(lib: NetLib, k: string, v: Value): (r: Checked<Option<IP>>)
    ensures r.valid <==> ItemIP(lib, v).Some? && IsV4(ItemIP(lib, v).value.addr)
    ensures r.value == ItemIP(lib, v)
    ensures r.valid <==> r.msgs == []
  {
    var r := ValidateIP(lib, k, v);
    if r.valid && !IsV4(r.value.value.addr) then
      Checked(r.value, false, [k + ": " + String(r.value.value) + " is not an IPv4 address"])
    else r
  }

  /** `VIP6` with the refusal reported, and with text that reads as no
    * address at all refused as well. */
  function ValidateIP6Reported(lib: NetLib, k: string, v: Value): (r: Checked<Option<IP>>)
    ensures r.valid <==>
      && ItemIP(lib, v).Some?
      && ItemIP(lib, v).value.addr.Addr?
      && !IsV4(ItemIP(lib, v).value.addr)
    ensures r.value == ItemIP(lib, v)
    ensures r.valid <==> r.msgs == []
  {
    var r := ValidateIP(lib, k, v);
    if r.valid && r.value.value.addr.NilAddr? then
      Checked(r.value, false, [k + ": " + Show(v) + " is not an IP address"])
    else if r.valid && IsV4(r.value.value.addr) then
      Checked(r.value, false, [k + ": " + String(r.value.value) + " is not an IPv6 address"])
    else r
  }

  /** As written, `VIP4` and `VIP6` refuse an address of the wrong family
    * without recording anything: a gateway4 of 2001:db8::1 (read by
    * package net as an IPv6 address) is invalid, yet no message says so. */
  lemma WrongFamilyIsSilent(lib: NetLib)
    requires lib.parseCIDR("2001:db8::1").None?
    requires lib.parseIP("2001:db8::1") == Addr(false, "2001:db8::1")
    requires lib.parseCIDR("192.0.2.1").None?
    requires lib.parseIP("192.0.2.1") == Addr(true, "192.0.2.1")
    ensures !ValidateIP4(lib, "gateway4", Str("2001:db8::1")).valid
    ensures ValidateIP4(lib, "gateway4", Str("2001:db8::1")).msgs == []
    ensures !ValidateIP6(lib, "gateway6", Str("192.0.2.1")).valid
    ensures ValidateIP6(lib, "gateway6", Str("192.0.2.1")).msgs == []
  {
  }

  /** As written, text `ParseIP` cannot read becomes a nil address:
    * `VIP4` refuses it without recording anything, and `VIP6` accepts it,
    * since a nil address has no IPv4 form. */
  lemma UnreadableAddress(lib: NetLib)
    requires lib.parseCIDR("gateway").None?
    requires lib.parseIP("gateway") == NilAddr
    ensures !ValidateIP4(lib, "gateway4", Str("gateway")).valid
    ensures ValidateIP4(lib, "gateway4", Str("gateway")).msgs == []
    ensures ValidateIP6(lib, "gateway6", Str("gateway")).valid
    ensures ValidateIP6(lib, "gateway6", Str("gateway")).value == Some(IP(NilAddr, None))
    ensures !ValidateIP6Reported(lib, "gateway6", Str("gateway")).valid
  {
  }

  /** An address written as text is accepted and read back unchanged, with
    * or without its mask, by `ValidateIP`. */
  lemma ValidateIPReadsText(lib: NetLib, k: string, ip: IP)
    requires ReadsBack(lib, ip)
    ensures ValidateIP(lib, k, Str(String(ip))) == Checked(Some(ip), true, [])
  {
    StringRoundTrip(lib, ip);
  }

  /** The `*IP` list a value decodes to: a list every element of which
    * `ItemIP` reads. */
  function AsIPList(lib: NetLib, v: Value): (r: Option<seq<IP>>)
    ensures r.Some? <==> v.List? && forall i :: 0 <= i < |v.items| ==> ItemIP(lib, v.items[i]).Some?
    ensures r.Some? ==> (|r.value| == |v.items| &&
      forall i :: 0 <= i < |v.items| ==> r.value[i] == ItemIP(lib, v.items[i]).value)
  {
    if v.List? && forall i :: 0 <= i < |v.items| ==> ItemIP(lib, v.items[i]).Some? then
      Some(seq(|v.items|, i requires 0 <= i < |v.items| => ItemIP(lib, v.items[i]).value))
    else None
  }

  function FormatMsg(k: string, ip: IP): string {
    k + ": " + String(ip) + " is not in the expected format"
  }

  /** One message per address that is not in the expected form (CIDR when
    * `cidr`, bare otherwise), in list order. */
  function FormatMsgs(k: string, ips: seq<IP>, cidr: bool): seq<string>
    decreases |ips|
  {
    if ips == [] then []
    else
      var last := ips[|ips| - 1];
      FormatMsgs(k, ips[..|ips| - 1], cidr) + (if IsCIDR(last) == cidr then [] else [FormatMsg(k, last)])
  }

  /** No message at all exactly when every address is in the expected
    * form; otherwise at least one. */
  lemma {:induction false} FormatMsgsEmptyIff(k: string, ips: seq<IP>, cidr: bool)
    ensures FormatMsgs(k, ips, cidr) == [] <==> forall i :: 0 <= i < |ips| ==> IsCIDR(ips[i]) == cidr
    ensures |FormatMsgs(k, ips, cidr)| <= |ips|
    decreases |ips|
  {
    if ips != [] {
      var init := ips[..|ips| - 1];
      FormatMsgsEmptyIff(k, init, cidr);
      assert forall i :: 0 <= i < |init| ==> init[i] == ips[i];
    }
  }

  /** The loop of `ValidateIPList` over decoded addresses: appends one
    * message per address in the wrong form. */
  method CheckFormats(e: Err, k: string, ips: seq<IP>, cidr: bool) returns (valid: bool)
    modifies e
    ensures e.msgs == old(e.msgs) + FormatMsgs(k, ips, cidr)
    ensures e.prefix == old(e.prefix)
    ensures valid <==> FormatMsgs(k, ips, cidr) == []
  {
    valid := true;
    var i := 0;
    while i < |ips|
      invariant 0 <= i <= |ips|
      invariant e.prefix == old(e.prefix)
      invariant e.msgs == old(e.msgs) + FormatMsgs(k, ips[..i], cidr)
      invariant valid <==> FormatMsgs(k, ips[..i], cidr) == []
    {
      assert ips[..i + 1][..i] == ips[..i];
      assert FormatMsgs(k, ips[..i + 1], cidr)
        == FormatMsgs(k, ips[..i], cidr) + (if IsCIDR(ips[i]) == cidr then [] else [FormatMsg(k, ips[i])]);
      if IsCIDR(ips[i]) != cidr {
        valid := false;
        e.Errorf(FormatMsg(k, ips[i]));
      }
      i := i + 1;
    }
    assert ips[..i] == ips;
  }

  /** `ValidateIPList`. */
  function ValidateIPList(lib: NetLib, k: string, v: Value, cidr: bool): (r: Checked<seq<IP>>)
    ensures AsIPList(lib, v).None? ==> !r.valid && |r.msgs| == 1
    ensures AsIPList(lib, v).Some? ==> r.value == AsIPList(lib, v).value && r.msgs == FormatMsgs(k, r.value, cidr)
    ensures r.valid <==> r.msgs == []
  {
    match AsIPList(lib, v)
    case None => Checked([], false, [k + ": Cannot cast " + Show(v) + " to a list of IPs: " + RemarshalError(v, "[]*util.IP")])
    case Some(ips) =>
      var msgs := FormatMsgs(k, ips, cidr);
      Checked(ips, msgs == [], msgs)
  }

  /** A list of addresses is valid iff it decodes and every address in it
    * is in the expected form. */
  lemma ValidateIPListValidIff(lib: NetLib, k: string, v: Value, cidr: bool)
    ensures ValidateIPList(lib, k, v, cidr).valid <==>
      AsIPList(lib, v).Some? && forall i :: 0 <= i < |v.items| ==> IsCIDR(AsIPList(lib, v).value[i]) == cidr
  {
    if AsIPList(lib, v).Some? {
      FormatMsgsEmptyIff(k, AsIPList(lib, v).value, cidr);
    }
  }

  /** The strings a value decodes to as a `[]string`: a list of values that
    * all marshal to JSON strings. */
  function AsStrings(v: Value): (r: Option<seq<string>>)
    ensures r.Some? <==> v.List? && forall i :: 0 <= i < |v.items| ==> JsonText(v.items[i]).Some?
    ensures r.Some? ==> (|r.value| == |v.items| &&
      forall i :: 0 <= i < |v.items| ==> r.value[i] == JsonText(v.items[i]).value)
  {
    if v.List? && forall i :: 0 <= i < |v.items| ==> JsonText(v.items[i]).Some? then
      Some(seq(|v.items|, i requires 0 <= i < |v.items| => JsonText(v.items[i]).value))
    else None
  }

  /** The messages `ValidateStrIn` records for each string, in order. */
  function StrsMsgs(k: string, ss: seq<string>, allowed: seq<string>): seq<string>
    decreases |ss|
  {
    if ss == [] then []
    else StrsMsgs(k, ss[..|ss| - 1], allowed) + ValidateStrIn(k, Str(ss[|ss| - 1]), allowed).msgs
  }

  lemma {:induction false} StrsMsgsEmptyIff(k: string, ss: seq<string>, allowed: seq<string>)
    ensures StrsMsgs(k, ss, allowed) == [] <==> forall i :: 0 <= i < |ss| ==> |allowed| == 0 || ss[i] in allowed
    decreases |ss|
  {
    if ss != [] {
      var init := ss[..|ss| - 1];
      StrsMsgsEmptyIff(k, init, allowed);
      assert forall i :: 0 <= i < |init| ==> init[i] == ss[i];
    }
  }

  function Strs(ss: seq<string>): (r: seq<Value>)
    ensures |r| == |ss| && forall i :: 0 <= i < |ss| ==> r[i] == Str(ss[i])
  {
    seq(|ss|, i requires 0 <= i < |ss| => Str(ss[i]))
  }

  /** `VSS(rs...)`: decode a string list, then `ValidateStrIn` every
    * element. A value that is no string list yields an invalid empty list
    * (nil in Go) and one message. */
  function ValidateStrs(k: string, v: Value, allowed: seq<string>): (r: Checked<Value>)
    ensures AsStrings(v).None? ==> !r.valid && |r.msgs| == 1
    ensures AsStrings(v).Some? ==> (r.value == List(Strs(AsStrings(v).value)) &&
      r.msgs == StrsMsgs(k, AsStrings(v).value, allowed))
    ensures r.valid <==> r.msgs == []
  {
    match AsStrings(v)
    case None => Checked(List([]), false, [k + ": Failed to translate " + Show(v) + " into a string slice: " + RemarshalError(v, "[]string")])
    case Some(ss) =>
      var msgs := StrsMsgs(k, ss, allowed);
      Checked(List(Strs(ss)), msgs == [], msgs)
  }

  /** `VSS` is valid iff the value is a string list every element of which
    * passes `ValidateStrIn`. */
  lemma ValidateStrsValidIff(k: string, v: Value, allowed: seq<string>)
    ensures ValidateStrs(k, v, allowed).valid <==>
      AsStrings(v).Some? &&
      forall i :: 0 <= i < |v.items| ==> ValidateStrIn(k, Str(AsStrings(v).value[i]), allowed).valid
  {
    if AsStrings(v).Some? {
      StrsMsgsEmptyIff(k, AsStrings(v).value, allowed);
    }
  }

  /** The loop of `VSS`: every element is checked, none is skipped after a
    * failure, and each failure appends its own message. */
  method ValidateStrsInto(e: Err, k: string, v: Value, allowed: seq<string>) returns (res: Value, resOK: bool)
    modifies e
    ensures e.prefix == old(e.prefix)
    ensures e.msgs == old(e.msgs) + ValidateStrs(k, v, allowed).msgs
    ensures res == ValidateStrs(k, v, allowed).value
    ensures resOK == ValidateStrs(k, v, allowed).valid
  {
    var decoded := AsStrings(v);
    if decoded.None? {
      e.Errorf(k + ": Failed to translate " + Show(v) + " into a string slice: " + RemarshalError(v, "[]string"));
      return List([]), false;
    }
    var ss := decoded.value;
    resOK := true;
    var i := 0;
    while i < |ss|
      invariant 0 <= i <= |ss|
      invariant e.prefix == old(e.prefix)
      invariant e.msgs == old(e.msgs) + StrsMsgs(k, ss[..i], allowed)
      invariant resOK <==> StrsMsgs(k, ss[..i], allowed) == []
    {
      assert ss[..i + 1][..i] == ss[..i];
      var r := ValidateStrIn(k, Str(ss[i]), allowed);
      if !r.valid {
        resOK := false;
        e.Errorf(r.msgs[0]);
      }
      i := i + 1;
    }
    assert ss[..i] == ss;
    res := List(Strs(ss));
  }
}
