// IP addresses with and without a CIDR mask, and hardware addresses, as
// util/models.go wraps them (`IP`, `HardwareAddr`). The parsers of Go's
// package net are foreign code; the model receives them as a `NetLib`
// value and states what the wrappers do with their answers.
module Net {

  import opened Wrappers
  import opened Ints

  /** A `net.IP`: nil (what `ParseIP` returns for text it cannot read), or
    * an address, of which the model keeps whether it has an IPv4 form
    * (`To4() != nil`) and its `String()` text. */
  datatype Address = NilAddr | Addr(v4: bool, text: string)

  /** `util.IP`, a `net.IPNet`: an address and, when it was written in CIDR
    * form, the prefix length of its mask. Masks only ever come from
    * `ParseCIDR`, which always builds a canonical, non-empty one. */
  datatype IP = IP(addr: Address, prefixLen: Option<nat>)

  /** The parsers of package net: `ParseCIDR` (address and prefix length),
    * `ParseIP` and `ParseMAC`. */
  datatype NetLib = NetLib(
    parseCIDR: string -> Option<(Address, nat)>,
    parseIP: string -> Address,
    parseMAC: string -> Option<seq<bv8>>)

  /** `ip.To4() != nil`. */
  predicate IsV4(a: Address) {
    a.Addr? && a.v4
  }

  /** `(*IP).IsCIDR`: the mask is non-empty. */
  predicate IsCIDR(ip: IP) {
    ip.prefixLen.Some?
  }

  /** `(*IP).UnmarshalText`. It never fails: text that is not in CIDR form
    * is read as a bare address (possibly nil) with no mask. */
  function UnmarshalText(lib: NetLib, buf: string): (ip: IP)
    ensures IsCIDR(ip) <==> lib.parseCIDR(buf).Some?
    ensures IsCIDR(ip) ==> ip.addr == lib.parseCIDR(buf).value.0
    ensures !IsCIDR(ip) ==> ip.addr == lib.parseIP(buf)
  {
    match lib.parseCIDR(buf)
    case Some((addr, ones)) => IP(addr, Some(ones))
    case None => IP(lib.parseIP(buf), None)
  }

  /** `net.IP.String()`. */
  function AddrString(a: Address): string {
    match a
    case NilAddr => "<nil>"
    case Addr(_, text) => text
  }

  /** `(*IP).String`: the bare address without a mask; with one, the
    * address, "/" and the prefix length in decimal, as `net.IPNet.String`
    * prints the canonical masks `ParseCIDR` builds. */
  function String(ip: IP): (s: string)
    ensures !IsCIDR(ip) ==> s == AddrString(ip.addr)
    ensures IsCIDR(ip) ==>
      |s| > |AddrString(ip.addr)| + 1 &&
      s[..|AddrString(ip.addr)|] == AddrString(ip.addr) &&
      s[|AddrString(ip.addr)|] == '/'
    ensures IsCIDR(ip) ==>
      var len := s[|AddrString(ip.addr)| + 1..];
      AllDigits(len, 10) && DigitsValue(len, 10) == ip.prefixLen.value
  {
    match ip.prefixLen
    case None => AddrString(ip.addr)
    case Some(ones) =>
      var a := AddrString(ip.addr);
      var s := a + "/" + Dec(ones);
      DecValue(ones);
      assert s[|a| + 1..] == Dec(ones);
      s
  }

  /** Package net reads back what it prints: the text of an address parses
    * to that address, and "address/length" parses as that CIDR. */
  predicate ReadsBack(lib: NetLib, ip: IP) {
    && lib.parseIP(AddrString(ip.addr)) == ip.addr
    && lib.parseCIDR(AddrString(ip.addr)).None?
    && (ip.prefixLen.Some? ==>
          lib.parseCIDR(AddrString(ip.addr) + "/" + Dec(ip.prefixLen.value)) == Some((ip.addr, ip.prefixLen.value)))
  }

  /** Marshalling an IP to text and unmarshalling it gives it back, with or
    * without its mask, whenever package net reads back what it prints. */
  lemma StringRoundTrip(lib: NetLib, ip: IP)
    requires ReadsBack(lib, ip)
    ensures UnmarshalText(lib, String(ip)) == ip
  {
  }

  const HexDigits: string := "0123456789abcdef"

  function HexByte(b: bv8): string {
    [HexDigits[(b >> 4) as int], HexDigits[(b & 0xf) as int]]
  }

  /** `HardwareAddr.String()`: lower-case hex octets separated by colons. */
  function MacString(hw: seq<bv8>): (s: string)
    ensures |hw| > 0 ==> |s| == 3 * |hw| - 1
    ensures |hw| == 0 ==> s == ""
    decreases |hw|
  {
    if hw == [] then ""
    else if |hw| == 1 then HexByte(hw[0])
    else HexByte(hw[0]) + ":" + MacString(hw[1..])
  }
}
