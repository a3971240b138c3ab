// The loosely typed values the validators receive: what a YAML document
// decodes to (Go's `interface{}` holding strings, numbers, booleans, lists
// and string-keyed maps), plus the typed results some validators hand back
// (`*IP`, `HardwareAddr`). Also how such a value prints with `%v` and `%T`
// and what text it becomes when marshalled to JSON, which is what the
// `Remarshal` round trips of util/validate.go depend on.
module Values {

  import opened Wrappers
  import opened Ints
  import opened Order
  import opened Net
  import Errs

  /** A Go `interface{}` value. `Int` stands for Go's `int` and `int64`,
    * `Uint` for `uint` and `uint64`, the integer types `ValidateInt`
    * accepts; `Other` is any value of some other type (the narrower
    * integer types among them), kept as its type name and its `%v` text. */
  datatype Value =
    | Str(s: string)
    | Int(i: int)
    | Uint(u: nat)
    | Bool(b: bool)
    | List(items: seq<Value>)
    | Map(fields: map<string, Value>)
    | Ip(ip: IP)
    | Mac(hw: seq<bv8>)
    | Other(typeName: string, text: string)

  function BoolText(b: bool): string {
    if b then "true" else "false"
  }

  /** `%v`: lists print as "[a b]", maps as "map[k:v ...]" with their keys
    * sorted, addresses through their `String` methods. */
  function Show(v: Value): string
    decreases v
  {
    match v
    case Str(s) => s
    case Int(i) => DecInt(i)
    case Uint(u) => Dec(u)
    case Bool(b) => BoolText(b)
    case List(items) =>
      "[" + Errs.Join(seq(|items|, i requires 0 <= i < |items| => Show(items[i])), " ") + "]"
    case Map(m) =>
      var keys := SortedSet(m.Keys);
      "map[" + Errs.Join(seq(|keys|, i requires 0 <= i < |keys| => keys[i] + ":" + Show(m[keys[i]])), " ") + "]"
    case Ip(ip) => String(ip)
    case Mac(hw) => MacString(hw)
    case Other(_, text) => text
  }

  /** `%T`. */
  function TypeName(v: Value): string {
    match v
    case Str(_) => "string"
    case Int(_) => "int"
    case Uint(_) => "uint64"
    case Bool(_) => "bool"
    case List(_) => "[]interface {}"
    case Map(_) => "map[string]interface {}"
    case Ip(_) => "*util.IP"
    case Mac(_) => "util.HardwareAddr"
    case Other(t, _) => t
  }

  /** The text a value becomes when JSON marshals it to a string: strings
    * themselves, and the two address types through their `MarshalText`.
    * None for anything that does not marshal to a JSON string. */
  function JsonText(v: Value): (t: Option<string>)
    ensures t.Some? <==> v.Str? || v.Ip? || v.Mac?
  {
    match v
    case Str(s) => Some(s)
    case Ip(ip) => Some(String(ip))
    case Mac(hw) => Some(MacString(hw))
    case _ => None
  }

  /** The error `Remarshal` reports when `v` cannot be decoded into a Go
    * value of type `target`. */
  function RemarshalError(v: Value, target: string): string {
    match v
    case Other(t, _) => "json: unsupported type: " + t
    case _ =>
      var kind :=
        match v
        case Int(_) => "number"
        case Uint(_) => "number"
        case Bool(_) => "bool"
        case List(_) => "array"
        case Map(_) => "object"
        case _ => "string";
      "json: cannot unmarshal " + kind + " into Go value of type " + target
  }

  /** The `*IP` that an element of a decoded document becomes: an `*IP`
    * as it is, anything JSON renders as a string through `UnmarshalText`,
    * which never fails. None for anything else. */
  function ItemIP(lib: NetLib, v: Value): (r: Option<IP>)
    ensures r.Some? <==> JsonText(v).Some?
    ensures v.Ip? ==> r == Some(v.ip)
    ensures v.Str? ==> r == Some(UnmarshalText(lib, v.s))
  {
    match v
    case Ip(ip) => Some(ip)
    case _ =>
      match JsonText(v)
      case Some(t) => Some(UnmarshalText(lib, t))
      case None => None
  }

  /** What a validated value becomes after a JSON round trip into an
    * `interface{}`: addresses turn into their text, everything else keeps
    * its shape (numbers, which Go turns into `float64`, stay integers
    * here). */
  function Generic(v: Value): (r: Value)
    ensures v.Ip? || v.Mac? ==> r.Str? && Some(r.s) == JsonText(v)
    ensures v.Str? || v.Int? || v.Bool? ==> r == v
    decreases v
  {
    match v
    case List(items) => List(seq(|items|, i requires 0 <= i < |items| => Generic(items[i])))
    case Map(m) => Map(map k | k in m :: Generic(m[k]))
    case Ip(ip) => Str(String(ip))
    case Mac(hw) => Str(MacString(hw))
    case _ => v
  }
}
