// The integer conversions the validator relies on: Go's 64-bit `int`,
// the wrap-around of `int(u)` for an unsigned `u`, decimal rendering
// (`%d`), and `strconv.ParseInt(s, 0, 64)`, which accepts an optional sign,
// the base prefixes 0x, 0o, 0b and a bare leading 0 for octal, and
// underscores between digits.
module Ints {

  import opened Wrappers

  const Int64Min: int := -0x8000_0000_0000_0000
  const Int64Max: int := 0x7fff_ffff_ffff_ffff
  const Two64: int := 0x1_0000_0000_0000_0000

  predicate IsInt64(i: int) {
    Int64Min <= i <= Int64Max
  }

  /** Go's conversion `int(u)` of an unsigned 64-bit value on a 64-bit
    * platform: values above MaxInt64 wrap to negatives. */
  function WrapInt64(u: nat): (r: int)
    requires u < Two64
    ensures IsInt64(r)
    ensures (r - u) % Two64 == 0
    ensures u <= Int64Max ==> r == u
  {
    if u <= Int64Max then u else u - Two64
  }

  /** The value of a digit character in bases up to 36; 36 for a character
    * that is no digit at all. */
  function DigitValue(c: char): (d: nat)
    ensures d <= 36
  {
    if '0' <= c <= '9' then c as int - '0' as int
    else if 'a' <= c <= 'z' then c as int - 'a' as int + 10
    else if 'A' <= c <= 'Z' then c as int - 'A' as int + 10
    else 36
  }

  predicate AllDigits(s: string, base: nat) {
    forall i :: 0 <= i < |s| ==> DigitValue(s[i]) < base
  }

  /** The value of the digit string `s` in `base` (read left to right). */
  function DigitsValue(s: string, base: nat): nat
    decreases |s|
  {
    if s == [] then 0
    else DigitsValue(s[..|s| - 1], base) * base + DigitValue(s[|s| - 1])
  }

  /** The base `strconv.ParseUint(s, 0, 64)` reads `s` in: 2, 8 or 16
    * after the prefixes 0b, 0o and 0x (each followed by at least one
    * character), 8 after any other leading 0, else 10. */
  function Base0(s: string): (base: nat)
    ensures base in {2, 8, 10, 16}
  {
    if |s| >= 3 && s[0] == '0' && s[1] in "bB" then 2
    else if |s| >= 3 && s[0] == '0' && s[1] in "oO" then 8
    else if |s| >= 3 && s[0] == '0' && s[1] in "xX" then 16
    else if |s| >= 1 && s[0] == '0' then 8
    else 10
  }

  /** What is left of `s` for the digit loop once the base prefix is
    * stripped. */
  function Body0(s: string): (body: string)
    ensures |body| <= |s|
    ensures body == s[|s| - |body|..]
  {
    if |s| >= 3 && s[0] == '0' && s[1] in "bBoOxX" then s[2..]
    else if |s| >= 1 && s[0] == '0' then s[1..]
    else s
  }

  /** The digits of `s` with the separating underscores taken out. */
  function Unseparated(s: string): (r: string)
    ensures |r| <= |s|
    ensures '_' !in r
  {
    if s == [] then []
    else (if s[0] == '_' then [] else [s[0]]) + Unseparated(s[1..])
  }

  /** `underscoreOK`: underscores may only stand between digits, where
    * the base prefix counts as a digit; the sign is skipped. */
  predicate UnderscoreOK(s: string) {
    var t := if |s| >= 1 && (s[0] == '-' || s[0] == '+') then s[1..] else s;
    if |t| >= 2 && t[0] == '0' && t[1] in "bBoOxX" then UnderscoreScan(t[2..], '0', t[1] in "xX")
    else UnderscoreScan(t, '^', false)
  }

  /** The scan of `underscoreOK`: `saw` is '0' after a digit, '_' after an
    * underscore, '!' after anything else and '^' at the start. */
  predicate UnderscoreScan(s: string, saw: char, hex: bool)
    decreases |s|
  {
    if s == [] then saw != '_'
    else if '0' <= s[0] <= '9' || (hex && ('a' <= s[0] <= 'f' || 'A' <= s[0] <= 'F')) then
      UnderscoreScan(s[1..], '0', hex)
    else if s[0] == '_' then saw == '0' && UnderscoreScan(s[1..], '_', hex)
    else saw != '_' && UnderscoreScan(s[1..], '!', hex)
  }

  /** `strconv.ParseUint(s, 0, 64)` without the bit-size check: the base
    * comes from the prefix, the digit loop skips underscores, and a string
    * with an underscore must then pass `underscoreOK`; None on a syntax
    * error. */
  function ParseUintBase0(s: string): (r: Option<nat>)
    ensures r.Some? ==> s != [] && AllDigits(Unseparated(Body0(s)), Base0(s))
    ensures r.Some? && '_' in s ==> UnderscoreOK(s)
  {
    if s == [] then None
    else
      var digits := Unseparated(Body0(s));
      if AllDigits(digits, Base0(s)) && ('_' !in s || UnderscoreOK(s)) then
        Some(DigitsValue(digits, Base0(s)))
      else None
  }

  /** The characters the digit loop gets through before its first
    * syntax error: digits of the base and underscores. */
  function LoopPrefix(s: string, base: nat): (r: string)
    ensures |r| <= |s| && r == s[..|r|]
  {
    if s != [] && (s[0] == '_' || DigitValue(s[0]) < base) then [s[0]] + LoopPrefix(s[1..], base)
    else []
  }

  /** `strconv.ParseUint(s, 0, 64)` gives up with a range error: the
    * digits read before the first syntax error already exceed 64 bits,
    * which the loop notices before any later syntax error or the
    * underscore check. */
  predicate UintOverflows(s: string) {
    s != [] && DigitsValue(Unseparated(LoopPrefix(Body0(s), Base0(s))), Base0(s)) >= Two64
  }

  /** `strconv.ParseInt(s, 0, 64)`: an optional sign, then an unsigned
    * literal; None on a syntax error or when the value does not fit in 64
    * bits. */
  function ParseInt(s: string): (r: Option<int>)
    ensures r.Some? ==> IsInt64(r.value)
    ensures r.Some? ==> s != [] && (s[0] == '-' ==> r.value <= 0) && (s[0] != '-' ==> r.value >= 0)
    ensures r.Some? ==> var digits := if s[0] == '-' || s[0] == '+' then s[1..] else s;
      ParseUintBase0(digits).Some? && (r.value == ParseUintBase0(digits).value || r.value == -(ParseUintBase0(digits).value as int))
  {
    if s == [] then None
    else
      var neg := s[0] == '-';
      var digits := if s[0] == '-' || s[0] == '+' then s[1..] else s;
      match ParseUintBase0(digits)
      case None => None
      case Some(u) =>
        if !neg && u > Int64Max then None
        else if neg && u > -Int64Min then None
        else
          var v: int := if neg then -(u as int) else u;
          Some(v)
  }

  /** Decimal rendering of a natural number, as `%d` prints it. */
  function Dec(n: nat): (r: string)
    ensures |r| >= 1
    ensures AllDigits(r, 10)
    ensures n > 0 ==> r[0] != '0'
    decreases n
  {
    if n < 10 then ["0123456789"[n]]
    else
      var r := Dec(n / 10) + ["0123456789"[n % 10]];
      assert r[0] == Dec(n / 10)[0];
      r
  }

  /** Decimal rendering of any integer, with a leading minus when negative. */
  function DecInt(i: int): string {
    if i < 0 then "-" + Dec(-i) else Dec(i)
  }

  lemma {:induction false} DecValue(n: nat)
    ensures DigitsValue(Dec(n), 10) == n
    decreases n
  {
    if n < 10 {
      DigitOfChar(n);
    } else {
      DecValue(n / 10);
      var r := Dec(n);
      assert r[..|r| - 1] == Dec(n / 10);
      DigitOfChar(n % 10);
      assert DigitValue(r[|r| - 1]) == n % 10;
      assert DigitsValue(r, 10) == (n / 10) * 10 + n % 10;
    }
  }

  /** The digit character `%d` prints for `d` has the value `d`. */
  lemma DigitOfChar(d: nat)
    requires d < 10
    ensures DigitValue("0123456789"[d]) == d
  {
  }

  /** Parsing what `%d` prints gives the number back, for every value of
    * Go's `int`. */
  lemma ParseDecRoundTrip(i: int)
    requires IsInt64(i)
    ensures ParseInt(DecInt(i)) == Some(i)
  {
    var n: nat := if i < 0 then -i else i;
    ParseDec(n);
    if i < 0 {
      ParseNegative(Dec(n), n);
    } else {
      assert DigitValue(Dec(n)[0]) < 10;
      ParseUnsigned(Dec(n), n);
    }
  }

  /** An unsigned text that fits in an int64 parses to its value. */
  lemma ParseUnsigned(s: string, n: nat)
    requires s != [] && s[0] != '-' && s[0] != '+'
    requires ParseUintBase0(s) == Some(n) && n <= Int64Max
    ensures ParseInt(s) == Some(n)
  {
  }

  /** A minus sign in front of an unsigned text negates its value, down to
    * the least int64. */
  lemma ParseNegative(s: string, n: nat)
    requires ParseUintBase0(s) == Some(n) && n <= -Int64Min
    ensures ParseInt("-" + s) == Some(-(n as int))
  {
    assert ("-" + s)[0] == '-' && ("-" + s)[1..] == s;
  }

  /** The unsigned parse reads what `%d` prints back. */
  lemma ParseDec(n: nat)
    ensures ParseUintBase0(Dec(n)) == Some(n)
  {
    DecValue(n);
    var d := Dec(n);
    NoSeparators(d, 10);
    if n == 0 {
      assert d == "0";
      assert Body0(d) == [];
      assert Base0(d) == 8;
    } else {
      assert d[0] != '0';
      assert Body0(d) == d;
      assert Base0(d) == 10;
    }
  }

  /** A digit string has no underscore, so nothing is taken out. */
  lemma NoSeparators(s: string, base: nat)
    requires base <= 36 && AllDigits(s, base)
    ensures '_' !in s
    ensures Unseparated(s) == s
  {
    if s != [] {
      assert DigitValue('_') == 36;
      assert DigitValue(s[0]) < base;
      NoSeparators(s[1..], base);
      assert s == [s[0]] + s[1..];
    }
  }

  /** Underscores between digits are accepted and skipped. */
  lemma UnderscoreSeparates()
    ensures ParseInt("1_000") == Some(1000)
  {
    var s := "1_000";
    assert s[0] == '1';
    assert Body0(s) == s && Base0(s) == 10;
    assert Unseparated("000") == "000";
    assert Unseparated(s) == "1000";
    assert UnderscoreScan("000", '_', false);
    assert UnderscoreOK(s);
    assert "1000"[..3] == "100" && "100"[..2] == "10" && "10"[..1] == "1";
    assert DigitsValue("10", 10) == 10;
    assert DigitsValue("1000", 10) == 1000;
    assert ParseUintBase0(s) == Some(1000);
  }

  /** An underscore right after a base prefix is accepted too. */
  lemma UnderscoreAfterPrefix()
    ensures ParseInt("0x_1f") == Some(31)
  {
    var s := "0x_1f";
    assert Body0(s) == "_1f" && Base0(s) == 16;
    assert Unseparated("_1f") == "1f";
    assert UnderscoreOK(s);
    assert "1f"[..1] == "1";
    assert DigitsValue("1f", 16) == 31;
    assert ParseUintBase0(s) == Some(31);
  }

  /** A leading, a trailing or a doubled underscore is a syntax error. */
  lemma UnderscoreMisplaced()
    ensures ParseInt("_1") == None
    ensures ParseInt("1_") == None
    ensures ParseInt("1__0") == None
  {
    assert !UnderscoreOK("_1");
    assert !UnderscoreScan("_", '0', false);
    assert !UnderscoreOK("1_");
    assert !UnderscoreScan("_0", '_', false);
    assert !UnderscoreOK("1__0");
  }
}
