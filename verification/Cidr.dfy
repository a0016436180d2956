/** The CIDR allow-list of the metrics endpoint: reading addresses, building the mask, matching.
    `isIP` stands for the platform's address test and `number` for its numeric conversion, with
    `None` for anything that is not a non-negative integer. A thrown RangeError is an `Err`. */
module Cidr {
  import opened Options
  import opened Text
  import opened Bits

  datatype Family = NotIp | V4 | V6

  datatype Failure = RangeError

  datatype ParsedCidr = ParsedCidr(family: Family, base: nat, mask: nat, bits: nat)

  function Width(family: Family): nat {
    if family == V4 then 32 else 128
  }

  // ---------------------------------------------------------------- reading an address

  predicate HexDigit(c: char) {
    '0' <= c <= '9' || 'a' <= c <= 'f' || 'A' <= c <= 'F'
  }

  function HexDigitValue(c: char): (v: nat)
    requires HexDigit(c)
    ensures v < 16
  {
    if c <= '9' then c as nat - '0' as nat
    else if c <= 'F' then c as nat - 'A' as nat + 10 else c as nat - 'a' as nat + 10
  }

  predicate AllHex(s: string) {
    forall c :: c in s ==> HexDigit(c)
  }

  function HexPrefix(s: string): (p: string)
    ensures AllHex(p)
  {
    if s == "" || !HexDigit(s[0]) then "" else [s[0]] + HexPrefix(s[1..])
  }

  function HexValue(s: string): nat
    requires AllHex(s)
  {
    if s == "" then 0 else HexValue(s[..|s| - 1]) * 16 + HexDigitValue(s[|s| - 1])
  }

  /** `parseInt(s, 16)`: the longest hexadecimal prefix, NaN when there is none. */
  function ParseIntHex(s: string): Option<nat> {
    var p := HexPrefix(s);
    if p == "" then None else Some(HexValue(p))
  }

  /** The shift-and-or reduce; converting NaN to a BigInt throws. */
  function Fold(parts: seq<string>, parse: string -> Option<nat>, k: nat, acc: nat): Result<nat, Failure> {
    if |parts| == 0 then Ok(acc) else
    match parse(parts[0])
    case None => Err(RangeError)
    case Some(g) => Fold(parts[1..], parse, k, Or(Shl(acc, k), g))
  }

  function IndexOf(groups: seq<string>, g: string): (r: Option<nat>)
    ensures r == None ==> g !in groups
    ensures r.Some? ==> r.value < |groups| && groups[r.value] == g && g !in groups[..r.value]
  {
    if |groups| == 0 then None
    else if groups[0] == g then Some(0)
    else
      match IndexOf(groups[1..], g)
      case None => None
      case Some(i) => Some(i + 1)
  }

  function Zeros(n: nat): (z: seq<string>)
    ensures |z| == n && forall i :: 0 <= i < n ==> z[i] == "0"
  {
    if n == 0 then [] else ["0"] + Zeros(n - 1)
  }

  /** Puts zeros in place of the first empty group; an array of negative length throws. */
  function ExpandV6(groups: seq<string>): Result<seq<string>, Failure> {
    match IndexOf(groups, "")
    case None => Ok(groups)
    case Some(i) =>
      if |groups| > 9 then Err(RangeError)
      else Ok(groups[..i] + Zeros(8 - (|groups| - 1)) + groups[i + 1..])
  }

  function IpToBigInt(number: string -> Option<nat>, ip: string, family: Family): Result<nat, Failure> {
    if family == V4 then Fold(Split(ip, '.'), number, 8, 0)
    else
      match ExpandV6(Split(ip, ':'))
      case Err(e) => Err(e)
      case Ok(full) => Fold(full, ParseIntHex, 16, 0)
  }

  // ---------------------------------------------------------------- the allow-list entry

  function ParseCidr(isIP: string -> Family, number: string -> Option<nat>, raw: string)
    : Result<Option<ParsedCidr>, Failure>
  {
    var pieces := Split(raw, '/');
    var ip := pieces[0];
    if ip == "" then Ok(None) else
    var family := isIP(ip);
    if family == NotIp then Ok(None) else
    var width := Width(family);
    match if |pieces| == 1 then Some(width) else number(pieces[1])
    case None => Ok(None)
    case Some(bits) =>
      if bits > width then Ok(None)
      else
        match IpToBigInt(number, ip, family)
        case Err(e) => Err(e)
        case Ok(ipBig) => Ok(Some(Entry(family, ipBig, bits)))
  }

  function Entry(family: Family, ipBig: nat, bits: nat): ParsedCidr
    requires bits <= Width(family)
  {
    var width := Width(family);
    var mask := Xor(Shl(1, width) - 1, Shl(1, width - bits) - 1);
    ParsedCidr(family, And(ipBig, mask), mask, bits)
  }

  function IpInCidr(isIP: string -> Family, number: string -> Option<nat>, ip: string, cidr: ParsedCidr)
    : Result<bool, Failure>
  {
    var family := isIP(ip);
    if family != cidr.family then Ok(false)
    else
      match IpToBigInt(number, ip, family)
      case Err(e) => Err(e)
      case Ok(ipBig) => Ok(And(ipBig, cidr.mask) == cidr.base)
  }
}
