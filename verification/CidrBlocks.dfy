/** The CIDR allow-list lines parsed and matched, and the blocks of addresses they admit: what a
    line of an address and a prefix length becomes, that an address matches exactly if its first
    bits agree with the line's, whatever the line's host bits, and that blocks have a power of two
    of members and are nested or disjoint. */
module CidrBlocks {
  import opened Options
  import opened Text
  import opened Bits
  import opened Cidr
  import opened CidrAddresses

  // ---------------------------------------------------------------- parsing

  lemma WrittenLacksSlash(a: Address)
    requires WellFormed(a)
    ensures Lacks(Written(a), '/') && Written(a) != ""
  {
    match a
    case Quad(octets) =>
      QuadTextLacks(octets, '/');
      QuadTextStarts(octets);
    case Full(groups, tail) =>
      TailPieces(groups, tail);
      PiecesLack(WithTail(groups, tail), '/');
      JoinLacks(Pieces(WithTail(groups, tail)), ':', '/');
      assert WithTail(groups, tail)[0] == groups[0] && groups[0] in groups;
    case Gap(left, right, tail) =>
      GroupsArePieces(left);
      TailPieces(right, tail);
      PiecesLack(left, '/');
      PiecesLack(WithTail(right, tail), '/');
      JoinLacks(Pieces(left), ':', '/');
      JoinLacks(Pieces(WithTail(right, tail)), ':', '/');
  }

  /** The prefix length an entry asks for: the text after the first slash, else the full width. */
  function PrefixLength(number: string -> Option<nat>, rest: seq<string>, width: nat): Option<nat> {
    if |rest| == 0 then Some(width) else number(rest[0])
  }

  /** The first `bits` of `w` bits set, the others clear. */
  function HighMask(bits: nat, w: nat): nat
    requires bits <= w
  {
    Pow2Grows(w - bits, w);
    Pow2(w) - Pow2(w - bits)
  }

  /** The lowest `h` bits cleared. */
  function Truncated(v: nat, h: nat): nat {
    Shl(Shr(v, h), h)
  }

  lemma MaskAndBase(v: nat, w: nat, bits: nat)
    requires bits <= w && v < Pow2(w)
    ensures var mask := Xor(Shl(1, w) - 1, Shl(1, w - bits) - 1);
      mask == HighMask(bits, w) && And(v, mask) == Truncated(v, w - bits)
  {
    XorOfOnes(w, w - bits);
    AndHigh(v, w, w - bits);
  }

  /** The mask is the high-bit mask; the stored base keeps the top bits and clears the rest. */
  lemma EntryMask(family: Family, v: nat, bits: nat)
    requires bits <= Width(family) && v < Pow2(Width(family))
    ensures var w := Width(family);
      Entry(family, v, bits) == ParsedCidr(family, Truncated(v, w - bits), HighMask(bits, w), bits)
  {
    var w := Width(family);
    MaskAndBase(v, w, bits);
  }

  /** Equal truncations are equal high bits. */
  lemma TruncatedAgree(x: nat, y: nat, h: nat, w: nat)
    requires h <= w && x < Pow2(w) && y < Pow2(w)
    ensures Truncated(x, h) == Truncated(y, h) <==> SameBitsFrom(x, y, h, w)
  {
    ShlInjective(Shr(x, h), Shr(y, h), h);
    HighBits(x, y, h, w);
  }

  lemma EntriesAgree(family: Family, x: nat, y: nat, bits: nat)
    requires bits <= Width(family) && x < Pow2(Width(family)) && y < Pow2(Width(family))
    ensures var w := Width(family);
      Entry(family, x, bits) == Entry(family, y, bits) <==> SameBitsFrom(x, y, w - bits, w)
  {
    var w := Width(family);
    EntryMask(family, x, bits);
    EntryMask(family, y, bits);
    TruncatedAgree(x, y, w - bits, w);
  }

  /** Masking an address gives the base of the entry exactly when the top bits agree. */
  lemma MaskedMatch(family: Family, x: nat, base: nat, bits: nat)
    requires bits <= Width(family) && x < Pow2(Width(family)) && base < Pow2(Width(family))
    ensures var w := Width(family);
      var cidr := Entry(family, base, bits);
      And(x, cidr.mask) == cidr.base <==> SameBitsFrom(x, base, w - bits, w)
  {
    var w := Width(family);
    EntryMask(family, base, bits);
    MaskAndBase(x, w, bits);
    TruncatedAgree(x, base, w - bits, w);
  }

  ghost predicate Recognised(isIP: string -> Family, a: Address) {
    isIP(Written(a)) == FamilyOf(a)
  }

  /** What an allow-list line of an address and anything after slashes becomes. */
  lemma ParsesTo(isIP: string -> Family, number: string -> Option<nat>, a: Address, rest: seq<string>)
    requires WellFormed(a) && Recognised(isIP, a)
    requires forall n: nat :: n < 256 ==> number(Decimal(n)) == Some(n)
    requires forall p :: p in rest ==> Lacks(p, '/')
    ensures var w := WidthOf(a);
      var bits := PrefixLength(number, rest, w);
      ParseCidr(isIP, number, Join([Written(a)] + rest, '/')) ==
      if bits == None || bits.value > w then Ok(None)
      else if !Readable(a) then Err(RangeError)
      else Ok(Some(Entry(FamilyOf(a), ReadAs(a), bits.value)))
  {
    var w := WidthOf(a);
    var bits := PrefixLength(number, rest, w);
    WrittenLacksSlash(a);
    SplitJoin([Written(a)] + rest, '/');
    ReadsAddress(number, a);
  }

  // ---------------------------------------------------------------- matching

  /** A line that does not start with an address is no entry, and whatever is no address matches
      none. */
  lemma NoAddressNoEntry(isIP: string -> Family, number: string -> Option<nat>, ip: string, rest: seq<string>, cidr: ParsedCidr)
    requires Lacks(ip, '/') && forall p :: p in rest ==> Lacks(p, '/')
    requires ip == "" || isIP(ip) == NotIp
    ensures ParseCidr(isIP, number, Join([ip] + rest, '/')) == Ok(None)
    ensures isIP(ip) == NotIp && cidr.family != NotIp ==> IpInCidr(isIP, number, ip, cidr) == Ok(false)
  {
    SplitJoin([ip] + rest, '/');
  }


  lemma EntryMatches(isIP: string -> Family, number: string -> Option<nat>, family: Family, base: nat, bits: nat, b: Address)
    requires bits <= Width(family) && base < Pow2(Width(family))
    requires WellFormed(b) && Recognised(isIP, b)
    requires forall n: nat :: n < 256 ==> number(Decimal(n)) == Some(n)
    ensures var w := Width(family);
      IpInCidr(isIP, number, Written(b), Entry(family, base, bits)) ==
      if FamilyOf(b) != family then Ok(false)
      else if !Readable(b) then Err(RangeError)
      else Ok(SameBitsFrom(ReadAs(b), base, w - bits, w))
  {
    ReadsAddress(number, b);
    if FamilyOf(b) == family {
      MaskedMatch(family, ReadAs(b), base, bits);
    }
  }

  lemma ParsedIsEntry(isIP: string -> Family, number: string -> Option<nat>, a: Address, rest: seq<string>, cidr: ParsedCidr)
    requires WellFormed(a) && Recognised(isIP, a)
    requires forall n: nat :: n < 256 ==> number(Decimal(n)) == Some(n)
    requires forall p :: p in rest ==> Lacks(p, '/')
    requires ParseCidr(isIP, number, Join([Written(a)] + rest, '/')) == Ok(Some(cidr))
    ensures cidr.bits <= WidthOf(a) && Some(cidr.bits) == PrefixLength(number, rest, WidthOf(a))
    ensures cidr == Entry(FamilyOf(a), ReadAs(a), cidr.bits)
  {
    ParsesTo(isIP, number, a, rest);
  }

  /** Matching is agreement of the first `bits` bits of what is read, for every prefix length from
      none of the bits to all of them; addresses of the other family never match. */
  lemma MatchIsAgreement(isIP: string -> Family, number: string -> Option<nat>, a: Address, rest: seq<string>, cidr: ParsedCidr, b: Address)
    requires WellFormed(a) && Recognised(isIP, a) && WellFormed(b) && Recognised(isIP, b)
    requires forall n: nat :: n < 256 ==> number(Decimal(n)) == Some(n)
    requires forall p :: p in rest ==> Lacks(p, '/')
    requires ParseCidr(isIP, number, Join([Written(a)] + rest, '/')) == Ok(Some(cidr))
    ensures var w := WidthOf(a);
      && cidr.bits <= w && Some(cidr.bits) == PrefixLength(number, rest, w)
      && IpInCidr(isIP, number, Written(b), cidr) ==
         if FamilyOf(b) != FamilyOf(a) then Ok(false)
         else if !Readable(b) then Err(RangeError)
         else Ok(SameBitsFrom(ReadAs(b), ReadAs(a), w - cidr.bits, w))
  {
    ParsedIsEntry(isIP, number, a, rest, cidr);
    ReadsAddress(number, a);
    EntryMatches(isIP, number, FamilyOf(a), ReadAs(a), cidr.bits, b);
  }

  /** So between addresses that are read right, matching is agreement of the addresses themselves. */
  lemma MatchIsTrue(isIP: string -> Family, number: string -> Option<nat>, a: Address, rest: seq<string>, cidr: ParsedCidr, b: Address)
    requires WellFormed(a) && Recognised(isIP, a) && WellFormed(b) && Recognised(isIP, b)
    requires FamilyOf(a) == FamilyOf(b) && Readable(b) && TailHarmless(a) && TailHarmless(b)
    requires forall n: nat :: n < 256 ==> number(Decimal(n)) == Some(n)
    requires forall p :: p in rest ==> Lacks(p, '/')
    requires ParseCidr(isIP, number, Join([Written(a)] + rest, '/')) == Ok(Some(cidr))
    ensures cidr.bits <= WidthOf(a)
    ensures var w := WidthOf(a);
      IpInCidr(isIP, number, Written(b), cidr) == Ok(SameBitsFrom(Value(b), Value(a), w - cidr.bits, w))
  {
    MatchIsAgreement(isIP, number, a, rest, cidr, b);
    ReadsRight(a);
    ReadsRight(b);
  }

  /** The host bits of the written base do not matter: two lines of one prefix length become the
      same entry exactly when their addresses agree on the prefix. */
  lemma HostBitsIgnored(isIP: string -> Family, number: string -> Option<nat>, a: Address, b: Address, rest: seq<string>)
    requires WellFormed(a) && Recognised(isIP, a) && WellFormed(b) && Recognised(isIP, b)
    requires Readable(a) && Readable(b) && FamilyOf(a) == FamilyOf(b)
    requires forall n: nat :: n < 256 ==> number(Decimal(n)) == Some(n)
    requires forall p :: p in rest ==> Lacks(p, '/')
    requires var bits := PrefixLength(number, rest, WidthOf(a));
      bits.Some? && bits.value <= WidthOf(a)
    ensures var w := WidthOf(a);
      var h := w - PrefixLength(number, rest, w).value;
      ParseCidr(isIP, number, Join([Written(a)] + rest, '/')) == ParseCidr(isIP, number, Join([Written(b)] + rest, '/'))
      <==> SameBitsFrom(ReadAs(a), ReadAs(b), h, w)
  {
    ParsesTo(isIP, number, a, rest);
    ParsesTo(isIP, number, b, rest);
    ReadsAddress(number, a);
    ReadsAddress(number, b);
    var w := WidthOf(a);
    EntriesAgree(FamilyOf(a), ReadAs(a), ReadAs(b), PrefixLength(number, rest, w).value);
  }

  // ---------------------------------------------------------------- blocks

  ghost predicate InBlock(x: nat, base: nat, bits: nat, w: nat)
    requires bits <= w
  {
    x < Pow2(w) && SameBitsFrom(x, base, w - bits, w)
  }

  /** All addresses of `w` bits that agree with `base` on the first `bits`. */
  ghost function Block(base: nat, bits: nat, w: nat): set<nat>
    requires bits <= w
  {
    set x: nat | x < Pow2(w) && InBlock(x, base, bits, w)
  }

  function Interval(lo: nat, n: nat): (s: set<nat>)
    ensures |s| == n && forall x :: x in s <==> lo <= x < lo + n
  {
    if n == 0 then {} else Interval(lo, n - 1) + {lo + n - 1}
  }

  /** A block of prefix length `bits` has 2^(w - bits) members. */
  lemma BlockSize(base: nat, bits: nat, w: nat)
    requires bits <= w && base < Pow2(w)
    ensures |Block(base, bits, w)| == Pow2(w - bits)
  {
    var h := w - bits;
    var q := Shr(base, h);
    ShrBound(base, h, w);
    ShlTop(q, h, w);
    forall x: nat ensures x in Block(base, bits, w) <==> Shl(q, h) <= x < Shl(q, h) + Pow2(h) {
      ShrRange(x, q, h);
      if x < Pow2(w) {
        HighBits(x, base, h, w);
      }
    }
    assert Block(base, bits, w) == Interval(Shl(q, h), Pow2(h));
  }

  /** Of two blocks the narrower one lies inside the wider one, or they share nothing; inside
      exactly when the narrower base agrees with the wider one on the shorter prefix. */
  lemma NestedOrDisjoint(a: nat, m: nat, b: nat, n: nat, w: nat)
    requires m <= n <= w && a < Pow2(w) && b < Pow2(w)
    ensures SameBitsFrom(b, a, w - m, w) ==> Block(b, n, w) <= Block(a, m, w)
    ensures !SameBitsFrom(b, a, w - m, w) ==> Block(b, n, w) !! Block(a, m, w)
  {
    assert forall x :: x in Block(b, n, w) ==> InBlock(x, b, n, w) && SameBitsFrom(x, b, w - m, w);
    if SameBitsFrom(b, a, w - m, w) {
      forall x | x in Block(b, n, w) ensures InBlock(x, a, m, w) {
        assert SameBitsFrom(x, b, w - m, w);
      }
    } else if x :| x in Block(b, n, w) && x in Block(a, m, w) {
      assert InBlock(x, a, m, w) && SameBitsFrom(x, b, w - m, w);
      assert SameBitsFrom(b, a, w - m, w);
    }
  }
}
