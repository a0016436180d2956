/** What the allow-list's code reads of a written IP address: the texts of section 2.2 of RFC 4291
    and the dotted quad, the number each denotes, and the number the code makes of it. Groups are
    read by their hexadecimal digits, a "::" is filled up to eight pieces, and a dotted tail counts
    as one piece, of which only the first octet is read. */
module CidrAddresses {
  import opened Options
  import opened Sorting
  import opened Text
  import opened Bits
  import opened Cidr

  // ---------------------------------------------------------------- addresses as RFC 4291 writes them

  /** Eight groups, or a "::" standing for the missing zero groups; either may end in a dotted
      quad, `tail`, in place of the last two groups. And the dotted quad alone. */
  datatype Address =
    | Quad(octets: seq<nat>)
    | Full(groups: seq<string>, tail: seq<nat>)
    | Gap(left: seq<string>, right: seq<string>, tail: seq<nat>)

  ghost predicate IsGroup(g: string) {
    1 <= |g| <= 4 && AllHex(g)
  }

  ghost predicate AreGroups(groups: seq<string>) {
    forall g :: g in groups ==> IsGroup(g)
  }

  ghost predicate IsQuad(octets: seq<nat>) {
    |octets| == 4 && forall o :: o in octets ==> o < 256
  }

  function TailGroups(tail: seq<nat>): nat {
    if |tail| == 0 then 0 else 2
  }

  ghost predicate WellFormed(a: Address) {
    match a
    case Quad(octets) => IsQuad(octets)
    case Full(groups, tail) => AreGroups(groups) && (tail == [] || IsQuad(tail)) && |groups| + TailGroups(tail) == 8
    case Gap(left, right, tail) =>
      AreGroups(left) && AreGroups(right) && (tail == [] || IsQuad(tail)) && |left| + |right| + TailGroups(tail) <= 7
  }

  function FamilyOf(a: Address): Family {
    if a.Quad? then V4 else V6
  }

  /** The number of bits of the address. */
  function WidthOf(a: Address): nat {
    if a.Quad? then 32 else 128
  }

  function Decimals(octets: seq<nat>): (r: seq<string>)
    ensures |r| == |octets| && forall i :: 0 <= i < |r| ==> r[i] == Decimal(octets[i])
  {
    if |octets| == 0 then [] else [Decimal(octets[0])] + Decimals(octets[1..])
  }

  /** At least one piece: nothing written still splits into one empty piece. */
  function Pieces(groups: seq<string>): (r: seq<string>)
    ensures |r| > 0
  {
    if |groups| == 0 then [""] else groups
  }

  function QuadText(octets: seq<nat>): string {
    Join(Pieces(Decimals(octets)), '.')
  }

  function WithTail(groups: seq<string>, tail: seq<nat>): seq<string> {
    if |tail| == 0 then groups else groups + [QuadText(tail)]
  }

  function Written(a: Address): string {
    match a
    case Quad(octets) => QuadText(octets)
    case Full(groups, tail) => Join(Pieces(WithTail(groups, tail)), ':')
    case Gap(left, right, tail) => Join(Pieces(left), ':') + "::" + Join(Pieces(WithTail(right, tail)), ':')
  }

  /** Most significant digit first, in base 2^k. */
  function Positional(digits: seq<nat>, k: nat): nat {
    if |digits| == 0 then 0 else digits[0] * Pow2(k * (|digits| - 1)) + Positional(digits[1..], k)
  }

  ghost function GroupValues(groups: seq<string>): (r: seq<nat>)
    requires AreGroups(groups)
    ensures |r| == |groups| && forall i :: 0 <= i < |r| ==> IsGroup(groups[i]) && r[i] == HexValue(groups[i])
  {
    if |groups| == 0 then []
    else
      assert groups[0] in groups;
      [HexValue(groups[0])] + GroupValues(groups[1..])
  }

  function NoGroups(n: nat): (r: seq<nat>)
    ensures |r| == n && forall i :: 0 <= i < n ==> r[i] == 0
  {
    if n == 0 then [] else [0] + NoGroups(n - 1)
  }

  function TailDigits(tail: seq<nat>): seq<nat>
    requires tail == [] || |tail| == 4
  {
    if |tail| == 0 then [] else [tail[0] * 256 + tail[1], tail[2] * 256 + tail[3]]
  }

  /** Eight digits with zeros in the middle. */
  function Filled(l: seq<nat>, r: seq<nat>): (s: seq<nat>)
    requires |l| + |r| <= 8
    ensures |s| == 8
  {
    l + NoGroups(8 - |l| - |r|) + r
  }

  /** Eight digits with zeros in front. */
  function Padded(r: seq<nat>): (s: seq<nat>)
    requires |r| <= 8
    ensures |s| == 8
  {
    NoGroups(8 - |r|) + r
  }

  /** The eight groups an IPv6 text denotes. */
  ghost function Digits(a: Address): seq<nat>
    requires WellFormed(a) && !a.Quad?
  {
    match a
    case Full(groups, tail) => GroupValues(groups) + TailDigits(tail)
    case Gap(left, right, tail) =>
      Filled(GroupValues(left), GroupValues(right) + TailDigits(tail))
  }

  /** The 32- or 128-bit number the address denotes. */
  ghost function Value(a: Address): nat
    requires WellFormed(a)
  {
    match a
    case Quad(octets) => Positional(octets, 8)
    case _ => Positional(Digits(a), 16)
  }

  // ---------------------------------------------------------------- what the code makes of it

  /** The conversion gets through a "::" only with something written on both sides of it. */
  predicate Readable(a: Address) {
    a.Gap? ==> |a.left| > 0 && |a.right| + |a.tail| > 0
  }

  /** A dotted tail is read as one group: the digits of its first octet, in base 16. */
  function ReadTail(tail: seq<nat>): (r: seq<nat>)
    ensures |r| == if |tail| == 0 then 0 else 1
  {
    DecimalIsHex(if |tail| == 0 then 0 else tail[0]);
    if |tail| == 0 then [] else [HexValue(Decimal(tail[0]))]
  }

  /** The eight groups the code reads. */
  ghost function ReadDigits(a: Address): seq<nat>
    requires WellFormed(a) && !a.Quad?
  {
    match a
    case Full(groups, tail) => Padded(GroupValues(groups) + ReadTail(tail))
    case Gap(left, right, tail) => Filled(GroupValues(left), GroupValues(right) + ReadTail(tail))
  }

  ghost function ReadAs(a: Address): nat
    requires WellFormed(a)
  {
    match a
    case Quad(octets) => Positional(octets, 8)
    case _ => Positional(ReadDigits(a), 16)
  }

  /** The groups a dotted tail pushes out of place. */
  function Displaced(a: Address): seq<string>
    requires !a.Quad?
  {
    if a.Full? then a.groups else a.right
  }

  /** No dotted tail, or one of four zeros that displaces nothing but zero groups. */
  ghost predicate TailHarmless(a: Address)
    requires WellFormed(a)
  {
    a.Quad? || a.tail == []
    || ((forall o :: o in a.tail ==> o == 0) && forall g :: g in Displaced(a) ==> IsGroup(g) && HexValue(g) == 0)
  }

  // ---------------------------------------------------------------- hexadecimal pieces

  const LOWER_HEX: string := "0123456789abcdef"
  const UPPER_HEX: string := "0123456789ABCDEF"

  /** The hexadecimal digits are those of either list, each worth its place there. */
  lemma HexDigitsExactly(c: char, v: nat)
    ensures HexDigit(c) && HexDigitValue(c) == v <==> v < 16 && (LOWER_HEX[v] == c || UPPER_HEX[v] == c)
  {
    assert |LOWER_HEX| == 16 && |UPPER_HEX| == 16;
    if HexDigit(c) {
      var n := HexDigitValue(c);
      assert n < 10 || c == LOWER_HEX[n] || c == UPPER_HEX[n];
    }
  }

  /** The digits of the text, of either case. */
  ghost predicate Spells(s: string, digits: seq<nat>) {
    |digits| == |s| && forall i :: 0 <= i < |s| ==> digits[i] < 16 && s[i] in [LOWER_HEX[digits[i]], UPPER_HEX[digits[i]]]
  }

  lemma SpelledHex(s: string, digits: seq<nat>)
    requires Spells(s, digits)
    ensures AllHex(s)
  {
    forall c | c in s ensures HexDigit(c) {
      var i :| 0 <= i < |s| && s[i] == c;
      HexDigitsExactly(s[i], digits[i]);
    }
  }

  /** A group's value is that of its digits in base 16, most significant first. */
  lemma {:induction false} HexValueExactly(s: string, digits: seq<nat>)
    requires Spells(s, digits)
    ensures AllHex(s) && HexValue(s) == Positional(digits, 4)
  {
    SpelledHex(s, digits);
    if s != "" {
      var n := |s| - 1;
      LastSpelled(s, digits);
      HexValueExactly(s[..n], digits[..n]);
      PositionalSnoc(digits[..n], digits[n], 4);
    }
  }

  lemma LastSpelled(s: string, digits: seq<nat>)
    requires Spells(s, digits) && s != ""
    ensures var n := |s| - 1;
      && Spells(s[..n], digits[..n])
      && HexDigit(s[n]) && HexDigitValue(s[n]) == digits[n]
      && digits == digits[..n] + [digits[n]]
  {
    HexDigitsExactly(s[|s| - 1], digits[|s| - 1]);
  }

  lemma {:induction false} PositionalSnoc(digits: seq<nat>, d: nat, k: nat)
    ensures Positional(digits + [d], k) == Positional(digits, k) * Pow2(k) + d
  {
    var all := digits + [d];
    if |digits| == 0 {
      assert all == [d] && all[1..] == [] && k * 0 == 0;
    } else {
      assert all[0] == digits[0] && all[1..] == digits[1..] + [d];
      PositionalSnoc(digits[1..], d, k);
      NextPlace(k, |digits| - 1);
      Pow2Splits(k * (|digits| - 1), k);
      Gathered(digits[0], Pow2(k * (|digits| - 1)), Pow2(k), Positional(digits[1..], k), d);
    }
  }

  lemma Gathered(x: nat, p: nat, q: nat, r: nat, d: nat)
    ensures x * (p * q) + (r * q + d) == (x * p + r) * q + d
  {
    assert x * (p * q) == (x * p) * q;
    assert (x * p + r) * q == (x * p) * q + r * q;
  }

  lemma DecimalIsHex(n: nat)
    ensures AllHex(Decimal(n))
  {
    DecimalDigits(n);
  }

  lemma {:induction false} HexPrefixWhole(s: string)
    requires AllHex(s)
    ensures HexPrefix(s) == s
  {
    if s != "" {
      HexPrefixWhole(s[1..]);
      assert s == [s[0]] + s[1..];
    }
  }

  lemma {:induction false} HexValueBound(s: string)
    requires AllHex(s)
    ensures HexValue(s) < Pow2(4 * |s|)
  {
    if s != "" {
      HexValueBound(s[..|s| - 1]);
      Pow2Splits(4 * (|s| - 1), 4);
      assert Pow2(4) == 16;
    }
  }

  lemma {:induction false} HexPrefixStops(s: string, rest: string)
    requires AllHex(s) && (rest == "" || !HexDigit(rest[0]))
    ensures HexPrefix(s + rest) == s
  {
    if s == "" {
      assert s + rest == rest;
    } else {
      assert s[0] in s && forall c :: c in s[1..] ==> c in s;
      HexPrefixStops(s[1..], rest);
      assert (s + rest)[1..] == s[1..] + rest;
    }
  }

  /** What stands between two colons: something that starts like a group. */
  ghost predicate IsPiece(p: string) {
    p != "" && Lacks(p, ':') && Lacks(p, '/') && 1 <= |HexPrefix(p)| <= 4
  }

  ghost predicate ArePieces(pieces: seq<string>) {
    forall p :: p in pieces ==> IsPiece(p)
  }

  function PieceValues(pieces: seq<string>): (r: seq<nat>)
    ensures |r| == |pieces| && forall i :: 0 <= i < |r| ==> r[i] == HexValue(HexPrefix(pieces[i]))
  {
    if |pieces| == 0 then [] else [HexValue(HexPrefix(pieces[0]))] + PieceValues(pieces[1..])
  }

  lemma GroupIsPiece(g: string)
    requires IsGroup(g)
    ensures IsPiece(g) && HexPrefix(g) == g
  {
    HexPrefixWhole(g);
  }

  lemma GroupsArePieces(groups: seq<string>)
    requires AreGroups(groups)
    ensures ArePieces(groups) && PieceValues(groups) == GroupValues(groups)
  {
    forall g | g in groups ensures IsPiece(g) && HexPrefix(g) == g {
      GroupIsPiece(g);
    }
  }

  lemma PieceReads(p: string)
    requires IsPiece(p)
    ensures ParseIntHex(p) == Some(HexValue(HexPrefix(p))) && HexValue(HexPrefix(p)) < Pow2(16)
  {
    HexValueBound(HexPrefix(p));
    Pow2Grows(4 * |HexPrefix(p)|, 16);
  }

  // ---------------------------------------------------------------- the dotted tail as a piece

  lemma ShortDecimal(n: nat)
    requires n < 256
    ensures 1 <= |Decimal(n)| <= 3
  {
    assert n >= 100 ==> |Decimal(n / 10)| == |Decimal(n / 100)| + 1;
  }

  lemma QuadTextStarts(octets: seq<nat>)
    requires |octets| == 4
    ensures var rest := QuadText(octets)[|Decimal(octets[0])|..];
      |QuadText(octets)| >= |Decimal(octets[0])| && QuadText(octets) == Decimal(octets[0]) + rest && rest != "" && rest[0] == '.'
  {
    var p := Pieces(Decimals(octets));
    assert QuadText(octets) == p[0] + ['.'] + Join(p[1..], '.');
  }

  lemma DecimalsLack(octets: seq<nat>, d: char)
    requires !('0' <= d <= '9')
    ensures forall s :: s in Pieces(Decimals(octets)) ==> Lacks(s, d)
  {
    forall s | s in Pieces(Decimals(octets)) ensures Lacks(s, d) {
      if s in Decimals(octets) {
        var i :| 0 <= i < |octets| && s == Decimal(octets[i]);
        DecimalDigits(octets[i]);
      }
    }
  }

  lemma QuadTextLacks(octets: seq<nat>, d: char)
    requires !('0' <= d <= '9') && d != '.'
    ensures Lacks(QuadText(octets), d)
  {
    DecimalsLack(octets, d);
    JoinLacks(Pieces(Decimals(octets)), '.', d);
  }

  lemma QuadIsPiece(octets: seq<nat>)
    requires IsQuad(octets)
    ensures IsPiece(QuadText(octets)) && HexPrefix(QuadText(octets)) == Decimal(octets[0])
  {
    QuadTextStarts(octets);
    QuadTextLacks(octets, ':');
    QuadTextLacks(octets, '/');
    DecimalIsHex(octets[0]);
    HexPrefixStops(Decimal(octets[0]), QuadText(octets)[|Decimal(octets[0])|..]);
    assert octets[0] in octets;
    ShortDecimal(octets[0]);
  }

  lemma TailPieces(groups: seq<string>, tail: seq<nat>)
    requires AreGroups(groups) && (tail == [] || IsQuad(tail))
    ensures ArePieces(WithTail(groups, tail))
    ensures PieceValues(WithTail(groups, tail)) == GroupValues(groups) + ReadTail(tail)
  {
    GroupsArePieces(groups);
    if tail != [] {
      QuadIsPiece(tail);
      JoinValues(groups, [QuadText(tail)]);
      OnePiece(QuadText(tail));
    }
  }

  lemma OnePiece(p: string)
    ensures PieceValues([p]) == [HexValue(HexPrefix(p))]
  {
  }

  lemma JoinValues(a: seq<string>, b: seq<string>)
    ensures PieceValues(a + b) == PieceValues(a) + PieceValues(b)
  {
  }

  // ---------------------------------------------------------------- the shift-and-or reduce

  lemma FirstPlace(digits: seq<nat>, acc: nat, k: nat, below: nat)
    requires |digits| > 0 && digits[0] < Pow2(k) && below == k * (|digits| - 1) && Positional(digits[1..], k) < Pow2(below)
    ensures Shl(Shl(acc, k) + digits[0], below) + Positional(digits[1..], k) == Shl(acc, k + below) + Positional(digits, k)
    ensures Positional(digits, k) < Pow2(k + below)
  {
    Places(acc, digits[0], k, below);
    ShlIsTimes(digits[0], below);
  }

  lemma {:induction false} FoldReads(parts: seq<string>, parse: string -> Option<nat>, k: nat, acc: nat, digits: seq<nat>, m: nat)
    requires |parts| == |digits| && m == k * |digits|
    requires forall i :: 0 <= i < |parts| ==> parse(parts[i]) == Some(digits[i]) && digits[i] < Pow2(k)
    ensures Fold(parts, parse, k, acc) == Ok(Shl(acc, m) + Positional(digits, k))
    ensures Positional(digits, k) < Pow2(m)
  {
    if |parts| > 0 {
      var d, rest, below := digits[0], digits[1..], k * (|digits| - 1);
      assert parse(parts[0]) == Some(d);
      NextPlace(k, |digits| - 1);
      FoldReads(parts[1..], parse, k, Shl(acc, k) + d, rest, below);
      OrShifted(acc, k, d);
      FirstPlace(digits, acc, k, below);
    }
  }

  lemma FoldFromZero(parts: seq<string>, parse: string -> Option<nat>, k: nat, digits: seq<nat>, m: nat)
    requires |parts| == |digits| && m == k * |digits|
    requires forall i :: 0 <= i < |parts| ==> parse(parts[i]) == Some(digits[i]) && digits[i] < Pow2(k)
    ensures Fold(parts, parse, k, 0) == Ok(Positional(digits, k))
    ensures Positional(digits, k) < Pow2(m)
  {
    FoldReads(parts, parse, k, 0, digits, m);
    ShlZero(m);
  }

  lemma NextPlace(k: nat, n: nat)
    ensures k * (n + 1) == k + k * n
  {
  }

  lemma Places(acc: nat, d: nat, k: nat, m: nat)
    requires d < Pow2(k)
    ensures Shl(Shl(acc, k) + d, m) == Shl(acc, k + m) + Shl(d, m)
    ensures Shl(d, m) + Pow2(m) <= Pow2(k + m)
  {
    ShlAdds(Shl(acc, k), d, m);
    ShlShl(acc, k, m);
    ShlTop(d, m, k + m);
  }

  lemma {:induction false} FoldFails(parts: seq<string>, parse: string -> Option<nat>, k: nat, acc: nat, i: nat)
    requires i < |parts| && parse(parts[i]) == None
    ensures Fold(parts, parse, k, acc) == Err(RangeError)
  {
    if i > 0 && parse(parts[0]).Some? {
      FoldFails(parts[1..], parse, k, Or(Shl(acc, k), parse(parts[0]).value), i - 1);
    }
  }

  // ---------------------------------------------------------------- the written forms split back

  lemma {:induction false} JoinAppend(s: seq<string>, t: seq<string>, d: char)
    requires |s| > 0 && |t| > 0
    ensures Join(s + t, d) == Join(s, d) + [d] + Join(t, d)
  {
    if |s| == 1 {
      assert (s + t)[1..] == t;
    } else {
      JoinAppend(s[1..], t, d);
      assert (s + t)[1..] == s[1..] + t;
      assert s[0] + [d] + (Join(s[1..], d) + [d] + Join(t, d)) == s[0] + [d] + Join(s[1..], d) + [d] + Join(t, d);
    }
  }

  lemma {:induction false} JoinLacks(pieces: seq<string>, d: char, e: char)
    requires |pieces| > 0 && d != e && forall p :: p in pieces ==> Lacks(p, e)
    ensures Lacks(Join(pieces, d), e)
  {
    assert Lacks(pieces[0], e);
    if |pieces| > 1 {
      JoinLacks(pieces[1..], d, e);
    }
  }

  lemma PiecesLack(pieces: seq<string>, d: char)
    requires ArePieces(pieces) && (d == ':' || d == '/')
    ensures forall p :: p in Pieces(pieces) ==> Lacks(p, d)
  {
    forall p | p in Pieces(pieces) ensures Lacks(p, d) {
      assert p in pieces ==> IsPiece(p);
    }
  }

  lemma SplitFull(pieces: seq<string>)
    requires ArePieces(pieces)
    ensures Split(Join(Pieces(pieces), ':'), ':') == Pieces(pieces)
  {
    PiecesLack(pieces, ':');
    SplitJoin(Pieces(pieces), ':');
  }

  lemma SplitGap(left: seq<string>, right: seq<string>)
    requires ArePieces(left) && ArePieces(right)
    ensures Split(Join(Pieces(left), ':') + "::" + Join(Pieces(right), ':'), ':') == Pieces(left) + [""] + Pieces(right)
  {
    var l, r := Pieces(left), Pieces(right);
    PiecesLack(left, ':');
    PiecesLack(right, ':');
    JoinAppend(l + [""], r, ':');
    JoinAppend(l, [""], ':');
    assert Join([""], ':') == "";
    assert Join(l, ':') + [':'] + "" + [':'] + Join(r, ':') == Join(l, ':') + "::" + Join(r, ':');
    SplitJoin(l + [""] + r, ':');
  }

  lemma SplitQuad(octets: seq<nat>)
    ensures Split(QuadText(octets), '.') == Pieces(Decimals(octets))
  {
    DecimalsLack(octets, '.');
    SplitJoin(Pieces(Decimals(octets)), '.');
  }

  // ---------------------------------------------------------------- expanding

  lemma {:induction false} FirstEmpty(left: seq<string>, tail: seq<string>)
    requires "" !in left
    ensures IndexOf(left + [""] + tail, "") == Some(|left|)
  {
    var groups := left + [""] + tail;
    if |left| > 0 {
      assert groups[0] == left[0] && left[0] in left;
      assert groups[1..] == left[1..] + [""] + tail;
      FirstEmpty(left[1..], tail);
    }
  }

  lemma NoEmptyPiece(pieces: seq<string>)
    requires ArePieces(pieces)
    ensures "" !in pieces
  {
    assert !IsPiece("");
  }

  lemma FullExpands(pieces: seq<string>)
    requires ArePieces(pieces)
    ensures ExpandV6(pieces) == Ok(pieces)
  {
    NoEmptyPiece(pieces);
  }

  /** An interior "::" is filled up to eight groups. */
  lemma InteriorExpands(left: seq<string>, right: seq<string>)
    requires ArePieces(left) && |left| + |right| <= 8
    ensures ExpandV6(left + [""] + right) == Ok(left + Zeros(8 - |left| - |right|) + right)
  {
    NoEmptyPiece(left);
    FirstEmpty(left, right);
    Around(left, "", right);
  }

  lemma Around(left: seq<string>, p: string, right: seq<string>)
    ensures var s := left + [p] + right;
      |s| == |left| + 1 + |right| && s[..|left|] == left && s[|left| + 1..] == right
  {
  }

  /** A leading or trailing "::" leaves a second empty group behind. */
  lemma OuterExpands(left: seq<string>, right: seq<string>)
    requires ArePieces(left) && |left| + |right| <= 7 && (|left| == 0 || |right| == 0)
    ensures var full := ExpandV6(Pieces(left) + [""] + Pieces(right)); full.Ok? && "" in full.value
  {
    var groups := Pieces(left) + [""] + Pieces(right);
    if |left| == 0 {
      FirstEmpty([], [""] + Pieces(right));
      assert groups == [] + [""] + ([""] + Pieces(right));
      assert groups[1..][0] == "";
    } else {
      NoEmptyPiece(left);
      FirstEmpty(left, [""]);
      assert groups[|left| + 1..] == [""];
      assert groups[|left| + 1..][0] == "";
    }
  }

  // ---------------------------------------------------------------- reading

  lemma QuadReads(number: string -> Option<nat>, octets: seq<nat>)
    requires IsQuad(octets) && forall n: nat :: n < 256 ==> number(Decimal(n)) == Some(n)
    ensures IpToBigInt(number, QuadText(octets), V4) == Ok(Positional(octets, 8)) && Positional(octets, 8) < Pow2(32)
  {
    SplitQuad(octets);
    assert Pow2(8) == 256;
    forall i | 0 <= i < 4 ensures number(Decimals(octets)[i]) == Some(octets[i]) && octets[i] < 256 {
      assert octets[i] in octets;
    }
    FoldFromZero(Decimals(octets), number, 8, octets, 32);
  }

  lemma PiecesRead(pieces: seq<string>)
    requires ArePieces(pieces)
    ensures Fold(pieces, ParseIntHex, 16, 0) == Ok(Positional(PieceValues(pieces), 16))
    ensures Positional(PieceValues(pieces), 16) < Pow2(16 * |pieces|)
  {
    forall i | 0 <= i < |pieces|
      ensures ParseIntHex(pieces[i]) == Some(PieceValues(pieces)[i]) && PieceValues(pieces)[i] < Pow2(16)
    {
      assert pieces[i] in pieces;
      PieceReads(pieces[i]);
    }
    FoldFromZero(pieces, ParseIntHex, 16, PieceValues(pieces), 16 * |pieces|);
  }

  lemma {:induction false} LeadingZeros(n: nat, digits: seq<nat>)
    ensures Positional(NoGroups(n) + digits, 16) == Positional(digits, 16)
  {
    if n == 0 {
      assert NoGroups(0) + digits == digits;
    } else {
      LeadingZeros(n - 1, digits);
      assert (NoGroups(n) + digits)[1..] == NoGroups(n - 1) + digits;
      assert (NoGroups(n) + digits)[0] == 0;
    }
  }

  lemma FullReads(number: string -> Option<nat>, a: Address)
    requires WellFormed(a) && a.Full?
    ensures IpToBigInt(number, Written(a), V6) == Ok(ReadAs(a)) && ReadAs(a) < Pow2(128)
  {
    var pieces := WithTail(a.groups, a.tail);
    TailPieces(a.groups, a.tail);
    SplitFull(pieces);
    FullExpands(pieces);
    PiecesRead(pieces);
    LeadingZeros(8 - |pieces|, PieceValues(pieces));
    Pow2Grows(16 * |pieces|, 128);
  }

  lemma ZeroPieces(n: nat)
    ensures ArePieces(Zeros(n)) && PieceValues(Zeros(n)) == NoGroups(n)
  {
    assert "0"[..0] == "" && HexValue("") == 0 && HexValue("0") == 0;
    assert IsGroup("0");
    GroupIsPiece("0");
  }

  lemma ExpandedValues(left: seq<string>, n: nat, r: seq<string>)
    requires |left| + |r| + n == 8
    ensures PieceValues(left + Zeros(n) + r) == Filled(PieceValues(left), PieceValues(r))
  {
    ZeroPieces(n);
    JoinValues(left, Zeros(n));
    JoinValues(left + Zeros(n), r);
  }

  lemma FullPieces(left: seq<string>, n: nat, r: seq<string>, full: seq<string>)
    requires ArePieces(left) && ArePieces(r) && |left| + |r| + n == 8 && full == left + Zeros(n) + r
    ensures |full| == 8 && ArePieces(full) && PieceValues(full) == Filled(PieceValues(left), PieceValues(r))
  {
    ExpandedValues(left, n, r);
    ZeroPieces(n);
    ThreePieces(left, Zeros(n), r);
  }

  lemma GapFull(left: seq<string>, right: seq<string>, tail: seq<nat>)
    requires WellFormed(Gap(left, right, tail))
    ensures var r := WithTail(right, tail);
      var full := left + Zeros(8 - |left| - |r|) + r;
      |full| == 8 && ArePieces(full) && PieceValues(full) == ReadDigits(Gap(left, right, tail))
  {
    var r := WithTail(right, tail);
    GroupsArePieces(left);
    TailPieces(right, tail);
    FullPieces(left, 8 - |left| - |r|, r, left + Zeros(8 - |left| - |r|) + r);
    GapDigits(left, right, tail);
  }

  lemma GapDigits(left: seq<string>, right: seq<string>, tail: seq<nat>)
    requires WellFormed(Gap(left, right, tail))
    requires ArePieces(left) && ArePieces(WithTail(right, tail))
    requires PieceValues(left) == GroupValues(left)
    requires PieceValues(WithTail(right, tail)) == GroupValues(right) + ReadTail(tail)
    ensures ReadDigits(Gap(left, right, tail)) == Filled(PieceValues(left), PieceValues(WithTail(right, tail)))
  {
  }

  lemma ThreePieces(a: seq<string>, b: seq<string>, c: seq<string>)
    requires ArePieces(a) && ArePieces(b) && ArePieces(c)
    ensures ArePieces(a + b + c)
  {
    forall p | p in a + b + c ensures IsPiece(p) {
      assert p in a || p in b || p in c;
    }
  }

  lemma GapReads(number: string -> Option<nat>, a: Address)
    requires WellFormed(a) && a.Gap?
    ensures IpToBigInt(number, Written(a), V6) == if Readable(a) then Ok(ReadAs(a)) else Err(RangeError)
    ensures ReadAs(a) < Pow2(128)
  {
    var full := GapPieces(a);
    PiecesFold(number, a.left, WithTail(a.right, a.tail), full, Written(a));
  }

  lemma GapPieces(a: Address) returns (full: seq<string>)
    requires WellFormed(a) && a.Gap?
    ensures var r := WithTail(a.right, a.tail);
      && ArePieces(a.left) && ArePieces(r) && |a.left| + |r| <= 7
      && (Readable(a) <==> |a.left| > 0 && |r| > 0)
      && ArePieces(full) && full == a.left + Zeros(8 - |a.left| - |r|) + r
      && Positional(PieceValues(full), 16) == ReadAs(a)
  {
    GroupsArePieces(a.left);
    TailPieces(a.right, a.tail);
    GapFull(a.left, a.right, a.tail);
    var r := WithTail(a.right, a.tail);
    full := a.left + Zeros(8 - |a.left| - |r|) + r;
  }

  lemma PiecesFold(number: string -> Option<nat>, left: seq<string>, right: seq<string>, full: seq<string>, text: string)
    requires ArePieces(left) && ArePieces(right) && |left| + |right| <= 7
    requires ArePieces(full) && full == left + Zeros(8 - |left| - |right|) + right
    requires text == Join(Pieces(left), ':') + "::" + Join(Pieces(right), ':')
    ensures Positional(PieceValues(full), 16) < Pow2(128)
    ensures IpToBigInt(number, text, V6) ==
      if |left| > 0 && |right| > 0 then Ok(Positional(PieceValues(full), 16)) else Err(RangeError)
  {
    SplitGap(left, right);
    PiecesRead(full);
    if |left| > 0 && |right| > 0 {
      InteriorExpands(left, right);
    } else {
      OuterThrows(left, right);
    }
  }

  lemma OuterThrows(left: seq<string>, right: seq<string>)
    requires ArePieces(left) && |left| + |right| <= 7 && (|left| == 0 || |right| == 0)
    ensures var full := ExpandV6(Pieces(left) + [""] + Pieces(right));
      full.Ok? && Fold(full.value, ParseIntHex, 16, 0) == Err(RangeError)
  {
    OuterExpands(left, right);
    var full := ExpandV6(Pieces(left) + [""] + Pieces(right)).value;
    var i :| 0 <= i < |full| && full[i] == "";
    FoldFails(full, ParseIntHex, 16, 0, i);
  }

  /** Every well-formed address is read as `ReadAs`, below 2^width, exactly unless its "::" stands
      at an end of the text; then the conversion throws. */
  lemma ReadsAddress(number: string -> Option<nat>, a: Address)
    requires WellFormed(a)
    requires forall n: nat :: n < 256 ==> number(Decimal(n)) == Some(n)
    ensures IpToBigInt(number, Written(a), FamilyOf(a)) == if Readable(a) then Ok(ReadAs(a)) else Err(RangeError)
    ensures ReadAs(a) < Pow2(WidthOf(a))
  {
    match a
    case Quad(octets) => QuadReads(number, octets);
    case Full(_, _) => FullReads(number, a);
    case Gap(_, _, _) => GapReads(number, a);
  }

  // ---------------------------------------------------------------- when that is the number denoted

  ghost predicate Below16(digits: seq<nat>) {
    forall i :: 0 <= i < |digits| ==> digits[i] < Pow2(16)
  }

  lemma {:induction false} PositionalBelow(digits: seq<nat>)
    requires Below16(digits)
    ensures Positional(digits, 16) < Pow2(16 * |digits|)
  {
    if |digits| > 0 {
      PositionalBelow(digits[1..]);
      var m := 16 * (|digits| - 1);
      ShlIsTimes(digits[0], m);
      ShlTop(digits[0], m, 16 + m);
    }
  }

  lemma {:induction false} PositionalInjective(x: seq<nat>, y: seq<nat>)
    requires |x| == |y| && Below16(x) && Below16(y) && Positional(x, 16) == Positional(y, 16)
    ensures x == y
  {
    if |x| > 0 {
      var m := 16 * (|x| - 1);
      PositionalBelow(x[1..]);
      PositionalBelow(y[1..]);
      ShlIsTimes(x[0], m);
      ShlIsTimes(y[0], m);
      ShrRange(Positional(x, 16), x[0], m);
      ShrRange(Positional(y, 16), y[0], m);
      PositionalInjective(x[1..], y[1..]);
      assert x == [x[0]] + x[1..] && y == [y[0]] + y[1..];
    }
  }

  ghost predicate AllZero(digits: seq<nat>) {
    forall i :: 0 <= i < |digits| ==> digits[i] == 0
  }

  lemma ZeroSplit(r: seq<nat>)
    requires |r| > 0
    ensures AllZero(r) <==> r[0] == 0 && AllZero(r[1..])
  {
    if r[0] == 0 && AllZero(r[1..]) {
      forall i | 0 <= i < |r| ensures r[i] == 0 {
        assert i > 0 ==> r[i] == r[1..][i - 1];
      }
    }
  }

  /** Moving digits one place down changes nothing only among zeros. */
  lemma {:induction false} ShiftShows(r: seq<nat>, h: nat, t: nat, u: nat)
    ensures [0] + r + [h] == r + [t, u] <==> AllZero(r) && t == 0 && h == u
  {
    if |r| == 0 {
      assert [0] + r + [h] == [0, h] && r + [t, u] == [t, u];
    } else {
      ShiftShows(r[1..], h, t, u);
      assert r == [r[0]] + r[1..];
      assert [0] + r + [h] == [0] + ([r[0]] + r[1..] + [h]);
      assert r + [t, u] == [r[0]] + (r[1..] + [t, u]);
      HeadTail(0, [r[0]] + r[1..] + [h], r[0], r[1..] + [t, u]);
      ZeroSplit(r);
    }
  }

  lemma HeadTail(x: nat, s: seq<nat>, y: nat, t: seq<nat>)
    ensures [x] + s == [y] + t <==> x == y && s == t
  {
    assert ([x] + s)[0] == x && ([x] + s)[1..] == s && ([y] + t)[0] == y && ([y] + t)[1..] == t;
  }

  lemma PrefixSame(p: seq<nat>, s: seq<nat>, t: seq<nat>)
    ensures p + s == p + t <==> s == t
  {
    assert (p + s)[|p|..] == s && (p + t)[|p|..] == t;
  }

  lemma {:induction false} HexAtLeast(n: nat)
    ensures AllHex(Decimal(n)) && HexValue(Decimal(n)) >= n
  {
    DecimalIsHex(n);
    if n >= 10 {
      HexAtLeast(n / 10);
      var s := Decimal(n);
      assert s[..|s| - 1] == Decimal(n / 10) && s[|s| - 1] == Digit(n % 10);
    } else {
      assert Decimal(n)[..0] == "" && HexValue("") == 0;
    }
  }

  /** The tail is read as the last group it stands for, after a zero group, only when it is zero. */
  lemma TailAgrees(tail: seq<nat>)
    requires IsQuad(tail)
    ensures TailDigits(tail)[0] == 0 && ReadTail(tail) == [TailDigits(tail)[1]] <==> forall o :: o in tail ==> o == 0
  {
    assert tail[0] in tail && tail[1] in tail && tail[2] in tail && tail[3] in tail;
    HexAtLeast(tail[0]);
    DecimalIsHex(tail[0]);
    assert tail == [tail[0], tail[1], tail[2], tail[3]];
    ZeroDecimal();
  }

  lemma ZeroDecimal()
    ensures AllHex(Decimal(0)) && HexValue(Decimal(0)) == 0
  {
    assert Decimal(0) == "0" && "0"[..0] == "" && HexValue("") == 0;
  }

  lemma ValuesZero(groups: seq<string>)
    requires AreGroups(groups)
    ensures AllZero(GroupValues(groups)) <==> forall g :: g in groups ==> IsGroup(g) && HexValue(g) == 0
  {
    if forall g :: g in groups ==> IsGroup(g) && HexValue(g) == 0 {
      forall i | 0 <= i < |groups| ensures GroupValues(groups)[i] == 0 {
        assert groups[i] in groups;
      }
    }
    if AllZero(GroupValues(groups)) {
      forall g | g in groups ensures IsGroup(g) && HexValue(g) == 0 {
        var i :| 0 <= i < |groups| && groups[i] == g;
        assert GroupValues(groups)[i] == 0;
      }
    }
  }

  /** What stands before the groups after a "::", when a tail displaces them. */
  ghost function Kept(a: Address): seq<nat>
    requires WellFormed(a) && a.Gap? && a.tail != []
  {
    GroupValues(a.left) + NoGroups(6 - |a.left| - |a.right|)
  }

  lemma {:induction false} OneMoreZero(n: nat)
    ensures NoGroups(n + 1) == NoGroups(n) + [0]
  {
  }

  lemma DigitsApart(a: Address)
    requires WellFormed(a) && a.Gap? && a.tail != []
    ensures Digits(a) == Kept(a) + (GroupValues(a.right) + TailDigits(a.tail))
    ensures ReadDigits(a) == Kept(a) + ([0] + GroupValues(a.right) + ReadTail(a.tail))
  {
    var l, r, h, t := GroupValues(a.left), GroupValues(a.right), ReadTail(a.tail), TailDigits(a.tail);
    FilledApart(l, r, h, t, l + NoGroups(6 - |l| - |r|));
    assert Digits(a) == Filled(l, r + t) && ReadDigits(a) == Filled(l, r + h);
  }

  lemma FilledApart(l: seq<nat>, r: seq<nat>, h: seq<nat>, t: seq<nat>, kept: seq<nat>)
    requires |h| == 1 && |t| == 2 && |l| + |r| <= 6 && kept == l + NoGroups(6 - |l| - |r|)
    ensures Filled(l, r + t) == kept + (r + t) && Filled(l, r + h) == kept + ([0] + r + h)
  {
    Associates([0], r, h);
    FilledShort(l, r + h);
  }

  lemma PaddedShort(r: seq<nat>)
    requires |r| == 7
    ensures Padded(r) == [0] + r
  {
    assert NoGroups(1) == [0];
  }

  lemma PaddedFull(r: seq<nat>)
    requires |r| == 8
    ensures Padded(r) == r
  {
    assert NoGroups(0) == [];
  }

  lemma FilledShort(l: seq<nat>, r: seq<nat>)
    requires |l| + |r| <= 7
    ensures Filled(l, r) == l + NoGroups(7 - |l| - |r|) + ([0] + r)
  {
    var n := 7 - |l| - |r|;
    OneMoreZero(n);
    Associates(l, NoGroups(n), [0]);
    Associates(l + NoGroups(n), [0], r);
  }

  lemma NoTailAgrees(a: Address)
    requires WellFormed(a) && !a.Quad? && a.tail == []
    ensures ReadDigits(a) == Digits(a)
  {
    assert ReadTail([]) == TailDigits([]);
    if a.Full? {
      PaddedFull(GroupValues(a.groups) + ReadTail([]));
    }
  }

  lemma FullTailAgrees(a: Address)
    requires WellFormed(a) && a.Full? && a.tail != []
    ensures ReadDigits(a) == Digits(a) <==>
      AllZero(GroupValues(a.groups)) && TailDigits(a.tail)[0] == 0 && ReadTail(a.tail) == [TailDigits(a.tail)[1]]
  {
    var r := GroupValues(a.groups);
    PaddedShort(r + ReadTail(a.tail));
    Associates([0], r, ReadTail(a.tail));
    ShiftTail(r, a.tail);
  }

  lemma GapTailAgrees(a: Address)
    requires WellFormed(a) && a.Gap? && a.tail != []
    ensures ReadDigits(a) == Digits(a) <==>
      AllZero(GroupValues(a.right)) && TailDigits(a.tail)[0] == 0 && ReadTail(a.tail) == [TailDigits(a.tail)[1]]
  {
    var r := GroupValues(a.right);
    DigitsApart(a);
    PrefixSame(Kept(a), [0] + r + ReadTail(a.tail), r + TailDigits(a.tail));
    ShiftTail(r, a.tail);
  }

  lemma ShiftTail(r: seq<nat>, tail: seq<nat>)
    requires |tail| == 4
    ensures [0] + r + ReadTail(tail) == r + TailDigits(tail) <==>
      AllZero(r) && TailDigits(tail)[0] == 0 && ReadTail(tail) == [TailDigits(tail)[1]]
  {
    var h, t := ReadTail(tail), TailDigits(tail);
    assert h == [h[0]] && t == [t[0], t[1]];
    ShiftShows(r, h[0], t[0], t[1]);
  }

  lemma DigitsAgree(a: Address)
    requires WellFormed(a) && !a.Quad?
    ensures ReadDigits(a) == Digits(a) <==> TailHarmless(a)
  {
    if a.tail == [] {
      NoTailAgrees(a);
    } else {
      if a.Full? {
        FullTailAgrees(a);
      } else {
        GapTailAgrees(a);
      }
      TailAgrees(a.tail);
      ValuesZero(Displaced(a));
    }
  }

  lemma GroupDigitsBelow(groups: seq<string>)
    requires AreGroups(groups)
    ensures Below16(GroupValues(groups))
  {
    forall i | 0 <= i < |groups| ensures GroupValues(groups)[i] < Pow2(16) {
      assert groups[i] in groups;
      GroupIsPiece(groups[i]);
      PieceReads(groups[i]);
    }
  }

  lemma TailDigitsBelow(tail: seq<nat>)
    requires tail == [] || IsQuad(tail)
    ensures Below16(TailDigits(tail)) && Below16(ReadTail(tail))
  {
    assert Pow2(8) == 256;
    Pow2Splits(8, 8);
    if tail != [] {
      assert tail[0] in tail && tail[1] in tail && tail[2] in tail && tail[3] in tail;
      QuadIsPiece(tail);
      PieceReads(QuadText(tail));
    }
  }

  lemma DigitsBelow(a: Address)
    requires WellFormed(a) && !a.Quad?
    ensures |Digits(a)| == 8 && Below16(Digits(a)) && |ReadDigits(a)| == 8 && Below16(ReadDigits(a))
  {
    TailDigitsBelow(a.tail);
    var r := GroupValues(Displaced(a));
    GroupDigitsBelow(Displaced(a));
    BelowJoin(r, TailDigits(a.tail));
    BelowJoin(r, ReadTail(a.tail));
    if a.Full? {
      BelowJoin(NoGroups(8 - |r + ReadTail(a.tail)|), r + ReadTail(a.tail));
    } else {
      GroupDigitsBelow(a.left);
      FilledBelow(GroupValues(a.left), r + TailDigits(a.tail));
      FilledBelow(GroupValues(a.left), r + ReadTail(a.tail));
    }
  }

  lemma FilledBelow(l: seq<nat>, r: seq<nat>)
    requires Below16(l) && Below16(r) && |l| + |r| <= 8
    ensures Below16(Filled(l, r))
  {
    BelowJoin(l, NoGroups(8 - |l| - |r|));
    BelowJoin(l + NoGroups(8 - |l| - |r|), r);
  }

  lemma BelowJoin(a: seq<nat>, b: seq<nat>)
    ensures Below16(a) && Below16(b) ==> Below16(a + b)
  {
  }

  /** What is read is the number denoted if and only if there is no dotted tail, or it is all
      zeros after zero groups. */
  lemma ReadsRight(a: Address)
    requires WellFormed(a)
    ensures ReadAs(a) == Value(a) <==> TailHarmless(a)
  {
    if !a.Quad? {
      DigitsBelow(a);
      DigitsAgree(a);
      if ReadAs(a) == Value(a) {
        PositionalInjective(ReadDigits(a), Digits(a));
      }
    }
  }

  /** The loopback address as everyone writes it makes the conversion throw. */
  lemma LoopbackThrows(number: string -> Option<nat>)
    ensures IpToBigInt(number, "::1", V6) == Err(RangeError)
  {
    var a := Gap([], ["1"], []);
    assert IsGroup("1");
    assert Written(a) == "::1";
    GapReads(number, a);
  }

  /** An IPv4 address embedded under the translation prefix is read as if only its first octet
      stood there. */
  lemma TailMisread(number: string -> Option<nat>)
    ensures var a := Gap(["64", "ff9b"], [], [1, 2, 3, 4]);
      && Written(a) == "64:ff9b::1.2.3.4" && WellFormed(a) && Readable(a)
      && IpToBigInt(number, Written(a), V6) == IpToBigInt(number, "64:ff9b::1", V6)
      && IpToBigInt(number, Written(a), V6) == Ok(ReadAs(a)) && ReadAs(a) != Value(a)
  {
    SampleTailed();
    SampleGap();
    SampleTail();
    assert IsGroup("64") && IsGroup("ff9b") && IsGroup("1");
    FirstOctetOnly(number, ["64", "ff9b"], [1, 2, 3, 4], "1");
  }

  /** A "::" and a dotted tail read like the "::" and the tail's first octet as a group. */
  lemma FirstOctetOnly(number: string -> Option<nat>, left: seq<string>, tail: seq<nat>, g: string)
    requires AreGroups(left) && 0 < |left| <= 5 && IsQuad(tail) && tail[0] != 0 && IsGroup(g) && Decimal(tail[0]) == g
    ensures var a, b := Gap(left, [], tail), Gap(left, [g], []);
      && WellFormed(a) && Readable(a)
      && IpToBigInt(number, Written(a), V6) == IpToBigInt(number, Written(b), V6)
      && IpToBigInt(number, Written(a), V6) == Ok(ReadAs(a)) && ReadAs(a) != Value(a)
  {
    SameRead(left, tail, g);
    GapReads(number, Gap(left, [], tail));
    GapReads(number, Gap(left, [g], []));
    TailHarms(Gap(left, [], tail));
  }

  lemma TailHarms(a: Address)
    requires WellFormed(a) && !a.Quad? && |a.tail| > 0 && a.tail[0] != 0
    ensures ReadAs(a) != Value(a)
  {
    assert a.tail[0] in a.tail;
    ReadsRight(a);
  }

  lemma SameRead(left: seq<string>, tail: seq<nat>, g: string)
    requires AreGroups(left) && 0 < |left| <= 5 && IsQuad(tail) && IsGroup(g) && Decimal(tail[0]) == g
    ensures ReadDigits(Gap(left, [], tail)) == ReadDigits(Gap(left, [g], []))
  {
    assert ReadTail(tail) == [HexValue(g)] && ReadTail([]) == [];
    assert GroupValues([g]) == [HexValue(g)];
    assert GroupValues([]) + ReadTail(tail) == GroupValues([g]) + ReadTail([]);
  }

  lemma SampleTail()
    ensures Join(Decimals([1, 2, 3, 4]), '.') == "1.2.3.4"
    ensures Decimal(1) == "1"
  {
    assert Decimals([1, 2, 3, 4]) == ["1", "2", "3", "4"];
    var p := ["1", "2", "3", "4"];
    assert p[1..] == ["2", "3", "4"] && p[1..][1..] == ["3", "4"] && p[1..][1..][1..] == ["4"];
    assert Join(p, '.') == "1.2.3.4";
  }

  lemma SampleHead()
    ensures Join(["64", "ff9b"], ':') == "64:ff9b"
  {
    assert ["64", "ff9b"][1..] == ["ff9b"];
  }

  lemma SampleTailed()
    ensures Written(Gap(["64", "ff9b"], [], [1, 2, 3, 4])) == "64:ff9b::1.2.3.4"
  {
    SampleTail();
    SampleHead();
  }

  lemma SampleGap()
    ensures Written(Gap(["64", "ff9b"], ["1"], [])) == "64:ff9b::1"
  {
    SampleHead();
  }
}
