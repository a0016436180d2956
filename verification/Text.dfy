/** String operations shared by the models: splitting and joining on a separator, and the decimal
    rendering of an index. Splitting and joining are inverse to each other as long as no piece
    holds the separator, a piece can be split off the front, and a decimal rendering is made of
    digits only and belongs to one number; paths, keys and addresses are read back by these facts. */
module Text {
  import opened Sorting

  /** `s.split(d)` for a one-character separator; the empty string gives one empty piece. */
  function Split(s: string, d: char): (r: seq<string>)
    ensures |r| > 0
  {
    if s == "" then [""]
    else
      var rest := Split(s[1..], d);
      if s[0] == d then [""] + rest else [[s[0]] + rest[0]] + rest[1..]
  }

  function Join(pieces: seq<string>, d: char): string
    requires |pieces| > 0
  {
    if |pieces| == 1 then pieces[0] else pieces[0] + [d] + Join(pieces[1..], d)
  }

  predicate Lacks(s: string, d: char) {
    d !in s
  }

  lemma {:induction false} JoinSplit(s: string, d: char)
    ensures Join(Split(s, d), d) == s
  {
    if s != "" {
      JoinSplit(s[1..], d);
      var rest := Split(s[1..], d);
      if s[0] == d {
        assert ([""] + rest)[1..] == rest;
      } else {
        var r := [[s[0]] + rest[0]] + rest[1..];
        assert r[1..] == rest[1..];
      }
    }
  }

  lemma {:induction false} SplitLacks(s: string, d: char)
    ensures forall p :: p in Split(s, d) ==> Lacks(p, d)
  {
    if s != "" {
      SplitLacks(s[1..], d);
      var rest := Split(s[1..], d);
      assert Lacks(rest[0], d);
    }
  }

  lemma {:induction false} SplitJoin(pieces: seq<string>, d: char)
    requires |pieces| > 0 && forall p :: p in pieces ==> Lacks(p, d)
    ensures Split(Join(pieces, d), d) == pieces
  {
    var head := pieces[0];
    assert Lacks(head, d);
    if |pieces| == 1 {
      SplitHead(head, "", d);
      assert head + "" == head;
    } else {
      SplitJoin(pieces[1..], d);
      SplitHead(head, [d] + Join(pieces[1..], d), d);
      assert ([d] + Join(pieces[1..], d))[1..] == Join(pieces[1..], d);
      assert head + ([d] + Join(pieces[1..], d)) == Join(pieces, d);
    }
  }

  lemma {:induction false} SplitHead(head: string, tail: string, d: char)
    requires Lacks(head, d) && (tail == "" || tail[0] == d)
    ensures Split(head + tail, d) == if tail == "" then [head] else [head] + Split(tail[1..], d)
  {
    if head == "" {
      assert head + tail == tail;
    } else {
      assert head[0] in head;
      assert forall c :: c in head[1..] ==> c in head;
      SplitHead(head[1..], tail, d);
      assert (head + tail)[1..] == head[1..] + tail;
      assert head == [head[0]] + head[1..];
    }
  }

  function Digit(n: nat): (c: char)
    requires n < 10
    ensures '0' <= c <= '9'
  {
    '0' + n as char
  }

  function Decimal(n: nat): (s: string)
    ensures |s| > 0
  {
    if n < 10 then [Digit(n)] else Decimal(n / 10) + [Digit(n % 10)]
  }

  lemma {:induction false} DecimalDigits(n: nat)
    ensures forall c :: c in Decimal(n) ==> '0' <= c <= '9'
  {
    if n >= 10 {
      DecimalDigits(n / 10);
    }
  }

  lemma {:induction false} DecimalLength(n: nat)
    ensures n >= 10 ==> |Decimal(n)| >= 2
  {
  }

  lemma {:induction false} DecimalInjective(m: nat, n: nat)
    requires Decimal(m) == Decimal(n)
    ensures m == n
  {
    if m < 10 || n < 10 {
      DecimalLength(m);
      DecimalLength(n);
      assert Decimal(m)[0] == Decimal(n)[0];
    } else {
      var a, b := Decimal(m / 10), Decimal(n / 10);
      assert (a + [Digit(m % 10)])[..|a|] == a;
      assert (b + [Digit(n % 10)])[..|b|] == b;
      assert (a + [Digit(m % 10)])[|a|] == (b + [Digit(n % 10)])[|b|];
      DecimalInjective(m / 10, n / 10);
    }
  }

  /** The place of the character among the ten digits. */
  function DigitValue(c: char): nat {
    match c
    case '1' => 1 case '2' => 2 case '3' => 3 case '4' => 4 case '5' => 5
    case '6' => 6 case '7' => 7 case '8' => 8 case '9' => 9 case _ => 0
  }

  /** The number a row of digits denotes in base 10. */
  function NumberOf(s: string): nat {
    if s == "" then 0 else 10 * NumberOf(s[..|s| - 1]) + DigitValue(s[|s| - 1])
  }

  /** The rendering denotes the number, and starts with no superfluous zero. */
  lemma {:induction false} DecimalDenotes(n: nat)
    ensures NumberOf(Decimal(n)) == n && (Decimal(n)[0] == '0' ==> n == 0)
  {
    var s := Decimal(n);
    if n < 10 {
      assert s[..0] == "" && DigitValue(Digit(n)) == n;
    } else {
      DecimalDenotes(n / 10);
      assert s[..|s| - 1] == Decimal(n / 10) && s[|s| - 1] == Digit(n % 10);
      assert DigitValue(Digit(n % 10)) == n % 10;
    }
  }

  /** String comparison by code unit, as `<=` on JavaScript strings. */
  predicate StrLe(a: string, b: string) {
    a == "" || (b != "" && (a[0] < b[0] || (a[0] == b[0] && StrLe(a[1..], b[1..]))))
  }

  lemma SameHead(a: string, b: string, k: nat)
    requires k < |a| && k < |b| && a[..k] == b[..k]
    ensures k > 0 ==> a[0] == b[0]
  {
    assert k > 0 ==> a[..k][0] == b[..k][0];
  }

  /** At the first place where the strings differ the lesser has the lesser character, or it ends. */
  lemma {:induction false} StrLeExactly(a: string, b: string)
    ensures StrLe(a, b) <==> a <= b || exists k :: 0 <= k < |a| && k < |b| && a[..k] == b[..k] && a[k] < b[k]
  {
    if a != "" && b != "" && a[0] == b[0] {
      var s, t := a[1..], b[1..];
      StrLeExactly(s, t);
      assert a == [a[0]] + s && b == [b[0]] + t;
      if k :| 0 <= k < |s| && k < |t| && s[..k] == t[..k] && s[k] < t[k] {
        assert a[..k + 1] == [a[0]] + s[..k] && b[..k + 1] == [b[0]] + t[..k] && a[k + 1] < b[k + 1];
      }
      if k :| 0 <= k < |a| && k < |b| && a[..k] == b[..k] && a[k] < b[k] {
        assert s[..k - 1] == a[..k][1..] && t[..k - 1] == b[..k][1..] && s[k - 1] < t[k - 1];
      }
    } else if a != "" && b != "" {
      assert a[0] < b[0] ==> a[..0] == b[..0];
      forall k | 0 <= k < |a| && k < |b| && a[..k] == b[..k] ensures k == 0 {
        SameHead(a, b, k);
      }
    }
  }

  lemma {:induction false} StrLeLaws(a: string, b: string, c: string)
    ensures StrLe(a, b) || StrLe(b, a)
    ensures StrLe(a, b) && StrLe(b, c) ==> StrLe(a, c)
    ensures StrLe(a, b) && StrLe(b, a) ==> a == b
  {
    if a != "" && b != "" {
      StrLeLaws(a[1..], b[1..], if c == "" then "" else c[1..]);
      assert a == [a[0]] + a[1..] && b == [b[0]] + b[1..];
    }
  }

  lemma StrLeTotal()
    ensures TotalPreorder(StrLe)
    ensures forall a, b :: StrLe(a, b) && StrLe(b, a) ==> a == b
  {
    forall a, b, c ensures (StrLe(a, b) || StrLe(b, a)) && (StrLe(a, b) && StrLe(b, c) ==> StrLe(a, c)) {
      StrLeLaws(a, b, c);
    }
    forall a, b ensures StrLe(a, b) && StrLe(b, a) ==> a == b {
      StrLeLaws(a, b, a);
    }
  }
}
