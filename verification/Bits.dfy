/** Bitwise operations on unbounded naturals (BigInt), by recursion on the binary digits: shifts as
    multiplication and division by powers of two, AND, OR and XOR digit by digit, and what the
    allow-list needs of them, that ones XOR low ones is the mask of the high bits, that masking
    clears the low bits and nothing else, and that equal high bits are equal shifted values. */
module Bits {

  function Pow2(n: nat): (p: nat)
    ensures p > 0
  {
    if n == 0 then 1 else 2 * Pow2(n - 1)
  }

  function Shl(x: nat, n: nat): (r: nat)
    ensures x <= r
  {
    if n == 0 then x else 2 * Shl(x, n - 1)
  }

  function Shr(x: nat, n: nat): nat
    decreases n
  {
    if n == 0 then x else Shr(x / 2, n - 1)
  }

  function And(a: nat, b: nat): nat {
    if a == 0 || b == 0 then 0 else (a % 2) * (b % 2) + 2 * And(a / 2, b / 2)
  }

  function Or(a: nat, b: nat): nat
    decreases a + b
  {
    if a == 0 then b else if b == 0 then a
    else (if a % 2 == 1 || b % 2 == 1 then 1 else 0) + 2 * Or(a / 2, b / 2)
  }

  function Xor(a: nat, b: nat): nat
    decreases a + b
  {
    if a == 0 then b else if b == 0 then a
    else (a % 2 + b % 2) % 2 + 2 * Xor(a / 2, b / 2)
  }

  predicate Bit(x: nat, i: nat) {
    Shr(x, i) % 2 == 1
  }

  ghost predicate SameBitsFrom(x: nat, y: nat, h: nat, w: nat) {
    forall i :: h <= i < w ==> Bit(x, i) == Bit(y, i)
  }

  // ---------------------------------------------------------------- powers and shifts

  lemma {:induction false} Pow2Splits(a: nat, b: nat)
    ensures Pow2(a + b) == Pow2(a) * Pow2(b)
  {
    if a > 0 {
      Pow2Splits(a - 1, b);
      assert Pow2(a + b) == 2 * Pow2((a - 1) + b);
    }
  }

  lemma {:induction false} Pow2Grows(h: nat, w: nat)
    requires h <= w
    ensures Pow2(h) <= Pow2(w)
    decreases w - h
  {
    if h < w {
      Pow2Grows(h, w - 1);
    }
  }

  lemma {:induction false} ShlIsTimes(x: nat, n: nat)
    ensures Shl(x, n) == x * Pow2(n)
  {
    if n > 0 {
      ShlIsTimes(x, n - 1);
      Doubled(x, Pow2(n - 1));
    }
  }

  lemma {:induction false} ShlOne(n: nat)
    ensures Shl(1, n) == Pow2(n)
  {
    if n > 0 {
      ShlOne(n - 1);
    }
  }

  lemma Doubled(q: nat, p: nat)
    ensures 2 * (q * p) == q * (2 * p)
  {
  }

  lemma {:induction false} ShlAdds(a: nat, b: nat, n: nat)
    ensures Shl(a + b, n) == Shl(a, n) + Shl(b, n)
  {
    if n > 0 {
      ShlAdds(a, b, n - 1);
    }
  }

  lemma {:induction false} ShlShl(x: nat, k: nat, m: nat)
    ensures Shl(Shl(x, k), m) == Shl(x, k + m)
  {
    if m > 0 {
      ShlShl(x, k, m - 1);
    }
  }

  lemma {:induction false} ShlZero(n: nat)
    ensures Shl(0, n) == 0
  {
    if n > 0 {
      ShlZero(n - 1);
    }
  }

  lemma {:induction false} ShlInjective(q: nat, r: nat, n: nat)
    ensures Shl(q, n) == Shl(r, n) <==> q == r
  {
    if n > 0 {
      ShlInjective(q, r, n - 1);
    }
  }

  lemma {:induction false} ShrStep(x: nat, h: nat)
    ensures Shr(x, h) == 2 * Shr(x, h + 1) + (if Bit(x, h) then 1 else 0)
    decreases h
  {
    if h > 0 {
      ShrStep(x / 2, h - 1);
    } else {
      assert Shr(x, 1) == Shr(x / 2, 0);
    }
  }

  lemma {:induction false} ShrShr(x: nat, h: nat, i: nat)
    ensures Shr(Shr(x, h), i) == Shr(x, h + i)
    decreases h
  {
    if h > 0 {
      ShrShr(x / 2, h - 1, i);
    }
  }

  lemma {:induction false} ShrBound(x: nat, h: nat, w: nat)
    requires h <= w && x < Pow2(w)
    ensures Shr(x, h) < Pow2(w - h)
    decreases h
  {
    if h > 0 {
      ShrBound(x / 2, h - 1, w - 1);
    }
  }

  /** The numbers with the same high part form an interval of 2^h. */
  lemma {:induction false} ShrRange(x: nat, q: nat, h: nat)
    ensures Shr(x, h) == q <==> Shl(q, h) <= x < Shl(q, h) + Pow2(h)
    decreases h
  {
    if h > 0 {
      ShrRange(x / 2, q, h - 1);
    }
  }

  lemma {:induction false} ShlTop(q: nat, h: nat, w: nat)
    requires h <= w && q < Pow2(w - h)
    ensures Shl(q, h) + Pow2(h) <= Pow2(w)
    decreases h
  {
    if h > 0 {
      ShlTop(q, h - 1, w - 1);
    }
  }

  // ---------------------------------------------------------------- masks

  lemma {:induction false} XorOnes(w: nat, h: nat)
    requires h <= w
    ensures Pow2(h) <= Pow2(w) && Xor(Pow2(w) - 1, Pow2(h) - 1) == Pow2(w) - Pow2(h)
  {
    Pow2Grows(h, w);
    if h > 0 {
      XorOnes(w - 1, h - 1);
      OnesHalve(w);
      OnesHalve(h);
      XorOdd(Pow2(w) - 1, Pow2(h) - 1);
    }
  }

  lemma OnesHalve(n: nat)
    requires n > 0
    ensures (Pow2(n) - 1) % 2 == 1 && (Pow2(n) - 1) / 2 == Pow2(n - 1) - 1
  {
  }

  lemma XorOdd(a: nat, b: nat)
    requires a % 2 == 1 && b % 2 == 1
    ensures Xor(a, b) == 2 * Xor(a / 2, b / 2)
  {
  }

  /** All ones below `w`, with the ones below `h` flipped off, is the mask of the bits from `h`. */
  lemma XorOfOnes(w: nat, h: nat)
    requires h <= w
    ensures Pow2(h) <= Pow2(w) && Xor(Shl(1, w) - 1, Shl(1, h) - 1) == Pow2(w) - Pow2(h)
  {
    ShlOne(w);
    ShlOne(h);
    XorOnes(w, h);
  }

  lemma {:induction false} AndOnes(x: nat, w: nat)
    requires x < Pow2(w)
    ensures And(x, Pow2(w) - 1) == x
  {
    if w > 0 && x > 0 {
      AndOnes(x / 2, w - 1);
      assert (Pow2(w) - 1) / 2 == Pow2(w - 1) - 1 && (Pow2(w) - 1) % 2 == 1;
    }
  }

  lemma HighMaskHalves(w: nat, h: nat)
    requires 0 < h <= w
    ensures Pow2(h) <= Pow2(w) && Pow2(h - 1) <= Pow2(w - 1)
    ensures var m := Pow2(w) - Pow2(h); m % 2 == 0 && m / 2 == Pow2(w - 1) - Pow2(h - 1)
  {
    Pow2Grows(h, w);
    assert Pow2(w) - Pow2(h) == 2 * (Pow2(w - 1) - Pow2(h - 1));
  }

  lemma AndEven(x: nat, m: nat)
    requires m % 2 == 0
    ensures And(x, m) == 2 * And(x / 2, m / 2)
  {
  }

  /** Masking keeps the bits from `h` up. */
  lemma {:induction false} AndHigh(x: nat, w: nat, h: nat)
    requires h <= w && x < Pow2(w)
    ensures Pow2(h) <= Pow2(w) && And(x, Pow2(w) - Pow2(h)) == Shl(Shr(x, h), h)
    decreases h
  {
    Pow2Grows(h, w);
    if h == 0 {
      AndOnes(x, w);
    } else {
      HighMaskHalves(w, h);
      AndHigh(x / 2, w - 1, h - 1);
      AndEven(x, Pow2(w) - Pow2(h));
    }
  }

  lemma {:induction false} OrShifted(a: nat, k: nat, g: nat)
    requires g < Pow2(k)
    ensures Or(Shl(a, k), g) == Shl(a, k) + g
    decreases k
  {
    if k > 0 {
      OrShifted(a, k - 1, g / 2);
    }
  }

  // ---------------------------------------------------------------- high bits

  lemma {:induction false} EqualBitsEqualHigh(x: nat, y: nat, h: nat, w: nat)
    requires h <= w && x < Pow2(w) && y < Pow2(w)
    requires SameBitsFrom(x, y, h, w)
    ensures Shr(x, h) == Shr(y, h)
    decreases w - h
  {
    if h < w {
      EqualBitsEqualHigh(x, y, h + 1, w);
      ShrStep(x, h);
      ShrStep(y, h);
      assert Bit(x, h) == Bit(y, h);
    } else {
      ShrBound(x, w, w);
      ShrBound(y, w, w);
    }
  }

  /** Equal high parts are equal bits from `h` up. */
  lemma HighBits(x: nat, y: nat, h: nat, w: nat)
    requires h <= w && x < Pow2(w) && y < Pow2(w)
    ensures Shr(x, h) == Shr(y, h) <==> SameBitsFrom(x, y, h, w)
  {
    if Shr(x, h) == Shr(y, h) {
      forall i | h <= i < w ensures Bit(x, i) == Bit(y, i) {
        ShrShr(x, h, i - h);
        ShrShr(y, h, i - h);
      }
    }
    if SameBitsFrom(x, y, h, w) {
      EqualBitsEqualHigh(x, y, h, w);
    }
  }

  // ---------------------------------------------------------------- bit by bit

  lemma HalvesAnd(a: nat, b: nat)
    ensures And(a, b) / 2 == And(a / 2, b / 2) && And(a, b) % 2 == (if a % 2 == 1 && b % 2 == 1 then 1 else 0)
  {
  }

  lemma HalvesOr(a: nat, b: nat)
    ensures Or(a, b) / 2 == Or(a / 2, b / 2) && Or(a, b) % 2 == (if a % 2 == 1 || b % 2 == 1 then 1 else 0)
  {
  }

  lemma HalvesXor(a: nat, b: nat)
    ensures Xor(a, b) / 2 == Xor(a / 2, b / 2) && Xor(a, b) % 2 == (if a % 2 != b % 2 then 1 else 0)
  {
  }

  /** The three operations go bit by bit. */
  lemma {:induction false} BitByBit(a: nat, b: nat, i: nat)
    ensures Bit(And(a, b), i) <==> Bit(a, i) && Bit(b, i)
    ensures Bit(Or(a, b), i) <==> Bit(a, i) || Bit(b, i)
    ensures Bit(Xor(a, b), i) <==> Bit(a, i) != Bit(b, i)
    decreases i
  {
    HalvesAnd(a, b);
    HalvesOr(a, b);
    HalvesXor(a, b);
    if i > 0 {
      BitByBit(a / 2, b / 2, i - 1);
    }
  }
}
