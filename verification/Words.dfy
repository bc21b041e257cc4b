/** Unsigned machine words as naturals: single bits, the bitwise operators the
    stack applies to them, and the lowest-set-bit idiom of the ready iterators. */
module Words {

  function Pow2(n: nat): (p: nat)
    ensures p >= 1
  {
    if n == 0 then 1 else 2 * Pow2(n - 1)
  }

  /** Bit i of x, bit 0 being the least significant. */
  predicate Bit(x: nat, i: nat)
    decreases i
  {
    if i == 0 then x % 2 == 1 else Bit(x / 2, i - 1)
  }

  function And(x: nat, y: nat): nat
  {
    if x == 0 || y == 0 then 0 else 2 * And(x / 2, y / 2) + (x % 2) * (y % 2)
  }

  function Or(x: nat, y: nat): nat
    decreases x + y
  {
    if x == 0 then y else if y == 0 then x
    else 2 * Or(x / 2, y / 2) + (if x % 2 == 1 || y % 2 == 1 then 1 else 0)
  }

  /** The index of the lowest set bit of a 64-bit word, 64 for the zero word. */
  function TrailingZeros(x: nat): (t: nat)
  {
    if x == 0 then 64 else if x % 2 == 1 then 0 else 1 + TrailingZeros(x / 2)
  }

  lemma {:induction false} ZeroHasNoBits(i: nat)
    ensures !Bit(0, i)
  {
    if i > 0 { ZeroHasNoBits(i - 1); }
  }

  lemma {:induction false} Pow2Bit(k: nat, i: nat)
    ensures Bit(Pow2(k), i) <==> i == k
  {
    if k == 0 {
      if i > 0 { ZeroHasNoBits(i - 1); }
    } else if i > 0 {
      Pow2Bit(k - 1, i - 1);
    }
  }

  /** One bit position of a conjunction. */
  lemma AndHalves(x: nat, y: nat)
    ensures And(x, y) / 2 == And(x / 2, y / 2)
    ensures And(x, y) % 2 == 1 <==> x % 2 == 1 && y % 2 == 1
  {
    var low := (x % 2) * (y % 2);
    assert 0 <= low <= 1 && (low == 1 <==> x % 2 == 1 && y % 2 == 1);
  }

  lemma {:induction false} AndBit(x: nat, y: nat, i: nat)
    ensures Bit(And(x, y), i) <==> Bit(x, i) && Bit(y, i)
    decreases i
  {
    AndHalves(x, y);
    if i > 0 { AndBit(x / 2, y / 2, i - 1); }
  }

  lemma {:induction false} OrBit(x: nat, y: nat, i: nat)
    ensures Bit(Or(x, y), i) <==> Bit(x, i) || Bit(y, i)
    decreases i
  {
    if x == 0 || y == 0 {
      ZeroHasNoBits(i);
    } else if i > 0 {
      OrBit(x / 2, y / 2, i - 1);
    }
  }

  lemma {:induction false} OrBound(x: nat, y: nat, n: nat)
    requires x < Pow2(n) && y < Pow2(n)
    ensures Or(x, y) < Pow2(n)
    decreases n
  {
    if x != 0 && y != 0 { OrBound(x / 2, y / 2, n - 1); }
  }

  lemma Pow2Of32()
    ensures Pow2(32) == 0x1_0000_0000
  {
    assert Pow2(8) == 0x100;
    assert Pow2(16) == 0x1_0000;
    assert Pow2(24) == 0x100_0000;
  }

  lemma {:induction false} Pow2Monotone(a: nat, b: nat)
    requires a < b
    ensures Pow2(a) < Pow2(b)
    decreases b
  {
    if a < b - 1 { Pow2Monotone(a, b - 1); }
  }

  /** A word is non-zero exactly when some bit is set, and then the count of
      trailing zeros is the least index of a set bit. */
  lemma {:induction false} LowestBit(x: nat)
    requires x > 0
    ensures Bit(x, TrailingZeros(x))
    ensures forall i: nat :: i < TrailingZeros(x) ==> !Bit(x, i)
  {
    if x % 2 == 0 {
      LowestBit(x / 2);
      forall i: nat | i < TrailingZeros(x) ensures !Bit(x, i) {
        if i > 0 { assert !Bit(x / 2, i - 1); }
      }
    }
  }

  lemma {:induction false} BitBound(x: nat, n: nat, i: nat)
    requires x < Pow2(n) && Bit(x, i)
    ensures i < n
    decreases n
  {
    if n == 0 { ZeroHasNoBits(i); }
    else if i > 0 { BitBound(x / 2, n - 1, i - 1); }
  }

  lemma {:induction false} AndSelf(x: nat)
    ensures And(x, x) == x
  {
    AndHalves(x, x);
    if x > 0 { AndSelf(x / 2); }
  }

  /** `x & (x - 1)` clears the lowest set bit and no other. */
  lemma {:induction false} ClearLowest(x: nat, i: nat)
    requires x > 0
    ensures Bit(And(x, x - 1), i) <==> Bit(x, i) && i != TrailingZeros(x)
    ensures And(x, x - 1) < x
    decreases x
  {
    AndHalves(x, x - 1);
    if x % 2 == 1 {
      assert (x - 1) / 2 == x / 2;
      AndSelf(x / 2);
    } else {
      assert (x - 1) / 2 == x / 2 - 1;
      ClearLowest(x / 2, if i == 0 then 0 else i - 1);
    }
  }

  /** Masking with `2^w - 2^k`, the netmask of prefix length w - k, rounds down
      to a multiple of 2^k. */
  lemma {:induction false} AndHighMask(x: nat, w: nat, k: nat)
    requires k <= w && x < Pow2(w)
    ensures Pow2(k) <= Pow2(w)
    ensures And(x, Pow2(w) - Pow2(k)) == x / Pow2(k) * Pow2(k)
    decreases w
  {
    if k == 0 {
      AndOnes(x, w);
    } else {
      AndHighMask(x / 2, w - 1, k - 1);
      MaskStep(x, Pow2(w - 1), Pow2(k - 1));
      HalveQuotient(x, Pow2(k - 1));
    }
  }

  lemma MaskStep(x: nat, a: nat, b: nat)
    requires a >= b
    ensures And(x, 2 * a - 2 * b) == 2 * And(x / 2, a - b)
  {
    assert (2 * a - 2 * b) / 2 == a - b && (2 * a - 2 * b) % 2 == 0;
    AndHalves(x, 2 * a - 2 * b);
  }

  lemma {:induction false} AndOnes(x: nat, w: nat)
    requires x < Pow2(w)
    ensures And(x, Pow2(w) - 1) == x
    decreases w
  {
    if w > 0 {
      AndOnes(x / 2, w - 1);
      assert (Pow2(w) - 1) / 2 == Pow2(w - 1) - 1 && (Pow2(w) - 1) % 2 == 1;
      AndHalves(x, Pow2(w) - 1);
    }
  }

  lemma HalveQuotient(x: nat, p: nat)
    requires p > 0
    ensures x / (2 * p) == x / 2 / p
    ensures x / (2 * p) * (2 * p) == 2 * (x / 2 / p * p)
  {
    var q, r := x / (2 * p), x % (2 * p);
    assert x == q * (2 * p) + r;
    assert x / 2 == q * p + r / 2 && 0 <= r / 2 < p by { assert q * (2 * p) == 2 * (q * p); }
    QuotientUnique(x / 2, p, q, r / 2);
  }

  lemma QuotientUnique(x: int, d: int, q: int, r: int)
    requires d > 0 && x == q * d + r && 0 <= r < d
    ensures x / d == q && x % d == r
  {
    SameQuotient(d, q, r, x / d, x % d);
  }

  lemma SameQuotient(d: int, q: int, r: int, q': int, r': int)
    requires d > 0 && 0 <= r < d && 0 <= r' < d && q * d + r == q' * d + r'
    ensures q == q' && r == r'
  {
    if q > q' {
      MultipleGap(q, q', d);
    } else if q < q' {
      MultipleGap(q', q, d);
    }
  }

  lemma MultipleGap(a: int, b: int, d: int)
    requires a > b && d > 0
    ensures a * d >= b * d + d
  {
    assert (a - b - 1) * d >= 0;
    assert (a - b - 1) * d == a * d - b * d - d;
  }
}
