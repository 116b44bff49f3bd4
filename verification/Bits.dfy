/// Bitwise operations on 64-bit machine words.
///
/// A machine word is a natural number below 2^64. The C operators `&`, `|`, `<<` and `>>`
/// are defined bit by bit; the lemmas below turn the masks that the kernel uses into
/// division, remainder and addition.

module Bits {

  const TWO_TO_THE_64: nat := 0x1_0000_0000_0000_0000

  type U64 = x: nat | x < TWO_TO_THE_64

  function Pow2(k: nat): (p: nat)
    ensures p > 0
  {
    if k == 0 then 1 else 2 * Pow2(k - 1)
  }

  /// The C expression `a & b`.
  function And(a: nat, b: nat): nat {
    if a == 0 || b == 0 then 0
    else 2 * And(a / 2, b / 2) + (if a % 2 == 1 && b % 2 == 1 then 1 else 0)
  }

  /// The C expression `a | b`.
  function Or(a: nat, b: nat): nat {
    if a == 0 then b
    else if b == 0 then a
    else 2 * Or(a / 2, b / 2) + (if a % 2 == 1 || b % 2 == 1 then 1 else 0)
  }

  /// `~m`, for a 64-bit operand.
  function Not(m: U64): U64 {
    TWO_TO_THE_64 - 1 - m
  }

  // Quotient and remainder are unique.
  lemma ModUnique(a: nat, m: nat, q: nat, r: nat)
    requires r < m && a == q * m + r
    ensures a % m == r && a / m == q
  {
    var q', r' := a / m, a % m;
    assert a == q' * m + r';
    SameQuotient(m, q, r, q', r');
  }

  lemma SameQuotient(m: nat, q: nat, r: nat, q': nat, r': nat)
    requires r < m && r' < m && q * m + r == q' * m + r'
    ensures q == q' && r == r'
  {
    assert (q - q') * m == q * m - q' * m;
    assert (q' - q) * m == q' * m - q * m;
    if q > q' {
      MulAtLeast(q - q', m);
    } else if q < q' {
      MulAtLeast(q' - q, m);
    }
  }

  lemma MulAtLeast(d: int, m: int)
    requires d >= 1 && m >= 0
    ensures d * m >= m
  {
    assert d * m == (d - 1) * m + m;
  }

  // Halving commutes with division by a power of two.
  lemma Halves(a: nat, p: nat)
    requires p > 0
    ensures a % (2 * p) == 2 * ((a / 2) % p) + a % 2
    ensures a / (2 * p) == (a / 2) / p
  {
    var q, r := (a / 2) / p, (a / 2) % p;
    assert a / 2 == q * p + r;
    assert q * (2 * p) == 2 * (q * p);
    ModUnique(a, 2 * p, q, 2 * r + a % 2);
  }

  /// A mask of k low ones keeps the remainder of 2^k.
  lemma {:induction false} AndLow(a: nat, k: nat)
    ensures And(a, Pow2(k) - 1) == a % Pow2(k)
  {
    if k > 0 {
      var p := Pow2(k - 1);
      AndLow(a / 2, k - 1);
      Halves(a, p);
      var mask := 2 * p - 1;
      assert mask / 2 == p - 1 && mask % 2 == 1;
    }
  }

  lemma {:induction false} Pow2Monotonic(j: nat, k: nat)
    requires j <= k
    ensures Pow2(j) <= Pow2(k)
  {
    if j < k {
      Pow2Monotonic(j, k - 1);
    }
  }

  /// A mask of the bits k to n-1 keeps exactly those bits.
  lemma {:induction false} AndBand(a: nat, n: nat, k: nat)
    requires k <= n
    ensures Pow2(k) <= Pow2(n) && And(a, Pow2(n) - Pow2(k)) == a % Pow2(n) - a % Pow2(k)
    decreases n
  {
    hide And, Pow2;
    Pow2Monotonic(k, n);
    if k == 0 {
      AndLow(a, n);
      assert Pow2(0) == 1 by { Pow2Step(0); }
      assert a % 1 == 0;
    } else if k < n {
      Pow2Step(n);
      Pow2Step(k);
      AndBand(a / 2, n - 1, k - 1);
      BandStep(a, Pow2(n - 1), Pow2(k - 1));
    } else {
      assert And(a, 0) == 0 by { AndNothing(a); }
    }
  }

  lemma Pow2Step(n: nat)
    ensures Pow2(n) == if n == 0 then 1 else 2 * Pow2(n - 1)
  {
  }

  lemma AndNothing(a: nat)
    ensures And(a, 0) == 0
  {
  }

  lemma BandStep(a: nat, p: nat, q: nat)
    requires 0 < q <= p && And(a / 2, p - q) == (a / 2) % p - (a / 2) % q
    ensures And(a, 2 * p - 2 * q) == a % (2 * p) - a % (2 * q)
  {
    hide And;
    Halves(a, q);
    Halves(a, p);
    AndEven(a, p - q);
    assert 2 * p - 2 * q == 2 * (p - q);
  }

  lemma AndEven(a: nat, m: nat)
    ensures And(a, 2 * m) == 2 * And(a / 2, m)
  {
    assert (2 * m) / 2 == m && (2 * m) % 2 == 0;
  }

  /// A single-bit mask tests that bit.
  lemma {:induction false} AndBit(a: nat, k: nat)
    ensures And(a, Pow2(k)) == if (a / Pow2(k)) % 2 == 1 then Pow2(k) else 0
  {
    if a == 0 {
    } else if k == 0 {
      assert And(a / 2, 0) == 0;
    } else {
      var p := Pow2(k - 1);
      AndBit(a / 2, k - 1);
      Halves(a, p);
    }
  }

  /// Setting bit k.
  lemma {:induction false} OrBit(a: nat, k: nat)
    ensures Or(a, Pow2(k)) == if (a / Pow2(k)) % 2 == 1 then a else a + Pow2(k)
  {
    if k == 0 {
      assert Or(a / 2, 0) == a / 2;
    } else {
      OrBit(a / 2, k - 1);
      Halves(a, Pow2(k - 1));
      assert (2 * Pow2(k - 1)) / 2 == Pow2(k - 1);
    }
  }

  /// `|` of two words with no bit in common.
  lemma {:induction false} OrAdd(a: nat, b: nat, k: nat)
    requires a % Pow2(k) == 0 && b < Pow2(k)
    ensures Or(a, b) == a + b
  {
    if k > 0 {
      Halves(a, Pow2(k - 1));
      OrAdd(a / 2, b / 2, k - 1);
    }
  }

  /// `|` sets each bit that is set on either side.
  lemma {:induction false} OrBitwise(a: nat, b: nat, k: nat)
    ensures Or(a, b) / Pow2(k) % 2 == 1 <==> a / Pow2(k) % 2 == 1 || b / Pow2(k) % 2 == 1
    decreases k
  {
    if k == 0 {
    } else {
      OrBitwise(a / 2, b / 2, k - 1);
      var p := Pow2(k - 1);
      Halves(a, p);
      Halves(b, p);
      Halves(Or(a, b), p);
      assert Or(a, b) / 2 == Or(a / 2, b / 2);
      assert Pow2(k) == 2 * p;
    }
  }

  lemma {:induction false} OrCommutes(a: nat, b: nat)
    ensures Or(a, b) == Or(b, a)
  {
    if a != 0 && b != 0 {
      OrCommutes(a / 2, b / 2);
    }
  }

  /// `|` leaves the low k bits alone when they are clear on the left.
  lemma {:induction false} OrShift(y: nat, p: nat, q: nat, k: nat)
    requires p < Pow2(k)
    ensures Or(Pow2(k) * y, p + Pow2(k) * q) == p + Pow2(k) * Or(y, q)
  {
    hide Or;
    if k > 0 {
      var m := Pow2(k - 1);
      OrShift(y, p / 2, q, k - 1);
      Double(m, y); Double(m, q); Double(m, Or(y, q));
      OrCons(false, m * y, Odd(p), p / 2 + m * q);
    }
  }

  lemma Double(m: nat, y: nat)
    ensures (2 * m) * y == 2 * (m * y)
  {
  }

  /// Bit b below the bits of rest.
  function Cons(b: bool, rest: nat): (x: nat)
    ensures x / 2 == rest && (x % 2 == 1 <==> b)
  {
    2 * rest + (if b then 1 else 0)
  }

  predicate Odd(x: nat) { x % 2 == 1 }

  lemma ConsBack(x: nat)
    ensures Cons(Odd(x), x / 2) == x
  {
  }

  lemma AndCons(a: bool, x: nat, b: bool, y: nat)
    ensures And(Cons(a, x), Cons(b, y)) == Cons(a && b, And(x, y))
  {
  }

  lemma OrCons(a: bool, x: nat, b: bool, y: nat)
    ensures Or(Cons(a, x), Cons(b, y)) == Cons(a || b, Or(x, y))
  {
  }
}
