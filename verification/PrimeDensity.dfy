/** There are enough small primes: every prime the encoder hands to one of at most 2^32
    registers is below 2^40, so it fits a machine word and no square taken on the way wraps.

    Let `L` be the product over the primes up to `n` of their largest powers up to `n`.  It is
    at most `n` to the number of those primes.  Every number up to `n` divides it, and so does
    every `n * Choose(n - 1, j)`, by the recurrence of Leibniz's triangle; there are `n` of
    those and together they come to `n * 2^(n-1)`, so `L` is at least `2^(n-1)`. */
module PrimeDensity {
  import opened Arith
  import opened Primes
  import opened Banks

  // ---------------------------------------------------------------------------
  // The common multiple
  // ---------------------------------------------------------------------------

  /** The largest power of `p` up to `n`. */
  function Top(p: nat, n: nat): (t: nat)
    requires p >= 2
    ensures t >= 1 && (n >= 1 ==> t <= n)
    decreases n
  {
    if n < p then 1
    else
      DivideBounds(n, p);
      MulMono(Top(p, n / p), n / p, p);
      Top(p, n / p) * p
  }

  lemma DivideBounds(n: nat, p: nat)
    requires 2 <= p <= n
    ensures 1 <= n / p < n && (n / p) * p <= n
  {
    var q := n / p;
    assert q * p <= n < q * p + p;
    MulGrows(1 - q, p);
    assert (1 - q) * p == p - q * p;
    MulMono(2, p, q);
    assert p * q == q * p;
  }

  lemma {:induction false} PowerInTop(p: nat, j: nat, n: nat)
    requires p >= 2 && Pow(p, j) <= n
    ensures Divides(Pow(p, j), Top(p, n))
    decreases j
  {
    hide Divides, Pow, Top;
    if j == 0 {
      PowZero(p);
      DividesByOne(Top(p, n));
    } else {
      PowNext(p, j - 1);
      var w := Pow(p, j - 1);
      MulGrows(w, p);
      RoomFor(w, p, n);
      TopNext(p, n);
      PowerInTop(p, j - 1, n / p);
      DividesTimesBoth(w, Top(p, n / p), p);
    }
  }

  lemma TopNext(p: nat, n: nat)
    requires 2 <= p <= n
    ensures Top(p, n) == Top(p, n / p) * p
  {
  }

  lemma DividesTimesBoth(a: nat, b: nat, p: nat)
    requires Divides(a, b) && p > 0
    ensures Divides(a * p, b * p)
  {
    var k := Cofactor(a, b);
    MulAssoc(k, a, p);
    MulGrows(a, p);
    DividesTimes(a * p, k);
  }

  lemma DividesByOne(n: nat)
    ensures Divides(1, n)
  {
  }

  lemma RoomFor(w: nat, p: nat, n: nat)
    requires p > 0 && w * p <= n
    ensures w <= n / p
  {
    var q := n / p;
    assert n < (q + 1) * p;
    MulCancel(w, q + 1, p);
  }

  /** The product of the largest powers up to `n` of the primes below `c`. */
  ghost function Tops(n: nat, c: nat): (t: nat)
    ensures t >= 1
  {
    if c == 0 then 1
    else if IsPrime(c - 1) then
      MulGrows(Tops(n, c - 1), Top(c - 1, n));
      Tops(n, c - 1) * Top(c - 1, n)
    else Tops(n, c - 1)
  }

  /** It is at most `n` to the number of those primes. */
  lemma {:induction false} TopsBounded(n: nat, c: nat)
    requires n >= 1
    ensures Tops(n, c) <= Pow(n, PrimesBelow(c))
  {
    hide IsPrime;
    if c > 0 {
      TopsBounded(n, c - 1);
      if IsPrime(c - 1) {
        PrimeNotUnit(c - 1);
        var a, b, t := Tops(n, c - 1), Pow(n, PrimesBelow(c - 1)), Top(c - 1, n);
        MulMono(a, b, t);
        MulMono(t, n, b);
        assert t * b == b * t && n * b == b * n;
        PowNext(n, PrimesBelow(c - 1));
      }
    }
  }

  lemma {:induction false} TopInTops(p: nat, n: nat, c: nat)
    requires IsPrime(p) && p < c
    ensures Divides(Top(p, n), Tops(n, c))
    decreases c
  {
    hide IsPrime, Divides;
    PrimeNotUnit(p);
    if p == c - 1 {
      DividesTimes(Top(p, n), Tops(n, c - 1));
    } else {
      TopInTops(p, n, c - 1);
      if IsPrime(c - 1) {
        PrimeNotUnit(c - 1);
        DividesScale(Top(p, n), Tops(n, c - 1), Top(c - 1, n));
        assert Top(c - 1, n) * Tops(n, c - 1) == Tops(n, c - 1) * Top(c - 1, n);
      }
    }
  }

  /** A number is a power of a prime of its times a number the prime does not divide. */
  lemma {:induction false} SplitOff(m: nat, p: nat) returns (j: nat, b: nat)
    requires m >= 1 && p >= 2
    ensures m == b * Pow(p, j) && b >= 1 && !Divides(p, b)
    ensures Divides(p, m) ==> j >= 1
    decreases m
  {
    hide Divides;
    if Divides(p, m) {
      var k := Cofactor(p, m);
      FactorPositive(k, p, m);
      MulMono(2, p, k);
      assert p * k == k * p;
      j, b := SplitOff(k, p);
      PowNext(p, j);
      MulAssoc(b, Pow(p, j), p);
      j := j + 1;
    } else {
      j, b := 0, m;
      assert Pow(p, 0) == 1;
    }
  }

  lemma FactorPositive(k: nat, p: nat, m: nat)
    requires m == k * p && m >= 1
    ensures k >= 1
  {
  }

  /** A prime power and a number the prime does not divide both divide `x`: so does their
      product. */
  lemma {:induction false} CoprimeProduct(p: nat, j: nat, b: nat, x: nat)
    requires IsPrime(p) && !Divides(p, b) && b >= 1 && Divides(b, x) && Divides(Pow(p, j), x)
    ensures Divides(b * Pow(p, j), x)
    decreases j
  {
    hide Divides, IsPrime;
    PrimeNotUnit(p);
    if j == 0 {
      assert b * Pow(p, 0) == b;
    } else {
      var w := Pow(p, j - 1);
      PowNext(p, j - 1);
      DividesTimes(w, p);
      assert p * w == w * p;
      DividesTrans(w, Pow(p, j), x);
      CoprimeProduct(p, j - 1, b, x);
      OneMore(p, b, w, x);
      MulAssoc(b, w, p);
    }
  }

  lemma OneMore(p: nat, b: nat, w: nat, x: nat)
    requires IsPrime(p) && !Divides(p, b) && b >= 1 && w >= 1 && Divides(b * w, x) && Divides(w * p, x)
    ensures Divides((b * w) * p, x)
  {
    hide Divides, IsPrime;
    PrimeNotUnit(p);
    var k := Cofactor(b * w, x);
    var l := Cofactor(w * p, x);
    assert (k * b) * w == (l * p) * w;
    CancelRight(k * b, l * p, w);
    DividesTimes(p, l);
    EuclidsLemma(p, k, b);
    var i := Cofactor(p, k);
    assert x == (i * p) * (b * w) == i * ((b * w) * p);
    MulGrows(b, w);
    MulGrows(b * w, p);
    DividesTimes((b * w) * p, i);
  }

  /** Every number up to `n` divides the product. */
  lemma {:induction false} AllDivide(m: nat, n: nat)
    requires 1 <= m <= n
    ensures Divides(m, Tops(n, n + 1))
    decreases m
  {
    hide Divides, IsPrime, Tops;
    if m == 1 {
      DividesByOne(Tops(n, n + 1));
    } else {
      var p := PrimeDivisor(m);
      PrimeNotUnit(p);
      DivisorBounds(p, m);
      var j, b := SplitOff(m, p);
      SmallerPart(m, b, p, j);
      AllDivide(b, n);
      PowerInTop(p, j, n);
      TopInTops(p, n, n + 1);
      DividesTrans(Pow(p, j), Top(p, n), Tops(n, n + 1));
      CoprimeProduct(p, j, b, Tops(n, n + 1));
    }
  }

  lemma SmallerPart(m: nat, b: nat, p: nat, j: nat)
    requires m == b * Pow(p, j) && b >= 1 && j >= 1 && p >= 2
    ensures b < m && Pow(p, j) <= m
  {
    hide Pow;
    PowNext(p, j - 1);
    MulGrows(Pow(p, j - 1), p);
    PartBelow(m, b, Pow(p, j));
  }

  lemma PartBelow(m: nat, b: nat, z: nat)
    requires m == b * z && b >= 1 && z >= 2
    ensures b < m && z <= m
  {
    MulGrows(b, z);
    MulGrows(z - 1, b);
    assert (z - 1) * b == b * z - b;
  }

  // ---------------------------------------------------------------------------
  // Leibniz's triangle
  // ---------------------------------------------------------------------------

  function Choose(n: nat, k: nat): nat {
    if k == 0 then 1
    else if n == 0 then 0
    else Choose(n - 1, k - 1) + Choose(n - 1, k)
  }

  lemma {:induction false} Absorption(n: nat, k: nat)
    ensures (k + 1) * Choose(n + 1, k + 1) == (n + 1) * Choose(n, k)
  {
    if n == 0 {
      assert Choose(0, k + 1) == 0;
      if k > 0 {
        assert Choose(1, k + 1) == 0 && Choose(0, k) == 0;
      }
    } else if k == 0 {
      Absorption(n - 1, 0);
      assert Choose(n + 1, 1) == Choose(n, 0) + Choose(n, 1);
    } else {
      Absorption(n - 1, k - 1);
      Absorption(n - 1, k);
      var a, b := Choose(n - 1, k - 1), Choose(n - 1, k);
      assert Choose(n, k) == a + b;
      assert Choose(n + 1, k + 1) == Choose(n, k) + Choose(n, k + 1);
      AbsorptionStep(n, k, a, b, Choose(n, k + 1));
    }
  }

  lemma AbsorptionStep(n: nat, k: nat, a: nat, b: nat, c: nat)
    requires k * (a + b) == n * a && (k + 1) * c == n * b
    ensures (k + 1) * ((a + b) + c) == (n + 1) * (a + b)
  {
    assert (k + 1) * ((a + b) + c) == k * (a + b) + (a + b) + (k + 1) * c;
    assert n * a + n * b == n * (a + b);
  }

  /** Along a row: the next entry is the last times what is left over what has been taken. */
  lemma AlongRow(n: nat, k: nat)
    requires k <= n
    ensures (k + 1) * Choose(n, k + 1) == (n - k) * Choose(n, k)
  {
    Absorption(n, k);
    assert Choose(n + 1, k + 1) == Choose(n, k) + Choose(n, k + 1);
    AlongStep(n, k, Choose(n, k), Choose(n, k + 1));
  }

  lemma AlongStep(n: nat, k: nat, a: nat, b: nat)
    requires k <= n && (k + 1) * (a + b) == (n + 1) * a
    ensures (k + 1) * b == (n - k) * a
  {
    assert (k + 1) * (a + b) == (k + 1) * a + (k + 1) * b;
    assert (n + 1) * a - (k + 1) * a == (n - k) * a;
  }

  ghost predicate AllUpTo(d: nat, n: nat) {
    forall m :: 1 <= m <= n ==> Divides(m, d)
  }

  /** What all of 1 to `n` divide, `n * Choose(n - 1, j)` divides too. */
  lemma {:induction false} LeibnizDivides(d: nat, n: nat, j: nat) returns (a: int)
    requires 1 <= n && j < n && AllUpTo(d, n)
    ensures a * (n * Choose(n - 1, j)) == d
    decreases n, j
  {
    hide Divides, Choose;
    if j == 0 {
      assert Divides(n, d);
      var k := Cofactor(n, d);
      ChooseNone(n - 1);
      a := k;
    } else {
      var b := LeibnizDivides(d, n - 1, j - 1);
      var c := LeibnizDivides(d, n, j - 1);
      Absorption(n - 2, j - 1);
      AlongRow(n - 1, j - 1);
      LeibnizStep(d, n, j, b, c, Choose(n - 1, j), Choose(n - 1, j - 1), Choose(n - 2, j - 1));
      a := b - c;
    }
  }

  lemma ChooseNone(n: nat)
    ensures Choose(n, 0) == 1
  {
  }

  lemma LeibnizStep(d: int, n: int, j: int, b: int, c: int, x: int, y: int, z: int)
    requires j >= 1 && b * ((n - 1) * z) == d && c * (n * y) == d
    requires j * x == (n - 1) * z && j * x == (n - j) * y
    ensures (b - c) * (n * x) == d
  {
    // b * (j * x) == d and c * n * (j * x) == (n - j) * d
    assert b * (j * x) == d;
    assert c * (n * (j * x)) == (n - j) * (c * (n * y)) == (n - j) * d;
    assert j * ((b - c) * (n * x)) == n * (b * (j * x)) - c * (n * (j * x)) == j * d;
    SameMultiple(j, (b - c) * (n * x), d);
  }

  lemma SameMultiple(j: int, x: int, y: int)
    requires j >= 1 && j * x == j * y
    ensures x == y
  {
    assert (x - y) * j == j * x - j * y;
    MulGrows(x - y, j);
  }

  // ---------------------------------------------------------------------------
  // How large the common multiple is
  // ---------------------------------------------------------------------------

  /** The first `k` entries of a row. */
  function RowTo(n: nat, k: nat): nat {
    if k == 0 then 0 else RowTo(n, k - 1) + Choose(n, k - 1)
  }

  lemma {:induction false} RowNext(n: nat, k: nat)
    ensures RowTo(n + 1, k + 1) == RowTo(n, k + 1) + RowTo(n, k)
  {
    if k == 0 {
      assert RowTo(n + 1, 1) == Choose(n + 1, 0) == 1 && RowTo(n, 1) == Choose(n, 0);
    } else {
      RowNext(n, k - 1);
      assert Choose(n + 1, k) == Choose(n, k - 1) + Choose(n, k);
    }
  }

  lemma {:induction false} PastRow(n: nat, k: nat)
    requires k > n
    ensures Choose(n, k) == 0
  {
    if n > 0 {
      PastRow(n - 1, k - 1);
      PastRow(n - 1, k);
    }
  }

  /** A whole row comes to a power of two. */
  lemma {:induction false} RowSum(n: nat)
    ensures RowTo(n, n + 1) == Pow(2, n)
  {
    if n == 0 {
      assert RowTo(0, 1) == Choose(0, 0);
    } else {
      RowSum(n - 1);
      RowNext(n - 1, n);
      PastRow(n - 1, n);
    }
  }

  lemma {:induction false} RowBounded(d: nat, n: nat, k: nat)
    requires 1 <= n && k <= n && AllUpTo(d, n) && d > 0
    ensures n * RowTo(n - 1, k) <= k * d
  {
    hide Choose, AllUpTo;
    if k > 0 {
      RowBounded(d, n, k - 1);
      var a := LeibnizDivides(d, n, k - 1);
      var x := n * Choose(n - 1, k - 1);
      FactorBelow(a, x, d);
      assert n * RowTo(n - 1, k) == n * RowTo(n - 1, k - 1) + x;
      assert k * d == (k - 1) * d + d;
    }
  }

  lemma FactorBelow(a: int, x: nat, d: nat)
    requires a * x == d && d > 0
    ensures x <= d
  {
    MulGrows(a, x);
  }

  /** What all of 1 to `n` divide is at least 2^(n-1). */
  lemma MultipleLarge(d: nat, n: nat)
    requires 1 <= n && AllUpTo(d, n) && d > 0
    ensures Pow(2, n - 1) <= d
  {
    hide Pow, AllUpTo, RowTo;
    RowSum(n - 1);
    RowBounded(d, n, n);
    MulLess(n, Pow(2, n - 1), d);
  }

  lemma MulLess(n: nat, x: nat, d: nat)
    requires n >= 1 && n * x <= n * d
    ensures x <= d
  {
    assert (d - x) * n == n * d - n * x;
    MulGrows(d - x, n);
  }

  // ---------------------------------------------------------------------------
  // How many primes there are
  // ---------------------------------------------------------------------------

  /** 2^(n-1) is at most `n` to the number of primes up to `n`. */
  lemma PrimesMany(n: nat)
    requires n >= 1
    ensures Pow(2, n - 1) <= Pow(n, PrimesBelow(n + 1))
  {
    hide Divides, Tops, Pow, PrimesBelow;
    var d := Tops(n, n + 1);
    forall m | 1 <= m <= n ensures Divides(m, d) {
      AllDivide(m, n);
    }
    MultipleLarge(d, n);
    TopsBounded(n, n + 1);
  }

  lemma {:induction false} PowOfPow(b: nat, e: nat, f: nat)
    ensures Pow(Pow(b, e), f) == Pow(b, e * f)
  {
    if f == 0 {
      assert e * f == 0;
    } else {
      PowOfPow(b, e, f - 1);
      assert e * f == e * (f - 1) + e;
      PowAdd(b, e * (f - 1), e);
    }
  }

  lemma {:induction false} TwoRises(a: nat, b: nat)
    requires a > b
    ensures Pow(2, a) > Pow(2, b)
    decreases a
  {
    PowNext(2, a - 1);
    if a - 1 > b {
      TwoRises(a - 1, b);
    }
  }

  /** Up to the `k`-th power of two there are at least one prime in `k` numbers, or nearly. */
  lemma PowerOfTwoPrimes(k: nat)
    ensures k * PrimesBelow(Pow(2, k) + 1) >= Pow(2, k) - 1
  {
    hide Pow, PrimesBelow;
    var n := Pow(2, k);
    PrimesMany(n);
    var m := PrimesBelow(n + 1);
    PowOfPow(2, k, m);
    if k * m < n - 1 {
      TwoRises(n - 1, k * m);
    }
  }

  lemma TwoToForty()
    ensures Pow(2, 40) == 0x100_0000_0000
  {
    hide Pow;
    TwoToFive();
    PowAdd(2, 5, 5);
    PowAdd(2, 10, 10);
    PowAdd(2, 20, 20);
  }

  lemma TwoToFive()
    ensures Pow(2, 5) == 32
  {
    assert Pow(2, 2) == 4 && Pow(2, 3) == 8 && Pow(2, 4) == 16;
  }

  /** A prime with fewer than 2^32 primes below it is below 2^40. */
  lemma NthPrimeFits(c: nat)
    requires IsPrime(c) && PrimesBelow(c) < 0x1_0000_0000
    ensures c < 0x100_0000_0000
  {
    hide IsPrime, PrimesBelow, Pow;
    TwoToForty();
    PowerOfTwoPrimes(40);
    if c > 0x100_0000_0000 {
      PrimesBelowMono(0x100_0000_0001, c);
    } else if c == 0x100_0000_0000 {
      EvenIsNotPrime();
    }
  }

  lemma EvenIsNotPrime()
    ensures !IsPrime(0x100_0000_0000)
  {
    Composite(0x100_0000_0000, 2);
  }
}
