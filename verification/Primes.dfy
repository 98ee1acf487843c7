/** The primes that stand for registers: there is always another one, trial division up to
    the square root finds them, and a prime dividing a product divides a factor. */
module Primes {
  import opened Arith

  predicate Divides(d: nat, n: nat) {
    d > 0 && n % d == 0
  }

  ghost predicate IsPrime(c: nat) {
    c >= 2 && forall d :: 2 <= d < c ==> !Divides(d, c)
  }

  // ---------------------------------------------------------------------------
  // Divisibility
  // ---------------------------------------------------------------------------

  lemma DividesTimes(d: nat, k: nat)
    requires d > 0
    ensures Divides(d, k * d)
  {
    DivModUnique(k * d, d, k, 0);
  }

  lemma Cofactor(d: nat, n: nat) returns (k: nat)
    requires Divides(d, n)
    ensures n == k * d
  {
    k := n / d;
  }

  lemma DividesSub(d: nat, a: nat, b: nat)
    requires Divides(d, a) && Divides(d, b) && a >= b
    ensures Divides(d, a - b)
  {
    var j := Cofactor(d, a);
    var k := Cofactor(d, b);
    assert a - b == (j - k) * d;
    MulGrows(j - k, d);
    DividesTimes(d, j - k);
  }

  lemma DividesScale(d: nat, a: nat, k: nat)
    requires Divides(d, a)
    ensures Divides(d, k * a)
  {
    var j := Cofactor(d, a);
    assert k * a == (k * j) * d;
    DividesTimes(d, k * j);
  }

  lemma DividesTrans(c: nat, d: nat, n: nat)
    requires Divides(c, d) && Divides(d, n)
    ensures Divides(c, n)
  {
    var k := Cofactor(d, n);
    DividesScale(c, d, k);
  }

  lemma DivisorBounds(d: nat, n: nat)
    requires Divides(d, n) && n > 0
    ensures d <= n
  {
    var k := Cofactor(d, n);
    MulGrows(k, d);
  }

  // ---------------------------------------------------------------------------
  // Trial division
  // ---------------------------------------------------------------------------

  /** A divisor above the square root has a partner below it. */
  lemma SmallDivisor(c: nat, d: nat) returns (e: nat)
    requires 2 <= d < c && Divides(d, c)
    ensures 2 <= e && e * e <= c && Divides(e, c)
  {
    if d * d <= c {
      e := d;
    } else {
      e := Cofactor(d, c);
      assert c == e * d;
      MulGrows(2 - e, d);
      MulDist(d, 2, 0 - e);
      MulGrows(e - d, d);
      MulDist(d, e, 0 - d);
      MulMono(e, d, e);
      assert e * d == d * e;
      DividesTimes(e, d);
    }
  }

  ghost predicate NoDivisorBelow(d: nat, c: nat) {
    forall e :: 2 <= e < d ==> !Divides(e, c)
  }

  lemma NoDivisorYet(c: nat)
    ensures NoDivisorBelow(2, c)
  {
  }

  lemma NoDivisorNext(d: nat, c: nat)
    requires NoDivisorBelow(d, c) && !Divides(d, c)
    ensures NoDivisorBelow(d + 1, c)
  {
  }

  lemma Composite(c: nat, d: nat)
    requires 2 <= d < c && Divides(d, c)
    ensures !IsPrime(c)
  {
  }

  /** Finding no divisor up to the square root is enough. */
  lemma TrialDivision(c: nat, d: nat)
    requires c >= 2 && d * d > c
    requires NoDivisorBelow(d, c)
    ensures IsPrime(c)
  {
    forall x | 2 <= x < c ensures !Divides(x, c) {
      if Divides(x, c) {
        var e := SmallDivisor(c, x);
        if e >= d {
          MulMono(d, e, d);
          MulMono(d, e, e);
        }
      }
    }
  }

  // ---------------------------------------------------------------------------
  // There are infinitely many primes
  // ---------------------------------------------------------------------------

  function Factorial(n: nat): (f: nat)
    ensures f >= 1
  {
    if n == 0 then 1 else Factorial(n - 1) * n
  }

  lemma {:induction false} FactorialDivisible(d: nat, n: nat)
    requires 1 <= d <= n
    ensures Divides(d, Factorial(n))
  {
    if d == n {
      DividesTimes(n, Factorial(n - 1));
    } else {
      FactorialDivisible(d, n - 1);
      DividesScale(d, Factorial(n - 1), n);
      assert Factorial(n) == n * Factorial(n - 1);
    }
  }

  lemma {:induction false} PrimeDivisor(n: nat) returns (p: nat)
    requires n >= 2
    ensures IsPrime(p) && Divides(p, n)
    decreases n
  {
    if IsPrime(n) {
      p := n;
      assert n == 1 * n;
      DividesTimes(n, 1);
    } else {
      var d :| 2 <= d < n && Divides(d, n);
      p := PrimeDivisor(d);
      DividesTrans(p, d, n);
    }
  }

  lemma PrimeAbove(m: nat) returns (p: nat)
    ensures IsPrime(p) && p > m
  {
    var f := Factorial(m);
    p := PrimeDivisor(f + 1);
    if p <= m {
      FactorialDivisible(p, m);
      DividesSub(p, f + 1, f);
      DivisorBounds(p, 1);
    }
  }

  // ---------------------------------------------------------------------------
  // Counting primes
  // ---------------------------------------------------------------------------

  ghost function PrimesBelow(c: nat): (n: nat) {
    if c == 0 then 0 else PrimesBelow(c - 1) + if IsPrime(c - 1) then 1 else 0
  }

  ghost function PrimeSet(c: nat): set<int> {
    set q | 0 <= q < c && IsPrime(q)
  }

  lemma PrimeSetNext(c: nat)
    ensures |PrimeSet(c + 1)| == |PrimeSet(c)| + if IsPrime(c) then 1 else 0
  {
    hide IsPrime;
    assert PrimeSet(c + 1) == if IsPrime(c) then PrimeSet(c) + {c} else PrimeSet(c);
  }

  lemma {:induction false} PrimesCounted(c: nat)
    ensures PrimesBelow(c) == |PrimeSet(c)|
  {
    if c > 0 {
      hide IsPrime, PrimeSet;
      PrimesCounted(c - 1);
      PrimeSetNext(c - 1);
    }
  }

  lemma {:induction false} PrimesBelowMono(c: nat, d: nat)
    requires c <= d
    ensures PrimesBelow(c) <= PrimesBelow(d)
    decreases d
  {
    hide IsPrime;
    if c < d {
      PrimesBelowMono(c, d - 1);
    }
  }

  lemma {:induction false} ManyPrimes(n: nat) returns (bound: nat)
    ensures PrimesBelow(bound) > n
  {
    hide IsPrime;
    if n == 0 {
      var p := PrimeAbove(0);
      bound := p + 1;
    } else {
      var b := ManyPrimes(n - 1);
      var p := PrimeAbove(b);
      PrimesBelowMono(b, p);
      bound := p + 1;
    }
  }

  lemma PrimesBelowGrows(p: nat, q: nat)
    requires IsPrime(p) && p < q
    ensures PrimesBelow(p) < PrimesBelow(q)
  {
    hide IsPrime;
    PrimesBelowMono(p + 1, q);
  }

  /** The number of smaller primes tells primes apart. */
  lemma NthUnique(p: nat, q: nat)
    requires IsPrime(p) && IsPrime(q) && PrimesBelow(p) == PrimesBelow(q)
    ensures p == q
  {
    hide IsPrime, PrimesBelow;
    if p < q {
      PrimesBelowGrows(p, q);
    } else if q < p {
      PrimesBelowGrows(q, p);
    }
  }

  /** Trial division of successive candidates; it ends because there is always another prime. */
  method TallyNthPrime(n: nat) returns (c: nat)
    ensures IsPrime(c) && PrimesBelow(c) == n
    ensures n == |set q | 0 <= q < c && IsPrime(q)|
  {
    hide IsPrime, Divides, NoDivisorBelow;
    c := 1;
    var found := 0;
    ghost var bound := ManyPrimes(n);
    NoneBelowTwo();
    while true
      invariant 1 <= c && found == PrimesBelow(c + 1) <= n
      decreases bound - c
    {
      if c + 1 >= bound {
        PrimesBelowMono(bound, c + 1);
      }
      c := c + 1;
      var prime, d := true, 2;
      NoDivisorYet(c);
      while d * d <= c
        invariant d >= 2 && prime && NoDivisorBelow(d, c)
        decreases c - d
      {
        SquareAbove(d, c);
        if Divides(d, c) {
          prime := false;
          break;
        }
        NoDivisorNext(d, c);
        d := d + 1;
      }
      if prime {
        TrialDivision(c, d);
        if found == n {
          PrimesCounted(c);
          return;
        }
        found := found + 1;
      } else {
        Composite(c, d);
      }
    }
  }

  lemma SquareAbove(d: nat, c: nat)
    requires d >= 2 && d * d <= c
    ensures d < c
  {
    MulMono(2, d, d);
  }

  lemma NoneBelowTwo()
    ensures PrimesBelow(2) == 0
  {
    assert PrimesBelow(1) == 0;
  }

  // ---------------------------------------------------------------------------
  // Primes divide products through a factor
  // ---------------------------------------------------------------------------

  lemma {:induction false} EuclidsLemma(p: nat, a: nat, b: nat)
    requires IsPrime(p) && Divides(p, a * b)
    ensures Divides(p, a) || Divides(p, b)
    decreases a
  {
    if a == 0 {
      assert Divides(p, 0);
    } else if a == 1 {
      assert a * b == b;
    } else if a >= p {
      // subtract one p from a
      assert (a - p) * b == a * b - p * b;
      assert p * b == b * p;
      DividesTimes(p, b);
      MulMono(p, a, b);
      DividesSub(p, a * b, b * p);
      EuclidsLemma(p, a - p, b);
      if Divides(p, a - p) {
        var k := Cofactor(p, a - p);
        assert a == (k + 1) * p;
        DividesTimes(p, k + 1);
      }
    } else {
      // p = q * a + r with 0 < r < a
      var q, r := p / a, p % a;
      assert !Divides(a, p);
      assert p == q * a + r;
      assert p * b == q * (a * b) + r * b;
      assert p * b == b * p;
      DividesTimes(p, b);
      DividesScale(p, a * b, q);
      DividesSub(p, b * p, q * (a * b));
      EuclidsLemma(p, r, b);
      if Divides(p, r) {
        DivisorBounds(p, r);
      }
    }
  }
}
