/** A bank of registers as one number: each register is a prime, its value that prime's
    exponent. */
module Banks {
  import opened Arith
  import opened Primes

  function Pow(b: nat, e: nat): (r: nat)
    ensures b > 0 ==> r > 0
  {
    if e == 0 then 1 else Pow(b, e - 1) * b
  }

  lemma PowZero(b: nat)
    ensures Pow(b, 0) == 1
  {
  }

  lemma {:induction false} PowAdd(b: nat, e: nat, f: nat)
    ensures Pow(b, e + f) == Pow(b, e) * Pow(b, f)
  {
    if f > 0 {
      PowAdd(b, e, f - 1);
      MulAssoc(Pow(b, e), Pow(b, f - 1), b);
    }
  }

  /** Squaring the base halves the exponent. */
  lemma {:induction false} PowSquare(b: nat, e: nat)
    ensures Pow(b * b, e) == Pow(b, 2 * e)
  {
    if e > 0 {
      PowSquare(b, e - 1);
      MulAssoc(Pow(b, 2 * e - 2), b, b);
    }
  }

  /** No power of one prime is divisible by another. */
  lemma {:induction false} PowersApart(p: nat, q: nat, e: nat)
    requires IsPrime(p) && IsPrime(q) && p != q
    ensures !Divides(p, Pow(q, e))
    decreases e
  {
    hide Divides, IsPrime;
    if Divides(p, Pow(q, e)) {
      if e == 0 {
        PrimeNotUnit(p);
      } else {
        EuclidsLemma(p, Pow(q, e - 1), q);
        PowersApart(p, q, e - 1);
        PrimesApart(p, q);
      }
    }
  }

  lemma PrimeNotUnit(p: nat)
    requires IsPrime(p)
    ensures !Divides(p, 1) && p >= 2
  {
  }

  lemma PrimesApart(p: nat, q: nat)
    requires IsPrime(p) && IsPrime(q) && p != q
    ensures !Divides(p, q)
  {
    if Divides(p, q) {
      DivisorBounds(p, q);
    }
  }

  /** Zero marks a register without a prime; the others have different primes. */
  ghost predicate PrimesOk(primes: seq<nat>) {
    && (forall r :: 0 <= r < |primes| && primes[r] != 0 ==> IsPrime(primes[r]))
    && (forall r, s :: 0 <= r < s < |primes| && primes[r] != 0 ==> primes[r] != primes[s])
  }

  /** What register `r` contributes to the bank. */
  function Share(primes: seq<nat>, v: seq<nat>, r: nat): nat
    requires r < |primes| == |v|
  {
    if primes[r] == 0 then 1 else Pow(primes[r], v[r])
  }

  /** The product of the first `n` registers' shares. */
  function BankTo(primes: seq<nat>, v: seq<nat>, n: nat): nat
    requires n <= |primes| == |v|
  {
    if n == 0 then 1 else BankTo(primes, v, n - 1) * Share(primes, v, n - 1)
  }

  function Bank(primes: seq<nat>, v: seq<nat>): nat
    requires |primes| == |v|
  {
    BankTo(primes, v, |v|)
  }

  lemma {:induction false} BankPositive(primes: seq<nat>, v: seq<nat>, n: nat)
    requires n <= |primes| == |v|
    ensures BankTo(primes, v, n) > 0
  {
    if n > 0 {
      BankPositive(primes, v, n - 1);
      MulGrows(BankTo(primes, v, n - 1), Share(primes, v, n - 1));
    }
  }

  /** One more bean multiplies the bank by the register's prime. */
  lemma {:induction false} BankGive(primes: seq<nat>, v: seq<nat>, n: nat, r: nat)
    requires r < n <= |primes| == |v| && primes[r] != 0
    ensures BankTo(primes, v[r := v[r] + 1], n) == BankTo(primes, v, n) * primes[r]
  {
    hide Pow;
    var w := v[r := v[r] + 1];
    var rest := BankTo(primes, v, n - 1);
    if r == n - 1 {
      BankOutside(primes, v, n - 1, r, v[r] + 1);
      PowNext(primes[r], v[r]);
      MulAssoc(rest, Pow(primes[r], v[r]), primes[r]);
    } else {
      BankGive(primes, v, n - 1, r);
      var p, s := primes[r], Share(primes, v, n - 1);
      assert Share(primes, w, n - 1) == s;
      assert (rest * p) * s == (rest * s) * p by {
        MulAssoc(rest, p, s);
        MulAssoc(rest, s, p);
      }
    }
  }

  lemma PowNext(b: nat, e: nat)
    ensures Pow(b, e + 1) == Pow(b, e) * b
  {
  }

  lemma {:induction false} BankOutside(primes: seq<nat>, v: seq<nat>, n: nat, r: nat, x: nat)
    requires n <= r < |v| == |primes|
    ensures BankTo(primes, v[r := x], n) == BankTo(primes, v, n)
  {
    if n > 0 {
      BankOutside(primes, v, n - 1, r, x);
    }
  }

  /** A prime missing from the shares does not divide their product. */
  lemma {:induction false} BankPrime(primes: seq<nat>, v: seq<nat>, n: nat, p: nat)
    requires n <= |primes| == |v| && PrimesOk(primes) && IsPrime(p)
    requires forall s :: 0 <= s < n && primes[s] == p ==> v[s] == 0
    ensures !Divides(p, BankTo(primes, v, n))
  {
    hide Divides, IsPrime, Pow;
    if n == 0 {
      PrimeNotUnit(p);
    } else {
      BankPrime(primes, v, n - 1, p);
      ShareApart(primes, v, n - 1, p);
      if Divides(p, BankTo(primes, v, n)) {
        EuclidsLemma(p, BankTo(primes, v, n - 1), Share(primes, v, n - 1));
      }
    }
  }

  lemma ShareApart(primes: seq<nat>, v: seq<nat>, s: nat, p: nat)
    requires s < |primes| == |v| && PrimesOk(primes) && IsPrime(p)
    requires primes[s] == p ==> v[s] == 0
    ensures !Divides(p, Share(primes, v, s))
  {
    hide Divides, IsPrime;
    PrimeNotUnit(p);
    if primes[s] != 0 && primes[s] != p {
      PowersApart(p, primes[s], v[s]);
    }
  }

  /** A register holds a bean exactly when its prime divides the bank, and taking the bean
      out is dividing. */
  lemma BankTake(primes: seq<nat>, v: seq<nat>, r: nat)
    requires |primes| == |v| && r < |v| && PrimesOk(primes) && primes[r] != 0
    ensures Divides(primes[r], Bank(primes, v)) <==> v[r] > 0
    ensures v[r] > 0 ==> Bank(primes, v) == Bank(primes, v[r := v[r] - 1]) * primes[r]
  {
    hide Divides, IsPrime, BankTo;
    if v[r] > 0 {
      var less := v[r := v[r] - 1];
      BankGive(primes, less, |v|, r);
      assert less[r := less[r] + 1] == v;
      DividesTimes(primes[r], Bank(primes, less));
    } else {
      BankPrime(primes, v, |v|, primes[r]);
    }
  }

  // ---------------------------------------------------------------------------
  // A bank is read back in one way only
  // ---------------------------------------------------------------------------

  /** No prime in the table divides `x`. */
  ghost predicate FreeOf(primes: seq<nat>, x: nat) {
    forall r :: 0 <= r < |primes| && primes[r] != 0 ==> !Divides(primes[r], x)
  }

  /** The exponent of a prime in `a * Bank(v)` is the register's value when it does not divide
      `a`: whether the prime divides the product tells whether the register is empty. */
  lemma ProductTake(primes: seq<nat>, a: nat, v: seq<nat>, r: nat)
    requires |primes| == |v| && r < |v| && PrimesOk(primes) && primes[r] != 0 && !Divides(primes[r], a)
    ensures Divides(primes[r], a * Bank(primes, v)) <==> v[r] > 0
  {
    hide Divides, IsPrime, Bank;
    BankTake(primes, v, r);
    if v[r] > 0 {
      DividesScale(primes[r], Bank(primes, v), a);
    } else if Divides(primes[r], a * Bank(primes, v)) {
      assert IsPrime(primes[r]);
      EuclidsLemma(primes[r], a, Bank(primes, v));
    }
  }

  lemma CancelRight(a: nat, b: nat, p: nat)
    requires a * p == b * p && p > 0
    ensures a == b
  {
    assert (a - b) * p == a * p - b * p;
    MulGrows(a - b, p);
  }

  lemma {:induction false} SameExponent(primes: seq<nat>, a: nat, v: seq<nat>, b: nat, w: seq<nat>, r: nat)
    requires |primes| == |v| == |w| && r < |v| && PrimesOk(primes) && primes[r] != 0
    requires !Divides(primes[r], a) && !Divides(primes[r], b)
    requires a * Bank(primes, v) == b * Bank(primes, w)
    ensures v[r] == w[r]
    decreases v[r]
  {
    hide Divides, Bank, IsPrime, PrimesOk;
    ProductTake(primes, a, v, r);
    ProductTake(primes, b, w, r);
    if v[r] > 0 {
      var v', w', p := v[r := v[r] - 1], w[r := w[r] - 1], primes[r];
      BankTake(primes, v, r);
      BankTake(primes, w, r);
      MulAssoc(a, Bank(primes, v'), p);
      MulAssoc(b, Bank(primes, w'), p);
      CancelRight(a * Bank(primes, v'), b * Bank(primes, w'), p);
      SameExponent(primes, a, v', b, w', r);
    }
  }

  ghost predicate SameNamed(primes: seq<nat>, v: seq<nat>, w: seq<nat>) {
    |primes| == |v| == |w| && forall r :: 0 <= r < |v| && primes[r] != 0 ==> v[r] == w[r]
  }

  lemma {:induction false} SameBank(primes: seq<nat>, v: seq<nat>, w: seq<nat>, n: nat)
    requires SameNamed(primes, v, w) && n <= |v|
    ensures BankTo(primes, v, n) == BankTo(primes, w, n)
  {
    if n > 0 {
      SameBank(primes, v, w, n - 1);
    }
  }

  /** Two readings of one number, neither leaving a table prime behind, agree on every named
      register and on what is left. */
  lemma ReadOneWay(primes: seq<nat>, a: nat, v: seq<nat>, b: nat, w: seq<nat>)
    requires |primes| == |v| == |w| && PrimesOk(primes) && FreeOf(primes, a) && FreeOf(primes, b)
    requires a * Bank(primes, v) == b * Bank(primes, w)
    ensures SameNamed(primes, v, w) && a == b
  {
    hide Divides, BankTo, IsPrime;
    forall r | 0 <= r < |v| && primes[r] != 0 ensures v[r] == w[r] {
      SameExponent(primes, a, v, b, w, r);
    }
    SameBank(primes, v, w, |v|);
    BankPositive(primes, v, |v|);
    CancelRight(a, b, Bank(primes, v));
  }

  lemma FreeOfOne(primes: seq<nat>)
    requires PrimesOk(primes)
    ensures FreeOf(primes, 1)
  {
    hide Divides, IsPrime;
    forall r | 0 <= r < |primes| && primes[r] != 0 ensures !Divides(primes[r], 1) {
      PrimeNotUnit(primes[r]);
    }
  }

  /** The bank determines every named register and depends on nothing else. */
  lemma BankDetermines(primes: seq<nat>, v: seq<nat>, w: seq<nat>)
    requires |primes| == |v| == |w| && PrimesOk(primes)
    ensures Bank(primes, v) == Bank(primes, w) <==> SameNamed(primes, v, w)
  {
    hide BankTo, SameNamed, PrimesOk;
    if SameNamed(primes, v, w) {
      SameBank(primes, v, w, |v|);
    } else if Bank(primes, v) == Bank(primes, w) {
      FreeOfOne(primes);
      assert 1 * Bank(primes, v) == 1 * Bank(primes, w);
      ReadOneWay(primes, 1, v, 1, w);
    }
  }

  lemma {:induction false} BankOfNothing(primes: seq<nat>, v: seq<nat>, n: nat)
    requires n <= |primes| == |v| && forall r :: 0 <= r < |v| ==> v[r] == 0
    ensures BankTo(primes, v, n) == 1
  {
    if n > 0 {
      BankOfNothing(primes, v, n - 1);
    }
  }

  /** `k` more beans multiply the bank by the `k`-th power of the prime. */
  lemma {:induction false} BankGiveMany(primes: seq<nat>, v: seq<nat>, r: nat, k: nat)
    requires |primes| == |v| && r < |v| && primes[r] != 0
    ensures Bank(primes, v[r := v[r] + k]) == Bank(primes, v) * Pow(primes[r], k)
    decreases k
  {
    hide BankTo;
    if k == 0 {
      assert v[r := v[r]] == v;
    } else {
      var w := v[r := v[r] + k - 1];
      BankGiveMany(primes, v, r, k - 1);
      BankGive(primes, w, |w|, r);
      assert w[r := w[r] + 1] == v[r := v[r] + k];
      MulAssoc(Bank(primes, v), Pow(primes[r], k - 1), primes[r]);
    }
  }
}
