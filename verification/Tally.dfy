/** The tally encoder's arithmetic on big numbers: the program as one number, the bank of
    registers as another, and the bank read back. */
module Tally {
  import opened Arith
  import opened Limbs
  import opened Machine
  import opened Passes
  import opened Threading
  import opened Cleaning
  import opened Primes
  import opened Banks
  import opened Tallies
  import opened Layouts
  import opened Universality
  import opened Bignums
  import opened RegFiles

  /** A cleaned, encoded program's number runs on the universal machine exactly as the source
      program runs, banks standing for registers: one halts if and only if the other does,
      and the final bank is the bank of the final registers. */
  lemma TallyRuns(p: Program, nil: nat, l: TallyLayout, v: Regs)
    requires IsRaw(p) && ProgOk(p, |v|) && NeverFed(p, nil) && TargetsWithin(p) && NilEmpty(v, nil)
    requires Lays(p, nil, |v|, l) && EntryLowest(p, nil)
    ensures forall k: nat, res :: Ends(p, v, k, res) ==>
              |res| == |v| && exists m: nat ::
                Computes(Code(l.insts, l.primeOf), Bank(l.primeOf, v), m, Bank(l.primeOf, res))
    ensures forall m: nat, out :: Computes(Code(l.insts, l.primeOf), Bank(l.primeOf, v), m, out) ==>
              exists k: nat, res :: Ends(p, v, k, res) && |res| == |v| && out == Bank(l.primeOf, res)
  {
    hide Ends, Computes, Code, Bank, NeverFed, Cleaned, EntryLowest, TargetsWithin, PrimesOk, HasPrimes;
    CleaningCorrect(p, nil, l.insts, v);
    UniversalMachine(l.insts, l.primeOf, v);
  }

  // ---------------------------------------------------------------------------
  // The program
  // ---------------------------------------------------------------------------

  /** Twice a number, `n` times over. */
  method Doubled(x: Bignum, n: nat) returns (r: Bignum)
    requires Ok(x)
    ensures Ok(r) && Value(r) == Value(x) * Pow(2, n) && if n == 0 then r == x else fresh(Footprint(r))
  {
    hide Ok, Value;
    FootprintAllocated(x);
    r := x;
    ghost var v := Value(x);
    for i := 0 to n
      invariant Ok(x) && Value(x) == v && Ok(r) && Value(r) == v * Pow(2, i)
      invariant if i == 0 then r == x else fresh(Footprint(r))
    {
      FootprintAllocated(r);
      MulAssoc(v, Pow(2, i), 2);
      r := Bignums.Add(r, r);
    }
  }

  /** `n` one-bits. */
  method Ones(n: nat) returns (r: Bignum)
    ensures Ok(r) && Value(r) == Pow(2, n) - 1 && fresh(Footprint(r))
  {
    hide Ok, Value, Pow;
    var one := FromU64(1);
    FootprintAllocated(one);
    var ones := Doubled(one, n);
    FootprintAllocated(ones);
    var ok;
    ok, r := Dec(ones);
  }

  /** The field `n` below what `acc` already holds. */
  method PrependField(acc: Bignum, n: nat) returns (r: Bignum)
    requires Ok(acc)
    ensures Ok(r) && Value(r) == Value(acc) * Pow(2, n + 1) + (Pow(2, n) - 1)
    ensures fresh(Footprint(r))
  {
    hide Ok, Value, Pow;
    FootprintAllocated(acc);
    var shifted := Doubled(acc, n + 1);
    FootprintAllocated(shifted);
    var ones := Ones(n);
    FootprintAllocated(ones);
    r := Bignums.AddInto(shifted, ones);
  }

  /** The number of the fields of one instruction followed by those of the rest. */
  lemma PrependTwo(x: nat, y: nat, rest: seq<nat>)
    ensures Number([y] + rest) == Number(rest) * Pow(2, y + 1) + (Pow(2, y) - 1)
    ensures Number([x, y] + rest) == Number([y] + rest) * Pow(2, x + 1) + (Pow(2, x) - 1)
  {
    hide Pow;
    assert ([y] + rest)[1..] == rest;
    assert ([x, y] + rest)[1..] == [y] + rest;
  }

  lemma PrependThree(x: nat, y: nat, z: nat, rest: seq<nat>)
    ensures Number([z] + rest) == Number(rest) * Pow(2, z + 1) + (Pow(2, z) - 1)
    ensures Number([y, z] + rest) == Number([z] + rest) * Pow(2, y + 1) + (Pow(2, y) - 1)
    ensures Number([x, y, z] + rest) == Number([y, z] + rest) * Pow(2, x + 1) + (Pow(2, x) - 1)
  {
    hide Pow;
    PrependTwo(y, z, rest);
    assert ([x, y, z] + rest)[1..] == [y, z] + rest;
  }

  lemma FieldsNext(q: Program, primes: seq<nat>, i: nat)
    requires i < |q| && HasPrimes(q, primes)
    ensures FieldsFrom(q, primes, i) == FieldsOf(q, primes, i) + FieldsFrom(q, primes, i + 1)
  {
  }

  lemma FieldsDone(q: Program, primes: seq<nat>)
    requires HasPrimes(q, primes)
    ensures Number(FieldsFrom(q, primes, |q|)) == 0
  {
  }

  lemma FieldsAre(l: TallyLayout, i: nat)
    requires HasPrimes(l.insts, l.primeOf) && i < |l.insts| && |l.fieldOff| == |l.insts| + 1
    requires forall i :: 0 <= i <= |l.insts| ==> l.fieldOff[i] == Offset(l.insts, i)
    ensures FieldsOf(l.insts, l.primeOf, i) ==
      match l.insts[i]
      case Inc(r, a) => [2 * l.primeOf[r], ReadOffset(l.fieldOff, a)]
      case Deb(r, a, b) => [2 * l.primeOf[r] + 1, ReadOffset(l.fieldOff, a), ReadOffset(l.fieldOff, b)]
      case _ => [0]
  {
    hide Offset;
    match l.insts[i]
    case Inc(r, a) => ReadOffsetIs(l.insts, l.fieldOff, a);
    case Deb(r, a, b) =>
      ReadOffsetIs(l.insts, l.fieldOff, a);
      ReadOffsetIs(l.insts, l.fieldOff, b);
    case _ =>
  }

  /** The fields of one instruction, last first. */
  method PrependInst(l: TallyLayout, i: nat, acc: Bignum, ghost rest: seq<nat>) returns (r: Bignum)
    requires HasPrimes(l.insts, l.primeOf) && i < |l.insts| && Ok(acc) && Value(acc) == Number(rest)
    requires |l.fieldOff| == |l.insts| + 1
    requires forall i :: 0 <= i <= |l.insts| ==> l.fieldOff[i] == Offset(l.insts, i)
    ensures Ok(r) && Value(r) == Number(FieldsOf(l.insts, l.primeOf, i) + rest)
  {
    hide Ok, Value, Number, Pow, Offset, TargetField, ReadOffset, FieldsOf;
    FieldsAre(l, i);
    FootprintAllocated(acc);
    match l.insts[i]
    case Inc(x, a) =>
      var kind, fa := 2 * l.primeOf[x], ReadOffset(l.fieldOff, a);
      PrependTwo(kind, fa, rest);
      r := PrependField(acc, fa);
      FootprintAllocated(r);
      r := PrependField(r, kind);
    case Deb(x, a, b) =>
      var kind, fa, fb := 2 * l.primeOf[x] + 1, ReadOffset(l.fieldOff, a), ReadOffset(l.fieldOff, b);
      PrependThree(kind, fa, fb, rest);
      r := PrependField(acc, fb);
      FootprintAllocated(r);
      r := PrependField(r, fa);
      FootprintAllocated(r);
      r := PrependField(r, kind);
    case _ =>
      PrependTwo(0, 0, rest);
      r := PrependField(acc, 0);
  }

  /** The layout's program as one number, which fits in its bit count. */
  method TallyProgram(l: TallyLayout, ghost p: Program, ghost nil: nat, ghost rc: nat) returns (r: Bignum)
    requires Lays(p, nil, rc, l)
    ensures Ok(r) && Value(r) == Code(l.insts, l.primeOf) < Pow(2, l.bitCount)
  {
    hide Ok, Value, Number, Pow, Offset, FieldsFrom, FieldsOf, Bits, Cleaned, PrimesOk, HasPrimes;
    r := FromU64(0);
    FieldsDone(l.insts, l.primeOf);
    var i: nat := |l.insts|;
    while i > 0
      invariant i <= |l.insts| && Ok(r) && Value(r) == Number(FieldsFrom(l.insts, l.primeOf, i))
    {
      i := i - 1;
      FieldsNext(l.insts, l.primeOf, i);
      r := PrependInst(l, i, r, FieldsFrom(l.insts, l.primeOf, i + 1));
    }
    NumberFits(FieldsFrom(l.insts, l.primeOf, 0));
  }

  // ---------------------------------------------------------------------------
  // The bank
  // ---------------------------------------------------------------------------

  lemma PowHalf(a: nat, b: nat, h: nat, bit: nat)
    requires bit < 2
    ensures a * Pow(b, h * 2 + bit) == (if bit == 1 then a * b else a) * Pow(b * b, h)
  {
    PowSquare(b, h);
    if bit == 1 {
      PowNext(b, 2 * h);
      var w := Pow(b, 2 * h);
      assert a * (w * b) == (a * b) * w;
    }
  }

  /** `acc` times `base` to the power `e`, by squaring. */
  method MulPow(acc: Bignum, base: nat, e: Bignum) returns (r: Bignum)
    requires Ok(acc) && Ok(e) && base < BASE
    ensures Ok(r) && Value(r) == Value(acc) * Pow(base, Value(e)) && (r == acc || fresh(Footprint(r)))
  {
    hide Ok, Value, Pow, Footprint;
    FootprintAllocated(acc);
    FootprintAllocated(e);
    ghost var total := Value(acc) * Pow(base, Value(e));
    var ee := Clone(e);
    FootprintAllocated(ee);
    var b := FromU64(base);
    r := acc;
    while !Bignums.IsZero(ee)
      invariant Ok(ee) && Ok(b) && Ok(r) && fresh(Footprint(ee)) && fresh(Footprint(b))
      invariant r == acc || fresh(Footprint(r))
      invariant Footprint(ee) !! Footprint(b) && Footprint(ee) !! Footprint(r)
      invariant Value(r) * Pow(Value(b), Value(ee)) == total
      decreases Value(ee)
    {
      FootprintAllocated(r);
      FootprintAllocated(b);
      FootprintAllocated(ee);
      r, b, ee := MulPowRound(r, b, ee);
    }
    ZeroTest(ee);
    PowZero(Value(b));
  }

  method MulPowRound(acc: Bignum, b0: Bignum, ee0: Bignum) returns (r: Bignum, b: Bignum, ee: Bignum)
    requires Ok(acc) && Ok(b0) && Ok(ee0) && !Bignums.IsZero(ee0)
    requires Footprint(ee0) !! Footprint(b0) && Footprint(ee0) !! Footprint(acc)
    modifies Footprint(ee0)
    ensures Ok(r) && Ok(b) && Ok(ee) && Footprint(ee) <= Footprint(ee0)
    ensures r == acc || fresh(Footprint(r))
    ensures b == b0 || fresh(Footprint(b))
    ensures Value(r) * Pow(Value(b), Value(ee)) == old(Value(acc)) * Pow(old(Value(b0)), old(Value(ee0)))
    ensures Value(ee) < old(Value(ee0))
  {
    hide Ok, Value, Pow;
    FootprintAllocated(acc);
    FootprintAllocated(b0);
    FootprintAllocated(ee0);
    ghost var va, vb, ve := Value(acc), Value(b0), Value(ee0);
    ZeroTest(ee0);
    var bit;
    ee, bit := DivmodSmall(ee0, 2);
    FootprintAllocated(ee);
    PowHalf(va, vb, Value(ee), bit);
    r, b := acc, b0;
    if bit != 0 {
      r := Mul(r, b);
      FootprintAllocated(r);
    }
    ZeroTest(ee);
    if !Bignums.IsZero(ee) {
      b := Mul(b, b);
    } else {
      PowZero(vb);
      PowZero(vb * vb);
    }
  }

  /** A bank of registers as one number. */
  method TallyBank(l: TallyLayout, values: seq<Bignum>) returns (r: Bignum)
    requires |values| == |l.primeOf| && WordPrimes(l.primeOf) && AllOk(values)
    ensures AllOk(values) && Ok(r) && Value(r) == Bank(l.primeOf, ValuesOf(values))
  {
    hide Ok, Value, Pow, AllOk, ValuesOf, Repr, BankTo;
    ghost var v := ValuesOf(values);
    ReprAllocated(values);
    r := FromU64(1);
    BankStart(l.primeOf, v);
    for i: nat := 0 to |values|
      invariant AllOk(values) && ValuesOf(values) == v
      invariant Ok(r) && Value(r) == BankTo(l.primeOf, v, i)
    {
      BankNext(l.primeOf, v, i);
      OkAt(values, i);
      FootprintAllocated(r);
      if l.primeOf[i] != 0 {
        r := MulPow(r, l.primeOf[i], values[i]);
      }
    }
  }

  lemma BankStart(primes: seq<nat>, v: seq<nat>)
    requires |primes| == |v|
    ensures BankTo(primes, v, 0) == 1
  {
  }

  lemma BankNext(primes: seq<nat>, v: seq<nat>, i: nat)
    requires i < |primes| == |v|
    ensures BankTo(primes, v, i + 1) == BankTo(primes, v, i) * (if primes[i] == 0 then 1 else Pow(primes[i], v[i]))
  {
  }

  /** Divide `p` out of `x` once, counting in register `i`, if it goes. */
  method StripOnce(x: Bignum, p: nat, values: RegFile, i: nat) returns (more: bool, rest: Bignum)
    requires Ok(x) && values.Valid() && i < values.words.Length && 2 <= p < BASE
    requires values.Loose(x)
    modifies values.words, Repr(values.words[..])
    ensures values.Valid() && forall o | o in Repr(values.words[..]) :: o in old(Repr(values.words[..])) || fresh(o)
    ensures values.Loose(rest) && (rest == x || fresh(Footprint(rest)))
    ensures values.Values() ==
            if more then old(values.Values())[i := old(values.Values())[i] + 1] else old(values.Values())
    ensures more ==> StripsTo(old(Value(x)), p, Value(rest))
    ensures !more ==> Value(rest) == old(Value(x)) && (old(Value(x)) > 0 ==> !Divides(p, old(Value(x))))
  {
    hide Ok, Value, Repr, Divides, Splits;
    FootprintAllocated(x);
    ReprAllocated(values.words[..]);
    ghost var n := Value(x);
    var c, rem := Quotient(x, p);
    FootprintAllocated(c);
    ZeroTest(c);
    if rem != 0 || Bignums.IsZero(c) {
      StripStops(n, p, Value(c), rem);
      return false, x;
    }
    values.IncAt(i);
    return true, c;
  }

  /** Dividing by `p` leaves `q`, which is not nothing. */
  ghost predicate StripsTo(n: nat, p: nat, q: nat) {
    Splits(n, p, q, 0) && q > 0
  }

  /** Divide `p` out of `x` as often as it goes, counting in register `i`. */
  method StripPrime(x: Bignum, p: nat, values: RegFile, i: nat) returns (rest: Bignum, ghost k: nat)
    requires Ok(x) && values.Valid() && i < values.words.Length && 2 <= p < BASE
    requires values.Loose(x)
    modifies values.words, Repr(values.words[..])
    ensures values.Valid() && forall o | o in Repr(values.words[..]) :: o in old(Repr(values.words[..])) || fresh(o)
    ensures values.Loose(rest) && (rest == x || fresh(Footprint(rest)))
    ensures values.Values() == old(values.Values())[i := old(values.Values())[i] + k]
    ensures old(Value(x)) == Value(rest) * Pow(p, k)
    ensures old(Value(x)) > 0 ==> !Divides(p, Value(rest))
    ensures old(Value(x)) == 0 ==> k == 0
  {
    hide Ok, Value, Pow, Repr, Divides, StripsTo;
    ghost var v := values.Values();
    rest, k := x, 0;
    PowZero(p);
    assert v[i := v[i]] == v;
    var more := true;
    while more
      invariant values.Valid() && forall o | o in Repr(values.words[..]) :: o in old(Repr(values.words[..])) || fresh(o)
      invariant values.Loose(rest) && (rest == x || fresh(Footprint(rest)))
      invariant values.Values() == v[i := v[i] + k]
      invariant old(Value(x)) == Value(rest) * Pow(p, k)
      invariant old(Value(x)) == 0 ==> k == 0
      invariant !more ==> old(Value(x)) > 0 ==> !Divides(p, Value(rest))
      decreases Value(rest), more
    {
      ghost var n := Value(rest);
      more, rest := StripOnce(rest, p, values, i);
      if more {
        StripGoes(n, p, Value(rest), k, old(Value(x)));
        k := k + 1;
      } else {
        StillPositive(n, p, k, old(Value(x)));
      }
    }
  }

  lemma StillPositive(n: nat, p: nat, k: nat, total: nat)
    requires total == n * Pow(p, k)
    ensures total > 0 ==> n > 0
  {
  }

  /** A quotient and remainder by a word, in fresh memory. */
  method Quotient(x: Bignum, p: nat) returns (c: Bignum, rem: nat)
    requires Ok(x) && 0 < p < BASE
    ensures Ok(c) && fresh(Footprint(c)) && Splits(Value(x), p, Value(c), rem)
  {
    hide Ok, Value;
    FootprintAllocated(x);
    c := Clone(x);
    c, rem := DivmodSmall(c, p);
  }

  lemma StripStops(n: nat, p: nat, q: nat, rem: nat)
    requires Splits(n, p, q, rem) && (rem != 0 || q == 0)
    ensures n > 0 ==> !Divides(p, n)
  {
    DivModUnique(n, p, q, rem);
  }

  lemma StripGoes(n: nat, p: nat, q: nat, k: nat, total: nat)
    requires StripsTo(n, p, q) && p >= 2 && total == n * Pow(p, k)
    ensures total == q * Pow(p, k + 1) && q < n && total > 0
  {
    PowNext(p, k);
    var w := Pow(p, k);
    MulAssoc(q, p, w);
    assert p * w == w * p;
    MulMono(2, p, q);
    assert q * p == p * q;
    MulGrows(n, w);
  }

  /** `v` and `rest` are a reading of `x`: the named registers' primes to their values, times
      what no prime in the table divides. */
  ghost predicate Decodes(primes: seq<nat>, x: nat, rest: nat, v: seq<nat>) {
    && |v| == |primes|
    && (forall r :: 0 <= r < |v| && primes[r] == 0 ==> v[r] == 0)
    && (x > 0 ==> x == rest * Bank(primes, v) && FreeOf(primes, rest))
    && (x == 0 ==> rest == 0 && forall r :: 0 <= r < |v| ==> v[r] == 0)
  }

  /** The same for the first `n` registers, the others not yet read. */
  ghost predicate DecodesTo(primes: seq<nat>, x: nat, rest: nat, v: seq<nat>, n: nat) {
    && |v| == |primes| && n <= |v|
    && (forall r :: 0 <= r < |v| && (primes[r] == 0 || r >= n) ==> v[r] == 0)
    && (x > 0 ==> x == rest * Bank(primes, v))
    && (x > 0 ==> forall r :: 0 <= r < n && primes[r] != 0 ==> !Divides(primes[r], rest))
    && (x == 0 ==> rest == 0 && forall r :: 0 <= r < |v| ==> v[r] == 0)
  }

  lemma DecodeStart(primes: seq<nat>, x: nat, v: seq<nat>)
    requires |v| == |primes| && forall r :: 0 <= r < |v| ==> v[r] == 0
    ensures DecodesTo(primes, x, x, v, 0)
  {
    hide BankTo;
    BankOfNothing(primes, v, |v|);
    assert x * 1 == x;
  }

  lemma DecodeStep(primes: seq<nat>, x: nat, rest: nat, v: seq<nat>, r: nat, rest': nat, k: nat)
    requires DecodesTo(primes, x, rest, v, r) && r < |v| && primes[r] != 0
    requires rest == rest' * Pow(primes[r], k)
    requires rest > 0 ==> !Divides(primes[r], rest')
    requires rest == 0 ==> k == 0
    ensures DecodesTo(primes, x, rest', v[r := v[r] + k], r + 1)
  {
    hide Divides, Bank;
    var w, y := v[r := v[r] + k], Pow(primes[r], k);
    if x > 0 {
      PositiveFactor(rest, Bank(primes, v), x);
      BankGiveMany(primes, v, r, k);
      assert rest' * (Bank(primes, v) * y) == (rest' * y) * Bank(primes, v);
      assert y * rest' == rest;
      forall s | 0 <= s < r + 1 && primes[s] != 0 ensures !Divides(primes[s], rest') {
        if s < r && Divides(primes[s], rest') {
          DividesScale(primes[s], rest', y);
        }
      }
    } else {
      ZeroFactor(rest', primes[r], k);
    }
  }

  lemma PositiveFactor(a: nat, b: nat, x: nat)
    requires x == a * b && x > 0
    ensures a > 0
  {
  }

  lemma ZeroFactor(a: nat, p: nat, k: nat)
    requires a * Pow(p, k) == 0 && k == 0
    ensures a == 0
  {
    PowZero(p);
  }

  lemma DecodeSkip(primes: seq<nat>, x: nat, rest: nat, v: seq<nat>, r: nat)
    requires DecodesTo(primes, x, rest, v, r) && r < |v| && primes[r] == 0
    ensures DecodesTo(primes, x, rest, v, r + 1)
  {
    hide Divides, Bank;
  }

  lemma DecodeDone(primes: seq<nat>, x: nat, rest: nat, v: seq<nat>)
    requires DecodesTo(primes, x, rest, v, |v|)
    ensures Decodes(primes, x, rest, v)
  {
    hide Divides, Bank;
  }

  /** Factor a number against the layout's primes. */
  method TallyDecode(l: TallyLayout, x: Bignum) returns (rest: Bignum, values: RegFile)
    requires PrimesOk(l.primeOf) && WordPrimes(l.primeOf) && Ok(x)
    ensures fresh(values) && fresh(values.words) && values.Valid() && values.Loose(rest)
    ensures Decodes(l.primeOf, old(Value(x)), Value(rest), values.Values())
  {
    hide Ok, Value, Repr, Divides, Pow, Bank, DecodesTo, Decodes, IsPrime;
    FootprintAllocated(x);
    ghost var n, primes := Value(x), l.primeOf;
    rest := Clone(x);
    FootprintAllocated(rest);
    values := new RegFile(|l.primeOf|);
    DecodeStart(primes, n, values.Values());
    for i: nat := 0 to |l.primeOf|
      invariant fresh(values.words) && values.words.Length == |primes| && fresh(Repr(values.words[..]))
      invariant values.Valid() && values.Loose(rest) && fresh(Footprint(rest))
      invariant DecodesTo(primes, n, Value(rest), values.Values(), i)
    {
      ghost var was, v := Value(rest), values.Values();
      if l.primeOf[i] == 0 {
        DecodeSkip(primes, n, was, v, i);
      } else {
        PrimeInTable(primes, i);
        ghost var k;
        rest, k := StripPrime(rest, l.primeOf[i], values, i);
        DecodeStep(primes, n, was, v, i, Value(rest), k);
      }
    }
    DecodeDone(primes, n, Value(rest), values.Values());
  }

  lemma PrimeInTable(primes: seq<nat>, i: nat)
    requires PrimesOk(primes) && i < |primes| && primes[i] != 0
    ensures primes[i] >= 2
  {
  }

  /** Decoding a bank gives the registers back, with nothing left over. */
  lemma DecodeBank(primes: seq<nat>, w: seq<nat>, rest: nat, v: seq<nat>)
    requires |w| == |primes| && PrimesOk(primes) && Decodes(primes, Bank(primes, w), rest, v)
    ensures rest == 1 && SameNamed(primes, v, w)
  {
    hide Divides, BankTo, IsPrime;
    BankPositive(primes, w, |w|);
    FreeOfOne(primes);
    assert 1 * Bank(primes, w) == Bank(primes, w);
    ReadOneWay(primes, rest, v, 1, w);
  }
}
