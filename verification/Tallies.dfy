/** Programs as strings of tallies: a field holding `n` is `n` one-bits and a zero, fields are
    laid end to end from the low end, and a jump target is the number of fields before the
    instruction it names. */
module Tallies {
  import opened Machine
  import opened Arith
  import opened Banks

  /** The number whose binary digits, low end first, are the tallies `fs`. */
  function Number(fs: seq<nat>): nat {
    if fs == [] then 0 else Number(fs[1..]) * Pow(2, fs[0] + 1) + (Pow(2, fs[0]) - 1)
  }

  /** The tally at the low end: how many ones come before the first zero. */
  function Field(n: nat): nat {
    if n % 2 == 0 then 0 else 1 + Field(n / 2)
  }

  /** What is left once that tally and its closing zero have been read. */
  function Rest(n: nat): nat {
    if n % 2 == 0 then n / 2 else Rest(n / 2)
  }

  /** What is left after reading `k` tallies. */
  function Skip(n: nat, k: nat): nat
    decreases k
  {
    if k == 0 then n else Skip(Rest(n), k - 1)
  }

  /** Reading back a prepended tally. */
  lemma {:induction false} ReadTally(n: nat, a: nat)
    ensures var x := a * Pow(2, n + 1) + (Pow(2, n) - 1); Field(x) == n && Rest(x) == a
    decreases n
  {
    hide Pow;
    if n == 0 {
      TallyEmpty(a);
    } else {
      TallyHalf(n, a);
      ReadTally(n - 1, a);
    }
  }

  /** The empty tally is a lone zero. */
  lemma TallyEmpty(a: nat)
    ensures var x := a * Pow(2, 1) + (Pow(2, 0) - 1); x == 2 * a && x % 2 == 0 && x / 2 == a
  {
    assert Pow(2, 1) == 2 * Pow(2, 0) == 2;
  }

  /** Halving a tally drops its lowest one. */
  lemma TallyHalf(n: nat, a: nat)
    requires n > 0
    ensures var x := a * Pow(2, n + 1) + (Pow(2, n) - 1);
            x % 2 == 1 && x / 2 == a * Pow(2, n) + (Pow(2, n - 1) - 1)
  {
    var h := Pow(2, n - 1);
    assert Pow(2, n) == 2 * h && Pow(2, n + 1) == 2 * (2 * h);
    hide Pow;
    OddHalf(a, h);
  }

  lemma OddHalf(a: nat, h: nat)
    requires h >= 1
    ensures var x := a * (2 * (2 * h)) + (2 * h - 1); x % 2 == 1 && x / 2 == a * (2 * h) + (h - 1)
  {
    var m := a * (2 * h);
    MulSwap(a, 2, 2 * h);
    assert a * (2 * (2 * h)) == 2 * m;
  }

  lemma ReadFirst(fs: seq<nat>)
    requires fs != []
    ensures Field(Number(fs)) == fs[0] && Rest(Number(fs)) == Number(fs[1..])
  {
    hide Pow, Field, Rest;
    ReadTally(fs[0], Number(fs[1..]));
  }

  /** Past the end every tally is empty, for ever. */
  lemma {:induction false} SkipNothing(k: nat)
    ensures Skip(0, k) == 0 && Field(0) == 0
    decreases k
  {
    if k > 0 {
      SkipNothing(k - 1);
    }
  }

  /** Skipping `k` tallies of the number leaves the number of the remaining ones. */
  lemma {:induction false} SkipTallies(fs: seq<nat>, k: nat)
    requires k <= |fs|
    ensures Skip(Number(fs), k) == Number(fs[k..])
    decreases k
  {
    if k == 0 {
      assert fs[0..] == fs;
    } else {
      ReadFirst(fs);
      SkipTallies(fs[1..], k - 1);
      assert fs[1..][k - 1..] == fs[k..];
    }
  }

  // ---------------------------------------------------------------------------
  // The length of the bit string
  // ---------------------------------------------------------------------------

  function Bits(fs: seq<nat>): nat {
    if fs == [] then 0 else fs[0] + 1 + Bits(fs[1..])
  }

  lemma FitsStep(a: nat, b: nat, w: nat, h: nat)
    requires a < b && 1 <= h <= w
    ensures a * w + (h - 1) < b * w
  {
    MulMono(a + 1, b, w);
    MulDist(w, a, 1);
  }

  lemma {:induction false} NumberFits(fs: seq<nat>)
    ensures Number(fs) < Pow(2, Bits(fs))
  {
    hide Pow;
    if fs == [] {
      PowZero(2);
    } else {
      NumberFits(fs[1..]);
      var n, a, b := fs[0], Number(fs[1..]), Bits(fs[1..]);
      PowAdd(2, b, n + 1);
      PowNext(2, n);
      FitsStep(a, Pow(2, b), Pow(2, n + 1), Pow(2, n));
    }
  }

  lemma SpreadOut(a: nat, b: nat, w: nat, u: nat, c: nat)
    ensures (a + w * b) * u + c == a * u + c + (w * u) * b
  {
    MulDist(u, a, w * b);
    MulAssoc(w, b, u);
    MulAssoc(w, u, b);
  }

  /** Tallies laid behind others start as many bits up as those take. */
  lemma {:induction false} NumberJoin(fs: seq<nat>, gs: seq<nat>)
    ensures Number(fs + gs) == Number(fs) + Pow(2, Bits(fs)) * Number(gs)
  {
    hide Pow;
    if fs == [] {
      PowZero(2);
      assert fs + gs == gs;
    } else {
      var n, rest := fs[0], fs[1..];
      assert (fs + gs)[1..] == rest + gs;
      NumberJoin(rest, gs);
      PowAdd(2, Bits(rest), n + 1);
      SpreadOut(Number(rest), Number(gs), Pow(2, Bits(rest)), Pow(2, n + 1), Pow(2, n) - 1);
    }
  }

  // ---------------------------------------------------------------------------
  // Encoding a program
  // ---------------------------------------------------------------------------

  /** How many fields an instruction takes. */
  function Width(op: Op): nat {
    match op
    case Inc(_, _) => 2
    case Deb(_, _, _) => 3
    case _ => 1
  }

  /** The number of fields before instruction `i`. */
  function Offset(q: Program, i: nat): nat
    requires i <= |q|
  {
    if i == 0 then 0 else Offset(q, i - 1) + Width(q[i - 1])
  }

  /** The field offset a jump to `t` is written as: every target past the end is the end. */
  function TargetField(q: Program, t: nat): nat {
    Offset(q, if t <= |q| then t else |q|)
  }

  /** Every register a program names has an entry in the table. */
  ghost predicate HasPrimes(q: Program, primes: seq<nat>) {
    forall i :: 0 <= i < |q| ==>
      match q[i]
      case Inc(r, _) => r < |primes| && primes[r] != 0
      case Deb(r, _, _) => r < |primes| && primes[r] != 0
      case _ => true
  }

  function FieldsOf(q: Program, primes: seq<nat>, i: nat): (fs: seq<nat>)
    requires i < |q| && HasPrimes(q, primes)
    ensures |fs| == Width(q[i])
  {
    match q[i]
    case Inc(r, a) => [2 * primes[r], TargetField(q, a)]
    case Deb(r, a, b) => [2 * primes[r] + 1, TargetField(q, a), TargetField(q, b)]
    case _ => [0]
  }

  /** The fields of the instructions from `i` on. */
  function FieldsFrom(q: Program, primes: seq<nat>, i: nat): seq<nat>
    requires i <= |q| && HasPrimes(q, primes)
    decreases |q| - i
  {
    if i == |q| then [] else FieldsOf(q, primes, i) + FieldsFrom(q, primes, i + 1)
  }

  /** The program as one number. */
  function Code(q: Program, primes: seq<nat>): nat
    requires HasPrimes(q, primes)
  {
    Number(FieldsFrom(q, primes, 0))
  }

  lemma {:induction false} OffsetLands(q: Program, primes: seq<nat>, i: nat)
    requires i <= |q| && HasPrimes(q, primes)
    ensures Offset(q, i) <= |FieldsFrom(q, primes, 0)|
    ensures FieldsFrom(q, primes, 0)[Offset(q, i)..] == FieldsFrom(q, primes, i)
  {
    if i > 0 {
      OffsetLands(q, primes, i - 1);
      var all, here := FieldsFrom(q, primes, 0), FieldsOf(q, primes, i - 1);
      var o := Offset(q, i - 1);
      assert all[o..] == here + FieldsFrom(q, primes, i);
      assert all[o..][|here|..] == all[o + |here|..];
    }
  }

  lemma {:induction false} FieldsAfter(q: Program, primes: seq<nat>, i: nat)
    requires i <= |q| && HasPrimes(q, primes)
    ensures Offset(q, i) + |FieldsFrom(q, primes, i)| == |FieldsFrom(q, primes, 0)|
  {
    if i > 0 {
      FieldsAfter(q, primes, i - 1);
    }
  }

  /** How many of a program's fields come before those of instruction `t`: all, if it is past the
      end. */
  function FieldsBefore(q: Program, primes: seq<nat>, t: nat): int
    requires HasPrimes(q, primes)
  {
    |FieldsFrom(q, primes, 0)| - if t <= |q| then |FieldsFrom(q, primes, t)| else 0
  }

  lemma TargetCounts(q: Program, primes: seq<nat>, t: nat)
    requires HasPrimes(q, primes)
    ensures TargetField(q, t) == FieldsBefore(q, primes, t)
  {
    hide Offset;
    FieldsAfter(q, primes, if t <= |q| then t else |q|);
    assert |FieldsFrom(q, primes, |q|)| == 0;
  }

  /** The fields of each instruction, where it stands among all: twice its prime, one more for a
      take, or zero for a stop; then for each target how many fields come before it. */
  lemma FieldsAt(q: Program, primes: seq<nat>, i: nat)
    requires i < |q| && IsRaw(q) && HasPrimes(q, primes)
    ensures 0 <= FieldsBefore(q, primes, i) <= |FieldsFrom(q, primes, 0)|
    ensures var from, op := FieldsFrom(q, primes, 0)[FieldsBefore(q, primes, i)..], q[i];
            && (op.Inc? ==> |from| >= 2 && from[0] == 2 * primes[op.reg] && from[1] == FieldsBefore(q, primes, op.next))
            && (op.Deb? ==> |from| >= 3 && from[0] == 2 * primes[op.reg] + 1)
            && (op.Deb? ==> from[1] == FieldsBefore(q, primes, op.onZero))
            && (op.Deb? ==> from[2] == FieldsBefore(q, primes, op.onTake))
            && (op.End? ==> |from| >= 1 && from[0] == 0)
  {
    hide Offset, FieldsBefore, TargetField;
    OffsetLands(q, primes, i);
    TargetCounts(q, primes, i);
    OffsetIsField(q, i);
    match q[i]
    case Inc(_, a) => TargetCounts(q, primes, a);
    case Deb(_, a, b) =>
      TargetCounts(q, primes, a);
      TargetCounts(q, primes, b);
    case _ =>
  }

  lemma OffsetIsField(q: Program, i: nat)
    requires i <= |q|
    ensures TargetField(q, i) == Offset(q, i)
  {
  }

  /** Skipping the offset of instruction `i` lands on its first field. */
  lemma JumpLands(q: Program, primes: seq<nat>, i: nat)
    requires i <= |q| && HasPrimes(q, primes)
    ensures Skip(Code(q, primes), Offset(q, i)) == Number(FieldsFrom(q, primes, i))
  {
    OffsetLands(q, primes, i);
    SkipTallies(FieldsFrom(q, primes, 0), Offset(q, i));
  }

  /** Reading past the end: an empty tally, which is a stop. */
  lemma PastTheEnd(q: Program, primes: seq<nat>, k: nat)
    requires HasPrimes(q, primes)
    ensures Field(Skip(Code(q, primes), Offset(q, |q|) + k)) == 0
  {
    JumpLands(q, primes, |q|);
    SkipJoin(Code(q, primes), Offset(q, |q|), k);
    SkipNothing(k);
  }

  lemma {:induction false} SkipJoin(n: nat, j: nat, k: nat)
    ensures Skip(n, j + k) == Skip(Skip(n, j), k)
    decreases j
  {
    if j > 0 {
      SkipJoin(Rest(n), j - 1, k);
    }
  }
}
