/** The encoding is as short as the program allows: giving the smaller primes to the registers
    named more often yields the fewest bits of all ways to hand out primes. */
module Shortest {
  import opened Machine
  import opened Arith
  import opened Threading
  import opened Primes
  import opened Banks
  import opened Tallies
  import opened Layouts

  function Sum(s: seq<nat>): nat {
    if s == [] then 0 else Sum(s[..|s| - 1]) + s[|s| - 1]
  }

  lemma {:induction false} SumJoin(a: seq<nat>, b: seq<nat>)
    ensures Sum(a + b) == Sum(a) + Sum(b)
  {
    if b == [] {
      assert a + b == a;
    } else {
      assert (a + b)[..|a + b| - 1] == a + b[..|b| - 1];
      SumJoin(a, b[..|b| - 1]);
    }
  }

  /** Pairwise different primes. */
  ghost predicate DistinctPrimes(s: seq<nat>) {
    && (forall i :: 0 <= i < |s| ==> IsPrime(s[i]))
    && (forall i, j :: 0 <= i < j < |s| ==> s[i] != s[j])
  }

  /** The first primes, in order. */
  ghost predicate FirstPrimes(s: seq<nat>) {
    forall i :: 0 <= i < |s| ==> IsPrime(s[i]) && PrimesBelow(s[i]) == i
  }

  // ---------------------------------------------------------------------------
  // Any primes against the first ones
  // ---------------------------------------------------------------------------

  /** Different primes below `c` are no more than there are. */
  lemma CountBelow(s: seq<nat>, c: nat)
    requires DistinctPrimes(s) && forall i :: 0 <= i < |s| ==> s[i] < c
    ensures |s| <= PrimesBelow(c)
  {
    hide IsPrime, PrimesBelow;
    var ranks := seq(|s|, i requires 0 <= i < |s| => PrimesBelow(s[i]));
    forall i | 0 <= i < |s| ensures ranks[i] < PrimesBelow(c) {
      PrimesBelowGrows(s[i], c);
    }
    forall i, j | 0 <= i < j < |s| ensures ranks[i] != ranks[j] {
      if ranks[i] == ranks[j] {
        NthUnique(s[i], s[j]);
      }
    }
    Pigeonhole(ranks, PrimesBelow(c));
  }

  lemma RankOrders(p: nat, q: nat)
    requires IsPrime(p) && IsPrime(q) && PrimesBelow(p) <= PrimesBelow(q)
    ensures p <= q
  {
    hide IsPrime, PrimesBelow;
    if q < p {
      PrimesBelowGrows(q, p);
    }
  }

  lemma {:induction false} Largest(s: seq<nat>) returns (m: nat)
    requires s != []
    ensures m < |s| && forall i :: 0 <= i < |s| ==> s[i] <= s[m]
  {
    var n := |s| - 1;
    if n == 0 {
      m := 0;
    } else {
      m := Largest(s[..n]);
      if s[m] < s[n] {
        m := n;
      }
    }
  }

  function Others(s: seq<nat>, m: nat): (rest: seq<nat>)
    requires m < |s|
    ensures |rest| == |s| - 1
  {
    s[..m] + s[m + 1..]
  }

  lemma SumOthers(s: seq<nat>, m: nat)
    requires m < |s|
    ensures Sum(s) == Sum(Others(s, m)) + s[m]
  {
    hide Sum;
    assert s == s[..m] + [s[m]] + s[m + 1..];
    SumJoin(s[..m] + [s[m]], s[m + 1..]);
    SumJoin(s[..m], [s[m]]);
    SumJoin(s[..m], s[m + 1..]);
    SumOne(s[m]);
  }

  lemma OthersBelow(s: seq<nat>, m: nat)
    requires DistinctPrimes(s) && m < |s| && forall i :: 0 <= i < |s| ==> s[i] <= s[m]
    ensures var rest := Others(s, m); DistinctPrimes(rest) && forall i :: 0 <= i < |rest| ==> rest[i] < s[m]
  {
    hide IsPrime;
    var rest := Others(s, m);
    forall i | 0 <= i < |rest| ensures rest[i] == s[if i < m then i else i + 1] {
    }
  }

  /** `k` different primes add up to at least the first `k` primes. */
  lemma {:induction false} FirstAreLeast(s: seq<nat>, first: seq<nat>)
    requires DistinctPrimes(s) && FirstPrimes(first) && |s| == |first|
    ensures Sum(first) <= Sum(s)
    decreases |s|
  {
    hide IsPrime, PrimesBelow, Others;
    if s != [] {
      var n := |s| - 1;
      var m := Largest(s);
      OthersBelow(s, m);
      CountBelow(Others(s, m), s[m]);
      RankOrders(first[n], s[m]);
      FirstAreLeast(Others(s, m), first[..n]);
      SumOthers(s, m);
    }
  }

  lemma SumOne(x: nat)
    ensures Sum([x]) == x
  {
  }

  // ---------------------------------------------------------------------------
  // Weighted sums
  // ---------------------------------------------------------------------------

  /** The sum of `m[i] * a[i]` over the first `n` places. */
  function Weighted(m: seq<nat>, a: seq<nat>, n: nat): nat
    requires n <= |m| == |a|
  {
    if n == 0 then 0 else Weighted(m, a, n - 1) + m[n - 1] * a[n - 1]
  }

  ghost predicate Falling(m: seq<nat>) {
    forall i, j :: 0 <= i < j < |m| ==> m[i] >= m[j]
  }

  lemma WeightedStep(d: int, m: nat, m': nat, gap: nat, x: int)
    requires d >= m * gap && m >= m'
    ensures d + m' * x >= m' * (gap + x)
  {
    MulMono(m', m, gap);
    MulDist(m', gap, x);
  }

  lemma Expand(m: nat, a: nat, b: nat)
    ensures m * (a - b) == m * a - m * b
  {
  }

  /** With falling weights, what the first primes save grows at least as the last weight times
      what their plain sum saves. */
  lemma {:induction false} Saving(m: seq<nat>, a: seq<nat>, first: seq<nat>, n: nat)
    requires 0 < n <= |m| == |a| == |first| && Falling(m) && DistinctPrimes(a) && FirstPrimes(first)
    ensures Sum(first[..n]) <= Sum(a[..n])
    ensures Weighted(m, a, n) - Weighted(m, first, n) >= m[n - 1] * (Sum(a[..n]) - Sum(first[..n]))
    decreases n
  {
    hide IsPrime, PrimesBelow;
    FirstAreLeast(a[..n], first[..n]);
    assert a[..n][..n - 1] == a[..n - 1] && first[..n][..n - 1] == first[..n - 1];
    Expand(m[n - 1], a[n - 1], first[n - 1]);
    if n == 1 {
      assert a[..0] == [] && first[..0] == [];
    } else {
      Saving(m, a, first, n - 1);
      var mine, firsts: int := a[n - 1], first[n - 1];
      WeightedStep(Weighted(m, a, n - 1) - Weighted(m, first, n - 1), m[n - 2], m[n - 1],
                   Sum(a[..n - 1]) - Sum(first[..n - 1]), mine - firsts);
    }
  }

  lemma LeastWeighted(m: seq<nat>, a: seq<nat>, first: seq<nat>)
    requires |m| == |a| == |first| && Falling(m) && DistinctPrimes(a) && FirstPrimes(first)
    ensures Weighted(m, first, |m|) <= Weighted(m, a, |m|)
  {
    hide IsPrime, PrimesBelow, Weighted, Sum;
    if m == [] {
      NothingWeighted(m, a, first);
    } else {
      var n := |m|;
      Saving(m, a, first, n);
      MulMono(0, m[n - 1], Sum(a[..n]) - Sum(first[..n]));
    }
  }

  lemma NothingWeighted(m: seq<nat>, a: seq<nat>, b: seq<nat>)
    requires m == [] && |a| == |b| == 0
    ensures Weighted(m, a, 0) == Weighted(m, b, 0)
  {
  }

  // ---------------------------------------------------------------------------
  // What the primes cost a program
  // ---------------------------------------------------------------------------

  /** The prime an instruction is written with. */
  function Price(op: Op, primes: seq<nat>): nat {
    match op
    case Inc(r, _) => if r < |primes| then primes[r] else 0
    case Deb(r, _, _) => if r < |primes| then primes[r] else 0
    case _ => 0
  }

  function PaidFrom(q: Program, primes: seq<nat>, i: nat): nat
    requires i <= |q|
    decreases |q| - i
  {
    if i == |q| then 0 else Price(q[i], primes) + PaidFrom(q, primes, i + 1)
  }

  function PaidTo(q: Program, primes: seq<nat>, n: nat): nat
    requires n <= |q|
  {
    if n == 0 then 0 else PaidTo(q, primes, n - 1) + Price(q[n - 1], primes)
  }

  lemma {:induction false} PaidSplit(q: Program, primes: seq<nat>, n: nat)
    requires n <= |q|
    ensures PaidTo(q, primes, n) + PaidFrom(q, primes, n) == PaidFrom(q, primes, 0)
  {
    hide Price;
    if n > 0 {
      PaidSplit(q, primes, n - 1);
    }
  }

  lemma OpBits(q: Program, primes: seq<nat>, other: seq<nat>, i: nat)
    requires i < |q| && HasPrimes(q, primes) && HasPrimes(q, other)
    ensures Bits(FieldsOf(q, primes, i)) + 2 * Price(q[i], other)
         == Bits(FieldsOf(q, other, i)) + 2 * Price(q[i], primes)
  {
    hide Bits, TargetField;
    match q[i]
    case Inc(r, a) =>
      BitsOne(2 * primes[r], TargetField(q, a), 0);
      BitsOne(2 * other[r], TargetField(q, a), 0);
    case Deb(r, a, b) =>
      BitsOne(2 * primes[r] + 1, TargetField(q, a), TargetField(q, b));
      BitsOne(2 * other[r] + 1, TargetField(q, a), TargetField(q, b));
    case _ =>
  }

  /** Two ways to hand out primes differ by twice what the primes cost. */
  lemma {:induction false} BitsDiffer(q: Program, primes: seq<nat>, other: seq<nat>, i: nat)
    requires i <= |q| && HasPrimes(q, primes) && HasPrimes(q, other)
    ensures Bits(FieldsFrom(q, primes, i)) + 2 * PaidFrom(q, other, i)
         == Bits(FieldsFrom(q, other, i)) + 2 * PaidFrom(q, primes, i)
    decreases |q| - i
  {
    hide Bits, FieldsOf, Price;
    if i < |q| {
      BitsNext(q, primes, i);
      BitsNext(q, other, i);
      OpBits(q, primes, other, i);
      BitsDiffer(q, primes, other, i + 1);
    }
  }

  /** How often each register of `order` is named by the first `n` instructions. */
  function Counts(q: Program, order: seq<nat>, n: nat): (m: seq<nat>)
    requires n <= |q|
    ensures |m| == |order|
  {
    seq(|order|, i requires 0 <= i < |order| => Mentions(q[..n], order[i]))
  }

  /** The primes of the registers of `order`. */
  function PrimesOf(primes: seq<nat>, order: seq<nat>): (s: seq<nat>)
    requires AllBelow(order, |primes|)
    ensures |s| == |order|
  {
    seq(|order|, i requires 0 <= i < |order| => primes[order[i]])
  }

  lemma {:induction false} OneMore(m: seq<nat>, a: seq<nat>, n: nat, j: nat)
    requires n <= |m| == |a| && j < |m|
    ensures Weighted(m[j := m[j] + 1], a, n) == Weighted(m, a, n) + if j < n then a[j] else 0
  {
    if n > 0 {
      OneMore(m, a, n - 1, j);
      if j == n - 1 {
        MulDist(a[j], m[j], 1);
      }
    }
  }

  ghost predicate AllOnce(order: seq<nat>) {
    forall i, j :: 0 <= i < j < |order| ==> order[i] != order[j]
  }

  lemma MentionNext(q: Program, n: nat, r: nat)
    requires n < |q|
    ensures Mentions(q[..n + 1], r) == Mentions(q[..n], r) + if Names(q[n], r) then 1 else 0
  {
    assert q[..n + 1][..n] == q[..n];
  }

  /** The price paid is the sum, over the registers, of mentions times prime. */
  lemma {:induction false} PaidByRegister(q: Program, primes: seq<nat>, order: seq<nat>, n: nat)
    requires n <= |q| && AllBelow(order, |primes|) && AllOnce(order)
    requires forall r :: 0 <= r < |primes| ==> (r in order <==> Mentions(q, r) > 0)
    requires HasPrimes(q, primes)
    ensures PaidTo(q, primes, n) == Weighted(Counts(q, order, n), PrimesOf(primes, order), |order|)
  {
    hide Weighted, Mentions;
    var a := PrimesOf(primes, order);
    if n == 0 {
      NothingMentioned(q, order, a, |order|);
    } else {
      PaidByRegister(q, primes, order, n - 1);
      var was, now, op := Counts(q, order, n - 1), Counts(q, order, n), q[n - 1];
      forall i | 0 <= i < |order| ensures now[i] == was[i] + if Names(op, order[i]) then 1 else 0 {
        MentionNext(q, n - 1, order[i]);
      }
      if op.Inc? || op.Deb? {
        NamedIsMentioned(q, op.reg, n - 1);
        var j :| 0 <= j < |order| && order[j] == op.reg;
        assert now == was[j := was[j] + 1];
        OneMore(was, a, |order|, j);
      } else {
        assert now == was;
      }
    }
  }

  lemma {:induction false} NothingMentioned(q: Program, order: seq<nat>, a: seq<nat>, n: nat)
    requires n <= |order| == |a|
    ensures Weighted(Counts(q, order, 0), a, n) == 0
  {
    if n > 0 {
      NothingMentioned(q, order, a, n - 1);
      assert q[..0] == [];
      assert 0 * a[n - 1] == 0;
    }
  }

  /** The layout's bit string is no longer than that of any other way to give the program's
      registers primes of their own. */
  lemma ShortestEncoding(p: Program, nil: nat, rc: nat, l: TallyLayout, primes: seq<nat>)
    requires Lays(p, nil, rc, l) && PrimesByMentions(l)
    requires |primes| == rc && PrimesOk(primes) && HasPrimes(l.insts, primes)
    ensures l.bitCount <= Bits(FieldsFrom(l.insts, primes, 0))
  {
    hide IsPrime, PrimesBelow, Mentions, Bits, FieldsFrom, Weighted, HasPrimes, PaidFrom, PaidTo;
    var q, order := l.insts, l.byPrime;
    var mine, theirs := PrimesOf(l.primeOf, order), PrimesOf(primes, order);
    var m := Counts(q, order, |q|);
    assert q[..|q|] == q;
    OrderOnce(l);
    assert FirstPrimes(mine);
    NamedHavePrimes(q, primes, order);
    LeastWeighted(m, theirs, mine);
    PaidByRegister(q, l.primeOf, order, |q|);
    PaidByRegister(q, primes, order, |q|);
    PaidSplit(q, l.primeOf, |q|);
    PaidSplit(q, primes, |q|);
    AllPaid(q, l.primeOf);
    AllPaid(q, primes);
    BitsDiffer(q, l.primeOf, primes, 0);
  }

  lemma AllPaid(q: Program, primes: seq<nat>)
    ensures PaidFrom(q, primes, |q|) == 0
  {
  }

  lemma OrderOnce(l: TallyLayout)
    requires PrimesByMentions(l)
    ensures AllOnce(l.byPrime) && Falling(Counts(l.insts, l.byPrime, |l.insts|))
  {
    hide IsPrime, PrimesBelow, Mentions;
    assert l.insts[..|l.insts|] == l.insts;
  }

  /** Under any table that covers the program the named registers have different primes. */
  lemma NamedHavePrimes(q: Program, primes: seq<nat>, order: seq<nat>)
    requires HasPrimes(q, primes) && PrimesOk(primes) && AllBelow(order, |primes|) && AllOnce(order)
    requires forall r :: 0 <= r < |primes| ==> (r in order <==> Mentions(q, r) > 0)
    ensures DistinctPrimes(PrimesOf(primes, order))
  {
    hide IsPrime, Mentions;
    forall i | 0 <= i < |order| ensures primes[order[i]] != 0 {
      assert order[i] in order;
      var k := MentionedIsNamed(q, order[i]);
    }
    var s := PrimesOf(primes, order);
    forall i, j | 0 <= i < j < |order| ensures s[i] != s[j] {
      var a, b := order[i], order[j];
      assert if a < b then primes[a] != primes[b] else primes[b] != primes[a];
    }
  }
}
