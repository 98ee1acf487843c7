/** Natural numbers as little-endian sequences of 64-bit limbs. */
module Limbs {
  import opened Arith

  const BASE: nat := 0x1_0000_0000_0000_0000
  const MAX_IMMEDIATE: nat := 0x3FFF_FFFF_FFFF_FFFF

  predicate AllLimbs(ls: seq<nat>) {
    forall i :: 0 <= i < |ls| ==> ls[i] < BASE
  }

  /** BASE to the power `i`: the weight of limb `i`. */
  function Weight(i: nat): (w: nat)
    ensures w >= 1
  {
    if i == 0 then 1 else BASE * Weight(i - 1)
  }

  /** The number a limb sequence stands for. */
  function Val(ls: seq<nat>): nat {
    if ls == [] then 0 else Val(ls[..|ls| - 1]) + ls[|ls| - 1] * Weight(|ls| - 1)
  }

  lemma {:induction false} WeightAdd(i: nat, j: nat)
    ensures Weight(i + j) == Weight(i) * Weight(j)
  {
    if j > 0 {
      WeightAdd(i, j - 1);
      var a, b := Weight(i), Weight(j - 1);
      assert BASE * (a * b) == a * (BASE * b);
    }
  }

  lemma WeightZero()
    ensures Weight(0) == 1
  {
  }

  lemma WeightStep(i: nat)
    ensures Weight(i + 1) == BASE * Weight(i)
  {
  }

  lemma ValSnoc(ls: seq<nat>, x: nat)
    ensures Val(ls + [x]) == Val(ls) + x * Weight(|ls|)
  {
    assert (ls + [x])[..|ls|] == ls;
  }

  lemma ValTake(ls: seq<nat>, i: nat)
    requires i < |ls|
    ensures Val(ls[..i + 1]) == Val(ls[..i]) + ls[i] * Weight(i)
  {
    assert ls[..i + 1] == ls[..i] + [ls[i]];
    ValSnoc(ls[..i], ls[i]);
  }

  lemma ValAll(ls: seq<nat>)
    ensures Val(ls[..|ls|]) == Val(ls) && Val(ls[..0]) == 0
  {
    assert ls[..|ls|] == ls;
  }

  lemma ConcatStep(wa: nat, wn: nat, v: nat, x: nat)
    ensures wa * (v + x * wn) == wa * v + x * (wa * wn)
  {
    MulDist(wa, v, x * wn);
    MulSwap(wa, x, wn);
  }

  lemma {:induction false} ValConcat(a: seq<nat>, b: seq<nat>)
    ensures Val(a + b) == Val(a) + Weight(|a|) * Val(b)
  {
    if b == [] {
      assert a + b == a;
    } else {
      var n := |b| - 1;
      var init, x := b[..n], b[n];
      assert a + b == (a + init) + [x];
      ValConcat(a, init);
      ValSnoc(a + init, x);
      WeightAdd(|a|, n);
      assert b == init + [x];
      ValSnoc(init, x);
      ConcatStep(Weight(|a|), Weight(n), Val(init), x);
    }
  }

  lemma {:induction false} ValSet(ls: seq<nat>, i: nat, x: nat)
    requires i < |ls|
    ensures Val(ls[i := x]) + ls[i] * Weight(i) == Val(ls) + x * Weight(i)
  {
    var n := |ls| - 1;
    if i == n {
      assert ls[i := x][..n] == ls[..n];
    } else {
      assert ls[i := x][..n] == ls[..n][i := x];
      ValSet(ls[..n], i, x);
    }
  }

  lemma {:induction false} ValBound(ls: seq<nat>)
    requires AllLimbs(ls)
    ensures Val(ls) < Weight(|ls|)
  {
    if ls != [] {
      var n := |ls| - 1;
      ValBound(ls[..n]);
      LimbTimes(ls[n], Weight(n));
    }
  }

  lemma LimbTimes(x: nat, w: nat)
    requires x < BASE
    ensures x * w + w <= BASE * w
  {
    MulMono(x, BASE - 1, w);
    assert (BASE - 1) * w == BASE * w - w;
  }

  lemma ValTop(ls: seq<nat>)
    requires ls != [] && ls[|ls| - 1] > 0
    ensures Val(ls) >= Weight(|ls| - 1)
  {
    MulGrows(ls[|ls| - 1], Weight(|ls| - 1));
  }

  lemma {:induction false} WeightMono(i: nat, j: nat)
    requires i <= j
    ensures Weight(i) <= Weight(j)
    decreases j
  {
    if i < j {
      WeightMono(i, j - 1);
    }
  }

  lemma {:induction false} ValZeros(ls: seq<nat>)
    requires forall i :: 0 <= i < |ls| ==> ls[i] == 0
    ensures Val(ls) == 0
  {
    if ls != [] {
      ValZeros(ls[..|ls| - 1]);
    }
  }

  /** Limb `i` of a number, zero past its end. */
  function Limb(ls: seq<nat>, i: nat): nat {
    if i < |ls| then ls[i] else 0
  }

  /** The value of the first `n` limbs, reading zeros past the end. */
  function Low(ls: seq<nat>, n: nat): nat {
    if n == 0 then 0 else Low(ls, n - 1) + Limb(ls, n - 1) * Weight(n - 1)
  }

  lemma {:induction false} LowIs(ls: seq<nat>, n: nat)
    ensures n <= |ls| ==> Low(ls, n) == Val(ls[..n])
    ensures n >= |ls| ==> Low(ls, n) == Val(ls)
  {
    if n == 0 {
      assert ls[..0] == [];
    } else {
      LowIs(ls, n - 1);
      if n <= |ls| {
        ValTake(ls, n - 1);
      }
      if n == |ls| {
        assert ls[..n] == ls;
      }
    }
  }

  /** Dropping a zero top limb keeps the value. */
  lemma ValDropZero(ls: seq<nat>)
    requires ls != [] && ls[|ls| - 1] == 0
    ensures Val(ls[..|ls| - 1]) == Val(ls)
  {
  }

  /** Each limb is the digit of its place in base 2^64. */
  lemma LimbAt(ls: seq<nat>, i: nat)
    requires AllLimbs(ls) && i < |ls|
    ensures Weight(i) > 0 && ls[i] == Val(ls) / Weight(i) % 0x1_0000_0000_0000_0000
  {
    hide Val, Weight;
    var low, x, rest := ls[..i], ls[i], ls[i + 1..];
    var high := Val([x] + rest);
    assert ls == low + ([x] + rest);
    ValConcat(low, [x] + rest);
    ValBound(low);
    ValConcat([x], rest);
    OneLimb(x);
    PlaceOf(Val(ls), Weight(i), Val(low), high, x, Val(rest));
  }

  lemma PlaceOf(v: nat, w: nat, low: nat, high: nat, x: nat, rest: nat)
    requires v == low + w * high && low < w && high == x + BASE * rest && x < BASE
    ensures v / w % BASE == x
  {
    assert w * high == high * w;
    DivModUnique(v, w, high, low);
    DivModUnique(high, BASE, rest, x);
  }

  lemma OneLimb(x: nat)
    ensures Val([x]) == x && Weight(1) == BASE
  {
    assert [x][..0] == [];
    assert x * Weight(0) == x;
  }
}
