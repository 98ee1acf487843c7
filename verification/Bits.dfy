/** Powers of two and the bits of limb sequences. */
module Bits {
  import opened Arith
  import opened Limbs

  function Two(n: nat): (t: nat)
    ensures t >= 1
  {
    if n == 0 then 1 else 2 * Two(n - 1)
  }

  lemma {:induction false} TwoAdd(a: nat, b: nat)
    ensures Two(a + b) == Two(a) * Two(b)
  {
    if b > 0 {
      TwoAdd(a, b - 1);
      MulSwap(2, Two(a), Two(b - 1));
    }
  }

  lemma TwoByte()
    ensures Two(8) == 256
  {
    assert Two(4) == 16;
  }

  lemma TwoLimb()
    ensures Two(64) == BASE
  {
    hide Two;
    TwoByte();
    TwoAdd(8, 8);
    TwoAdd(16, 16);
    TwoAdd(32, 32);
  }

  /** BASE split at bit `s`. */
  lemma BaseSplit(s: nat)
    requires s < 64
    ensures BASE == (2 * Two(63 - s)) * Two(s)
  {
    hide Two;
    TwoAdd(s, 64 - s);
    TwoLimb();
    TwoStep(63 - s);
  }

  /** A limb is 64 bits. */
  lemma {:induction false} TwoWeight(w: nat)
    ensures Two(64 * w) == Weight(w)
  {
    if w > 0 {
      TwoWeight(w - 1);
      TwoAdd(64 * (w - 1), 64);
      TwoLimb();
      WeightStep(w - 1);
      assert Weight(w - 1) * BASE == BASE * Weight(w - 1);
    } else {
      WeightZero();
    }
  }

  /** Dividing twice is dividing by the product. */
  lemma DivDiv(x: nat, a: nat, b: nat)
    requires a > 0 && b > 0
    ensures a * b > 0 && (x / a) / b == x / (a * b)
  {
    var q, r := x / a, x % a;
    var q', r' := q / b, q % b;
    assert x == q * a + r && q == q' * b + r';
    MulDist(a, q' * b, r');
    MulAssoc(q', b, a);
    assert b * a == a * b;
    MulMono(r' + 1, b, a);
    MulDist(a, r', 1);
    assert r' * a + r < b * a;
    DivModUnique(x, a * b, q', r' * a + r);
  }

  /** Adding a multiple of the divisor adds to the quotient. */
  lemma DivAdd(x: nat, m: nat, k: nat)
    requires k > 0
    ensures (x + m * k) / k == x / k + m
  {
    var q, r := x / k, x % k;
    assert x == q * k + r;
    MulDist(k, q, m);
    DivModUnique(x + m * k, k, q + m, r);
  }

  function Bit(x: nat, t: nat): nat {
    (x / Two(t)) % 2
  }

  /** Bit `64 w + s` of a number is bit `s` of its limb `w`. */
  lemma BitOfLimb(ls: seq<nat>, w: nat, s: nat)
    requires AllLimbs(ls) && w < |ls| && s < 64
    ensures Bit(Val(ls), 64 * w + s) == Bit(ls[w], s)
  {
    hide Val, Weight, Two;
    var x, t := Val(ls), Two(s);
    var lo, hi := Val(ls[..w]), Val(ls[w..]);
    assert ls == ls[..w] + ls[w..];
    ValConcat(ls[..w], ls[w..]);
    ValBound(ls[..w]);
    TwoWeight(w);
    TwoAdd(64 * w, s);
    assert x == hi * Weight(w) + lo by { assert hi * Weight(w) == Weight(w) * hi; }
    DivModUnique(x, Weight(w), hi, lo);
    DivDiv(x, Weight(w), t);
    HighBit(ls[w], Val(ls[w + 1..]), s);
    assert ls[w..] == [ls[w]] + ls[w + 1..];
    ValConcat([ls[w]], ls[w + 1..]);
    OneLimb(ls[w]);
  }

  lemma OneLimb(x: nat)
    ensures Val([x]) == x && Weight(1) == BASE
  {
    assert ([x])[..0] == [];
    assert x * Weight(0) == x;
    assert Weight(1) == BASE * Weight(0);
  }

  /** Limbs above do not show in the low 64 bits. */
  lemma HighBit(x: nat, above: nat, s: nat)
    requires s < 64
    ensures Bit(x + BASE * above, s) == Bit(x, s)
  {
    hide Two;
    var t, u := Two(s), Two(63 - s);
    BaseSplit(s);
    var m := 2 * (u * above);
    assert BASE * above == m * t by {
      MulAssoc(2 * u, t, above);
      MulSwap(2 * u, t, above);
      MulAssoc(2, u, above);
    }
    DivAdd(x, m, t);
    EvenShift(x / t, u * above);
  }

  lemma TwoStep(n: nat)
    ensures Two(n + 1) == 2 * Two(n)
  {
  }

  lemma EvenShift(a: nat, b: nat)
    ensures (a + 2 * b) % 2 == a % 2
  {
  }

  /** One more bit from the top. */
  lemma TopBit(x: nat, t: nat)
    ensures x / Two(t) == 2 * (x / Two(t + 1)) + Bit(x, t)
  {
    hide Two;
    TwoStep(t);
    DivDiv(x, Two(t), 2);
    assert Two(t) * 2 == 2 * Two(t);
  }

  /** `x | 1 << s`. */
  function SetBit(x: nat, s: nat): nat {
    if Bit(x, s) == 0 then x + Two(s) else x
  }

  /** Setting a clear bit of a limb leaves a limb. */
  lemma SetBitFits(x: nat, s: nat)
    requires x < BASE && s < 64 && Bit(x, s) == 0
    ensures SetBit(x, s) == x + Two(s) < BASE
  {
    hide Two;
    BaseSplit(s);
    ClearBitRoom(x, Two(s), Two(63 - s));
  }

  lemma ClearBitRoom(x: nat, t: nat, u: nat)
    requires t > 0 && x < (2 * u) * t && (x / t) % 2 == 0
    ensures x + t < (2 * u) * t
  {
    var q, r := x / t, x % t;
    assert x == q * t + r && r < t;
    MulCancel(q, 2 * u, t);
    EvenBelow(q, u);
    MulMono(q + 2, 2 * u, t);
    MulDist(t, q, 2);
  }

  lemma EvenBelow(q: nat, u: nat)
    requires q % 2 == 0 && q < 2 * u
    ensures q + 2 <= 2 * u
  {
  }
}
