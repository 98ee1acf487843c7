/** Facts about multiplication and division of naturals that the solver will not find alone. */
module Arith {

  lemma MulGrows(a: int, b: nat)
    ensures a >= 1 ==> a * b >= b
    ensures a <= -1 ==> a * b <= 0 - b
  {
    if a >= 1 {
      assert (a - 1) * b >= 0;
    } else if a <= -1 {
      assert (a + 1) * b <= 0;
    }
  }

  /** Quotient and remainder are determined by their defining equation. */
  lemma DivModUnique(a: nat, b: nat, q: nat, r: nat)
    requires a == q * b + r && r < b
    ensures a / b == q && a % b == r
  {
    var q', r' := a / b, a % b;
    assert a == q' * b + r' && r' < b;
    assert (q - q') * b == r' - r;
    MulGrows(q - q', b);
  }

  lemma DivStep(v: nat, k: nat)
    requires k > 0
    ensures v < k ==> v / k == 0 && v % k == v
    ensures v >= k ==> v / k == (v - k) / k + 1 && v % k == (v - k) % k
  {
    if v < k {
      DivModUnique(v, k, 0, v);
    } else {
      var q, r := (v - k) / k, (v - k) % k;
      assert v - k == q * k + r;
      assert (q + 1) * k == q * k + k;
      DivModUnique(v, k, q + 1, r);
    }
  }

  lemma MulMono(a: nat, b: nat, c: nat)
    requires a <= b
    ensures a * c <= b * c
  {
    assert (b - a) * c >= 0;
    assert (b - a) * c == b * c - a * c;
  }

  lemma MulAssoc(a: int, b: int, c: int)
    ensures (a * b) * c == a * (b * c)
  {
  }

  lemma MulDist(a: int, b: int, c: int)
    ensures a * (b + c) == a * b + a * c && (b + c) * a == b * a + c * a
  {
  }

  lemma MulSwap(a: int, b: int, c: int)
    ensures a * (b * c) == b * (a * c)
  {
  }

  lemma MulCancel(a: nat, b: nat, c: nat)
    requires a * c < b * c
    ensures a < b
  {
    if b <= a {
      MulMono(b, a, c);
    }
  }
}
