/** Division by an arbitrary bignum: binary shift-and-subtract over limb arrays. */
module LongDivision {
  import opened Arith
  import opened Limbs
  import opened Bits
  import opened Bignums

  /** One limb of the left shift: the top bit leaves, the carry comes in below. */
  lemma ShiftLimb(x: nat, carry: nat, y: nat, next: nat)
    requires x < BASE && carry <= 1 && next == x / 0x8000_0000_0000_0000
    requires y == (2 * x) % BASE + carry
    ensures y + next * BASE == 2 * x + carry && y < BASE && next <= 1
  {
  }

  lemma ShiftStep(now: seq<nat>, was: seq<nat>, i: nat, carry: nat, y: nat, next: nat, bit: nat)
    requires |now| == i < |was| && Val(now) + carry * Weight(i) == 2 * Val(was[..i]) + bit
    requires y + next * BASE == 2 * was[i] + carry
    ensures Val(now + [y]) + next * Weight(i + 1) == 2 * Val(was[..i + 1]) + bit
  {
    hide Val;
    ValSnoc(now, y);
    ValTake(was, i);
    var w := Weight(i);
    MulDist(w, y, next * BASE);
    MulDist(w, 2 * was[i], carry);
    MulAssoc(next, BASE, w);
    MulAssoc(2, was[i], w);
  }

  /** `r := 2 r + bit`, in place. */
  method ShiftIn(r: array<nat>, bit: nat)
    requires AllLimbs(r[..]) && bit <= 1 && 2 * Val(r[..]) + bit < Weight(r.Length)
    modifies r
    ensures AllLimbs(r[..]) && Val(r[..]) == 2 * Val(old(r[..])) + bit
  {
    hide Val, Weight;
    ghost var was := r[..];
    var carry: nat := bit;
    ValAll(was);
    ShiftFirst(bit);
    assert r[..0] == [];
    for i := 0 to r.Length
      invariant carry <= 1 && AllLimbs(r[..i])
      invariant forall j :: i <= j < r.Length ==> r[j] == was[j]
      invariant Val(r[..i]) + carry * Weight(i) == 2 * Val(was[..i]) + bit
    {
      var next: nat := r[i] / 0x8000_0000_0000_0000;
      var y: nat := (2 * r[i]) % BASE + carry;
      ShiftLimb(r[i], carry, y, next);
      ghost var now := r[..i];
      ShiftStep(now, was, i, carry, y, next, bit);
      r[i] := y;
      carry := next;
      assert r[..i + 1] == now + [y];
    }
    assert r[..r.Length] == r[..];
    BitTimes(carry, Weight(r.Length));
  }

  lemma ShiftFirst(bit: nat)
    ensures Val([]) + bit * Weight(0) == 2 * Val([]) + bit
  {
    WeightZero();
  }

  /** The running state of the division before bit `t` is shifted in: `top` is the part of the
      dividend above `t`, `r` its remainder, and `q` its quotient followed by `t` zero bits. */
  ghost predicate Dividing(x: nat, d: nat, t: nat, q: nat, r: nat) {
    exists k: nat :: q == k * Two(t) && x / Two(t) == k * d + r
  }

  lemma DividingStart(x: nat, d: nat, t: nat)
    requires x < Two(t)
    ensures Dividing(x, d, t, 0, 0)
  {
    DivModUnique(x, Two(t), 0, x);
    assert 0 == 0 * Two(t) && x / Two(t) == 0 * d + 0;
  }

  /** Shift in bit `t`; subtract the divisor and set the quotient bit if it fits. */
  lemma DividingStep(x: nat, d: nat, t: nat, q: nat, r: nat)
    requires Dividing(x, d, t + 1, q, r)
    ensures var r2 := 2 * r + Bit(x, t);
            && Bit(q, t) == 0
            && (r2 >= d ==> Dividing(x, d, t, q + Two(t), r2 - d))
            && (r2 < d ==> Dividing(x, d, t, q, r2))
  {
    hide Two;
    var k: nat :| q == k * Two(t + 1) && x / Two(t + 1) == k * d + r;
    var r2 := 2 * r + Bit(x, t);
    TopBit(x, t);
    TwoStep(t);
    MulSwap(k, 2, Two(t));
    MulAssoc(2, k, Two(t));
    MulAssoc(2, k, d);
    assert q == (2 * k) * Two(t) && x / Two(t) == (2 * k) * d + r2;
    DivModUnique(q, Two(t), 2 * k, 0);
    if r2 >= d {
      MulDist(Two(t), 2 * k, 1);
      MulDist(d, 2 * k, 1);
      assert q + Two(t) == (2 * k + 1) * Two(t) && x / Two(t) == (2 * k + 1) * d + (r2 - d);
    }
  }

  lemma DividingEnd(x: nat, d: nat, q: nat, r: nat)
    requires Dividing(x, d, 0, q, r)
    ensures x == q * d + r
  {
    var k: nat :| q == k * Two(0) && x / Two(0) == k * d + r;
    assert Two(0) == 1;
    assert x / 1 == x;
  }

  /** Set quotient bit `t`, which is still clear. */
  method SetQuotientBit(q: array<nat>, t: nat)
    requires AllLimbs(q[..]) && t / 64 < q.Length && Bit(Val(q[..]), t) == 0
    modifies q
    ensures AllLimbs(q[..]) && Val(q[..]) == Val(old(q[..])) + Two(t)
  {
    hide Val, Weight, Two;
    ghost var was := q[..];
    var w, s := t / 64, t % 64;
    BitOfLimb(was, w, s);
    SetBitFits(was[w], s);
    var y := SetBit(q[w], s);
    ValSet(was, w, y);
    TwoWeight(w);
    TwoAdd(64 * w, s);
    assert y * Weight(w) == was[w] * Weight(w) + Two(s) * Weight(w) by {
      MulDist(Weight(w), was[w], Two(s));
    }
    q[w] := y;
    assert q[..] == was[w := y];
  }

  /** The remainder, doubled and with a bit below, still fits one limb more than the divisor. */
  lemma RemainderFits(d: seq<nat>, r: nat, bit: nat)
    requires AllLimbs(d) && r < Val(d) && bit <= 1
    ensures 2 * r + bit < Weight(|d| + 1)
  {
    hide Val;
    ValBound(d);
    WeightStep(|d|);
  }

  lemma BitIsBit(x: nat, t: nat)
    ensures Bit(x, t) <= 1
  {
  }

  /** Compare the running remainder with the divisor and take it out if it fits. */
  method TryTake(r: array<nat>, d: seq<nat>) returns (took: bool)
    requires AllLimbs(r[..]) && AllLimbs(d) && |d| <= r.Length
    modifies r
    ensures AllLimbs(r[..]) && took == (Val(old(r[..])) >= Val(d))
    ensures Val(r[..]) == if took then Val(old(r[..])) - Val(d) else Val(old(r[..]))
  {
    hide Val, AllLimbs;
    var c := LimbsCmp(r[..], d);
    took := c >= 0;
    if took {
      assert r[..r.Length] == r[..];
      LimbsSubInPlace(r, r.Length, d);
      assert r[..r.Length] == r[..];
    }
  }

  /** The bits below `b` are those of the number without what lies above. */
  lemma LowBit(x: nat, b: nat, t: nat)
    requires t < b
    ensures Bit(x % Two(b), t) == Bit(x, t)
  {
    hide Two;
    TwoStep(b - t - 1);
    TwoAdd(t, b - t);
    LowHalf(x, Two(t), Two(b - t - 1), Two(b));
  }

  lemma LowHalf(x: nat, t: nat, u: nat, w: nat)
    requires t > 0 && w > 0 && w == t * (2 * u)
    ensures ((x % w) / t) % 2 == (x / t) % 2
  {
    var k, y := x / w, x % w;
    Reassemble(x, w);
    LowPart(x, t, u, w, k, y);
  }

  lemma Reassemble(x: nat, w: nat)
    requires w > 0
    ensures x == (x / w) * w + x % w
  {
  }

  lemma LowPart(x: nat, t: nat, u: nat, w: nat, k: nat, y: nat)
    requires t > 0 && w == t * (2 * u) && x == k * w + y
    ensures (y / t) % 2 == (x / t) % 2
  {
    MulSwap(k, t, 2 * u);
    MulSwap(k, 2, u);
    var m := k * u;
    assert t * (2 * m) == (2 * m) * t;
    DivAdd(y, 2 * m, t);
    EvenShift(y / t, m);
  }

  /** Shift-and-subtract division of the limbs `x` by the limbs `d`, one bit a round from bit
      `bits` down: what lies above never comes in. */
  method DivideBits(x: seq<nat>, d: seq<nat>, q: array<nat>, r: array<nat>, bits: nat)
    requires AllLimbs(x) && AllLimbs(d) && Val(d) > 0 && bits <= 64 * |x|
    requires q.Length == |x| && r.Length == |d| + 1 && q != r
    requires AllLimbs(q[..]) && AllLimbs(r[..]) && Val(q[..]) == 0 && Val(r[..]) == 0
    modifies q, r
    ensures AllLimbs(q[..]) && AllLimbs(r[..])
    ensures Val(x) % Two(bits) == Val(q[..]) * Val(d) + Val(r[..]) && Val(r[..]) < Val(d)
  {
    hide Val, Weight, Two, AllLimbs, Bit, Dividing;
    ghost var low := Val(x) % Two(bits);
    var t := bits;
    DividingStart(low, Val(d), t);
    while t > 0
      invariant 0 <= t <= bits && AllLimbs(q[..]) && AllLimbs(r[..])
      invariant Val(r[..]) < Val(d) && Dividing(low, Val(d), t, Val(q[..]), Val(r[..]))
    {
      t := t - 1;
      var bit := Bit(x[t / 64], t % 64);
      BitOfLimb(x, t / 64, t % 64);
      LowBit(Val(x), bits, t);
      BitIsBit(x[t / 64], t % 64);
      DividingStep(low, Val(d), t, Val(q[..]), Val(r[..]));
      RemainderFits(d, Val(r[..]), bit);
      ShiftIn(r, bit);
      var took := TryTake(r, d);
      if took {
        SetQuotientBit(q, t);
      }
    }
    DividingEnd(low, Val(d), Val(q[..]), Val(r[..]));
  }

  /** Where the source's 32-bit bit counter starts. */
  function CounterStart(n: nat): nat {
    (n * 64) % 0x1_0000_0000
  }

  /** A counter that covers every limb covers the whole number. */
  lemma AllBits(x: seq<nat>)
    requires AllLimbs(x)
    ensures Val(x) % Two(64 * |x|) == Val(x)
  {
    hide Val, Two, Weight;
    ValBound(x);
    TwoWeight(|x|);
    DivModUnique(Val(x), Two(64 * |x|), 0, Val(x));
  }

  /** The counter covers a number with no zero limb on top exactly if it has fewer than 2^26
      limbs; from there on the division is of its low bits only. */
  lemma CounterCovers(x: seq<nat>)
    requires AllLimbs(x) && |x| >= 1 && x[|x| - 1] != 0
    ensures CounterStart(|x|) <= 64 * |x|
    ensures Val(x) % Two(CounterStart(|x|)) == Val(x) <==> |x| < 0x400_0000
  {
    hide Val, Two, Weight;
    var n := |x|;
    if n < 0x400_0000 {
      AllBits(x);
    } else {
      var k := n * 64 / 0x1_0000_0000;
      assert CounterStart(n) == n * 64 - k * 0x1_0000_0000 <= 64 * (n - 1);
      TwoRises(CounterStart(n), 64 * (n - 1));
      TwoWeight(n - 1);
      ValTop(x);
    }
  }

  lemma {:induction false} TwoRises(a: nat, b: nat)
    requires a <= b
    ensures Two(a) <= Two(b)
    decreases b
  {
    if a < b {
      TwoRises(a, b - 1);
    }
  }

  /** Divide the low `bits` bits of `x` by `d` through fresh quotient and remainder arrays. */
  method DivideHeap(x: seq<nat>, d: seq<nat>, bits: nat) returns (q: Bignum, rem: Bignum)
    requires |x| >= 1 && AllLimbs(x) && AllLimbs(d) && Val(d) > 0 && bits <= 64 * |x|
    ensures Ok(q) && Ok(rem) && fresh(Footprint(q)) && fresh(Footprint(rem)) && Footprint(q) !! Footprint(rem)
    ensures Val(x) % Two(bits) == Value(q) * Val(d) + Value(rem) && Value(rem) < Val(d)
  {
    hide Val, Weight, AllLimbs, Two, Ok, Value;
    var ql := new BigLimbs(|x|);
    var rl := new BigLimbs(|d| + 1);
    ClearAll(ql.limbs);
    ClearAll(rl.limbs);
    DivideBits(x, d, ql.limbs, rl.limbs, bits);
    q := FinishAll(ql);
    FootprintAllocated(q);
    rem := FinishAll(rl);
  }

  /** Put every limb of the array to use, then normalize. */
  method FinishAll(l: BigLimbs) returns (r: Bignum)
    requires l.limbs.Length >= 1 && AllLimbs(l.limbs[..])
    modifies l
    ensures Ok(r) && Value(r) == Val(old(l.limbs[..])) && (r.Imm? || r == Heap(l))
  {
    hide Val, Weight;
    l.len := l.limbs.Length;
    assert l.limbs[..l.len] == l.limbs[..];
    r := Finish(l);
  }

  method ClearAll(a: array<nat>)
    modifies a
    ensures AllLimbs(a[..]) && Val(a[..]) == 0
  {
    for i := 0 to a.Length
      invariant forall j :: 0 <= j < i ==> a[j] == 0
    {
      a[i] := 0;
    }
    ValZeros(a[..]);
  }

  /** How many bits the bit-by-bit division may be asked for. */
  ghost function BitsOf(x: Bignum): nat
    reads Footprint(x)
  {
    match x case Imm(_) => 64 case Heap(l) => 64 * l.len
  }

  /** The part of `x` that is divided: all of it by a small divisor or by one above it,
      otherwise its low `bits` bits. */
  ghost function Seen(x: Bignum, d: Bignum, bits: nat): nat
    requires Ok(x) && Ok(d)
    reads Footprint(x), Footprint(d)
  {
    if d.Imm? || Value(x) < Value(d) then Value(x) else Value(x) % Two(bits)
  }

  /** Divide `x` by any `d > 0`, the bit-by-bit division starting below bit `bits`: the quotient
      replaces `x`, the remainder is separate, `d` is untouched.  A small divisor goes limb by
      limb; a dividend below the divisor moves into the remainder as it stands. */
  method DivmodBits(x: Bignum, d: Bignum, bits: nat) returns (q: Bignum, rem: Bignum)
    requires Ok(x) && Ok(d) && Value(d) > 0 && Footprint(x) !! Footprint(d) && bits <= BitsOf(x)
    modifies Footprint(x)
    ensures Ok(q) && Ok(rem) && Footprint(q) !! Footprint(rem)
    ensures Footprint(q) <= Footprint(x) || fresh(Footprint(q))
    ensures Footprint(rem) <= Footprint(x) || fresh(Footprint(rem))
    ensures Ok(d) && Value(d) == old(Value(d))
    ensures old(Seen(x, d, bits)) == Value(q) * Value(d) + Value(rem) && Value(rem) < Value(d)
  {
    hide Val, Weight, AllLimbs, Two;
    if d.Imm? {
      var r;
      q, r := DivmodSmall(x, d.val);
      rem := FromU64(r);
      return;
    }
    var c := Cmp(x, d);
    if c < 0 {
      assert 0 * Value(d) == 0;
      return Imm(0), x;
    }
    HeapIsLarge(d.ref);
    var xl := AsLimbs(x);
    var dl := AsLimbs(d);
    q, rem := DivideHeap(xl, dl, bits);
  }

  /** All of a number is seen by a counter that covers every limb. */
  lemma SeenAll(x: Bignum, d: Bignum)
    requires Ok(x) && Ok(d) && d.Heap?
    ensures Seen(x, d, BitsOf(x)) == Value(x)
  {
    hide Val, Two;
    HeapIsLarge(d.ref);
    if x.Heap? {
      AllBits(x.ref.limbs[..x.ref.len]);
    }
  }

  lemma SeenWhole(x: Bignum, d: Bignum)
    requires Ok(x) && Ok(d)
    ensures Seen(x, d, BitsOf(x)) == Value(x)
  {
    hide Ok, Value;
    if d.Heap? {
      SeenAll(x, d);
    }
  }

  lemma SeenCounted(x: Bignum, d: Bignum)
    requires Ok(x) && Ok(d)
    ensures var bits := match x case Imm(_) => 64 case Heap(l) => CounterStart(l.len);
            && bits <= BitsOf(x)
            && (Seen(x, d, bits) == Value(x) <==>
                  d.Imm? || Value(x) < Value(d) || BitsOf(x) < 64 * 0x400_0000)
  {
    hide Val, Two, CounterStart;
    if d.Heap? {
      HeapIsLarge(d.ref);
    }
    if x.Heap? {
      CounterCovers(x.ref.limbs[..x.ref.len]);
    }
  }

  /** The bit counter of the division: 32 bits, as in the source, or as wide as it takes. */
  datatype Counter = Narrow | Wide

  /** The counter covers the division of `x` by `d`: it is wide, or the divisor is small or above
      the dividend, or the dividend has fewer than 2^26 limbs. */
  ghost predicate Covers(counter: Counter, x: nat, d: nat) {
    counter.Wide? || d <= MAX_IMMEDIATE || x < d || Short(x)
  }

  /** Fewer than 2^26 limbs are enough for `x`. */
  ghost predicate Short(x: nat) {
    exists n: nat :: n < 0x400_0000 && x < Weight(n)
  }

  lemma NarrowCovers(x: nat, d: nat)
    ensures Covers(Narrow, x, d) <==> d <= 0x3FFF_FFFF_FFFF_FFFF || x < d || x < Weight(0x3FF_FFFF)
  {
    hide Weight;
    forall n: nat | n < 0x400_0000 && x < Weight(n) ensures x < Weight(0x3FF_FFFF) {
      WeightMono(n, 0x3FF_FFFF);
    }
  }

  /** How many limbs a number has shows in its value. */
  lemma LimbsShow(x: Bignum)
    requires Ok(x)
    ensures BitsOf(x) < 64 * 0x400_0000 <==> Short(Value(x))
  {
    hide Val, Weight;
    match x
    case Imm(v) =>
      WeightStep(0);
      WeightZero();
      assert 1 < 0x400_0000 && Value(x) < Weight(1);
    case Heap(l) =>
      var ls := l.limbs[..l.len];
      ValBound(ls);
      ValTop(ls);
      forall n: nat | n < 0x400_0000 && Value(x) < Weight(n) ensures l.len < 0x400_0000 {
        if n <= l.len - 1 {
          WeightMono(n, l.len - 1);
        }
      }
  }

  lemma CounterFits(counter: Counter, x: Bignum, d: Bignum, bits: nat)
    requires Ok(x) && Ok(d)
    requires bits == match x case Imm(_) => 64
                     case Heap(l) => if counter.Narrow? then CounterStart(l.len) else 64 * l.len
    ensures bits <= BitsOf(x)
    ensures Seen(x, d, bits) == Value(x) <==> Covers(counter, Value(x), Value(d))
  {
    hide Val, Weight, Seen, CounterStart, Short;
    if d.Heap? {
      HeapIsLarge(d.ref);
    }
    assert d.Imm? <==> Value(d) <= MAX_IMMEDIATE;
    if counter.Narrow? {
      SeenCounted(x, d);
      LimbsShow(x);
    } else {
      SeenWhole(x, d);
    }
  }

  /** Divide `x` by any `d > 0`.  Whether the counter covers the division decides whether it is
      exact; the remainder is below `d` in any case. */
  method Divmod(x: Bignum, d: Bignum, counter: Counter) returns (q: Bignum, rem: Bignum)
    requires Ok(x) && Ok(d) && Value(d) > 0 && Footprint(x) !! Footprint(d)
    modifies Footprint(x)
    ensures Ok(q) && Ok(rem) && Footprint(q) !! Footprint(rem)
    ensures Footprint(q) <= Footprint(x) || fresh(Footprint(q))
    ensures Footprint(rem) <= Footprint(x) || fresh(Footprint(rem))
    ensures Ok(d) && Value(d) == old(Value(d)) && Value(rem) < Value(d)
    ensures old(Value(x)) == Value(q) * Value(d) + Value(rem) <==> Covers(counter, old(Value(x)), old(Value(d)))
  {
    hide Ok, Value, Seen, CounterStart, Covers;
    var bits := match x case Imm(_) => 64
                case Heap(l) => if counter.Narrow? then CounterStart(l.len) else 64 * l.len;
    CounterFits(counter, x, d, bits);
    q, rem := DivmodBits(x, d, bits);
  }
}
