/** Arbitrary-precision naturals: a small value is immediate, a larger one a heap array of
    64-bit limbs.  Every operation computes the exact result and keeps the representation
    canonical, which is what lets a word comparison decide zero and a length comparison
    decide order. */
module Bignums {
  import opened Arith
  import opened Limbs

  class BigLimbs {
    var len: nat
    const limbs: array<nat>

    constructor (capacity: nat)
      ensures len == 0 && fresh(limbs) && limbs.Length == capacity
    {
      len := 0;
      limbs := new nat[capacity](_ => 0);
    }

    /** At least one limb is in use, and limbs are 64 bits wide. */
    ghost predicate Formed()
      reads this, limbs
    {
      1 <= len <= limbs.Length && AllLimbs(limbs[..len])
    }

    ghost function Number(): nat
      requires len <= limbs.Length
      reads this, limbs
    {
      Val(limbs[..len])
    }
  }

  datatype Bignum = Imm(val: nat) | Heap(ref: BigLimbs)

  ghost function Footprint(b: Bignum): set<object> {
    match b
    case Imm(_) => {}
    case Heap(l) => {l, l.limbs}
  }

  lemma FootprintAllocated(b: Bignum)
    ensures forall o | o in Footprint(b) :: allocated(o)
  {
  }

  /** Canonical: immediate exactly when the value fits, and no zero limb on top. */
  ghost predicate Ok(b: Bignum)
    reads Footprint(b)
  {
    match b
    case Imm(v) => v <= MAX_IMMEDIATE
    case Heap(l) =>
      && l.Formed()
      && l.limbs[l.len - 1] != 0
      && (l.len == 1 ==> l.limbs[0] > MAX_IMMEDIATE)
  }

  ghost function Value(b: Bignum): nat
    requires Ok(b)
    reads Footprint(b)
  {
    match b
    case Imm(v) => v
    case Heap(l) => l.Number()
  }

  predicate IsZero(b: Bignum) {
    b == Imm(0)
  }

  /** A canonical heap number does not fit an immediate. */
  lemma HeapIsLarge(l: BigLimbs)
    requires Ok(Heap(l))
    ensures l.Number() > MAX_IMMEDIATE
  {
    if l.len == 1 {
      assert l.limbs[..1] == [l.limbs[0]];
      OneLimb(l.limbs[0]);
    } else {
      ValTop(l.limbs[..l.len]);
      WeightMono(1, l.len - 1);
      assert Weight(1) == BASE * Weight(0);
    }
  }

  /** Every number has one form: immediate up to 2^62 - 1, otherwise as few 64-bit limbs as hold
      it, the least significant first. */
  lemma FormIs(b: Bignum)
    requires Ok(b)
    ensures b.Imm? <==> Value(b) <= 0x3FFF_FFFF_FFFF_FFFF
    ensures b.Heap? ==>
              && Value(b) < Weight(b.ref.len) && Value(b) >= Weight(b.ref.len - 1)
              && forall i :: 0 <= i < b.ref.len ==>
                   Weight(i) > 0 && b.ref.limbs[i] == Value(b) / Weight(i) % 0x1_0000_0000_0000_0000
  {
    hide Val, Weight;
    if b.Heap? {
      HeapIsLarge(b.ref);
      var ls := b.ref.limbs[..b.ref.len];
      ValBound(ls);
      ValTop(ls);
      forall i | 0 <= i < b.ref.len
        ensures Weight(i) > 0 && b.ref.limbs[i] == Value(b) / Weight(i) % 0x1_0000_0000_0000_0000
      {
        LimbAt(ls, i);
        assert ls[i] == b.ref.limbs[i];
      }
    }
  }

  /** The zero test on the word decides whether the value is zero. */
  lemma ZeroTest(b: Bignum)
    requires Ok(b)
    ensures IsZero(b) <==> Value(b) == 0
  {
    if b.Heap? {
      HeapIsLarge(b.ref);
    }
  }

  // ---------------------------------------------------------------------------
  // The tagged word
  // ---------------------------------------------------------------------------

  /** The 64-bit word of a number whose limbs, if it has any, are at the address `addr`. */
  function Word(b: Bignum, addr: nat): nat {
    match b
    case Imm(v) => MakeImmediate(v)
    case Heap(_) => addr
  }

  /** Shifted left by one in 64 bits, with the tag bit set. */
  function MakeImmediate(v: nat): nat {
    2 * v % BASE + 1
  }

  function GetImmediate(w: nat): nat {
    w / 2
  }

  predicate IsImmediateWord(w: nat) {
    w % 2 == 1
  }

  /** With limbs at even addresses the word tells immediates from heap numbers, gives an
      immediate's value back, and is the bare tag bit exactly for zero. */
  lemma WordTells(b: Bignum, addr: nat)
    requires Ok(b) && addr % 2 == 0 && addr < BASE
    ensures Word(b, addr) < BASE
    ensures IsImmediateWord(Word(b, addr)) <==> b.Imm?
    ensures b.Imm? ==> GetImmediate(Word(b, addr)) == Value(b)
    ensures Word(b, addr) == 1 <==> Value(b) == 0
  {
    if b.Heap? {
      HeapIsLarge(b.ref);
    }
  }

  // ---------------------------------------------------------------------------
  // Creation
  // ---------------------------------------------------------------------------

  method FromU64(val: nat) returns (r: Bignum)
    requires val < BASE
    ensures Ok(r) && Value(r) == val && fresh(Footprint(r))
    ensures r.Imm? <==> val <= 0x3FFF_FFFF_FFFF_FFFF
  {
    if val <= MAX_IMMEDIATE {
      return Imm(val);
    }
    var l := new BigLimbs(2);
    l.limbs[0] := val;
    l.len := 1;
    assert l.limbs[..1] == [val];
    OneLimb(val);
    return Heap(l);
  }

  method Clone(x: Bignum) returns (r: Bignum)
    requires Ok(x)
    ensures Ok(r) && Value(r) == Value(x) && fresh(Footprint(r))
  {
    if x.Imm? {
      return x;
    }
    var src := x.ref;
    var dst := new BigLimbs(src.limbs.Length);
    dst.len := src.len;
    for i := 0 to src.len
      invariant dst.len == src.len && forall j :: 0 <= j < i ==> dst.limbs[j] == src.limbs[j]
    {
      dst.limbs[i] := src.limbs[i];
    }
    assert dst.limbs[..dst.len] == src.limbs[..src.len];
    return Heap(dst);
  }

  /** Drop zero limbs from the top and demote to an immediate when the value fits. */
  method Finish(l: BigLimbs) returns (r: Bignum)
    requires l.Formed()
    modifies l
    ensures Ok(r) && Value(r) == old(l.Number())
    ensures r.Imm? || r == Heap(l)
  {
    while l.len > 1 && l.limbs[l.len - 1] == 0
      invariant l.Formed() && l.Number() == old(l.Number())
      decreases l.len
    {
      ValDropZero(l.limbs[..l.len]);
      assert l.limbs[..l.len][..l.len - 1] == l.limbs[..l.len - 1];
      l.len := l.len - 1;
    }
    if l.len == 1 && l.limbs[0] <= MAX_IMMEDIATE {
      assert l.limbs[..1] == [l.limbs[0]];
      OneLimb(l.limbs[0]);
      return Imm(l.limbs[0]);
    }
    return Heap(l);
  }

  // ---------------------------------------------------------------------------
  // Increment and decrement
  // ---------------------------------------------------------------------------

  /** A larger array with the same limbs. */
  method Grow(l: BigLimbs) returns (g: BigLimbs)
    requires l.Formed()
    ensures fresh(g) && fresh(g.limbs) && g.limbs.Length == 2 * l.limbs.Length
    ensures g.len == l.len && g.limbs[..g.len] == l.limbs[..l.len]
  {
    g := new BigLimbs(2 * l.limbs.Length);
    g.len := l.len;
    for i := 0 to l.len
      invariant g.len == l.len && forall j :: 0 <= j < i ==> g.limbs[j] == l.limbs[j]
    {
      g.limbs[i] := l.limbs[i];
    }
    assert g.limbs[..g.len] == l.limbs[..l.len];
  }

  /** Add a carry at limb `i`: the limb wraps to zero and the carry moves up, or it stops. */
  lemma CarryStep(ls: seq<nat>, i: nat, x: nat)
    requires i < |ls| && AllLimbs(ls) && x == (ls[i] + 1) % BASE
    ensures AllLimbs(ls[i := x])
    ensures x != 0 ==> Val(ls[i := x]) == Val(ls) + Weight(i)
    ensures x == 0 ==> Val(ls[i := x]) + Weight(i + 1) == Val(ls) + Weight(i)
  {
    hide Val;
    ValSet(ls, i, x);
    var w := Weight(i);
    assert (ls[i] + 1) * w == ls[i] * w + w;
    if ls[i] + 1 < BASE {
      assert x == ls[i] + 1;
    } else {
      assert ls[i] + 1 == BASE && x == 0;
    }
  }

  method IncSlow(l: BigLimbs) returns (r: Bignum)
    requires Ok(Heap(l))
    modifies l, l.limbs
    ensures Ok(r) && Value(r) == old(l.Number()) + 1
    ensures r == Heap(l) || fresh(Footprint(r))
  {
    hide Val, AllLimbs;
    HeapIsLarge(l);
    ghost var was := l.limbs[..l.len];
    for i := 0 to l.len
      invariant l.len == old(l.len) && l.len <= l.limbs.Length && AllLimbs(l.limbs[..l.len])
      invariant Val(l.limbs[..l.len]) + Weight(i) == Val(was) + 1
      invariant forall j :: i <= j < l.len ==> l.limbs[j] == was[j]
    {
      ghost var now := l.limbs[..l.len];
      var x := (l.limbs[i] + 1) % BASE;
      CarryStep(now, i, x);
      l.limbs[i] := x;
      assert l.limbs[..l.len] == now[i := x];
      if x != 0 {
        TopStays(was, now, i, x);
        LargeIsOk(l);
        return Heap(l);
      }
    }
    r := TopCarry(l);
  }

  /** The carry out of the top limb, in a larger array if there is no room. */
  method TopCarry(l: BigLimbs) returns (r: Bignum)
    requires l.Formed()
    modifies l, l.limbs
    ensures Ok(r) && Value(r) == old(l.Number()) + Weight(old(l.len))
    ensures r == Heap(l) || fresh(Footprint(r))
  {
    hide Val, AllLimbs, Weight;
    var g := l;
    if g.len >= g.limbs.Length {
      g := Grow(l);
    }
    ghost var full := g.limbs[..g.len];
    g.limbs[g.len] := 1;
    g.len := g.len + 1;
    assert g.limbs[..g.len] == full + [1];
    ValSnoc(full, 1);
    CarryOut(full);
    WeightMono(1, |full|);
    WeightStep(0);
    WeightZero();
    LargeIsOk(g);
    r := Heap(g);
  }

  lemma CarryOut(ls: seq<nat>)
    requires AllLimbs(ls)
    ensures AllLimbs(ls + [1])
  {
  }

  /** Incrementing below the top, or the top itself without wrapping, leaves the top non-zero. */
  lemma TopStays(was: seq<nat>, now: seq<nat>, i: nat, x: nat)
    requires |was| == |now| && i < |now| && x != 0 && was[|was| - 1] != 0
    requires forall j :: i <= j < |now| ==> now[j] == was[j]
    ensures now[i := x][|now| - 1] != 0
  {
  }

  /** A formed number with a non-zero top and a large value is canonical. */
  lemma LargeIsOk(l: BigLimbs)
    requires l.Formed() && l.limbs[l.len - 1] != 0 && l.Number() > MAX_IMMEDIATE
    ensures Ok(Heap(l)) && Value(Heap(l)) == l.Number()
  {
    if l.len == 1 {
      assert l.limbs[..1] == [l.limbs[0]];
      OneLimb(l.limbs[0]);
    }
  }

  method Inc(x: Bignum) returns (r: Bignum)
    requires Ok(x)
    modifies Footprint(x)
    ensures Ok(r) && Value(r) == old(Value(x)) + 1
    ensures r == x || fresh(Footprint(r))
  {
    if x.Imm? {
      if x.val < MAX_IMMEDIATE {
        return Imm(x.val + 1);
      }
      var l := new BigLimbs(2);
      l.limbs[0] := x.val + 1;
      l.len := 1;
      assert l.limbs[..1] == [x.val + 1];
      OneLimb(x.val + 1);
      return Heap(l);
    }
    r := IncSlow(x.ref);
  }

  /** Take a borrow at limb `i`: a zero limb wraps and the borrow moves up, or it stops. */
  lemma BorrowStep(ls: seq<nat>, i: nat)
    requires i < |ls| && AllLimbs(ls)
    ensures ls[i] != 0 ==> AllLimbs(ls[i := ls[i] - 1]) && Val(ls[i := ls[i] - 1]) + Weight(i) == Val(ls)
    ensures ls[i] == 0 ==> AllLimbs(ls[i := BASE - 1])
                           && Val(ls[i := BASE - 1]) + Weight(i) == Val(ls) + Weight(i + 1)
  {
    if ls[i] != 0 {
      ValSet(ls, i, ls[i] - 1);
      MulDist(Weight(i), ls[i] - 1, 1);
    } else {
      ValSet(ls, i, BASE - 1);
      MulDist(Weight(i), BASE - 1, 1);
    }
  }

  method AllZero(l: BigLimbs) returns (z: bool)
    requires l.Formed()
    ensures z <==> forall j :: 0 <= j < l.len ==> l.limbs[j] == 0
  {
    for i := 0 to l.len
      invariant forall j :: 0 <= j < i ==> l.limbs[j] == 0
    {
      if l.limbs[i] != 0 {
        return false;
      }
    }
    return true;
  }

  method DecSlow(l: BigLimbs) returns (ok: bool, r: Bignum)
    requires l.Formed()
    modifies l, l.limbs
    ensures ok <==> old(l.Number()) > 0
    ensures ok ==> Ok(r) && Value(r) == old(l.Number()) - 1 && (r.Imm? || r == Heap(l))
    ensures !ok ==> r == Heap(l) && unchanged(l) && unchanged(l.limbs)
  {
    hide Val, AllLimbs;
    ghost var was := l.limbs[..l.len];
    var allZero := AllZero(l);
    if allZero {
      ValZeros(was);
      return false, Heap(l);
    }
    var stopped := false;
    for i := 0 to l.len
      invariant !stopped && l.len == old(l.len) && AllLimbs(l.limbs[..l.len])
      invariant Val(l.limbs[..l.len]) + 1 == Val(was) + Weight(i)
      invariant forall j :: i <= j < l.len ==> l.limbs[j] == was[j]
      invariant forall j :: 0 <= j < i ==> was[j] == 0
    {
      ghost var now := l.limbs[..l.len];
      BorrowStep(now, i);
      if l.limbs[i] != 0 {
        l.limbs[i] := l.limbs[i] - 1;
        assert l.limbs[..l.len] == now[i := now[i] - 1];
        stopped := true;
        break;
      }
      l.limbs[i] := BASE - 1;
      assert l.limbs[..l.len] == now[i := BASE - 1];
    }
    r := Finish(l);
    return true, r;
  }

  /** Take one away, unless the number is zero. */
  method Dec(x: Bignum) returns (ok: bool, r: Bignum)
    requires Ok(x)
    modifies Footprint(x)
    ensures Ok(r) && ok == (old(Value(x)) > 0) && (r.Imm? || r == x)
    ensures Value(r) == if ok then old(Value(x)) - 1 else 0
  {
    if x.Imm? {
      if x.val == 0 {
        return false, x;
      }
      return true, Imm(x.val - 1);
    }
    HeapIsLarge(x.ref);
    ok, r := DecSlow(x.ref);
  }

  // ---------------------------------------------------------------------------
  // Addition
  // ---------------------------------------------------------------------------

  /** The limbs of a number, an immediate being one limb. */
  method AsLimbs(x: Bignum) returns (ls: seq<nat>)
    requires Ok(x)
    ensures |ls| >= 1 && AllLimbs(ls) && Val(ls) == Value(x)
    ensures LimbsOf(x, ls)
  {
    if x.Imm? {
      OneLimb(x.val);
      return [x.val];
    }
    return x.ref.limbs[..x.ref.len];
  }

  /** The carry formula: a 64-bit sum that wrapped is below its first operand, or equal to it
      with a carry in. */
  lemma CarryFormula(a: nat, b: nat, carry: nat, sum: nat, out: nat)
    requires a < BASE && b < BASE && carry <= 1
    requires sum == (a + b + carry) % BASE
    requires out == if sum < a || (carry != 0 && sum == a) then 1 else 0
    ensures sum + out * BASE == a + b + carry && sum < BASE
  {
  }

  lemma AddStep(a: seq<nat>, b: seq<nat>, res: seq<nat>, i: nat, carry: nat, sum: nat, out: nat)
    requires |res| == i && Val(res) + carry * Weight(i) == Low(a, i) + Low(b, i)
    requires sum + out * BASE == Limb(a, i) + Limb(b, i) + carry
    ensures Val(res + [sum]) + out * Weight(i + 1) == Low(a, i + 1) + Low(b, i + 1)
  {
    ValSnoc(res, sum);
    var w := Weight(i);
    MulDist(w, Limb(a, i), Limb(b, i));
    MulDist(w, Limb(a, i) + Limb(b, i), carry);
    MulDist(w, sum, out * BASE);
    MulAssoc(out, BASE, w);
  }

  /** Add two limb arrays into a fresh one. */
  method AddLimbs(a: seq<nat>, b: seq<nat>) returns (l: BigLimbs)
    requires |a| >= 1 && |b| >= 1 && AllLimbs(a) && AllLimbs(b)
    ensures fresh(l) && fresh(l.limbs) && l.Formed() && l.Number() == Val(a) + Val(b)
    ensures SumShape(a, b, l)
  {
    hide Val;
    var maxLen := if |a| > |b| then |a| else |b|;
    l := new BigLimbs(maxLen + 1);
    var carry := AddRows(a, b, l, maxLen);
    l.len := maxLen;
    ghost var res := l.limbs[..maxLen];
    if carry != 0 {
      ValSnoc(res, 1);
      l.limbs[l.len] := 1;
      l.len := l.len + 1;
      assert l.limbs[..l.len] == res + [1];
    } else {
      SumTop(a, b, res);
    }
  }

  /** The carry loop: the low limbs of the sum into `l`, the last carry handed back. */
  method AddRows(a: seq<nat>, b: seq<nat>, l: BigLimbs, maxLen: nat) returns (carry: nat)
    requires |a| <= maxLen && |b| <= maxLen < l.limbs.Length && AllLimbs(a) && AllLimbs(b)
    modifies l.limbs
    ensures carry <= 1 && AllLimbs(l.limbs[..maxLen])
    ensures Val(l.limbs[..maxLen]) + carry * Weight(maxLen) == Val(a) + Val(b)
  {
    hide Val;
    carry := 0;
    ValAll([]);
    for i := 0 to maxLen
      invariant carry <= 1 && AllLimbs(l.limbs[..i])
      invariant Val(l.limbs[..i]) + carry * Weight(i) == Low(a, i) + Low(b, i)
    {
      var ai := if i < |a| then a[i] else 0;
      var bi := if i < |b| then b[i] else 0;
      var sum := (ai + bi + carry) % BASE;
      var out := if sum < ai || (carry != 0 && sum == ai) then 1 else 0;
      CarryFormula(ai, bi, carry, sum, out);
      ghost var res := l.limbs[..i];
      AddStep(a, b, res, i, carry, sum, out);
      l.limbs[i] := sum;
      carry := out;
      assert l.limbs[..i + 1] == res + [sum];
    }
    LowIs(a, maxLen);
    LowIs(b, maxLen);
  }

  lemma InitLimbs(ls: seq<nat>)
    requires AllLimbs(ls) && ls != []
    ensures AllLimbs(ls[..|ls| - 1])
  {
  }

  /** Without a carry out, the top limb of a sum is at least the top limb of the longer
      operand. */
  lemma SumTop(a: seq<nat>, b: seq<nat>, res: seq<nat>)
    requires |a| >= 1 && |b| >= 1 && AllLimbs(res)
    requires |res| == (if |a| > |b| then |a| else |b|)
    requires Val(res) == Val(a) + Val(b)
    ensures a[|a| - 1] != 0 && |a| >= |b| ==> res[|res| - 1] != 0
    ensures b[|b| - 1] != 0 && |b| >= |a| ==> res[|res| - 1] != 0
  {
    hide Val, Weight, AllLimbs;
    var n := |res| - 1;
    if res[n] == 0 {
      InitLimbs(res);
      ValDropZero(res);
      ValBound(res[..n]);
      if a[|a| - 1] != 0 && |a| >= |b| {
        ValTop(a);
      }
      if b[|b| - 1] != 0 && |b| >= |a| {
        ValTop(b);
      }
    }
  }

  method Add(a: Bignum, b: Bignum) returns (r: Bignum)
    requires Ok(a) && Ok(b)
    ensures Ok(r) && Value(r) == Value(a) + Value(b) && fresh(Footprint(r))
  {
    if a.Imm? && b.Imm? {
      r := FromU64(a.val + b.val);
    } else {
      r := AddSlow(a, b);
    }
  }

  /** The sum when an operand is on the heap. */
  method AddSlow(a: Bignum, b: Bignum) returns (r: Bignum)
    requires Ok(a) && Ok(b) && (a.Heap? || b.Heap?)
    ensures Ok(r) && Value(r) == Value(a) + Value(b) && fresh(Footprint(r))
  {
    hide Val, AllLimbs, Weight, SumShape, LimbsOf;
    var al := AsLimbs(a);
    var bl := AsLimbs(b);
    var l := AddLimbs(al, bl);
    AddTop(a, b, al, bl, l);
    LargeIsOk(l);
    return Heap(l);
  }

  ghost predicate LimbsOf(x: Bignum, ls: seq<nat>)
    requires Ok(x)
    reads Footprint(x)
  {
    ls == match x case Imm(v) => [v] case Heap(l) => l.limbs[..l.len]
  }

  ghost predicate SumShape(a: seq<nat>, b: seq<nat>, l: BigLimbs)
    requires |a| >= 1 && |b| >= 1
    reads l, l.limbs
  {
    && l.Formed()
    && (a[|a| - 1] != 0 && |a| >= |b| ==> l.limbs[l.len - 1] != 0)
    && (b[|b| - 1] != 0 && |b| >= |a| ==> l.limbs[l.len - 1] != 0)
  }

  lemma AddTop(a: Bignum, b: Bignum, al: seq<nat>, bl: seq<nat>, l: BigLimbs)
    requires Ok(a) && Ok(b) && (a.Heap? || b.Heap?) && LimbsOf(a, al) && LimbsOf(b, bl)
    requires |al| >= 1 && |bl| >= 1 && SumShape(al, bl, l)
    ensures Value(a) + Value(b) > MAX_IMMEDIATE && l.limbs[l.len - 1] != 0
  {
    LargerOperand(a, b);
  }

  /** If either operand is on the heap the longer one has a non-zero top limb and the sum is
      past the immediate range. */
  lemma LargerOperand(a: Bignum, b: Bignum)
    requires Ok(a) && Ok(b) && (a.Heap? || b.Heap?)
    ensures Value(a) + Value(b) > MAX_IMMEDIATE
    ensures var la, lb := if a.Imm? then 1 else a.ref.len, if b.Imm? then 1 else b.ref.len;
            (a.Heap? && la >= lb) || (b.Heap? && lb >= la)
  {
    if a.Heap? {
      HeapIsLarge(a.ref);
    }
    if b.Heap? {
      HeapIsLarge(b.ref);
    }
  }

  /** `dst += src`; the old number is given up for the fresh sum. */
  method AddInto(dst: Bignum, src: Bignum) returns (r: Bignum)
    requires Ok(dst) && Ok(src)
    ensures Ok(r) && Value(r) == Value(dst) + Value(src)
    ensures r == dst || fresh(Footprint(r))
  {
    ZeroTest(src);
    if IsZero(src) {
      return dst;
    }
    r := Add(dst, src);
  }

  // ---------------------------------------------------------------------------
  // Multiplication
  // ---------------------------------------------------------------------------

  /** A product of limbs plus two limbs fits 128 bits, so its high half is a limb. */
  lemma WideFits(a: nat, b: nat, r: nat, carry: nat, cur: nat)
    requires a < BASE && b < BASE && r < BASE && carry < BASE && cur == a * b + r + carry
    ensures cur < BASE * BASE && cur / BASE < BASE && cur % BASE < BASE
    ensures cur == cur % BASE + BASE * (cur / BASE)
  {
    MulMono(a, BASE - 1, b);
    assert a * b <= (BASE - 1) * (BASE - 1);
  }

  /** One inner step of the schoolbook loop, at limb `i + j` of the result. */
  lemma MulStep(res: seq<nat>, i: nat, j: nat, a: nat, b: seq<nat>, carry: nat, cur: nat)
    requires i + j < |res| && j < |b| && AllLimbs(res) && cur == a * b[j] + res[i + j] + carry
    requires cur == cur % BASE + BASE * (cur / BASE) && cur % BASE < BASE
    ensures AllLimbs(res[i + j := cur % BASE])
    ensures Val(res[i + j := cur % BASE]) + (cur / BASE) * Weight(i + j + 1)
         == Val(res) + carry * Weight(i + j) + a * Weight(i) * b[j] * Weight(j)
  {
    hide Val;
    hide Weight;
    var w, lo: nat, hi: nat := Weight(i + j), cur % BASE, cur / BASE;
    ValSet(res, i + j, lo);
    WeightStep(i + j);
    WeightAdd(i, j);
    CarryUp(w, lo, hi, res[i + j], carry, a * b[j]);
    RowTerm(a, b[j], Weight(i), Weight(j));
  }

  lemma CarryUp(w: nat, lo: nat, hi: nat, r: nat, carry: nat, p: nat)
    requires lo + BASE * hi == p + r + carry
    ensures lo * w + hi * (BASE * w) == p * w + r * w + carry * w
  {
    MulDist(w, lo, BASE * hi);
    MulDist(w, p, r + carry);
    MulDist(w, r, carry);
    MulSwap(hi, BASE, w);
    MulAssoc(BASE, hi, w);
  }

  lemma RowTerm(a: nat, b: nat, wi: nat, wj: nat)
    ensures a * b * (wi * wj) == a * wi * b * wj
  {
    MulAssoc(a * b, wi, wj);
    MulAssoc(a, b, wi);
    MulAssoc(a, wi, b);
  }

  lemma RowGrows(a: nat, b: seq<nat>, j: nat, wi: nat)
    requires j < |b|
    ensures a * wi * Val(b[..j + 1]) == a * wi * Val(b[..j]) + a * wi * b[j] * Weight(j)
  {
    hide Val, Weight;
    ValTake(b, j);
    MulDist(a * wi, Val(b[..j]), b[j] * Weight(j));
    MulAssoc(a * wi, b[j], Weight(j));
  }

  /** The inner loop's invariant: what is in the accumulator, with the carry still to come, is
      the start plus the part of the row done so far. */
  ghost predicate RowDone(res: seq<nat>, carry: nat, i: nat, j: nat, a: nat, b: seq<nat>, start: nat)
    requires j <= |b|
  {
    Val(res) + carry * Weight(i + j) == start + a * Weight(i) * Val(b[..j])
  }

  lemma RowStep(res: seq<nat>, i: nat, j: nat, a: nat, b: seq<nat>, carry: nat, cur: nat, start: nat)
    requires i + j < |res| && j < |b| && AllLimbs(res) && AllLimbs(b) && a < BASE && carry < BASE
    requires cur == a * b[j] + res[i + j] + carry && RowDone(res, carry, i, j, a, b, start)
    ensures cur % BASE < BASE && cur / BASE < BASE && AllLimbs(res[i + j := cur % BASE])
    ensures RowDone(res[i + j := cur % BASE], cur / BASE, i, j + 1, a, b, start)
  {
    hide Val, Weight;
    WideFits(a, b[j], res[i + j], carry, cur);
    MulStep(res, i, j, a, b, carry, cur);
    RowGrows(a, b, j, Weight(i));
  }

  lemma RowFirst(res: seq<nat>, i: nat, a: nat, b: seq<nat>)
    ensures RowDone(res, 0, i, 0, a, b, Val(res))
  {
    ValAll(b);
  }

  lemma RowLast(res: seq<nat>, i: nat, a: nat, b: seq<nat>, carry: nat, start: nat)
    requires RowDone(res, carry, i, |b|, a, b, start) && i + |b| < |res| && res[i + |b|] == 0
    ensures Val(res[i + |b| := carry]) == start + a * Weight(i) * Val(b)
  {
    hide Val, Weight;
    ValAll(b);
    ValSet(res, i + |b|, carry);
  }

  /** Add `a * b`, shifted up `i` limbs, into the accumulator. */
  method MulRow(res: array<nat>, i: nat, a: nat, b: seq<nat>)
    requires i + |b| < res.Length && a < BASE && AllLimbs(b) && |b| >= 1
    requires AllLimbs(res[..]) && forall k :: i + |b| <= k < res.Length ==> res[k] == 0
    modifies res
    ensures AllLimbs(res[..]) && forall k :: i + 1 + |b| <= k < res.Length ==> res[k] == 0
    ensures Val(res[..]) == Val(old(res[..])) + a * Weight(i) * Val(b)
  {
    hide Val, Weight, RowDone;
    var carry: nat := 0;
    ghost var start := Val(res[..]);
    RowFirst(res[..], i, a, b);
    for j := 0 to |b|
      invariant carry < BASE && AllLimbs(res[..])
      invariant forall k :: i + |b| <= k < res.Length ==> res[k] == 0
      invariant RowDone(res[..], carry, i, j, a, b, start)
    {
      var cur: nat := a * b[j] + res[i + j] + carry;
      ghost var now := res[..];
      RowStep(now, i, j, a, b, carry, cur, start);
      var low: nat, high: nat := cur % BASE, cur / BASE;
      res[i + j], carry := low, high;
      assert res[..] == now[i + j := low];
    }
    ghost var now := res[..];
    RowLast(now, i, a, b, carry, start);
    var top: nat := (res[i + |b|] + carry) % BASE;
    assert top == carry;
    res[i + |b|] := top;
    assert res[..] == now[i + |b| := carry];
  }

  lemma ProductGrows(a: seq<nat>, i: nat, vb: nat)
    requires i < |a|
    ensures Val(a[..i + 1]) * vb == Val(a[..i]) * vb + a[i] * Weight(i) * vb
  {
    hide Val, Weight;
    ValTake(a, i);
    MulDist(vb, Val(a[..i]), a[i] * Weight(i));
  }

  method MulLimbs(a: seq<nat>, b: seq<nat>) returns (l: BigLimbs)
    requires |a| >= 1 && |b| >= 1 && AllLimbs(a) && AllLimbs(b)
    ensures fresh(l) && fresh(l.limbs) && l.Formed() && l.Number() == Val(a) * Val(b)
  {
    hide Val, Weight;
    var rLen := |a| + |b|;
    l := new BigLimbs(rLen);
    for i := 0 to rLen
      invariant forall k :: 0 <= k < i ==> l.limbs[k] == 0
    {
      l.limbs[i] := 0;
    }
    ValZeros(l.limbs[..]);
    ValAll(a);
    for i := 0 to |a|
      invariant AllLimbs(l.limbs[..]) && forall k :: i + |b| <= k < rLen ==> l.limbs[k] == 0
      invariant Val(l.limbs[..]) == Val(a[..i]) * Val(b)
    {
      MulRow(l.limbs, i, a[i], b);
      ProductGrows(a, i, Val(b));
    }
    l.len := rLen;
    assert l.limbs[..rLen] == l.limbs[..];
  }

  lemma TwoLimbs(lo: nat, hi: nat)
    ensures Val([lo, hi]) == lo + BASE * hi
  {
    assert [lo, hi] == [lo] + [hi];
    ValSnoc([lo], hi);
    OneLimb(lo);
    assert Weight(1) == BASE * Weight(0);
  }

  function UsedOfTwo(top: nat): nat {
    if top != 0 then 2 else 1
  }

  method Mul(a: Bignum, b: Bignum) returns (r: Bignum)
    requires Ok(a) && Ok(b)
    ensures Ok(r) && Value(r) == Value(a) * Value(b) && fresh(Footprint(r))
  {
    hide Val, Weight;
    ZeroTest(a);
    ZeroTest(b);
    if IsZero(a) || IsZero(b) {
      return Imm(0);
    }
    if a.Imm? && b.Imm? {
      var prod := a.val * b.val;
      if prod < BASE {
        r := FromU64(prod);
        return;
      }
      WideFits(a.val, b.val, 0, 0, prod);
      var l := new BigLimbs(2);
      l.limbs[0] := prod % BASE;
      l.limbs[1] := prod / BASE;
      l.len := UsedOfTwo(l.limbs[1]);
      assert l.limbs[..2] == [prod % BASE, prod / BASE];
      TwoLimbs(prod % BASE, prod / BASE);
      return Heap(l);
    }
    var al := AsLimbs(a);
    var bl := AsLimbs(b);
    var l := MulLimbs(al, bl);
    r := Finish(l);
  }

  // ---------------------------------------------------------------------------
  // Division by a word
  // ---------------------------------------------------------------------------

  /** One limb of the division from the top: the partial dividend is below `k` words, so its
      quotient is one limb. */
  lemma DivLimb(rem: nat, limb: nat, k: nat, cur: nat)
    requires rem < k && limb < BASE && cur == rem * BASE + limb
    ensures cur / k < BASE && cur % k < k && cur == (cur / k) * k + cur % k
  {
    MulMono(rem + 1, k, BASE);
    assert cur < k * BASE;
    MulCancel(cur / k, BASE, k);
  }

  lemma DivLimbStep(was: seq<nat>, now: seq<nat>, i: nat, k: nat, rem: nat, q: nat, rem': nat)
    requires i < |was| == |now| && k > 0
    requires Val(was[i + 1..]) == Val(now[i + 1..]) * k + rem
    requires rem * BASE + was[i] == q * k + rem' && q < BASE
    ensures Val(was[i..]) == Val(now[i := q][i..]) * k + rem'
  {
    hide Val, Weight;
    assert was[i..] == [was[i]] + was[i + 1..];
    assert now[i := q][i..] == [q] + now[i + 1..];
    ValConcat([was[i]], was[i + 1..]);
    ValConcat([q], now[i + 1..]);
    OneLimb(was[i]);
    OneLimb(q);
    assert Weight(1) == BASE by { WeightStep(0); WeightZero(); }
    var v := Val(now[i + 1..]);
    MulDist(k, q, BASE * v);
    MulAssoc(BASE, v, k);
  }

  /** Divide a limb array in place by a word, from the top limb down. */
  method DivideLimbs(l: BigLimbs, k: nat) returns (rem: nat)
    requires l.Formed() && 0 < k < BASE
    modifies l.limbs
    ensures l.Formed() && old(l.Number()) == l.Number() * k + rem && rem < k
  {
    hide Val, Weight;
    var n := l.len;
    ghost var was := l.limbs[..n];
    rem := 0;
    var i := n;
    assert was[n..] == [];
    ValAll([]);
    while i > 0
      invariant 0 <= i <= n == l.len <= l.limbs.Length && rem < k
      invariant AllLimbs(l.limbs[..n])
      invariant forall j :: 0 <= j < i ==> l.limbs[j] == was[j]
      invariant Val(was[i..]) == Val(l.limbs[..n][i..]) * k + rem
    {
      i := i - 1;
      ghost var now := l.limbs[..n];
      var cur: nat := rem * BASE + l.limbs[i];
      DivLimb(rem, l.limbs[i], k, cur);
      var digit: nat := cur / k;
      DivLimbStep(was, now, i, k, rem, digit, cur % k);
      l.limbs[i] := digit;
      rem := cur % k;
      assert l.limbs[..n] == now[i := digit];
    }
    assert was[0..] == was && l.limbs[..n][0..] == l.limbs[..n];
  }

  /** Divide in place by a word; the remainder is returned. */
  method DivmodSmall(x: Bignum, k: nat) returns (q: Bignum, rem: nat)
    requires Ok(x) && 0 < k < BASE
    modifies Footprint(x)
    ensures Ok(q) && (q.Imm? || q == x)
    ensures old(Value(x)) == Value(q) * k + rem && rem < k
  {
    hide Val, Weight, AllLimbs;
    if x.Imm? {
      var v: nat := x.val / k;
      QuotientSmall(x.val, k);
      return Imm(v), x.val % k;
    }
    rem := DivideLimbs(x.ref, k);
    q := Finish(x.ref);
  }

  lemma QuotientSmall(v: nat, k: nat)
    requires k > 0
    ensures v / k <= v
  {
    var q := v / k;
    MulMono(1, k, q);
  }

  // ---------------------------------------------------------------------------
  // Comparison
  // ---------------------------------------------------------------------------

  lemma {:induction false} LowBound(ls: seq<nat>, n: nat)
    requires AllLimbs(ls)
    ensures Low(ls, n) < Weight(n)
  {
    if n > 0 {
      LowBound(ls, n - 1);
      LimbTimes(Limb(ls, n - 1), Weight(n - 1));
    }
  }

  /** Numbers whose limbs from `i` on agree differ by their low parts. */
  lemma {:induction false} HighAgree(a: seq<nat>, b: seq<nat>, i: nat, n: nat)
    requires i <= n && forall j :: i <= j < n ==> Limb(a, j) == Limb(b, j)
    ensures Low(a, n) + Low(b, i) == Low(b, n) + Low(a, i)
    decreases n
  {
    if i < n {
      HighAgree(a, b, i, n - 1);
    }
  }

  /** The highest differing limb decides. */
  lemma TopDecides(a: seq<nat>, b: seq<nat>, i: nat, n: nat)
    requires AllLimbs(a) && AllLimbs(b) && i < n
    requires forall j :: i < j < n ==> Limb(a, j) == Limb(b, j)
    requires Limb(a, i) < Limb(b, i)
    ensures Low(a, n) < Low(b, n)
  {
    hide AllLimbs;
    HighAgree(a, b, i + 1, n);
    LowBound(a, i);
    MulMono(Limb(a, i) + 1, Limb(b, i), Weight(i));
    MulDist(Weight(i), Limb(a, i), 1);
  }

  /** The sign of the comparison of two naturals. */
  function Order(a: nat, b: nat): int {
    if a < b then -1 else if a > b then 1 else 0
  }

  /** Compare limb arrays, leading zeros allowed. */
  method LimbsCmp(a: seq<nat>, b: seq<nat>) returns (c: int)
    requires AllLimbs(a) && AllLimbs(b)
    ensures c == Order(Val(a), Val(b))
  {
    hide Val, Weight, AllLimbs, Low;
    var n := if |a| > |b| then |a| else |b|;
    LowIs(a, n);
    LowIs(b, n);
    var i := n;
    while i > 0
      invariant 0 <= i <= n
      invariant forall j :: i <= j < n ==> Limb(a, j) == Limb(b, j)
    {
      i := i - 1;
      var ai := if i < |a| then a[i] else 0;
      var bi := if i < |b| then b[i] else 0;
      if ai != bi {
        if ai > bi {
          TopDecides(b, a, i, n);
          return 1;
        }
        TopDecides(a, b, i, n);
        return -1;
      }
    }
    HighAgree(a, b, 0, n);
    LowNone(a);
    LowNone(b);
    return 0;
  }

  lemma LowNone(ls: seq<nat>)
    ensures Low(ls, 0) == 0
  {
  }

  /** A longer canonical number is larger. */
  lemma LongerIsLarger(a: seq<nat>, b: seq<nat>)
    requires AllLimbs(a) && AllLimbs(b) && |a| < |b| && b[|b| - 1] != 0
    ensures Val(a) < Val(b)
  {
    ValBound(a);
    ValTop(b);
    WeightMono(|a|, |b| - 1);
  }

  /** Compare canonical numbers: tags first, then lengths, then limbs from the top. */
  method Cmp(a: Bignum, b: Bignum) returns (c: int)
    requires Ok(a) && Ok(b)
    ensures c == Order(Value(a), Value(b))
  {
    hide Val, Weight, AllLimbs;
    if a.Imm? && b.Imm? {
      return if a.val < b.val then -1 else if a.val > b.val then 1 else 0;
    }
    if a.Imm? {
      HeapIsLarge(b.ref);
      return -1;
    }
    if b.Imm? {
      HeapIsLarge(a.ref);
      return 1;
    }
    var al, bl := a.ref, b.ref;
    if al.len != bl.len {
      if al.len > bl.len {
        LongerIsLarger(bl.limbs[..bl.len], al.limbs[..al.len]);
        return 1;
      }
      LongerIsLarger(al.limbs[..al.len], bl.limbs[..bl.len]);
      return -1;
    }
    c := LimbsCmp(al.limbs[..al.len], bl.limbs[..bl.len]);
  }

  // ---------------------------------------------------------------------------
  // Subtraction
  // ---------------------------------------------------------------------------

  /** The borrow formula: a 64-bit difference wraps exactly when a borrow is due. */
  lemma BorrowFormula(a: nat, b: nat, borrow: nat, d: nat, out: nat)
    requires a < BASE && b < BASE && borrow <= 1
    requires d == (a - b - borrow + 2 * BASE) % BASE
    requires out == if a < b || (borrow != 0 && a == b) then 1 else 0
    ensures d + b + borrow == a + out * BASE && d < BASE
  {
  }

  lemma SubStep(now: seq<nat>, was: seq<nat>, b: seq<nat>, i: nat, borrow: nat, d: nat, out: nat)
    requires |now| == i && Val(now) + Low(b, i) == Low(was, i) + borrow * Weight(i)
    requires d + Limb(b, i) + borrow == Limb(was, i) + out * BASE
    ensures Val(now + [d]) + Low(b, i + 1) == Low(was, i + 1) + out * Weight(i + 1)
  {
    ValSnoc(now, d);
    var w := Weight(i);
    MulDist(w, d, Limb(b, i));
    MulDist(w, d + Limb(b, i), borrow);
    MulDist(w, Limb(was, i), out * BASE);
    MulAssoc(out, BASE, w);
  }

  lemma NoBorrowOut(now: seq<nat>, was: seq<nat>, b: seq<nat>, borrow: nat)
    requires AllLimbs(now) && |now| == |was| >= |b| && borrow <= 1 && Val(was) >= Val(b)
    requires Val(now) + Low(b, |was|) == Low(was, |was|) + borrow * Weight(|was|)
    ensures borrow == 0 && Val(now) == Val(was) - Val(b)
  {
    hide Val, Weight, AllLimbs, Low;
    LowIs(b, |was|);
    LowIs(was, |was|);
    ValBound(now);
    BitTimes(borrow, Weight(|was|));
  }

  lemma BitTimes(b: nat, w: nat)
    requires b <= 1
    ensures b * w == if b == 1 then w else 0
  {
  }

  /** `a -= b` in place, for `a >= b`. */
  method LimbsSubInPlace(a: array<nat>, an: nat, b: seq<nat>)
    requires an <= a.Length && |b| <= an && AllLimbs(a[..an]) && AllLimbs(b) && Val(a[..an]) >= Val(b)
    modifies a
    ensures AllLimbs(a[..an]) && Val(a[..an]) == Val(old(a[..an])) - Val(b)
  {
    hide Val, Weight, Low;
    ghost var was := a[..an];
    var borrow := 0;
    ValAll([]);
    LowNone(b);
    LowNone(was);
    assert a[..0] == [];
    for i := 0 to an
      invariant borrow <= 1 && AllLimbs(a[..i])
      invariant forall j :: i <= j < an ==> a[j] == was[j]
      invariant Val(a[..i]) + Low(b, i) == Low(was, i) + borrow * Weight(i)
    {
      var bi := if i < |b| then b[i] else 0;
      var d: nat := (a[i] - bi - borrow + 2 * BASE) % BASE;
      var out := if a[i] < bi || (borrow != 0 && a[i] == bi) then 1 else 0;
      BorrowFormula(a[i], bi, borrow, d, out);
      ghost var now := a[..i];
      SubStep(now, was, b, i, borrow, d, out);
      a[i] := d;
      borrow := out;
      assert a[..i + 1] == now + [d];
    }
    NoBorrowOut(a[..an], was, b, borrow);
  }

  /** The difference of two limb arrays in a fresh number. */
  method SubLimbs(al: seq<nat>, bl: seq<nat>) returns (r: Bignum)
    requires |al| >= 1 && AllLimbs(al) && AllLimbs(bl) && |bl| <= |al| && Val(al) >= Val(bl)
    ensures Ok(r) && fresh(Footprint(r)) && Value(r) == Val(al) - Val(bl)
  {
    hide Val, Weight, AllLimbs;
    var l := new BigLimbs(|al|);
    CopyIn(al, l);
    LimbsSubInPlace(l.limbs, |al|, bl);
    r := Finish(l);
  }

  /** Subtraction that stops at zero. */
  method Sub(a: Bignum, b: Bignum) returns (r: Bignum)
    requires Ok(a) && Ok(b)
    ensures Ok(r) && fresh(Footprint(r))
    ensures Value(r) == if Value(a) >= Value(b) then Value(a) - Value(b) else 0
  {
    hide Val, Weight, AllLimbs, LimbsOf;
    if a.Imm? && b.Imm? {
      return Imm(if a.val >= b.val then a.val - b.val else 0);
    }
    var al := AsLimbs(a);
    var bl := AsLimbs(b);
    var c := LimbsCmp(al, bl);
    if c < 0 {
      return Imm(0);
    }
    SubLengths(a, b, al, bl);
    r := SubLimbs(al, bl);
  }

  /** Fill a fresh array with the given limbs. */
  method CopyIn(ls: seq<nat>, l: BigLimbs)
    requires |ls| >= 1 && AllLimbs(ls) && l.limbs.Length >= |ls|
    modifies l, l.limbs
    ensures l.Formed() && l.len == |ls| && l.limbs[..l.len] == ls
  {
    for i := 0 to |ls|
      invariant forall j :: 0 <= j < i ==> l.limbs[j] == ls[j]
    {
      l.limbs[i] := ls[i];
    }
    l.len := |ls|;
    assert l.limbs[..l.len] == ls;
  }

  /** The larger canonical number has at least as many limbs. */
  lemma SubLengths(a: Bignum, b: Bignum, al: seq<nat>, bl: seq<nat>)
    requires Ok(a) && Ok(b) && LimbsOf(a, al) && LimbsOf(b, bl) && Value(a) >= Value(b)
    ensures |al| >= |bl|
  {
    if b.Heap? {
      HeapIsLarge(b.ref);
      if a.Heap? && |al| < |bl| {
        LongerIsLarger(al, bl);
      }
    }
  }
}
