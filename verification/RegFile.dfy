/** The bank of registers as the interpreter and the compiled code hold it: an array of
    tagged words, no two of which share limbs. */
module RegFiles {
  import opened Machine
  import opened Arith
  import opened Limbs
  import opened Bignums
  import opened LongDivision

  /** Every object that belongs to some word. */
  ghost function Repr(ws: seq<Bignum>): set<object> {
    set i, o | 0 <= i < |ws| && o in Footprint(ws[i]) :: o
  }

  /** No two words share a limb array. */
  ghost predicate Separate(ws: seq<Bignum>) {
    forall i, j :: 0 <= i < j < |ws| ==> Footprint(ws[i]) !! Footprint(ws[j])
  }

  ghost predicate AllOk(ws: seq<Bignum>)
    reads Repr(ws)
  {
    forall i :: 0 <= i < |ws| ==> Footprint(ws[i]) <= Repr(ws) && Ok(ws[i])
  }

  /** The naturals the words stand for. */
  ghost function ValuesOf(ws: seq<Bignum>): (v: Regs)
    requires AllOk(ws)
    reads Repr(ws)
    ensures |v| == |ws|
  {
    seq(|ws|, i requires 0 <= i < |ws| && AllOk(ws) reads Repr(ws) => Value(ws[i]))
  }

  lemma ReprAllocated(ws: seq<Bignum>)
    ensures forall o | o in Repr(ws) :: allocated(o)
  {
  }

  lemma InRepr(ws: seq<Bignum>, i: nat)
    requires i < |ws|
    ensures Footprint(ws[i]) <= Repr(ws)
  {
  }

  lemma OkAt(ws: seq<Bignum>, i: nat)
    requires AllOk(ws) && i < |ws|
    ensures Ok(ws[i]) && ValuesOf(ws)[i] == Value(ws[i]) && Footprint(ws[i]) <= Repr(ws)
  {
  }

  /** The words with register `i` taken out (holding zero instead). */
  ghost function Without(ws: seq<Bignum>, i: nat): seq<Bignum>
    requires i < |ws|
  {
    ws[i := Imm(0)]
  }

  /** Taking a register out leaves the others as they are and frees its limbs. */
  lemma Detach(ws: seq<Bignum>, i: nat)
    requires Separate(ws) && AllOk(ws) && i < |ws|
    ensures Ok(ws[i]) && Value(ws[i]) == ValuesOf(ws)[i]
    ensures Separate(Without(ws, i)) && AllOk(Without(ws, i))
    ensures ValuesOf(Without(ws, i)) == ValuesOf(ws)[i := 0]
    ensures Repr(Without(ws, i)) !! Footprint(ws[i])
    ensures Repr(Without(ws, i)) + Footprint(ws[i]) == Repr(ws)
  {
    hide Ok, Value;
    var rest := Without(ws, i);
    forall j | 0 <= j < |rest| ensures Footprint(rest[j]) <= Repr(rest) && Ok(rest[j]) {
      InRepr(rest, j);
      ZeroOk();
    }
    ZeroOk();
    forall o | o in Repr(ws) ensures o in Repr(rest) || o in Footprint(ws[i]) {
      var j :| 0 <= j < |ws| && o in Footprint(ws[j]);
      if j != i {
        assert rest[j] == ws[j];
      }
    }
    forall o | o in Repr(rest) ensures o in Repr(ws) && o !in Footprint(ws[i]) {
      var j :| 0 <= j < |rest| && o in Footprint(rest[j]);
      assert j != i;
      Apart(ws, i, j);
    }
  }

  lemma ZeroOk()
    ensures Ok(Imm(0)) && Value(Imm(0)) == 0 && Footprint(Imm(0)) == {}
  {
  }

  lemma Apart(ws: seq<Bignum>, i: nat, j: nat)
    requires Separate(ws) && i < |ws| && j < |ws| && i != j
    ensures Footprint(ws[i]) !! Footprint(ws[j])
  {
  }

  lemma ApartAll(ws: seq<Bignum>, dsts: seq<nat>, i: nat)
    requires Separate(ws) && i < |ws| && AllBelow(dsts, |ws|) && i !in dsts
    ensures forall j :: 0 <= j < |dsts| ==> Footprint(ws[dsts[j]]) !! Footprint(ws[i])
  {
    hide Separate;
    forall j | 0 <= j < |dsts| ensures Footprint(ws[dsts[j]]) !! Footprint(ws[i]) {
      Apart(ws, dsts[j], i);
    }
  }

  /** Putting a number that shares nothing into an emptied register. */
  lemma Attach(rest: seq<Bignum>, i: nat, r: Bignum)
    requires Separate(rest) && AllOk(rest) && i < |rest| && rest[i] == Imm(0)
    requires Ok(r) && Footprint(r) !! Repr(rest)
    ensures Separate(rest[i := r]) && AllOk(rest[i := r])
    ensures ValuesOf(rest[i := r]) == ValuesOf(rest)[i := Value(r)]
    ensures Repr(rest[i := r]) == Repr(rest) + Footprint(r)
  {
    hide Ok, Value;
    var ws := rest[i := r];
    forall j | 0 <= j < |ws| ensures Footprint(ws[j]) <= Repr(ws) && Ok(ws[j]) {
      InRepr(ws, j);
    }
    forall j, k | 0 <= j < k < |ws| ensures Footprint(ws[j]) !! Footprint(ws[k]) {
      if j == i {
        InRepr(rest, k);
      } else if k == i {
        InRepr(rest, j);
      } else {
        Apart(rest, j, k);
      }
    }
    forall o | o in Repr(rest) ensures o in Repr(ws) {
      var j :| 0 <= j < |rest| && o in Footprint(rest[j]);
      assert j != i && ws[j] == rest[j];
    }
    forall o | o in Repr(ws) ensures o in Repr(rest) || o in Footprint(r) {
      var j :| 0 <= j < |ws| && o in Footprint(ws[j]);
      if j != i {
        assert ws[j] == rest[j];
      }
    }
    assert Footprint(ws[i]) <= Repr(ws) by { InRepr(ws, i); }
  }

  lemma AddAllSnoc(regs: Regs, dsts: seq<nat>, i: nat, v: nat)
    requires i < |dsts| && dsts[i] < |regs|
    ensures var done := AddAll(regs, dsts[..i], v);
            AddAll(regs, dsts[..i + 1], v) == done[dsts[i] := done[dsts[i]] + v]
  {
    var d := dsts[i];
    assert dsts[..i + 1] == dsts[..i] + [d];
    var done := AddAll(regs, dsts[..i], v);
    var more := AddAll(regs, dsts[..i + 1], v);
    forall j | 0 <= j < |regs| ensures more[j] == done[d := done[d] + v][j] {
      assert Times(dsts[..i + 1], j) == Times(dsts[..i], j) + (if j == d then 1 else 0);
      assert v * (Times(dsts[..i], j) + 1) == v * Times(dsts[..i], j) + v;
    }
  }

  lemma AddAllZero(regs: Regs, v: nat)
    ensures AddAll(regs, [], v) == regs
  {
    forall j | 0 <= j < |regs| ensures AddAll(regs, [], v)[j] == regs[j] {
      assert v * 0 == 0;
    }
  }

  class RegFile {
    const words: array<Bignum>

    ghost predicate Valid()
      reads this, words, Repr(words[..])
    {
      words !in Repr(words[..]) && Separate(words[..]) && AllOk(words[..])
    }

    ghost function Values(): (v: Regs)
      requires Valid()
      reads this, words, Repr(words[..])
      ensures |v| == words.Length
    {
      ValuesOf(words[..])
    }

    /** All registers zero. */
    constructor (n: nat)
      ensures Valid() && fresh(words) && words.Length == n && Repr(words[..]) == {}
      ensures Values() == seq(n, _ => 0)
    {
      words := new Bignum[n](_ => Imm(0));
      new;
      assert forall i :: 0 <= i < n ==> words[..][i] == Imm(0);
    }

    method IncAt(i: nat)
      requires Valid() && i < words.Length
      modifies words, Repr(words[..])
      ensures Valid() && forall o | o in Repr(words[..]) :: o in old(Repr(words[..])) || fresh(o)
      ensures Values() == old(Values())[i := old(Values())[i] + 1]
    {
      hide Ok, Value, AllOk, ValuesOf, Separate, Repr;
      ghost var ws := words[..];
      ghost var rest := ws[i := Imm(0)];
      Detach(ws, i);
      ReprAllocated(ws);
      var r := Bignums.Inc(words[i]);
      Attach(rest, i, r);
      words[i] := r;
      assert words[..] == rest[i := r];
    }

    method DecAt(i: nat) returns (ok: bool)
      requires Valid() && i < words.Length
      modifies words, Repr(words[..])
      ensures Valid() && forall o | o in Repr(words[..]) :: o in old(Repr(words[..])) || fresh(o)
      ensures ok == (old(Values())[i] > 0)
      ensures Values() == if ok then old(Values())[i := old(Values())[i] - 1] else old(Values())
    {
      hide Ok, Value, AllOk, ValuesOf, Separate, Repr;
      ghost var ws := words[..];
      ghost var rest := ws[i := Imm(0)];
      Detach(ws, i);
      ReprAllocated(ws);
      var r;
      ok, r := Dec(words[i]);
      Attach(rest, i, r);
      words[i] := r;
      assert words[..] == rest[i := r];
    }

    /** Comparing the word with the immediate zero decides whether the register is empty. */
    lemma WordTest(i: nat)
      requires Valid() && i < words.Length
      ensures Bignums.IsZero(words[i]) <==> Values()[i] == 0
    {
      hide Ok, Value, AllOk, ValuesOf, Separate, Repr;
      OkAt(words[..], i);
      ZeroTest(words[i]);
    }

    method SetZeroAt(i: nat)
      requires Valid() && i < words.Length
      modifies words
      ensures Valid() && Repr(words[..]) <= old(Repr(words[..]))
      ensures Values() == old(Values())[i := 0]
    {
      hide Ok, Value, AllOk, ValuesOf, Separate, Repr;
      ghost var ws := words[..];
      Detach(ws, i);
      words[i] := Imm(0);
      assert words[..] == ws[i := Imm(0)];
    }

    /** Register `d` gains `src`, which is left alone.  The destination's old limbs are given
        back to the allocator, so the source must not share them. */
    method AddFrom(d: nat, src: Bignum)
      requires Valid() && d < words.Length && words !in Footprint(src) && Ok(src)
      requires Footprint(words[d]) !! Footprint(src)
      modifies words
      ensures words[..] == old(words[..])[d := words[d]]
      ensures words[d] == old(words[d]) || fresh(Footprint(words[d]))
      ensures Valid() && forall o | o in Repr(words[..]) :: o in old(Repr(words[..])) || fresh(o)
      ensures Ok(src) && Value(src) == old(Value(src))
      ensures Values() == old(Values())[d := old(Values())[d] + old(Value(src))]
    {
      hide Ok, Value, AllOk, ValuesOf, Separate, Repr;
      ghost var ws := words[..];
      ghost var rest := ws[d := Imm(0)];
      Detach(ws, d);
      ReprAllocated(ws);
      var r := AddInto(words[d], src);
      Attach(rest, d, r);
      words[d] := r;
      assert words[..] == rest[d := r];
    }

    /** Every listed register gains `src`, once per mention. */
    method FanOut(dsts: seq<nat>, src: Bignum)
      requires Valid() && AllBelow(dsts, words.Length) && words !in Footprint(src) && Ok(src)
      requires forall i :: 0 <= i < |dsts| ==> Footprint(words[dsts[i]]) !! Footprint(src)
      modifies words
      ensures Valid() && forall o | o in Repr(words[..]) :: o in old(Repr(words[..])) || fresh(o)
      ensures Ok(src) && Value(src) == old(Value(src))
      ensures Values() == AddAll(old(Values()), dsts, old(Value(src)))
    {
      hide Ok, Value, AllOk, ValuesOf, Separate, Repr, AddAll;
      ghost var v := Value(src);
      AddAllZero(Values(), v);
      assert dsts[..0] == [];
      for i := 0 to |dsts|
        invariant Valid() && forall o | o in Repr(words[..]) :: o in old(Repr(words[..])) || fresh(o)
        invariant Ok(src) && Value(src) == v
        invariant forall j :: 0 <= j < |dsts| ==> Footprint(words[dsts[j]]) !! Footprint(src)
        invariant Values() == AddAll(old(Values()), dsts[..i], v)
      {
        AddAllSnoc(old(Values()), dsts, i, v);
        AddFrom(dsts[i], src);
      }
      assert dsts[..|dsts|] == dsts;
    }

    /** TRANSFER: the source into every destination, then zero. */
    method TransferAt(reg: nat, dsts: seq<nat>)
      requires Valid() && reg < words.Length && AllBelow(dsts, words.Length) && reg !in dsts
      modifies words
      ensures Valid() && forall o | o in Repr(words[..]) :: o in old(Repr(words[..])) || fresh(o)
      ensures Values() == AddAll(old(Values()), dsts, old(Values())[reg])[reg := 0]
    {
      hide Ok, Value, Separate, Repr, AddAll;
      OkAt(words[..], reg);
      ApartAll(words[..], dsts, reg);
      var src := words[reg];
      FanOut(dsts, src);
      SetZeroAt(reg);
    }

    /** COPY: the source into every destination, the temporary into the source, then zero. */
    method CopyAt(s: nat, t: nat, dsts: seq<nat>)
      requires Valid() && s < words.Length && t < words.Length && AllBelow(dsts, words.Length)
      requires s != t && s !in dsts
      modifies words
      ensures Valid() && forall o | o in Repr(words[..]) :: o in old(Repr(words[..])) || fresh(o)
      ensures var r := AddAll(old(Values()), dsts, old(Values())[s]);
              Values() == r[s := r[s] + r[t]][t := 0]
    {
      hide Ok, Value, Separate, Repr, AddAll;
      OkAt(words[..], s);
      ApartAll(words[..], dsts, s);
      var src := words[s];
      FanOut(dsts, src);
      OkAt(words[..], t);
      Apart(words[..], s, t);
      AddFrom(s, words[t]);
      SetZeroAt(t);
    }

    /** Divide a register by the constant `k`, leaving the quotient in it. */
    method QuotientAt(reg: nat, k: nat) returns (rem: nat, ghost quot: nat)
      requires Valid() && reg < words.Length && 0 < k < BASE
      modifies words, Repr(words[..])
      ensures Valid() && forall o | o in Repr(words[..]) :: o in old(Repr(words[..])) || fresh(o)
      ensures Splits(old(Values())[reg], k, quot, rem)
      ensures Values() == old(Values())[reg := quot]
    {
      hide Ok, Value, Separate, Repr, AllOk, ValuesOf;
      ghost var ws := words[..];
      ghost var rest := ws[reg := Imm(0)];
      Detach(ws, reg);
      ReprAllocated(ws);
      var q;
      q, rem := DivmodSmall(words[reg], k);
      quot := Value(q);
      Attach(rest, reg, q);
      words[reg] := q;
      assert words[..] == rest[reg := q];
    }

    /** DIVMOD: the quotient into every destination; the remainder is returned to branch on. */
    method DivModAt(reg: nat, dsts: seq<nat>, k: nat) returns (rem: nat, ghost quot: nat)
      requires Valid() && reg < words.Length && AllBelow(dsts, words.Length) && 0 < k < BASE
      requires reg !in dsts
      modifies words, Repr(words[..])
      ensures Valid() && forall o | o in Repr(words[..]) :: o in old(Repr(words[..])) || fresh(o)
      ensures Splits(old(Values())[reg], k, quot, rem)
      ensures Values() == AddAll(old(Values()), dsts, quot)[reg := 0]
    {
      hide Ok, Value, Separate, Repr, AddAll, AllOk, ValuesOf;
      rem, quot := QuotientAt(reg, k);
      OkAt(words[..], reg);
      ApartAll(words[..], dsts, reg);
      FanOut(dsts, words[reg]);
      AddAllExcept(old(Values()), dsts, quot, reg, quot);
      SetZeroAt(reg);
    }

    /** What each accumulator of a multiply loop gains; S gains T unless T was cleared. */
    method MulAddend(c: nat, s: nat, t: nat, pre: bool) returns (addend: Bignum)
      requires Valid() && c < words.Length && s < words.Length && t < words.Length
      requires c != t && s != t && Values()[c] > 0
      modifies words
      ensures Valid() && forall o | o in Repr(words[..]) :: o in old(Repr(words[..])) || fresh(o)
      ensures words !in Footprint(addend) && Ok(addend)
      ensures forall i :: 0 <= i < words.Length ==> Footprint(words[i]) !! Footprint(addend)
      ensures var v := old(Values());
              && Value(addend) == (if pre then Product(v[c], v[s]) else Gain(v[c], v[s], v[t]))
              && Values() == (if pre then v[t := 0] else v[s := v[s] + v[t]])
    {
      hide Ok, Value, Separate, Repr, AddAll, AllOk, ValuesOf, Gain, Product;
      if pre {
        SetZeroAt(t);                                   // matches the in-body T := 0
        OkAt(words[..], s);
        OkAt(words[..], c);
        ReprAllocated(words[..]);
        addend := MulWords(words[c], words[s]);
        FootprintAllocated(addend);
      } else {
        OkAt(words[..], c);
        OkAt(words[..], s);
        OkAt(words[..], t);
        ReprAllocated(words[..]);
        addend := GainWords(words[c], words[s], words[t]);
        FootprintAllocated(addend);
        OkAt(words[..], t);
        Apart(words[..], s, t);
        AddFrom(s, words[t]);
      }
    }

    /** MULADD: the multiply loop, unless its counter is zero. */
    method MulAddAt(c: nat, s: nat, t: nat, dsts: seq<nat>, pre: bool)
      requires Valid() && c < words.Length && s < words.Length && t < words.Length
      requires AllBelow(dsts, words.Length) && c != t && s != t
      modifies words
      ensures Valid() && forall o | o in Repr(words[..]) :: o in old(Repr(words[..])) || fresh(o)
      ensures Values() == MulAddEffect(old(Values()), c, s, t, dsts, pre)
    {
      hide Ok, Value, Separate, Repr, AddAll, AllOk, ValuesOf, Gain, Product, MulAddEffect;
      WordTest(c);
      ghost var v := Values();
      if Bignums.IsZero(words[c]) {
        MulAddNothing(v, c, s, t, dsts, pre);
        return;
      }
      var addend := MulAddend(c, s, t, pre);
      ghost var total := Value(addend);
      FanOut(dsts, addend);
      SetZeroAt(t);
      SetZeroAt(c);
      MulAddTotal(v, c, s, t, dsts, pre, total);
    }

    /** Long division in place: the quotient stays in register `r`, the remainder is handed
        back as a number of its own. */
    method DivideAt(r: nat, p: nat, counter: Counter) returns (remainder: Bignum)
      requires Valid() && r < words.Length && p < words.Length && r != p && Values()[p] > 0
      modifies words, Repr(words[..])
      ensures Valid() && forall o | o in Repr(words[..]) :: o in old(Repr(words[..])) || fresh(o)
      ensures Loose(remainder)
      ensures forall o | o in Footprint(remainder) :: o in old(Repr(words[..])) || fresh(o)
      ensures Values() == old(Values())[r := Values()[r]]
      ensures Value(remainder) < old(Values())[p]
      ensures Covers(counter, old(Values())[r], old(Values())[p]) ==>
                Splits(old(Values())[r], old(Values())[p], Values()[r], Value(remainder))
    {
      hide Ok, Value, AllOk, ValuesOf, Separate, Repr, Covers;
      ghost var ws := words[..];
      ghost var rest := ws[r := Imm(0)];
      Detach(ws, r);
      ReprAllocated(ws);
      OkAt(rest, p);
      var quotient;
      quotient, remainder := Divmod(words[r], words[p], counter);
      Attach(rest, r, quotient);
      words[r] := quotient;
      assert words[..] == rest[r := quotient];
    }

    /** A well-formed number that shares nothing with any register. */
    ghost predicate Loose(b: Bignum)
      reads words, Repr(words[..]), Footprint(b)
    {
      Ok(b) && words !in Footprint(b) && Footprint(b) !! Repr(words[..])
    }

    /** A loose number becomes the contents of register `i`. */
    method PutAt(i: nat, b: Bignum)
      requires Valid() && i < words.Length && Loose(b)
      modifies words
      ensures Valid() && Repr(words[..]) <= old(Repr(words[..])) + Footprint(b)
      ensures Values() == old(Values())[i := old(Value(b))]
    {
      hide Ok, Value, AllOk, ValuesOf, Separate, Repr;
      ghost var ws := words[..];
      ghost var rest := ws[i := Imm(0)];
      Detach(ws, i);
      Attach(rest, i, b);
      words[i] := b;
      assert words[..] == rest[i := b];
    }

    /** Register `i` takes a copy of `x`. */
    method CopyFrom(i: nat, x: Bignum)
      requires Valid() && i < words.Length && Ok(x) && words !in Footprint(x)
      modifies words
      ensures Valid() && forall o | o in Repr(words[..]) :: o in old(Repr(words[..])) || fresh(o)
      ensures Values() == old(Values())[i := old(Value(x))]
    {
      hide Ok, Value, AllOk, ValuesOf, Separate, Repr;
      ReprAllocated(words[..]);
      FootprintAllocated(x);
      var mine := Clone(x);
      FootprintAllocated(mine);
      PutAt(i, mine);
    }

    /** The divisor keeps one bean less than the remainder leaves of it. */
    method ShrinkAt(p: nat, remainder: Bignum)
      requires Valid() && p < words.Length && Loose(remainder) && Value(remainder) < Values()[p]
      modifies words
      ensures Valid() && forall o | o in Repr(words[..]) :: o in old(Repr(words[..])) || fresh(o)
      ensures Loose(remainder) && Value(remainder) == old(Value(remainder))
      ensures Values() == old(Values())[p := old(Values())[p] - Value(remainder) - 1]
    {
      hide Ok, Value, AllOk, ValuesOf, Separate, Repr;
      OkAt(words[..], p);
      ReprAllocated(words[..]);
      FootprintAllocated(remainder);
      var left := SubLess(words[p], remainder);
      FootprintAllocated(left);
      PutAt(p, left);
    }

    /** Register `q` gains register `r`, which is emptied; a loose number stays loose. */
    method DrainInto(q: nat, r: nat, remainder: Bignum)
      requires Valid() && q < words.Length && r < words.Length && q != r && Loose(remainder)
      modifies words
      ensures Valid() && forall o | o in Repr(words[..]) :: o in old(Repr(words[..])) || fresh(o)
      ensures Loose(remainder) && Value(remainder) == old(Value(remainder))
      ensures Values() == old(Values())[q := old(Values())[q] + old(Values())[r]][r := 0]
    {
      hide Ok, Value, AllOk, ValuesOf, Separate, Repr;
      OkAt(words[..], r);
      Apart(words[..], q, r);
      ReprAllocated(words[..]);
      FootprintAllocated(remainder);
      AddFrom(q, words[r]);
      SetZeroAt(r);
    }

    /** DIVBIN on a positive divisor: long division of register `r` by register `p`, with the
        machine's effect whenever the bit counter covers it. */
    method DivBinAt(r: nat, p: nat, rem: nat, q: nat, xs: seq<nat>, counter: Counter)
      requires Valid() && r < words.Length && p < words.Length && rem < words.Length && q < words.Length
      requires AllBelow(xs, words.Length) && r !in xs && p !in xs
      requires r != p && r != q && p != q && rem != p && rem != r && rem != q
      requires Values()[p] > 0
      modifies words, Repr(words[..])
      ensures Valid() && forall o | o in Repr(words[..]) :: o in old(Repr(words[..])) || fresh(o)
      ensures Covers(counter, old(Values())[r], old(Values())[p]) ==>
                Values() == DivBinEffect(old(Values()), r, p, rem, q, xs)
    {
      hide Ok, Value, Separate, Repr, AddAll, AllOk, ValuesOf, Splits, DivBinEffect, Covers;
      ghost var v := Values();
      OkAt(words[..], r);
      ApartAll(words[..], xs, r);
      FanOut(xs, words[r]);
      AddAllOthers(v, xs, v[r], r);
      AddAllOthers(v, xs, v[r], p);
      var remainder := DivideAt(r, p, counter);
      ghost var quot, left := Values()[r], Value(remainder);
      DrainInto(q, r, remainder);
      ShrinkAt(p, remainder);
      PutAt(rem, remainder);
      if Covers(counter, v[r], v[p]) {
        DivBinTotal(v, r, p, rem, q, xs, quot, left);
      }
    }
  }

  /** `x` is `quot` times `d` and `left` over. */
  ghost predicate Splits(x: nat, d: nat, quot: nat, left: nat) {
    x == quot * d + left && left < d
  }

  lemma DivBinTotal(v: Regs, r: nat, p: nat, rem: nat, q: nat, xs: seq<nat>, quot: nat, left: nat)
    requires r < |v| && p < |v| && rem < |v| && q < |v| && v[p] > 0 && r != q && r != p && p != q
    requires Splits(v[r], v[p], quot, left)
    ensures var added := AddAll(v, xs, v[r]);
            DivBinEffect(v, r, p, rem, q, xs)
            == added[r := quot][q := added[q] + quot][r := 0][p := v[p] - left - 1][rem := left]
  {
    hide AddAll;
    DivModUnique(v[r], v[p], quot, left);
  }

  lemma AddAllOthers(v: Regs, xs: seq<nat>, x: nat, i: nat)
    requires i < |v| && i !in xs
    ensures AddAll(v, xs, x)[i] == v[i]
  {
    assert x * 0 == 0;
  }

  /** P - REM - 1 in fresh memory. */
  method SubLess(p: Bignum, rem: Bignum) returns (left: Bignum)
    requires Ok(p) && Ok(rem) && Value(rem) < Value(p)
    ensures Ok(left) && fresh(Footprint(left)) && Value(left) == Value(p) - Value(rem) - 1
  {
    hide Ok, Value;
    FootprintAllocated(p);
    FootprintAllocated(rem);
    var diff := Sub(p, rem);
    var ok;
    ok, left := Dec(diff);
  }

  /** The bank after a multiply loop. */
  function MulAddEffect(v: Regs, c: nat, s: nat, t: nat, dsts: seq<nat>, pre: bool): (r: Regs)
    requires c < |v| && s < |v| && t < |v| && AllBelow(dsts, |v|)
    ensures |r| == |v|
  {
    Effect(MulAdd(c, s, t, dsts, pre, 0), v)
  }

  function Product(c: nat, s: nat): nat {
    c * s
  }

  lemma ProductSwap(a: nat, b: nat)
    ensures Product(a, b) == a * b == b * a
  {
  }

  function Gain(c: nat, s: nat, t: nat): nat
    requires c > 0
  {
    c * s + (c - 1) * t
  }

  method MulWords(c: Bignum, s: Bignum) returns (r: Bignum)
    requires Ok(c) && Ok(s)
    ensures Ok(r) && fresh(Footprint(r)) && Value(r) == Product(Value(c), Value(s))
  {
    hide Ok, Value;
    FootprintAllocated(s);
    FootprintAllocated(c);
    r := Mul(s, c);
    ProductSwap(Value(c), Value(s));
  }

  method LessOne(c: Bignum) returns (r: Bignum)
    requires Ok(c) && Value(c) > 0
    ensures Ok(r) && fresh(Footprint(r)) && Value(r) == Value(c) - 1
  {
    hide Ok, Value;
    FootprintAllocated(c);
    var copy := Clone(c);
    var ok;
    ok, r := Dec(copy);
  }

  /** (C - 1) * T in fresh memory. */
  method LessTimes(c: Bignum, t: Bignum) returns (r: Bignum)
    requires Ok(c) && Ok(t) && Value(c) > 0
    ensures Ok(r) && fresh(Footprint(r)) && Value(r) == Product(Value(c) - 1, Value(t))
  {
    hide Ok, Value, Product;
    FootprintAllocated(c);
    FootprintAllocated(t);
    var less := LessOne(c);
    FootprintAllocated(less);
    r := MulWords(less, t);
  }

  /** C * S + (C - 1) * T in fresh memory. */
  method GainWords(c: Bignum, s: Bignum, t: Bignum) returns (r: Bignum)
    requires Ok(c) && Ok(s) && Ok(t) && Value(c) > 0
    ensures Ok(r) && fresh(Footprint(r)) && Value(r) == Gain(Value(c), Value(s), Value(t))
  {
    hide Ok, Value;
    ghost var (vc, vs, vt) := (Value(c), Value(s), Value(t));
    FootprintAllocated(s);
    FootprintAllocated(t);
    FootprintAllocated(c);
    var lessT := LessTimes(c, t);
    FootprintAllocated(lessT);
    var cS := MulWords(c, s);
    ProductSwap(vc, vs);
    ProductSwap(vc - 1, vt);
    r := Bignums.Add(cS, lessT);
  }

  lemma MulAddNothing(v: Regs, c: nat, s: nat, t: nat, dsts: seq<nat>, pre: bool)
    requires c < |v| && s < |v| && t < |v| && AllBelow(dsts, |v|) && v[c] == 0
    ensures MulAddEffect(v, c, s, t, dsts, pre) == v
  {
    hide AddAll;
  }

  lemma MulAddTotal(v: Regs, c: nat, s: nat, t: nat, dsts: seq<nat>, pre: bool, total: nat)
    requires c < |v| && s < |v| && t < |v| && AllBelow(dsts, |v|) && v[c] > 0 && c != t && s != t
    requires total == if pre then Product(v[c], v[s]) else Gain(v[c], v[s], v[t])
    ensures var r := AddAll(if pre then v[t := 0] else v[s := v[s] + v[t]], dsts, total);
            MulAddEffect(v, c, s, t, dsts, pre) == r[t := 0][c := 0]
  {
    hide AddAll;
    AddAllExcept(v, dsts, total, t, 0);
  }

  lemma AddAllExcept(regs: Regs, dsts: seq<nat>, v: nat, i: nat, x: nat)
    requires i < |regs|
    ensures AddAll(regs[i := x], dsts, v)[i := 0] == AddAll(regs, dsts, v)[i := 0]
  {
  }
}
