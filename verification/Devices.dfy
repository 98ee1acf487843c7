/** Loops over device registers, which are not folded: a device acts on every give and take. */
module Devices {
  import opened Machine
  import opened Loops
  import opened Detect
  import opened Written

  /** The source register and the destination registers a detected pattern carries. */
  function PatternRegs(op: Op): seq<nat> {
    match op
    case Zero(r, _) => [r]
    case IsZero(r, _, _) => [r]
    case Transfer(r, ds, _) => [r] + ds
    case DivMod(r, ds, _) => [r] + ds
    case MulAdd(c, s, t, ds, _, _) => [c, s, t] + ds
    case Copy(s, t, ds, _) => [s, t] + ds
    case DivBin(r, p, rem, q, xs, _) => [r, p, rem, q] + xs
    case _ => []
  }

  predicate TouchesDevice(op: Op, isDev: seq<bool>) {
    exists k :: 0 <= k < |PatternRegs(op)| && PatternRegs(op)[k] < |isDev| && isDev[PatternRegs(op)[k]]
  }

  method Touches(op: Op, isDev: seq<bool>) returns (b: bool)
    ensures b <==> TouchesDevice(op, isDev)
  {
    var regs := PatternRegs(op);
    for d := 0 to |regs|
      invariant forall k :: 0 <= k < d ==> !(regs[k] < |isDev| && isDev[regs[k]])
    {
      if regs[d] < |isDev| && isDev[regs[d]] {
        return true;
      }
    }
    return false;
  }

  // ---------------------------------------------------------------------------
  // The registers a loop names
  // ---------------------------------------------------------------------------

  predicate Names(op: Op, r: nat) {
    (op.Inc? || op.Deb?) && op.reg == r
  }

  ghost predicate CodeNames(code: seq<Op>, r: nat) {
    exists j :: 0 <= j < |code| && Names(code[j], r)
  }

  lemma NamesBoth(a: seq<Op>, b: seq<Op>, r: nat)
    ensures CodeNames(a + b, r) <==> CodeNames(a, r) || CodeNames(b, r)
  {
    var both := a + b;
    if CodeNames(both, r) {
      var j :| 0 <= j < |both| && Names(both[j], r);
      assert if j < |a| then Names(a[j], r) else Names(b[j - |a|], r);
    }
    if CodeNames(a, r) {
      var j :| 0 <= j < |a| && Names(a[j], r);
      assert Names(both[j], r);
    }
    if CodeNames(b, r) {
      var j :| 0 <= j < |b| && Names(b[j], r);
      assert Names(both[|a| + j], r);
    }
  }

  lemma NamesOne(op: Op, r: nat)
    ensures CodeNames([op], r) <==> Names(op, r)
  {
    assert [op][0] == op;
  }

  lemma NamesTwo(a: Op, b: Op, r: nat)
    ensures CodeNames([a, b], r) <==> Names(a, r) || Names(b, r)
  {
    assert [a, b] == [a] + [b];
    NamesBoth([a], [b], r);
    NamesOne(a, r);
    NamesOne(b, r);
  }

  lemma NamesThree(a: Op, b: Op, c: Op, r: nat)
    ensures CodeNames([a, b, c], r) <==> Names(a, r) || Names(b, r) || Names(c, r)
  {
    assert [a, b, c] == [a, b] + [c];
    NamesBoth([a, b], [c], r);
    NamesTwo(a, b, r);
    NamesOne(c, r);
  }

  lemma GivesName(rs: seq<nat>, at: nat, back: nat, r: nat)
    ensures CodeNames(Gives(rs, at, back), r) <==> r in rs
  {
    var code := Gives(rs, at, back);
    if r in rs {
      var j :| 0 <= j < |rs| && rs[j] == r;
      assert Names(code[j], r);
    }
  }

  lemma TakesName(x: nat, es: seq<nat>, at: nat, last: nat, r: nat)
    requires es != []
    ensures CodeNames(Takes(x, es, at, last), r) <==> r == x
  {
    var code := Takes(x, es, at, last);
    assert Names(code[0], x);
  }

  lemma ZeroNames(s: nat, x: nat, exit: nat, r: nat)
    ensures CodeNames(RawZero(s, x, exit), r) <==> r in [x]
  {
    NamesOne(Deb(x, exit, s), r);
  }

  lemma IsZeroNames(s: nat, x: nat, a: nat, b: nat, r: nat)
    ensures CodeNames(RawIsZero(s, x, a, b), r) <==> r in [x]
  {
    NamesTwo(Deb(x, a, s + 1), Inc(x, b), r);
  }

  lemma TransferNames(s: nat, x: nat, ds: seq<nat>, exit: nat, r: nat)
    ensures CodeNames(RawTransfer(s, x, ds, exit), r) <==> r in [x] + ds
  {
    hide CodeNames, Gives;
    NamesBoth([Deb(x, exit, s + 1)], Gives(ds, s + 1, s), r);
    NamesOne(Deb(x, exit, s + 1), r);
    GivesName(ds, s + 1, s, r);
  }

  lemma DivModNames(s: nat, x: nat, ds: seq<nat>, es: seq<nat>, r: nat)
    requires es != []
    ensures CodeNames(RawDivMod(s, x, ds, es), r) <==> r in [x] + ds
  {
    hide CodeNames, Gives, Takes;
    var last := if ds == [] then s else s + |es|;
    NamesBoth(Takes(x, es, s, last), Gives(ds, s + |es|, s), r);
    TakesName(x, es, s, last, r);
    GivesName(ds, s + |es|, s, r);
  }

  lemma MulAddNames(s: nat, c: nat, m: nat, t: nat, ds: seq<nat>, pre: bool, exit: nat, r: nat)
    ensures CodeNames(RawMulAdd(s, c, m, t, ds, pre, exit), r) <==> r in [c, m, t] + ds
  {
    hide CodeNames, Gives;
    var head := if pre then s + 2 else s + 1;
    var restore := head + |ds| + 2;
    var a, b := Deb(c, exit, s + 1), Deb(m, restore, head + 1);
    var clear := if pre then [Deb(t, head, s + 1)] else [];
    var run := Gives(ds + [t], head + 1, head);
    var back := [Deb(t, s, restore + 1), Inc(m, restore)];
    NamesBoth([a] + clear + [b] + run, back, r);
    NamesBoth([a] + clear + [b], run, r);
    NamesBoth([a] + clear, [b], r);
    NamesOne(b, r);
    GivesName(ds + [t], head + 1, head, r);
    NamesTwo(back[0], back[1], r);
    if pre {
      NamesTwo(a, Deb(t, head, s + 1), r);
      assert [a] + clear == [a, Deb(t, head, s + 1)];
    } else {
      NamesOne(a, r);
      assert [a] + clear == [a];
    }
  }

  lemma CopyNames(s: nat, x: nat, t: nat, ds: seq<nat>, at: nat, exit: nat, r: nat)
    requires at <= |ds|
    ensures CodeNames(RawCopy(s, x, PutIn(ds, at, t), t, exit), r) <==> r in [x, t] + ds
  {
    hide CodeNames, Gives, PutIn;
    var run := PutIn(ds, at, t);
    var mid := s + 1 + |run|;
    var a, back := Deb(x, mid, s + 1), [Deb(t, exit, mid + 1), Inc(x, mid)];
    NamesBoth([a] + Gives(run, s + 1, s), back, r);
    NamesBoth([a], Gives(run, s + 1, s), r);
    NamesOne(a, r);
    GivesName(run, s + 1, s, r);
    PutInHolds(ds, at, t);
    NamesTwo(back[0], back[1], r);
  }

  lemma DivBinNames(s: nat, x: nat, d: nat, rem: nat, q: nat, xs: seq<nat>, at: nat, exit: nat, r: nat)
    requires at <= |xs|
    ensures CodeNames(RawDivBin(s, x, d, rem, q, PutIn(xs, at, rem), exit), r) <==> r in [x, d, rem, q] + xs
  {
    hide CodeNames, Gives, PutIn;
    var run := PutIn(xs, at, rem);
    var full := s + 3 + |run|;
    var open := [Deb(rem, s + 1, s), Deb(d, full, s + 2), Deb(x, exit, s + 3)];
    var close := [Deb(rem, full + 2, full + 1), Inc(d, full), Inc(q, s + 1)];
    NamesBoth(open + Gives(run, s + 3, s + 1), close, r);
    NamesBoth(open, Gives(run, s + 3, s + 1), r);
    NamesThree(open[0], open[1], open[2], r);
    GivesName(run, s + 3, s + 1, r);
    PutInHolds(xs, at, rem);
    NamesThree(close[0], close[1], close[2], r);
  }

  /** The registers a pattern carries are the registers its raw loop names. */
  lemma PatternNames(p: Program, s: nat, f: Fold, r: nat)
    requires IsRaw(p) && FirstOf(p, s, Some(f)) && f.start == s < f.end <= |p|
    ensures CodeNames(p[s..f.end], r) <==> r in PatternRegs(f.op)
  {
    hide FirstOf, CodeNames, Unentered;
    var at := FoundStands(p, s, f);
    match f.op
    case Zero(x, exit) => ZeroNames(s, x, exit, r);
    case IsZero(x, a, b) => IsZeroNames(s, x, a, b, r);
    case Transfer(x, ds, exit) => TransferNames(s, x, ds, exit, r);
    case DivMod(x, ds, es) => DivModNames(s, x, ds, es, r);
    case MulAdd(c, m, t, ds, pre, exit) => MulAddNames(s, c, m, t, ds, pre, exit, r);
    case Copy(x, t, ds, exit) => CopyNames(s, x, t, ds, at, exit, r);
    case DivBin(x, d, rem, q, xs, exit) => DivBinNames(s, x, d, rem, q, xs, at, exit, r);
  }
}
