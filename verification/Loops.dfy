/** The seven loop idioms the optimizer recognises, each as a declarative shape of raw
    code, and for each the theorem that running the raw loop is the same as making the
    one folded move. */
module Loops {
  import opened Machine
  import opened Arith

  const MAX_DESTS: nat := 32

  // ---------------------------------------------------------------------------
  // Shapes
  // ---------------------------------------------------------------------------

  predicate InstAt(p: Program, i: nat, op: Op) {
    i < |p| && p[i] == op
  }

  /** `n` consecutive gives from `i`, each but the last flowing to its successor and the
      last to `back`; no register is `exclude`. */
  predicate IncRun(p: Program, i: nat, n: nat, back: nat, exclude: nat) {
    && 1 <= n <= MAX_DESTS
    && i + n <= |p|
    && (forall j :: i <= j < i + n ==> p[j].Inc? && p[j].reg != exclude)
    && (forall j :: i <= j < i + n - 1 ==> p[j].next == j + 1 && p[j].next != back)
    && p[i + n - 1].next == back
  }

  /** The registers a run of gives names, in order. */
  function RunRegs(p: Program, i: nat, n: nat): (rs: seq<nat>)
    requires i + n <= |p| && forall j :: i <= j < i + n ==> p[j].Inc?
    ensures |rs| == n
  {
    seq(n, j requires 0 <= j < n => p[i + j].reg)
  }

  predicate IncRunOf(p: Program, i: nat, back: nat, exclude: nat, rs: seq<nat>) {
    IncRun(p, i, |rs|, back, exclude) && RunRegs(p, i, |rs|) == rs
  }

  /** A detected loop: the half-open range of raw code it covers and the operation that
      replaces it (its exits still raw indices). */
  datatype Fold = Fold(start: nat, end: nat, op: Op)

  predicate ZeroLoop(p: Program, f: Fold) {
    f.op.Zero? && InstAt(p, f.start, Deb(f.op.reg, f.op.exit, f.start)) && f.end == f.start + 1
  }

  predicate TransferLoop(p: Program, f: Fold) {
    && f.op.Transfer?
    && InstAt(p, f.start, Deb(f.op.reg, f.op.exit, f.start + 1))
    && IncRunOf(p, f.start + 1, f.start, f.op.reg, f.op.dsts)
    && f.end == f.start + 1 + |f.op.dsts|
  }

  /** `k` takes of one register in a chain, leaving by `exits`, the last flowing to `last`. */
  predicate TakeChain(p: Program, s: nat, r: nat, exits: seq<nat>, last: nat) {
    && |exits| > 0
    && s + |exits| <= |p|
    && forall j {:trigger exits[j]} :: 0 <= j < |exits| ==>
         p[s + j] == Deb(r, exits[j], if j + 1 < |exits| then s + j + 1 else last)
  }

  predicate DivModLoop(p: Program, f: Fold) {
    && f.op.DivMod?
    && var k, s, r, ds := |f.op.exits|, f.start, f.op.reg, f.op.dsts;
    && 2 <= k <= MAX_DESTS
    && TakeChain(p, s, r, f.op.exits, if ds == [] then s else s + k)
    && !(s + k < |p| && p[s + k].Deb? && p[s + k].reg == r)
    && (ds == [] || IncRunOf(p, s + k, s, r, ds))
    && f.end == s + k + |ds|
  }

  predicate Distinct(rs: seq<nat>) {
    forall i, j :: 0 <= i < j < |rs| ==> rs[i] != rs[j]
  }

  predicate MulAddLoop(p: Program, f: Fold) {
    && f.op.MulAdd?
    && var MulAdd(c, s, t, ds, pre, exit) := f.op;
    && var head := if pre then f.start + 2 else f.start + 1;
    && var restore := head + 1 + |ds| + 1;
    && InstAt(p, f.start, Deb(c, exit, f.start + 1))
    && (pre ==> InstAt(p, f.start + 1, Deb(t, head, f.start + 1)))
    && InstAt(p, head, Deb(s, restore, head + 1))
    && IncRunOf(p, head + 1, head, s, ds + [t])
    && InstAt(p, restore, Deb(t, f.start, restore + 1))
    && InstAt(p, restore + 1, Inc(s, restore))
    && f.end == restore + 2
    && Distinct([c, s] + ds + [t])
    && |ds| + 2 <= MAX_DESTS
  }

  predicate IsZeroLoop(p: Program, f: Fold) {
    && f.op.IsZero?
    && InstAt(p, f.start, Deb(f.op.reg, f.op.onZero, f.start + 1))
    && InstAt(p, f.start + 1, Inc(f.op.reg, f.op.onTake))
    && f.end == f.start + 2
  }

  /** `rs` without the register `r`. */
  function Without(rs: seq<nat>, r: nat): seq<nat> {
    if rs == [] then []
    else if rs[0] == r then Without(rs[1..], r)
    else [rs[0]] + Without(rs[1..], r)
  }

  predicate CopyLoop(p: Program, f: Fold) {
    && f.op.Copy?
    && var n := |f.op.dsts| + 1;
    && var mid := f.start + 1 + n;
    && InstAt(p, f.start, Deb(f.op.reg, mid, f.start + 1))
    && IncRun(p, f.start + 1, n, f.start, f.op.reg)
    && Times(RunRegs(p, f.start + 1, n), f.op.t) == 1
    && f.op.dsts == Without(RunRegs(p, f.start + 1, n), f.op.t)
    && InstAt(p, mid, Deb(f.op.t, f.op.exit, mid + 1))
    && InstAt(p, mid + 1, Inc(f.op.reg, mid))
    && f.end == mid + 2
  }

  predicate DivBinLoop(p: Program, f: Fold) {
    && f.op.DivBin?
    && var DivBin(r, d, rem, q, xs, exit) := f.op;
    && var s, n := f.start, |xs| + 1;
    && var full := s + 3 + n;
    && InstAt(p, s, Deb(rem, s + 1, s))
    && InstAt(p, s + 1, Deb(d, full, s + 2))
    && InstAt(p, s + 2, Deb(r, exit, s + 3))
    && IncRun(p, s + 3, n, s + 1, r)
    && Times(RunRegs(p, s + 3, n), rem) == 1
    && xs == Without(RunRegs(p, s + 3, n), rem)
    && InstAt(p, full, Deb(rem, full + 2, full + 1))
    && InstAt(p, full + 1, Inc(d, full))
    && InstAt(p, full + 2, Inc(q, s + 1))
    && f.end == full + 3
    && Distinct([r, d, q] + RunRegs(p, s + 3, n))
    && n + 2 <= MAX_DESTS
  }

  predicate LoopShape(p: Program, f: Fold) {
    match f.op
    case DivBin(_, _, _, _, _, _) => DivBinLoop(p, f)
    case MulAdd(_, _, _, _, _, _) => MulAddLoop(p, f)
    case Copy(_, _, _, _) => CopyLoop(p, f)
    case Transfer(_, _, _) => TransferLoop(p, f)
    case DivMod(_, _, _) => DivModLoop(p, f)
    case IsZero(_, _, _) => IsZeroLoop(p, f)
    case Zero(_, _) => ZeroLoop(p, f)
    case _ => false
  }

  // ---------------------------------------------------------------------------
  // Single moves and runs
  // ---------------------------------------------------------------------------

  lemma Give(p: Program, i: nat, r: nat, next: nat, regs: Regs)
    requires InstAt(p, i, Inc(r, next)) && r < |regs|
    ensures Reaches(p, Config(i, regs), 1, Config(next, regs[r := regs[r] + 1]))
  {
    assert Reaches(p, Next(p, Config(i, regs)), 0, Config(next, regs[r := regs[r] + 1]));
  }

  lemma Take(p: Program, i: nat, r: nat, onZero: nat, onTake: nat, regs: Regs)
    requires InstAt(p, i, Deb(r, onZero, onTake)) && r < |regs|
    ensures regs[r] == 0 ==> Reaches(p, Config(i, regs), 1, Config(onZero, regs))
    ensures regs[r] > 0 ==> Reaches(p, Config(i, regs), 1, Config(onTake, regs[r := regs[r] - 1]))
  {
    var c := Config(i, regs);
    assert Reaches(p, Next(p, c), 0, Next(p, c));
  }

  // ---------------------------------------------------------------------------
  // The algebra of adding into several registers
  // ---------------------------------------------------------------------------

  lemma AddAllNone(regs: Regs, dsts: seq<nat>, v: nat)
    requires v == 0 || dsts == []
    ensures AddAll(regs, dsts, v) == regs
  {
    forall j | 0 <= j < |regs| ensures AddAll(regs, dsts, v)[j] == regs[j] {
      assert v * Times(dsts, j) == 0;
    }
  }

  lemma AddAllTwice(regs: Regs, dsts: seq<nat>, v: nat, w: nat)
    ensures AddAll(AddAll(regs, dsts, v), dsts, w) == AddAll(regs, dsts, v + w)
  {
    forall j | 0 <= j < |regs|
      ensures AddAll(AddAll(regs, dsts, v), dsts, w)[j] == AddAll(regs, dsts, v + w)[j]
    {
      assert v * Times(dsts, j) + w * Times(dsts, j) == (v + w) * Times(dsts, j);
    }
  }

  lemma AddAllSet(regs: Regs, dsts: seq<nat>, v: nat, a: nat, x: nat)
    requires a < |regs| && Times(dsts, a) == 0
    ensures AddAll(regs, dsts, v)[a] == regs[a]
    ensures AddAll(regs[a := x], dsts, v) == AddAll(regs, dsts, v)[a := x]
  {
    assert v * Times(dsts, a) == 0;
  }

  lemma AddAllCons(regs: Regs, r: nat, rest: seq<nat>, v: nat)
    requires r < |regs|
    ensures AddAll(regs[r := regs[r] + v], rest, v) == AddAll(regs, [r] + rest, v)
  {
    forall j | 0 <= j < |regs|
      ensures AddAll(regs[r := regs[r] + v], rest, v)[j] == AddAll(regs, [r] + rest, v)[j]
    {
      assert Times([r] + rest, j) == Times(rest, j) + (if j == r then 1 else 0);
      assert v * (Times(rest, j) + 1) == v * Times(rest, j) + v;
    }
  }

  // ---------------------------------------------------------------------------
  // Running a loop
  // ---------------------------------------------------------------------------

  lemma NotInRun(p: Program, i: nat, n: nat, back: nat, exclude: nat)
    requires IncRun(p, i, n, back, exclude)
    ensures Times(RunRegs(p, i, n), exclude) == 0
  {
    assert exclude !in RunRegs(p, i, n);
  }

  /** From inside a run of gives, control reaches `back` with the rest of the run applied. */
  lemma {:induction false} RunFrom(p: Program, i: nat, n: nat, back: nat, exclude: nat,
                                   j: nat, regs: Regs)
    requires IncRun(p, i, n, back, exclude) && j < n
    requires AllBelow(RunRegs(p, i, n), |regs|)
    ensures Reaches(p, Config(i + j, regs), n - j,
                    Config(back, AddAll(regs, RunRegs(p, i, n)[j..], 1)))
    decreases n - j
  {
    hide AddAll, Reaches;
    var rs := RunRegs(p, i, n);
    var r := rs[j];
    var regs1 := regs[r := regs[r] + 1];
    Give(p, i + j, r, p[i + j].next, regs);
    AddAllCons(regs, r, rs[j + 1..], 1);
    assert rs[j..] == [r] + rs[j + 1..];
    if j == n - 1 {
      assert rs[j + 1..] == [];
      AddAllNone(regs1, [], 1);
    } else {
      RunFrom(p, i, n, back, exclude, j + 1, regs1);
      ReachesJoin(p, Config(i + j, regs), 1, Config(i + j + 1, regs1), n - j - 1,
                  Config(back, AddAll(regs, rs[j..], 1)));
    }
  }

  lemma RunAll(p: Program, i: nat, rs: seq<nat>, back: nat, exclude: nat, regs: Regs)
    requires IncRunOf(p, i, back, exclude, rs) && AllBelow(rs, |regs|)
    ensures Reaches(p, Config(i, regs), |rs|, Config(back, AddAll(regs, rs, 1)))
    ensures Times(rs, exclude) == 0
  {
    RunFrom(p, i, |rs|, back, exclude, 0, regs);
    NotInRun(p, i, |rs|, back, exclude);
    assert rs[0..] == rs;
  }

  /** `take A exit; give D1; ..; give Dn; again` moves every bean of A to each D. */
  lemma {:induction false} TransferRuns(p: Program, s: nat, a: nat, exit: nat, dsts: seq<nat>, regs: Regs)
    returns (k: nat)
    requires InstAt(p, s, Deb(a, exit, s + 1)) && IncRunOf(p, s + 1, s, a, dsts)
    requires a < |regs| && AllBelow(dsts, |regs|)
    ensures k >= 1
    ensures Reaches(p, Config(s, regs), k, Config(exit, AddAll(regs, dsts, regs[a])[a := 0]))
    decreases regs[a]
  {
    hide AddAll, Reaches, IncRun, Times;
    Take(p, s, a, exit, s + 1, regs);
    if regs[a] == 0 {
      AddAllNone(regs, dsts, 0);
      assert regs[a := 0] == regs;
      k := 1;
    } else {
      var x := regs[a];
      var regs1 := regs[a := x - 1];
      RunAll(p, s + 1, dsts, s, a, regs1);
      AddAllSet(regs, dsts, 1, a, x - 1);
      var regs2 := AddAll(regs1, dsts, 1);
      var k2 := TransferRuns(p, s, a, exit, dsts, regs2);
      ReachesJoin(p, Config(s, regs), 1, Config(s + 1, regs1), |dsts|, Config(s, regs2));
      assert AddAll(regs2, dsts, x - 1)[a := 0] == AddAll(regs, dsts, x)[a := 0] by {
        AddAllSet(AddAll(regs, dsts, 1), dsts, x - 1, a, x - 1);
        AddAllTwice(regs, dsts, 1, x - 1);
      }
      ReachesJoin(p, Config(s, regs), 1 + |dsts|, Config(s, regs2), k2,
                  Config(exit, AddAll(regs, dsts, x)[a := 0]));
      k := 1 + |dsts| + k2;
    }
  }

  lemma {:induction false} ZeroRuns(p: Program, s: nat, r: nat, exit: nat, regs: Regs) returns (k: nat)
    requires InstAt(p, s, Deb(r, exit, s)) && r < |regs|
    ensures k >= 1 && Reaches(p, Config(s, regs), k, Config(exit, regs[r := 0]))
    decreases regs[r]
  {
    hide Reaches;
    Take(p, s, r, exit, s, regs);
    if regs[r] == 0 {
      assert regs[r := 0] == regs;
      k := 1;
    } else {
      var regs1 := regs[r := regs[r] - 1];
      k := ZeroRuns(p, s, r, exit, regs1);
      assert regs1[r := 0] == regs[r := 0];
      ReachesJoin(p, Config(s, regs), 1, Config(s, regs1), k, Config(exit, regs[r := 0]));
      k := k + 1;
    }
  }

  lemma IsZeroRuns(p: Program, f: Fold, regs: Regs) returns (k: nat)
    requires IsZeroLoop(p, f) && f.op.reg < |regs|
    ensures k >= 1
    ensures Reaches(p, Config(f.start, regs), k,
                    Config(if regs[f.op.reg] == 0 then f.op.onZero else f.op.onTake, regs))
  {
    hide Reaches;
    var s, r := f.start, f.op.reg;
    Take(p, s, r, f.op.onZero, s + 1, regs);
    if regs[r] == 0 {
      k := 1;
    } else {
      var regs1 := regs[r := regs[r] - 1];
      Give(p, s + 1, r, f.op.onTake, regs1);
      assert regs1[r := regs1[r] + 1] == regs;
      ReachesJoin(p, Config(s, regs), 1, Config(s + 1, regs1), 1, Config(f.op.onTake, regs));
      k := 2;
    }
  }

  /** Inside a chain of takes of `r`: either the register runs out on the way, leaving by
      the exit reached, or the whole rest of the chain is passed. */
  lemma {:induction false} ChainRuns(p: Program, s: nat, r: nat, exits: seq<nat>, last: nat,
                                     j: nat, regs: Regs)
    requires TakeChain(p, s, r, exits, last) && j < |exits| && r < |regs|
    ensures regs[r] < |exits| - j ==>
              Reaches(p, Config(s + j, regs), regs[r] + 1, Config(exits[j + regs[r]], regs[r := 0]))
    ensures regs[r] >= |exits| - j ==>
              Reaches(p, Config(s + j, regs), |exits| - j,
                      Config(last, regs[r := regs[r] - (|exits| - j)]))
    decreases |exits| - j
  {
    hide Reaches;
    assert p[s + j] == Deb(r, exits[j], if j + 1 < |exits| then s + j + 1 else last);
    Take(p, s + j, r, exits[j], if j + 1 < |exits| then s + j + 1 else last, regs);
    if regs[r] == 0 {
      assert regs[r := 0] == regs;
    } else if j + 1 < |exits| {
      var regs1 := regs[r := regs[r] - 1];
      ChainRuns(p, s, r, exits, last, j + 1, regs1);
      if regs[r] < |exits| - j {
        assert regs1[r := 0] == regs[r := 0];
        ReachesJoin(p, Config(s + j, regs), 1, Config(s + j + 1, regs1), regs1[r] + 1,
                    Config(exits[j + regs[r]], regs[r := 0]));
      } else {
        var regs2 := regs[r := regs[r] - (|exits| - j)];
        assert regs1[r := regs1[r] - (|exits| - (j + 1))] == regs2;
        ReachesJoin(p, Config(s + j, regs), 1, Config(s + j + 1, regs1), |exits| - (j + 1),
                    Config(last, regs2));
      }
    }
  }

  /** The division loop by a constant: quotients out, control on the remainder. */
  lemma {:induction false} DivModRuns(p: Program, f: Fold, regs: Regs) returns (k: nat)
    requires DivModLoop(p, f) && OpOk(f.op, |regs|)
    ensures k >= 1
    ensures Reaches(p, Config(f.start, regs), k,
                    Config(f.op.exits[regs[f.op.reg] % |f.op.exits|],
                           AddAll(regs, f.op.dsts, regs[f.op.reg] / |f.op.exits|)[f.op.reg := 0]))
    decreases regs[f.op.reg]
  {
    hide AddAll, Reaches, IncRun, Times, TakeChain;
    var s, r, es, ds := f.start, f.op.reg, f.op.exits, f.op.dsts;
    var v, n := regs[r], |es|;
    var last := if ds == [] then s else s + n;
    ChainRuns(p, s, r, es, last, 0, regs);
    DivStep(v, n);
    if v < n {
      AddAllNone(regs, ds, 0);
      k := v + 1;
    } else {
      var regs1 := regs[r := v - n];
      if ds == [] {
        AddAllNone(regs1, ds, 1);
        assert AddAll(regs1, ds, 1)[r] == v - n;
        assert Times(ds, r) == 0 by { NotInEmpty(r); }
      } else {
        RunAll(p, s + n, ds, s, r, regs1);
        ReachesJoin(p, Config(s, regs), n, Config(s + n, regs1), |ds|, Config(s, AddAll(regs1, ds, 1)));
      }
      AddAllSet(regs, ds, 1, r, v - n);
      var regs2 := AddAll(regs1, ds, 1);
      var k2 := DivModRuns(p, f, regs2);
      assert AddAll(regs2, ds, (v - n) / n)[r := 0] == AddAll(regs, ds, v / n)[r := 0] by {
        AddAllSet(AddAll(regs, ds, 1), ds, (v - n) / n, r, v - n);
        AddAllTwice(regs, ds, 1, (v - n) / n);
      }
      ReachesJoin(p, Config(s, regs), n + |ds|, Config(s, regs2), k2,
                  Config(es[v % n], AddAll(regs, ds, v / n)[r := 0]));
      k := n + |ds| + k2;
    }
  }

  lemma NotInEmpty(r: nat)
    ensures Times([], r) == 0
  {
  }

  lemma {:induction false} TimesWithout(rs: seq<nat>, t: nat, j: nat)
    ensures Times(Without(rs, t), j) == if j == t then 0 else Times(rs, j)
  {
    if rs != [] {
      TimesWithout(rs[1..], t, j);
      assert rs == [rs[0]] + rs[1..];
      assert Times(rs, j) == Times(rs[1..], j) + (if rs[0] == j then 1 else 0);
    }
  }

  /** Adding into a list that names `t` once is adding into the rest, and into `t`. */
  lemma AddAllWithout(regs: Regs, rs: seq<nat>, t: nat, v: nat)
    requires t < |regs| && Times(rs, t) == 1
    ensures AddAll(regs, rs, v) == AddAll(regs, Without(rs, t), v)[t := regs[t] + v]
  {
    var whole, rest := AddAll(regs, rs, v), AddAll(regs, Without(rs, t), v)[t := regs[t] + v];
    forall j | 0 <= j < |regs| ensures whole[j] == rest[j] {
      TimesWithout(rs, t, j);
    }
  }

  /** What the two transfers of a copy leave is the copy's one-move effect. */
  lemma CopyEffect(regs: Regs, s: nat, t: nat, all: seq<nat>, exit: nat)
    requires s < |regs| && t < |regs| && AllBelow(Without(all, t), |regs|)
    requires Times(all, s) == 0 && Times(all, t) == 1
    ensures var regs1 := AddAll(regs, all, regs[s])[s := 0];
            AddAll(regs1, [s], regs1[t])[t := 0] == Effect(Copy(s, t, Without(all, t), exit), regs)
  {
    hide AddAll, Times, Without;
    var rest, v := Without(all, t), regs[s];
    var regs1 := AddAll(regs, all, v)[s := 0];
    AddAllWithout(regs, all, t, v);
    TimesWithout(all, t, s);
    TimesWithout(all, t, t);
    AddAllSet(regs, rest, v, s, 0);
    AddAllSet(regs, rest, v, t, 0);
    AddAllCons(regs1, s, [], regs1[t]);
    AddAllNone(regs1[s := regs1[s] + regs1[t]], [], regs1[t]);
    assert [s] + [] == [s];
  }

  /** The non-destructive copy: out through a temporary and back. */
  lemma CopyRuns(p: Program, f: Fold, regs: Regs) returns (k: nat)
    requires CopyLoop(p, f) && OpOk(f.op, |regs|)
    requires AllBelow(RunRegs(p, f.start + 1, |f.op.dsts| + 1), |regs|)
    ensures k >= 1
    ensures Reaches(p, Config(f.start, regs), k, Config(f.op.exit, Effect(f.op, regs)))
  {
    hide AddAll, Reaches, Effect, Without, Times;
    var s, t, n := f.op.reg, f.op.t, |f.op.dsts| + 1;
    var mid := f.start + 1 + n;
    var all := RunRegs(p, f.start + 1, n);
    NotInRun(p, f.start + 1, n, f.start, s);
    var k1 := TransferRuns(p, f.start, s, mid, all, regs);
    var regs1 := AddAll(regs, all, regs[s])[s := 0];
    assert RunRegs(p, mid + 1, 1) == [s];
    SingleNot(s, t, all);
    var k2 := TransferRuns(p, mid, t, f.op.exit, [s], regs1);
    CopyEffect(regs, s, t, all, f.op.exit);
    ReachesJoin(p, Config(f.start, regs), k1, Config(mid, regs1), k2, Config(f.op.exit, Effect(f.op, regs)));
    k := k1 + k2;
  }

  lemma SingleNot(s: nat, t: nat, all: seq<nat>)
    requires Times(all, s) == 0 && Times(all, t) == 1
    ensures s != t
  {
  }

  // ---------------------------------------------------------------------------
  // Multiplication
  // ---------------------------------------------------------------------------

  lemma DistinctTimes(c: nat, s: nat, ds: seq<nat>, t: nat)
    requires Distinct([c, s] + ds + [t])
    ensures c != s && c != t && s != t
    ensures Times(ds, c) == 0 && Times(ds, s) == 0 && Times(ds, t) == 0 && Times(ds + [t], t) == 1
    ensures Without(ds + [t], t) == ds
  {
    var all := [c, s] + ds + [t];
    assert all[0] == c && all[1] == s && all[|ds| + 2] == t;
    forall j | 0 <= j < |ds| ensures ds[j] != c && ds[j] != s && ds[j] != t {
      assert all[j + 2] == ds[j];
    }
    assert c !in ds && s !in ds && t !in ds;
    WithoutLast(ds, t);
  }

  lemma {:induction false} WithoutLast(ds: seq<nat>, t: nat)
    requires t !in ds
    ensures Without(ds + [t], t) == ds
  {
    if ds == [] {
      assert ([t])[1..] == [];
    } else {
      assert (ds + [t])[1..] == ds[1..] + [t];
      WithoutLast(ds[1..], t);
    }
  }

  /** The bank after one round of the multiply loop. */
  function Round(regs: Regs, c: nat, s: nat, t: nat, ds: seq<nat>, pre: bool): (r: Regs)
    requires c < |regs| && s < |regs| && t < |regs| && regs[c] > 0
    ensures |r| == |regs|
  {
    AddAll(regs, ds, regs[s])
      [s := regs[s] + if pre then 0 else regs[t]][t := 0][c := regs[c] - 1]
  }

  lemma RoundTransfers(regs: Regs, s: nat, t: nat, ds: seq<nat>)
    requires s < |regs| && t < |regs| && s != t
    requires Times(ds, s) == 0 && Times(ds, t) == 0 && Times(ds + [t], t) == 1 && Without(ds + [t], t) == ds
    ensures var regs1 := AddAll(regs, ds + [t], regs[s])[s := 0];
            AddAll(regs1, [s], regs1[t])[t := 0]
            == AddAll(regs, ds, regs[s])[s := regs[s] + regs[t]][t := 0]
  {
    hide AddAll, Times, Without;
    var regs1 := AddAll(regs, ds + [t], regs[s])[s := 0];
    AddAllWithout(regs, ds + [t], t, regs[s]);
    AddAllSet(regs, ds, regs[s], s, 0);
    AddAllSet(regs, ds, regs[s], t, 0);
    AddAllCons(regs1, s, [], regs1[t]);
    AddAllNone(regs1[s := regs1[s] + regs1[t]], [], regs1[t]);
    assert [s] + [] == [s];
  }

  lemma AddAllSet3(regs: Regs, ds: seq<nat>, v: nat, a: nat, x: nat, b: nat, y: nat, c: nat, z: nat)
    requires a < |regs| && b < |regs| && c < |regs|
    requires Times(ds, a) == 0 && Times(ds, b) == 0 && Times(ds, c) == 0
    ensures AddAll(regs[a := x][b := y][c := z], ds, v) == AddAll(regs, ds, v)[a := x][b := y][c := z]
  {
    hide AddAll, Times;
    AddAllSet(regs, ds, v, a, x);
    AddAllSet(regs[a := x], ds, v, b, y);
    AddAllSet(regs[a := x][b := y], ds, v, c, z);
  }

  /** The closed form of the multiply loop with its operands made explicit. */
  lemma MulAddClosed(regs: Regs, c: nat, s: nat, t: nat, ds: seq<nat>, pre: bool, exit: nat)
    requires OpOk(MulAdd(c, s, t, ds, pre, exit), |regs|) && Distinct([c, s] + ds + [t]) && regs[c] > 0
    ensures Effect(MulAdd(c, s, t, ds, pre, exit), regs)
         == AddAll(regs, ds, if pre then regs[c] * regs[s] else regs[c] * regs[s] + (regs[c] - 1) * regs[t])
              [s := regs[s] + if pre then 0 else regs[t]][t := 0][c := 0]
  {
    hide AddAll, Times, Without;
    DistinctTimes(c, s, ds, t);
    var v := if pre then regs[c] * regs[s] else regs[c] * regs[s] + (regs[c] - 1) * regs[t];
    AddAllSet(regs, ds, v, s, regs[s] + if pre then 0 else regs[t]);
  }

  lemma RoundTotal(c: nat, s: nat, t: nat)
    requires c > 0
    ensures c > 1 ==> s + (c - 1) * s == c * s
    ensures c > 1 ==> s + ((c - 1) * (s + t) + (c - 2) * 0) == c * s + (c - 1) * t
    ensures c == 1 ==> s == c * s && s == c * s + (c - 1) * t
  {
  }

  /** A round changes nothing about what the whole loop will have done. */
  lemma RoundEffect(regs: Regs, c: nat, s: nat, t: nat, ds: seq<nat>, pre: bool, exit: nat)
    requires OpOk(MulAdd(c, s, t, ds, pre, exit), |regs|) && Distinct([c, s] + ds + [t]) && regs[c] > 0
    ensures var op := MulAdd(c, s, t, ds, pre, exit);
            Effect(op, Round(regs, c, s, t, ds, pre)) == Effect(op, regs)
  {
    hide AddAll, Times, Without, Distinct, Effect;
    DistinctTimes(c, s, ds, t);
    var op := MulAdd(c, s, t, ds, pre, exit);
    var regs1 := Round(regs, c, s, t, ds, pre);
    var (C, S, T) := (regs[c], regs[s], if pre then 0 else regs[t]);
    MulAddClosed(regs, c, s, t, ds, pre, exit);
    RoundTotal(C, S, T);
    if C == 1 {
      assert Effect(op, regs1) == regs1 by { MulAddIdle(op, regs1); }
    } else {
      MulAddClosed(regs1, c, s, t, ds, pre, exit);
      var v := if pre then (C - 1) * S else (C - 1) * (S + T) + (C - 2) * 0;
      AddAllSet3(AddAll(regs, ds, S), ds, v, s, S + T, t, 0, c, C - 1);
      AddAllTwice(regs, ds, S, v);
    }
  }

  lemma MulAddIdle(op: Op, regs: Regs)
    requires op.MulAdd? && OpOk(op, |regs|) && regs[op.reg] == 0
    ensures Effect(op, regs) == regs
  {
  }

  /** One round of the multiply loop, run raw. */
  lemma RoundRuns(p: Program, f: Fold, regs: Regs) returns (k: nat)
    requires MulAddLoop(p, f) && OpOk(f.op, |regs|) && regs[f.op.reg] > 0
    ensures k >= 1
    ensures Reaches(p, Config(f.start, regs), k,
                    Config(f.start, Round(regs, f.op.reg, f.op.s, f.op.t, f.op.dsts, f.op.preclear)))
  {
    hide AddAll, Reaches, Times, Without, Distinct, IncRunOf;
    var MulAdd(c, s, t, ds, pre, exit) := f.op;
    DistinctTimes(c, s, ds, t);
    var start := f.start;
    var head := if pre then start + 2 else start + 1;
    var restore := head + 1 + |ds| + 1;
    assert |ds + [t]| == |ds| + 1;
    var regs1 := regs[c := regs[c] - 1];
    Take(p, start, c, exit, start + 1, regs);
    k := 1;
    var regs2 := regs1;
    if pre {
      regs2 := regs1[t := 0];
      var k1 := ZeroRuns(p, start + 1, t, head, regs1);
      ReachesJoin(p, Config(start, regs), 1, Config(start + 1, regs1), k1, Config(head, regs2));
      k := 1 + k1;
    }
    assert Reaches(p, Config(start, regs), k, Config(head, regs2));
    assert AllBelow(ds + [t], |regs|);
    var k2 := TransferRuns(p, head, s, restore, ds + [t], regs2);
    var regs3 := AddAll(regs2, ds + [t], regs2[s])[s := 0];
    ReachesJoin(p, Config(start, regs), k, Config(head, regs2), k2, Config(restore, regs3));
    assert IncRunOf(p, restore + 1, restore, t, [s]) by {
      SingleRun(p, restore + 1, restore, t, s);
    }
    var k3 := TransferRuns(p, restore, t, start, [s], regs3);
    RoundTransfers(regs2, s, t, ds);
    ReachesJoin(p, Config(start, regs), k + k2, Config(restore, regs3), k3,
                Config(start, AddAll(regs3, [s], regs3[t])[t := 0]));
    k := k + k2 + k3;
    assert AddAll(regs3, [s], regs3[t])[t := 0] == Round(regs, c, s, t, ds, pre) by {
      AddAllSet(regs, ds, regs[s], c, regs[c] - 1);
      AddAllSet(regs1, ds, regs[s], t, 0);
    }
  }

  lemma SingleRun(p: Program, i: nat, back: nat, exclude: nat, r: nat)
    requires InstAt(p, i, Inc(r, back)) && r != exclude
    ensures IncRunOf(p, i, back, exclude, [r])
  {
    assert RunRegs(p, i, 1) == [r];
  }

  /** The multiply loop, with or without the per-round clear, run raw. */
  lemma {:induction false} MulAddRuns(p: Program, f: Fold, regs: Regs) returns (k: nat)
    requires MulAddLoop(p, f) && OpOk(f.op, |regs|)
    ensures k >= 1
    ensures Reaches(p, Config(f.start, regs), k, Config(f.op.exit, Effect(f.op, regs)))
    decreases regs[f.op.reg]
  {
    hide AddAll, Reaches, Times, Without, Effect, IncRunOf;
    var MulAdd(c, s, t, ds, pre, exit) := f.op;
    Take(p, f.start, c, exit, f.start + 1, regs);
    if regs[c] == 0 {
      MulAddIdle(f.op, regs);
      k := 1;
    } else {
      DistinctTimes(c, s, ds, t);
      var k1 := RoundRuns(p, f, regs);
      var regs1 := Round(regs, c, s, t, ds, pre);
      var k2 := MulAddRuns(p, f, regs1);
      RoundEffect(regs, c, s, t, ds, pre, exit);
      ReachesJoin(p, Config(f.start, regs), k1, Config(f.start, regs1), k2, Config(exit, Effect(f.op, regs)));
      k := k1 + k2;
    }
  }

  // ---------------------------------------------------------------------------
  // Division by a register
  // ---------------------------------------------------------------------------

  /** What the lockstep loop will leave, seen from its head: `d` beans of the divisor are
      still in `d` and the others already counted in `rem`. */
  function Divided(regs: Regs, r: nat, d: nat, rem: nat, q: nat, xs: seq<nat>): (res: Regs)
    requires r < |regs| && d < |regs| && rem < |regs| && q < |regs| && regs[d] + regs[rem] > 0
    ensures |res| == |regs|
  {
    var divisor, total := regs[d] + regs[rem], regs[rem] + regs[r];
    AddAll(regs, xs, regs[r])
      [q := regs[q] + total / divisor][r := 0]
      [d := divisor - total % divisor - 1][rem := total % divisor]
  }

  ghost predicate Roles(r: nat, d: nat, rem: nat, q: nat, xs: seq<nat>, run: seq<nat>) {
    && r != d && r != rem && r != q && d != rem && d != q && rem != q
    && Times(run, r) == 0 && Times(run, d) == 0 && Times(run, q) == 0 && Times(run, rem) == 1
    && Times(xs, r) == 0 && Times(xs, d) == 0 && Times(xs, q) == 0 && Times(xs, rem) == 0
    && xs == Without(run, rem)
  }

  lemma RolesDistinct(p: Program, f: Fold)
    requires DivBinLoop(p, f)
    ensures Roles(f.op.reg, f.op.p, f.op.rem, f.op.q, f.op.xs, RunRegs(p, f.start + 3, |f.op.xs| + 1))
  {
    var DivBin(r, d, rem, q, xs, exit) := f.op;
    var run := RunRegs(p, f.start + 3, |xs| + 1);
    var all := [r, d, q] + run;
    assert all[0] == r && all[1] == d && all[2] == q;
    assert rem in run;
    forall j | 0 <= j < |run| ensures run[j] != r && run[j] != d && run[j] != q {
      assert all[j + 3] == run[j];
    }
    assert r !in run && d !in run && q !in run;
    TimesWithout(run, rem, r);
    TimesWithout(run, rem, d);
    TimesWithout(run, rem, q);
    TimesWithout(run, rem, rem);
  }

  /** One bean from the divisor and one from the dividend. */
  lemma DividedPair(regs: Regs, r: nat, d: nat, rem: nat, q: nat, xs: seq<nat>, run: seq<nat>)
    requires r < |regs| && d < |regs| && rem < |regs| && q < |regs| && Roles(r, d, rem, q, xs, run)
    requires regs[d] > 0 && regs[r] > 0
    ensures var regs1 := AddAll(regs[d := regs[d] - 1][r := regs[r] - 1], run, 1);
            && regs1[r] == regs[r] - 1 && regs1[d] == regs[d] - 1 && regs1[rem] == regs[rem] + 1
            && Divided(regs1, r, d, rem, q, xs) == Divided(regs, r, d, rem, q, xs)
  {
    hide AddAll, Times, Without;
    var (R, D, M) := (regs[r], regs[d], regs[rem]);
    var regs0 := regs[d := D - 1][r := R - 1];
    AddAllWithout(regs0, run, rem, 1);
    AddAllSet3(regs, xs, 1, d, D - 1, r, R - 1, rem, M);
    assert regs[d := D - 1][r := R - 1][rem := M] == regs0;
    var regs1 := AddAll(regs, xs, 1)[d := D - 1][r := R - 1][rem := M + 1];
    assert AddAll(regs0, run, 1) == regs1;
    AddAllSet(regs, xs, 1, q, regs[q]);
    AddAllSet3(AddAll(regs, xs, 1), xs, R - 1, d, D - 1, r, R - 1, rem, M + 1);
    AddAllTwice(regs, xs, 1, R - 1);
  }

  /** The divisor ran dry: pour the count back and count one in the quotient. */
  lemma DividedRefill(regs: Regs, r: nat, d: nat, rem: nat, q: nat, xs: seq<nat>, run: seq<nat>)
    requires r < |regs| && d < |regs| && rem < |regs| && q < |regs| && Roles(r, d, rem, q, xs, run)
    requires regs[d] == 0 && regs[rem] > 0
    ensures var regs1 := regs[d := regs[rem]][rem := 0][q := regs[q] + 1];
            Divided(regs1, r, d, rem, q, xs) == Divided(regs, r, d, rem, q, xs)
  {
    hide AddAll, Times, Without;
    var (R, M) := (regs[r], regs[rem]);
    AddAllSet3(regs, xs, R, d, M, rem, 0, q, regs[q] + 1);
    DivStep(M + R, M);
  }

  /** The dividend ran dry. */
  lemma DividedDone(regs: Regs, r: nat, d: nat, rem: nat, q: nat, xs: seq<nat>)
    requires r < |regs| && d < |regs| && rem < |regs| && q < |regs|
    requires r != d && r != rem && r != q && d != rem && d != q && rem != q
    requires regs[d] > 0 && regs[r] == 0
    ensures Divided(regs, r, d, rem, q, xs) == regs[d := regs[d] - 1]
  {
    hide AddAll;
    AddAllNone(regs, xs, 0);
    DivStep(regs[rem], regs[d] + regs[rem]);
  }

  /** The three parts of the division loop, named. */
  ghost predicate DivBinCode(p: Program, head: nat, r: nat, d: nat, rem: nat, q: nat, run: seq<nat>, exit: nat) {
    var full := head + 2 + |run|;
    && InstAt(p, head, Deb(d, full, head + 1))
    && InstAt(p, head + 1, Deb(r, exit, head + 2))
    && IncRunOf(p, head + 2, head, r, run)
    && InstAt(p, full, Deb(rem, full + 2, full + 1))
    && InstAt(p, full + 1, Inc(d, full))
    && InstAt(p, full + 2, Inc(q, head))
  }

  lemma RefillRuns(p: Program, head: nat, r: nat, d: nat, rem: nat, q: nat, run: seq<nat>, exit: nat, regs: Regs)
    returns (k: nat)
    requires DivBinCode(p, head, r, d, rem, q, run, exit)
    requires r < |regs| && d < |regs| && rem < |regs| && q < |regs| && d != rem && q != rem && q != d
    requires regs[d] == 0
    ensures k >= 1
    ensures Reaches(p, Config(head, regs), k,
                    Config(head, regs[d := regs[rem]][rem := 0][q := regs[q] + 1]))
  {
    hide Reaches, AddAll, IncRunOf;
    var full := head + 2 + |run|;
    Take(p, head, d, full, head + 1, regs);
    SingleRun(p, full + 1, full, rem, d);
    var k1 := TransferRuns(p, full, rem, full + 2, [d], regs);
    var regs1 := regs[d := regs[rem]][rem := 0];
    assert AddAll(regs, [d], regs[rem])[rem := 0] == regs1 by {
      AddAllCons(regs, d, [], regs[rem]);
      AddAllNone(regs[d := regs[d] + regs[rem]], [], regs[rem]);
      assert [d] + [] == [d];
    }
    Give(p, full + 2, q, head, regs1);
    ReachesJoin(p, Config(head, regs), 1, Config(full, regs), k1, Config(full + 2, regs1));
    ReachesJoin(p, Config(head, regs), 1 + k1, Config(full + 2, regs1), 1,
                Config(head, regs1[q := regs1[q] + 1]));
    k := k1 + 2;
  }

  lemma {:induction false} DivideFrom(p: Program, head: nat, r: nat, d: nat, rem: nat, q: nat, xs: seq<nat>,
                                      run: seq<nat>, exit: nat, regs: Regs)
    returns (k: nat)
    requires DivBinCode(p, head, r, d, rem, q, run, exit) && Roles(r, d, rem, q, xs, run)
    requires r < |regs| && d < |regs| && rem < |regs| && q < |regs| && AllBelow(run, |regs|)
    requires regs[d] + regs[rem] > 0
    ensures k >= 1
    ensures Reaches(p, Config(head, regs), k, Config(exit, Divided(regs, r, d, rem, q, xs)))
    decreases regs[r], if regs[d] == 0 then 1 else 0
  {
    hide Reaches, AddAll, Times, Without, IncRunOf, Divided;
    var goal := Config(exit, Divided(regs, r, d, rem, q, xs));
    if regs[d] == 0 {
      var regs1 := regs[d := regs[rem]][rem := 0][q := regs[q] + 1];
      var k1 := RefillRuns(p, head, r, d, rem, q, run, exit, regs);
      DividedRefill(regs, r, d, rem, q, xs, run);
      var k2 := DivideFrom(p, head, r, d, rem, q, xs, run, exit, regs1);
      ReachesJoin(p, Config(head, regs), k1, Config(head, regs1), k2, goal);
      k := k1 + k2;
    } else {
      var full := head + 2 + |run|;
      var regs1 := regs[d := regs[d] - 1];
      Take(p, head, d, full, head + 1, regs);
      Take(p, head + 1, r, exit, head + 2, regs1);
      if regs[r] == 0 {
        DividedDone(regs, r, d, rem, q, xs);
        ReachesJoin(p, Config(head, regs), 1, Config(head + 1, regs1), 1, goal);
        k := 2;
      } else {
        var regs2 := regs1[r := regs[r] - 1];
        ReachesJoin(p, Config(head, regs), 1, Config(head + 1, regs1), 1, Config(head + 2, regs2));
        RunAll(p, head + 2, run, head, r, regs2);
        var regs3 := AddAll(regs2, run, 1);
        DividedPair(regs, r, d, rem, q, xs, run);
        ReachesJoin(p, Config(head, regs), 2, Config(head + 2, regs2), |run|, Config(head, regs3));
        var k2 := DivideFrom(p, head, r, d, rem, q, xs, run, exit, regs3);
        ReachesJoin(p, Config(head, regs), 2 + |run|, Config(head, regs3), k2, goal);
        k := 2 + |run| + k2;
      }
    }
  }

  lemma DivBinParts(p: Program, f: Fold)
    requires DivBinLoop(p, f)
    ensures DivBinCode(p, f.start + 1, f.op.reg, f.op.p, f.op.rem, f.op.q,
                       RunRegs(p, f.start + 3, |f.op.xs| + 1), f.op.exit)
  {
    hide Without, Times, Distinct;
    var run := RunRegs(p, f.start + 3, |f.op.xs| + 1);
    assert IncRunOf(p, f.start + 3, f.start + 1, f.op.reg, run);
  }

  lemma DividedAll(regs: Regs, r: nat, d: nat, rem: nat, q: nat, xs: seq<nat>, run: seq<nat>)
    requires r < |regs| && d < |regs| && rem < |regs| && q < |regs| && regs[d] > 0
    requires Roles(r, d, rem, q, xs, run)
    ensures Divided(regs[rem := 0], r, d, rem, q, xs) == DivBinEffect(regs, r, d, rem, q, xs)
  {
    hide AddAll, Times, Without;
    AddAllSet(regs, xs, regs[r], rem, 0);
    AddAllSet(regs, xs, regs[r], q, regs[q]);
  }

  /** Long division by the value of a register, run raw, when the divisor is not zero. */
  lemma DivBinRuns(p: Program, f: Fold, regs: Regs) returns (k: nat)
    requires DivBinLoop(p, f) && OpOk(f.op, |regs|) && regs[f.op.p] > 0
    requires AllBelow(RunRegs(p, f.start + 3, |f.op.xs| + 1), |regs|)
    ensures k >= 1
    ensures Reaches(p, Config(f.start, regs), k, Config(f.op.exit, Effect(f.op, regs)))
  {
    hide Reaches, AddAll, Times, Without, IncRunOf, Distinct, Divided, DivBinEffect, RunRegs;
    var DivBin(r, d, rem, q, xs, exit) := f.op;
    var run := RunRegs(p, f.start + 3, |xs| + 1);
    RolesDistinct(p, f);
    DivBinParts(p, f);
    var regs1 := regs[rem := 0];
    var k1 := ZeroRuns(p, f.start, rem, f.start + 1, regs);
    var k2 := DivideFrom(p, f.start + 1, r, d, rem, q, xs, run, exit, regs1);
    DividedAll(regs, r, d, rem, q, xs, run);
    ReachesJoin(p, Config(f.start, regs), k1, Config(f.start + 1, regs1), k2, Config(exit, Effect(f.op, regs)));
    k := k1 + k2;
  }

  /** With a zero divisor the raw nest runs forever, as the fold's spin does. */
  lemma DivBinForever(p: Program, f: Fold, regs: Regs)
    requires DivBinLoop(p, f) && OpOk(f.op, |regs|) && regs[f.op.p] == 0
    ensures Diverges(p, Config(f.start, regs))
  {
    hide Reaches, AddAll, Times, Without, IncRunOf, Distinct;
    var DivBin(r, d, rem, q, xs, exit) := f.op;
    var head := f.start + 1;
    RolesDistinct(p, f);
    DivBinParts(p, f);
    DryForever(p, head, r, d, rem, q, RunRegs(p, f.start + 3, |xs| + 1), exit, regs[rem := 0]);
    var k := ZeroRuns(p, f.start, rem, head, regs);
    DivergeBack(p, Config(f.start, regs), k, Config(head, regs[rem := 0]));
  }

  /** With both divisor and remainder empty the refill goes round for ever. */
  lemma DryForever(p: Program, head: nat, r: nat, d: nat, rem: nat, q: nat, run: seq<nat>, exit: nat, regs: Regs)
    requires DivBinCode(p, head, r, d, rem, q, run, exit)
    requires r < |regs| && d < |regs| && rem < |regs| && q < |regs| && d != rem && q != rem && q != d
    requires regs[d] == 0 && regs[rem] == 0
    ensures Diverges(p, Config(head, regs))
  {
    hide Reaches, IncRunOf, DivBinCode;
    var region := (c: Config) => c.pc == head && |c.regs| == |regs| && c.regs[d] == 0 && c.regs[rem] == 0;
    forall a | region(a) ensures MovesWithin(p, region, a) {
      var k := RefillRuns(p, head, r, d, rem, q, run, exit, a.regs);
      var b := Config(head, a.regs[d := a.regs[rem]][rem := 0][q := a.regs[q] + 1]);
      assert region(b) && Reaches(p, a, k, b);
    }
    forall k: nat, e ensures !HaltsIn(p, Config(head, regs), k, e) {
      ForeverWithin(p, region, Config(head, regs), k, e);
    }
  }

  // ---------------------------------------------------------------------------
  // All loops
  // ---------------------------------------------------------------------------

  lemma {:induction false} WithoutBelow(rs: seq<nat>, r: nat, n: nat)
    requires AllBelow(rs, n)
    ensures AllBelow(Without(rs, r), n)
  {
    if rs != [] {
      WithoutBelow(rs[1..], r, n);
    }
  }

  lemma RunBelow(p: Program, i: nat, n: nat, back: nat, exclude: nat, size: nat)
    requires IncRun(p, i, n, back, exclude) && ProgOk(p, size)
    ensures AllBelow(RunRegs(p, i, n), size)
  {
    forall j | 0 <= j < n ensures RunRegs(p, i, n)[j] < size {
      assert p[i + j].Inc?;
      assert OpOk(p[i + j], size);
    }
  }

  lemma DivBinOk(p: Program, f: Fold, n: nat)
    requires DivBinLoop(p, f) && ProgOk(p, n)
    ensures OpOk(f.op, n) && AllBelow(RunRegs(p, f.start + 3, |f.op.xs| + 1), n)
  {
    hide Times, Distinct, Without, ProgOk;
    var s, k := f.start, |f.op.xs| + 1;
    InstOk(p, s, n); InstOk(p, s + 1, n); InstOk(p, s + 2, n); InstOk(p, s + 3 + k + 2, n);
    RunBelow(p, s + 3, k, s + 1, f.op.reg, n);
    WithoutBelow(RunRegs(p, s + 3, k), f.op.rem, n);
  }

  lemma MulAddOk(p: Program, f: Fold, n: nat)
    requires MulAddLoop(p, f) && ProgOk(p, n)
    ensures OpOk(f.op, n)
  {
    hide Distinct, ProgOk;
    var head := if f.op.preclear then f.start + 2 else f.start + 1;
    var all := f.op.dsts + [f.op.t];
    InstOk(p, f.start, n); InstOk(p, head, n);
    RunBelow(p, head + 1, |all|, head, f.op.s, n);
    assert all[|f.op.dsts|] == f.op.t && forall j :: 0 <= j < |f.op.dsts| ==> f.op.dsts[j] == all[j];
  }

  lemma CopyOk(p: Program, f: Fold, n: nat)
    requires CopyLoop(p, f) && ProgOk(p, n)
    ensures OpOk(f.op, n) && AllBelow(RunRegs(p, f.start + 1, |f.op.dsts| + 1), n)
  {
    hide Times, Without, ProgOk;
    var k := |f.op.dsts| + 1;
    InstOk(p, f.start, n); InstOk(p, f.start + 1 + k, n);
    RunBelow(p, f.start + 1, k, f.start, f.op.reg, n);
    WithoutBelow(RunRegs(p, f.start + 1, k), f.op.t, n);
  }

  lemma DivModOk(p: Program, f: Fold, n: nat)
    requires DivModLoop(p, f) && ProgOk(p, n)
    ensures OpOk(f.op, n)
  {
    hide ProgOk;
    var k, ds := |f.op.exits|, f.op.dsts;
    assert p[f.start + 0] == Deb(f.op.reg, f.op.exits[0], f.start + 1);
    InstOk(p, f.start, n);
    if ds != [] {
      RunBelow(p, f.start + k, |ds|, f.start, f.op.reg, n);
    }
  }

  /** A fold names only registers its raw code names. */
  lemma ShapeOk(p: Program, f: Fold, n: nat)
    requires LoopShape(p, f) && ProgOk(p, n)
    ensures OpOk(f.op, n)
  {
    hide Times, Distinct, Without, RunRegs, ProgOk, DivBinLoop, MulAddLoop, CopyLoop, DivModLoop;
    match f.op
    case DivBin(_, _, _, _, _, _) => DivBinOk(p, f, n);
    case MulAdd(_, _, _, _, _, _) => MulAddOk(p, f, n);
    case Copy(_, _, _, _) => CopyOk(p, f, n);
    case DivMod(_, _, _) => DivModOk(p, f, n);
    case Transfer(a, ds, exit) =>
      InstOk(p, f.start, n);
      RunBelow(p, f.start + 1, |ds|, f.start, a, n);
    case IsZero(_, _, _) => InstOk(p, f.start, n);
    case Zero(_, _) => InstOk(p, f.start, n);
  }

  lemma InstOk(p: Program, i: nat, n: nat)
    requires ProgOk(p, n) && i < |p|
    ensures OpOk(p[i], n)
  {
  }

  /** The one-move effect of a fold is where its raw loop ends up; a division by an empty
      bin is the exception, where neither side ever halts. */
  lemma FoldRuns(p: Program, f: Fold, regs: Regs) returns (k: nat)
    requires LoopShape(p, f) && ProgOk(p, |regs|)
    ensures OpOk(f.op, |regs|)
    ensures f.op.DivBin? && regs[f.op.p] == 0 ==> Diverges(p, Config(f.start, regs))
    ensures !(f.op.DivBin? && regs[f.op.p] == 0) ==>
              k >= 1 && Reaches(p, Config(f.start, regs), k,
                                Config(Target(f.op, f.start, regs), Effect(f.op, regs)))
  {
    hide Reaches, Times, Distinct, Without, RunRegs, AddAll, ProgOk, Diverges;
    hide DivBinLoop, MulAddLoop, CopyLoop, DivModLoop;
    ShapeOk(p, f, |regs|);
    match f.op
    case DivBin(r, d, rem, q, xs, exit) =>
      DivBinOk(p, f, |regs|);
      if regs[d] == 0 {
        DivBinForever(p, f, regs);
        k := 0;
      } else {
        k := DivBinRuns(p, f, regs);
      }
    case MulAdd(_, _, _, _, _, _) =>
      k := MulAddRuns(p, f, regs);
    case Copy(_, _, _, _) =>
      CopyOk(p, f, |regs|);
      k := CopyRuns(p, f, regs);
    case Transfer(a, ds, exit) =>
      k := TransferRuns(p, f.start, a, exit, ds, regs);
    case DivMod(_, _, _) =>
      k := DivModRuns(p, f, regs);
    case IsZero(_, _, _) =>
      k := IsZeroRuns(p, f, regs);
    case Zero(r, exit) =>
      k := ZeroRuns(p, f.start, r, exit, regs);
  }
}
