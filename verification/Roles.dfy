/** The optimizer's promise to the run time: the registers a folded operation reads are never
    among the ones it overwrites first, so an interpreter may work through the operands in
    place, handing replaced limbs back to the allocator as it goes. */
module Roles {
  import opened Machine
  import opened Loops
  import opened Passes
  import opened Folding
  import opened Renumbering
  import opened Threading
  import opened Optimizer

  predicate RolesApart(op: Op) {
    match op
    case Transfer(r, ds, _) => r !in ds
    case DivMod(r, ds, es) => r !in ds && |es| <= MAX_DESTS
    case MulAdd(c, s, t, ds, _, _) => c != s && c != t && s != t && c !in ds && s !in ds && t !in ds
    case Copy(s, t, ds, _) => s != t && s !in ds && t !in ds
    case DivBin(r, p, rem, q, xs, _) =>
      && r != p && r != rem && r != q && p != rem && p != q && rem != q
      && r !in xs && p !in xs && rem !in xs && q !in xs
    case _ => true
  }

  /** Every operation names existing registers in distinct roles. */
  ghost predicate Runnable(p: Program, n: nat) {
    forall i :: 0 <= i < |p| ==> OpOk(p[i], n) && RolesApart(p[i])
  }

  lemma RunnableOk(p: Program, n: nat)
    requires Runnable(p, n)
    ensures ProgOk(p, n)
  {
    hide OpOk, RolesApart;
  }

  lemma TransferRoles(p: Program, f: Fold)
    requires TransferLoop(p, f)
    ensures RolesApart(f.op)
  {
    NotInRun(p, f.start + 1, |f.op.dsts|, f.start, f.op.reg);
  }

  lemma DivModRoles(p: Program, f: Fold)
    requires DivModLoop(p, f)
    ensures RolesApart(f.op)
  {
    hide RunRegs, TakeChain;
    var DivMod(r, ds, es) := f.op;
    if ds != [] {
      NotInRun(p, f.start + |es|, |ds|, f.start, r);
    }
  }

  lemma NotIn(rs: seq<nat>, r: nat)
    requires Times(rs, r) == 0
    ensures r !in rs
  {
  }

  lemma {:induction false} WithoutGone(rs: seq<nat>, t: nat)
    ensures t !in Without(rs, t)
  {
    if rs != [] {
      WithoutGone(rs[1..], t);
    }
  }

  lemma CopyRoles(p: Program, f: Fold)
    requires CopyLoop(p, f)
    ensures RolesApart(f.op)
  {
    hide RunRegs, Without, Times;
    var Copy(s, t, ds, _) := f.op;
    var run := RunRegs(p, f.start + 1, |ds| + 1);
    NotInRun(p, f.start + 1, |ds| + 1, f.start, s);
    NotIn(run, s);
    TimesIn(run, t);
    WithoutGone(run, t);
    if s in ds {
      WithoutIn(run, t, s);
    }
  }

  lemma MulAddRoles(p: Program, f: Fold)
    requires MulAddLoop(p, f)
    ensures RolesApart(f.op)
  {
    hide RunRegs, IncRun;
    var MulAdd(c, s, t, ds, _, _) := f.op;
    var all := [c, s] + ds + [t];
    assert all[0] == c && all[1] == s && all[2 + |ds|] == t;
    forall i | 0 <= i < |ds| ensures ds[i] != c && ds[i] != s && ds[i] != t {
      assert all[2 + i] == ds[i];
    }
  }

  lemma DivBinRoles(p: Program, f: Fold)
    requires DivBinLoop(p, f)
    ensures RolesApart(f.op)
  {
    hide RunRegs, Without, Times;
    var DivBin(r, d, rem, q, xs, _) := f.op;
    var run := RunRegs(p, f.start + 3, |xs| + 1);
    var all := [r, d, q] + run;
    assert all[0] == r && all[1] == d && all[2] == q;
    forall x | x in run ensures x != r && x != d && x != q {
      var i :| 0 <= i < |run| && run[i] == x;
      assert all[3 + i] == x;
    }
    TimesIn(run, rem);
    WithoutGone(run, rem);
    forall x | x in xs ensures x in run {
      WithoutIn(run, rem, x);
    }
  }

  /** Whatever a detector accepts has its roles on distinct registers. */
  lemma ShapeRoles(p: Program, f: Fold)
    requires LoopShape(p, f)
    ensures RolesApart(f.op)
  {
    hide TransferLoop, DivModLoop, CopyLoop, MulAddLoop, DivBinLoop;
    match f.op
    case DivBin(_, _, _, _, _, _) => DivBinRoles(p, f);
    case MulAdd(_, _, _, _, _, _) => MulAddRoles(p, f);
    case Copy(_, _, _, _) => CopyRoles(p, f);
    case Transfer(_, _, _) => TransferRoles(p, f);
    case DivMod(_, _, _) => DivModRoles(p, f);
    case _ =>
  }

  lemma RawRunnable(p: Program, n: nat)
    requires IsRaw(p) && ProgOk(p, n)
    ensures Runnable(p, n)
  {
    forall i | 0 <= i < |p| ensures OpOk(p[i], n) && RolesApart(p[i]) {
      assert IsRawOp(p[i]);
    }
  }

  lemma RetargetRunnable(op: Op, ts: seq<nat>, n: nat)
    requires OpOk(op, n) && RolesApart(op) && |ts| == |Targets(op)|
    ensures OpOk(WithTargets(op, ts), n) && RolesApart(WithTargets(op, ts))
  {
  }

  lemma FoldedRunnable(p: Program, folds: seq<Fold>, n: nat, i: nat)
    requires IsRaw(p) && ProgOk(p, n) && Laid(p, folds) && i < |p|
    ensures OpOk(FoldedOps(p, folds)[i], n) && RolesApart(FoldedOps(p, folds)[i])
  {
    hide LoopShape, OpOk, Private;
    if Starts(folds, i) {
      var j :| 0 <= j < |folds| && folds[j].start == i;
      FoldedAt(p, folds, j);
      assert GoodFold(p, folds[j]);
      ShapeOk(p, folds[j], n);
      ShapeRoles(p, folds[j]);
    } else {
      RawRunnable(p, n);
    }
  }

  lemma RenumberedRunnable(ops: Program, vis: seq<bool>, m: seq<nat>, q: Program, n: nat)
    requires Renumbered(ops, vis, m, q) && Runnable(ops, n)
    ensures Runnable(q, n)
  {
    hide OpOk, RolesApart, RetargetBy;
    forall k | 0 <= k < |q| ensures OpOk(q[k], n) && RolesApart(q[k]) {
      var i := Unrank(vis, |vis|, k);
      RetargetedRunnable(ops[i], m, n);
    }
  }

  lemma RetargetedRunnable(op: Op, m: seq<nat>, n: nat)
    requires OpOk(op, n) && RolesApart(op)
    ensures OpOk(RetargetBy(op, m), n) && RolesApart(RetargetBy(op, m))
  {
    RetargetRunnable(op, Remap(m, Targets(op)), n);
  }

  lemma ThreadedRunnable(p: Program, q: Program, nil: nat, n: nat)
    requires Threaded(p, q, nil) && Runnable(p, n)
    ensures Runnable(q, n)
  {
    hide Targets, WithTargets, Follows, OpOk, RolesApart;
    forall i | 0 <= i < |q| ensures OpOk(q[i], n) && RolesApart(q[i]) {
      assert ThreadedOp(p, nil, p[i], q[i]);
      RetargetRunnable(p[i], Targets(q[i]), n);
    }
  }

  /** Everything the optimizer emits can be run in place. */
  lemma OptimizedRunnable(p: Program, isDev: seq<bool>, nil: nat, q: Program, n: nat)
    requires IsRaw(p) && ProgOk(p, n) && Optimized(p, isDev, nil, q)
    ensures Runnable(q, n)
  {
    hide Greedy, Renumbered, ProgOk, FoldedOps, VisibleOf, Threaded, Laid, OpOk, RolesApart, ReachSet;
    var folds: seq<Fold>, m: seq<nat>, remapped: Program :|
      && Greedy(p, isDev, folds, |p|)
      && Renumbered(FoldedOps(p, folds), VisibleOf(p, folds), m, remapped)
      && Pruned(ThreadFrom(remapped, nil, 0), q);
    var ops := FoldedOps(p, folds);
    GreedyLaid(p, isDev, folds);
    forall i | 0 <= i < |ops| ensures OpOk(ops[i], n) && RolesApart(ops[i]) {
      FoldedRunnable(p, folds, n, i);
    }
    RenumberedRunnable(ops, VisibleOf(p, folds), m, remapped, n);
    ThreadedSelf(remapped, nil);
    ThreadFromThreaded(remapped, remapped, nil, 0);
    var threaded := ThreadFrom(remapped, nil, 0);
    ThreadedRunnable(remapped, threaded, nil, n);
    var keep: seq<nat> :| Renumbered(threaded, ReachSet(threaded), keep, q);
    RenumberedRunnable(threaded, ReachSet(threaded), keep, q, n);
  }

  // ---------------------------------------------------------------------------
  // Jumps stay inside the program
  // ---------------------------------------------------------------------------

  /** Every jump lands on an instruction. */
  predicate Landed(p: Program) {
    |p| > 0 && forall i :: 0 <= i < |p| ==> AllBelow(Targets(p[i]), |p|)
  }

  lemma RenumberedLanded(ops: Program, vis: seq<bool>, m: seq<nat>, q: Program)
    requires Closed(ops, vis) && Renumbered(ops, vis, m, q) && |ops| > 0
    requires forall i :: 0 <= i < |ops| && vis[i] ==> AllBelow(Targets(ops[i]), |ops|)
    ensures Landed(q)
  {
    hide Targets, WithTargets, Closed;
    ClosedStart(ops, vis);
    RankBelow(vis, 0, |vis|);
    forall j, k | 0 <= j < |q| && 0 <= k < |Targets(q[j])| ensures Targets(q[j])[k] < |q| {
      var i := Unrank(vis, |vis|, j);
      TargetsKept(ops[i], Remap(m, Targets(ops[i])));
      ClosedAt(ops, vis, i, k);
    }
  }

  lemma ClosedStart(ops: Program, vis: seq<bool>)
    requires Closed(ops, vis) && |ops| > 0
    ensures vis[0]
  {
  }

  lemma {:induction false} PathLanded(p: Program, nil: nat, a: nat, b: nat, h: nat)
    requires Landed(p) && a < |p| && NilPath(p, nil, a, b, h)
    ensures b < |p|
    decreases h
  {
    if h > 0 {
      assert AllBelow(Targets(p[a]), |p|);
      assert Targets(p[a])[1] == p[a].onZero;
      PathLanded(p, nil, p[a].onZero, b, h - 1);
    }
  }

  lemma ThreadedLanded(p: Program, q: Program, nil: nat)
    requires Threaded(p, q, nil) && Landed(p)
    ensures Landed(q)
  {
    hide Targets, WithTargets, NilPath;
    forall i, k | 0 <= i < |q| && 0 <= k < |Targets(q[i])| ensures Targets(q[i])[k] < |q| {
      assert ThreadedOp(p, nil, p[i], q[i]);
      assert AllBelow(Targets(p[i]), |p|);
      var h: nat :| NilPath(p, nil, Targets(p[i])[k], Targets(q[i])[k], h);
      PathLanded(p, nil, Targets(p[i])[k], Targets(q[i])[k], h);
    }
  }

  lemma FoldedLanded(p: Program, folds: seq<Fold>, i: nat)
    requires Landed(p) && Laid(p, folds) && i < |p|
    ensures AllBelow(Targets(FoldedOps(p, folds)[i]), |p|)
  {
    hide LoopShape, Private, Targets;
    if Starts(folds, i) {
      var j :| 0 <= j < |folds| && folds[j].start == i;
      FoldedAt(p, folds, j);
      var f := folds[j];
      assert GoodFold(p, f);
      forall k | 0 <= k < |Targets(f.op)| ensures Targets(f.op)[k] < |p| {
        var r := ExitIsRawTarget(p, f, k);
        assert AllBelow(Targets(p[r]), |p|);
      }
    }
  }

  /** What the optimizer makes of a program whose jumps all land is again one. */
  lemma OptimizedLanded(p: Program, isDev: seq<bool>, nil: nat, q: Program)
    requires Landed(p) && Optimized(p, isDev, nil, q)
    ensures Landed(q)
  {
    hide Greedy, Renumbered, FoldedOps, VisibleOf, Threaded, Laid, ReachSet, Closed, FoldsTo;
    var folds: seq<Fold>, m: seq<nat>, remapped: Program :|
      && Greedy(p, isDev, folds, |p|)
      && Renumbered(FoldedOps(p, folds), VisibleOf(p, folds), m, remapped)
      && Pruned(ThreadFrom(remapped, nil, 0), q);
    var ops, vis := FoldedOps(p, folds), VisibleOf(p, folds);
    GreedyLaid(p, isDev, folds);
    FoldedOpsFold(p, folds);
    FoldedClosed(p, folds, ops, vis);
    forall i | 0 <= i < |ops| ensures AllBelow(Targets(ops[i]), |ops|) {
      FoldedLanded(p, folds, i);
    }
    RenumberedLanded(ops, vis, m, remapped);
    ThreadedSelf(remapped, nil);
    ThreadFromThreaded(remapped, remapped, nil, 0);
    var threaded := ThreadFrom(remapped, nil, 0);
    ThreadedLanded(remapped, threaded, nil);
    var keep: seq<nat> :| Renumbered(threaded, ReachSet(threaded), keep, q);
    ReachClosed(threaded);
    RenumberedLanded(threaded, ReachSet(threaded), keep, q);
  }
}
