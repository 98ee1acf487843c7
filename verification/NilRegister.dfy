/** What optimizing does when the no-op register does not start empty.  Threading deletes
    takes of it, so its own final value changes; nothing else does, as long as every take of
    it goes to one place whether it finds a bean or not. */
module NilRegister {
  import opened Machine
  import opened Loops
  import opened Passes
  import opened Folding
  import opened Renumbering
  import opened Threading
  import opened Detect
  import opened Optimizer

  /** Every take of `nil` goes to the same place with and without a bean. */
  ghost predicate Plain(p: Program, nil: nat) {
    forall i :: 0 <= i < |p| && p[i].Deb? && p[i].reg == nil ==> p[i].onZero == p[i].onTake
  }

  /** The value of `r` decides where the operation goes or what it puts into another register. */
  predicate Reads(op: Op, r: nat) {
    match op
    case Deb(x, a, b) => x == r && a != b
    case IsZero(x, _, _) => x == r
    case Transfer(x, _, _) => x == r
    case DivMod(x, _, _) => x == r
    case MulAdd(c, s, t, _, _, _) => c == r || s == r || t == r
    case Copy(s, t, _, _) => s == r || t == r
    case DivBin(x, p, _, _, _, _) => x == r || p == r
    case _ => false
  }

  ghost predicate Unread(p: Program, r: nat) {
    forall i :: 0 <= i < |p| ==> !Reads(p[i], r)
  }

  /** The same bank but for `r`, where `b` holds at least as much. */
  ghost predicate Under(a: Regs, b: Regs, r: nat) {
    && |a| == |b|
    && (forall j :: 0 <= j < |a| && j != r ==> a[j] == b[j])
    && (r < |a| ==> a[r] <= b[r])
  }

  // ---------------------------------------------------------------------------
  // An operation that does not read a register
  // ---------------------------------------------------------------------------

  lemma AddUnder(a: Regs, b: Regs, r: nat, dsts: seq<nat>, v: nat)
    requires Under(a, b, r)
    ensures Under(AddAll(a, dsts, v), AddAll(b, dsts, v), r)
  {
  }

  lemma MulAddUnder(op: Op, r: nat, a: Regs, b: Regs)
    requires op.MulAdd? && OpOk(op, |a|) && !Reads(op, r) && Under(a, b, r)
    ensures Under(Effect(op, a), Effect(op, b), r)
  {
    hide AddAll;
    var MulAdd(c, s, t, ds, pre, _) := op;
    if a[c] > 0 {
      var u, v := a[c] * a[s], (a[c] - 1) * a[t];
      AddUnder(a, b, r, ds, u);
      AddUnder(a[s := a[s] + a[t]], b[s := a[s] + a[t]], r, ds, u + v);
    }
  }

  lemma DivBinUnder(op: Op, r: nat, a: Regs, b: Regs)
    requires op.DivBin? && OpOk(op, |a|) && !Reads(op, r) && Under(a, b, r)
    ensures Under(Effect(op, a), Effect(op, b), r)
  {
    hide AddAll;
    if a[op.p] > 0 {
      AddUnder(a, b, r, op.xs, a[op.reg]);
    }
  }

  lemma FanOutUnder(op: Op, r: nat, a: Regs, b: Regs)
    requires (op.Transfer? || op.DivMod?) && OpOk(op, |a|) && !Reads(op, r) && Under(a, b, r)
    ensures Under(Effect(op, a), Effect(op, b), r)
  {
    hide AddAll;
    if op.Transfer? {
      AddUnder(a, b, r, op.dsts, a[op.reg]);
    } else {
      AddUnder(a, b, r, op.dsts, a[op.reg] / |op.exits|);
    }
  }

  lemma CopyUnder(op: Op, r: nat, a: Regs, b: Regs)
    requires op.Copy? && OpOk(op, |a|) && !Reads(op, r) && Under(a, b, r)
    ensures Under(Effect(op, a), Effect(op, b), r)
  {
    hide AddAll;
    AddUnder(a, b, r, op.dsts, a[op.reg]);
  }

  lemma SingleUnder(op: Op, r: nat, a: Regs, b: Regs)
    requires IsRawOp(op) || op.Zero? || op.IsZero?
    requires OpOk(op, |a|) && !Reads(op, r) && Under(a, b, r)
    ensures Under(Effect(op, a), Effect(op, b), r)
  {
  }

  /** Banks that differ only in a register the operation does not read go on to differ only
      there. */
  lemma EffectUnder(op: Op, r: nat, a: Regs, b: Regs)
    requires OpOk(op, |a|) && !Reads(op, r) && Under(a, b, r)
    ensures Under(Effect(op, a), Effect(op, b), r)
  {
    hide Effect, Reads;
    match op
    case Transfer(_, _, _) => FanOutUnder(op, r, a, b);
    case DivMod(_, _, _) => FanOutUnder(op, r, a, b);
    case MulAdd(_, _, _, _, _, _) => MulAddUnder(op, r, a, b);
    case Copy(_, _, _, _) => CopyUnder(op, r, a, b);
    case DivBin(_, _, _, _, _, _) => DivBinUnder(op, r, a, b);
    case _ => SingleUnder(op, r, a, b);
  }

  /** They also go to the same place. */
  lemma PickUnder(op: Op, r: nat, a: Regs, b: Regs)
    requires OpOk(op, |a|) && !op.End? && !Reads(op, r) && Under(a, b, r)
    ensures Spins(op, a) <==> Spins(op, b)
    ensures Targets(op)[Pick(op, a)] == Targets(op)[Pick(op, b)]
  {
  }

  // ---------------------------------------------------------------------------
  // Threading, from any bank
  // ---------------------------------------------------------------------------

  /** A path of plain takes runs from any bank and touches nothing but `nil`. */
  lemma {:induction false} PlainPathRuns(p: Program, nil: nat, a: nat, b: nat, h: nat, regs: Regs)
    returns (after: Regs)
    requires NilPath(p, nil, a, b, h) && ProgOk(p, |regs|) && Unread(p, nil)
    ensures Reaches(p, Config(a, regs), h, Config(b, after)) && Under(after, regs, nil)
    decreases h
  {
    if h == 0 {
      after := regs;
    } else {
      assert OpOk(p[a], |regs|) && !Reads(p[a], nil);
      var next := Next(p, Config(a, regs));
      assert Under(next.regs, regs, nil) && next.pc == p[a].onZero;
      after := PlainPathRuns(p, nil, p[a].onZero, b, h - 1, next.regs);
    }
  }

  ghost predicate ButNil(n: nat, nil: nat, c: Config, d: Config) {
    c.pc == d.pc && |c.regs| == n && Under(c.regs, d.regs, nil)
  }

  ghost predicate SameBut(p: Program, q: Program, nil: nat, c: Config, d: Config) {
    Under(c.regs, d.regs, nil) && (c.pc >= |p| <==> d.pc >= |q|)
  }

  lemma UnderTrans(a: Regs, b: Regs, c: Regs, r: nat)
    requires Under(a, b, r) && Under(b, c, r)
    ensures Under(a, c, r)
  {
  }

  lemma ButNilMatches(p: Program, q: Program, n: nat, nil: nat, c: Config, d: Config)
    requires ProgOk(p, n) && Unread(p, nil) && Threaded(p, q, nil) && ButNil(n, nil, c, d)
    ensures Matches(p, q, (c, d) => ButNil(n, nil, c, d), (c, d) => SameBut(p, q, nil, c, d), c, d)
  {
    hide Effect, Target, Targets, WithTargets, OpOk, Spins, Pick, Reads, NilPath, Threaded, Under;
    var rel := (c, d) => ButNil(n, nil, c, d);
    var out := (c, d) => SameBut(p, q, nil, c, d);
    ThreadedAt(p, q, nil, c.pc);
    UnderSize(c.regs, d.regs, nil);
    if Stopped(q, d) {
      assert HaltsIn(p, c, 0, c);
      assert out(c, d);
    } else {
      var op, op' := p[c.pc], q[c.pc];
      assert OpOk(op, n) && !Reads(op, nil);
      TargetPicked(op, c.pc, c.regs);
      Retargeted(op, Targets(op'), c.pc, d.regs);
      EffectUnder(op, nil, c.regs, d.regs);
      PickUnder(op, nil, c.regs, d.regs);
      var e, c1 := Next(q, d), Next(p, c);
      assert Reaches(p, c, 1, c1) by {
        assert Reaches(p, c1, 0, c1);
      }
      if Spins(op, c.regs) {
        assert rel(c1, e);
        assert Advances(p, c, rel, e);
      } else {
        var k := Pick(op, d.regs);
        var h: nat :| NilPath(p, nil, Targets(op)[k], Targets(op')[k], h);
        var after := PlainPathRuns(p, nil, c1.pc, e.pc, h, c1.regs);
        UnderTrans(after, c1.regs, e.regs, nil);
        UnderSize(after, e.regs, nil);
        ReachesJoin(p, c, 1, c1, h, Config(e.pc, after));
        assert rel(Config(e.pc, after), e);
        assert Advances(p, c, rel, e);
      }
    }
  }

  lemma UnderSize(a: Regs, b: Regs, r: nat)
    requires Under(a, b, r)
    ensures |a| == |b|
  {
  }

  lemma UnderSelf(a: Regs, r: nat)
    ensures Under(a, a, r)
  {
  }

  lemma ButNilSimulates(p: Program, q: Program, n: nat, nil: nat)
    requires ProgOk(p, n) && Unread(p, nil) && Threaded(p, q, nil)
    ensures Simulates(p, q, (c, d) => ButNil(n, nil, c, d), (c, d) => SameBut(p, q, nil, c, d))
  {
    hide Threaded, ProgOk, Unread, Matches, ButNil, SameBut;
    var rel := (c, d) => ButNil(n, nil, c, d);
    var out := (c, d) => SameBut(p, q, nil, c, d);
    forall c, d | rel(c, d) ensures Matches(p, q, rel, out, c, d) {
      ButNilMatches(p, q, n, nil, c, d);
    }
  }

  // ---------------------------------------------------------------------------
  // Same outcome but for one register
  // ---------------------------------------------------------------------------

  ghost predicate HaltsByBut(q: Program, regs: Regs, k: nat, res: Regs, nil: nat, fell: bool) {
    exists m: nat, res' :: m <= k && Under(res, res', nil) && Halts(q, regs, m, res', fell)
  }

  ghost predicate HaltsFromBut(p: Program, regs: Regs, k: nat, res: Regs, nil: nat, fell: bool) {
    exists m: nat, res' :: m >= k && Under(res', res, nil) && Halts(p, regs, m, res', fell)
  }

  /** On every bank of `n` registers, whatever `nil` holds, `q` halts exactly when `p` does,
      after no more moves, with the same value in every register but `nil`, which may have
      kept more. */
  ghost predicate RefinesBut(p: Program, q: Program, n: nat, nil: nat) {
    forall regs, k: nat, res, fell | |regs| == n ::
      && (Halts(p, regs, k, res, fell) ==> HaltsByBut(q, regs, k, res, nil, fell))
      && (Halts(q, regs, k, res, fell) ==> HaltsFromBut(p, regs, k, res, nil, fell))
  }

  lemma ThreadRefinesBut(p: Program, q: Program, n: nat, nil: nat)
    requires ProgOk(p, n) && Unread(p, nil) && Threaded(p, q, nil)
    ensures RefinesBut(p, q, n, nil)
  {
    hide Reaches, HaltsIn, Simulates, Threaded, ProgOk, Unread, Under;
    var rel := (c, d) => ButNil(n, nil, c, d);
    var out := (c, d) => SameBut(p, q, nil, c, d);
    ButNilSimulates(p, q, n, nil);
    forall regs, k: nat, res, fell | |regs| == n
      ensures Halts(p, regs, k, res, fell) ==> HaltsByBut(q, regs, k, res, nil, fell)
      ensures Halts(q, regs, k, res, fell) ==> HaltsFromBut(p, regs, k, res, nil, fell)
    {
      var c := Config(0, regs);
      UnderSelf(regs, nil);
      assert rel(c, c);
      if Halts(p, regs, k, res, fell) {
        var c' :| HaltsIn(p, c, k, c') && c'.regs == res && fell == (c'.pc >= |p|);
        var m, d' := SlowHalts(p, q, rel, out, c, c, k, c');
        assert Halts(q, regs, m, d'.regs, fell);
      }
      if Halts(q, regs, k, res, fell) {
        var d' :| HaltsIn(q, c, k, d') && d'.regs == res && fell == (d'.pc >= |q|);
        var m, c' := FastHalts(p, q, rel, out, c, c, k, d');
        assert Halts(p, regs, m, c'.regs, fell);
      }
    }
  }

  lemma RefinesButAt(p: Program, q: Program, n: nat, nil: nat, regs: Regs, k: nat, res: Regs, fell: bool)
    requires RefinesBut(p, q, n, nil) && |regs| == n
    ensures Halts(p, regs, k, res, fell) ==> HaltsByBut(q, regs, k, res, nil, fell)
    ensures Halts(q, regs, k, res, fell) ==> HaltsFromBut(p, regs, k, res, nil, fell)
  {
    hide Halts, HaltsByBut, HaltsFromBut;
  }

  lemma JoinBy(p: Program, r: Program, t: Program, q: Program, n: nat, nil: nat, regs: Regs, k: nat,
               res: Regs, fell: bool)
    requires Refines(p, r, n, n) && RefinesBut(r, t, n, nil) && Refines(t, q, n, n)
    requires |regs| == n && Halts(p, regs, k, res, fell)
    ensures HaltsByBut(q, regs, k, res, nil, fell)
  {
    hide Halts, Refines, RefinesBut, Under;
    RefinesAt(p, r, n, n, regs, k, res, fell);
    var a: nat :| a <= k && Halts(r, regs, a, res, fell);
    RefinesButAt(r, t, n, nil, regs, a, res, fell);
    var b: nat, res' :| b <= a && Under(res, res', nil) && Halts(t, regs, b, res', fell);
    RefinesAt(t, q, n, n, regs, b, res', fell);
  }

  lemma JoinFrom(p: Program, r: Program, t: Program, q: Program, n: nat, nil: nat, regs: Regs, k: nat,
                 res: Regs, fell: bool)
    requires Refines(p, r, n, n) && RefinesBut(r, t, n, nil) && Refines(t, q, n, n)
    requires |regs| == n && Halts(q, regs, k, res, fell)
    ensures HaltsFromBut(p, regs, k, res, nil, fell)
  {
    hide Halts, Refines, RefinesBut, Under;
    RefinesAt(t, q, n, n, regs, k, res, fell);
    var a: nat :| a >= k && Halts(t, regs, a, res, fell);
    RefinesButAt(r, t, n, nil, regs, a, res, fell);
    var b: nat, res' :| b >= a && Under(res', res, nil) && Halts(r, regs, b, res', fell);
    RefinesAt(p, r, n, n, regs, b, res', fell);
  }

  /** Passes before and after that change nothing on any bank. */
  lemma RefinesButJoin(p: Program, r: Program, t: Program, q: Program, n: nat, nil: nat)
    requires Refines(p, r, n, n) && RefinesBut(r, t, n, nil) && Refines(t, q, n, n)
    ensures RefinesBut(p, q, n, nil)
  {
    hide Halts, HaltsByBut, HaltsFromBut, Refines;
    forall regs, k: nat, res, fell | |regs| == n
      ensures Halts(p, regs, k, res, fell) ==> HaltsByBut(q, regs, k, res, nil, fell)
      ensures Halts(q, regs, k, res, fell) ==> HaltsFromBut(p, regs, k, res, nil, fell)
    {
      if Halts(p, regs, k, res, fell) {
        JoinBy(p, r, t, q, n, nil, regs, k, res, fell);
      }
      if Halts(q, regs, k, res, fell) {
        JoinFrom(p, r, t, q, n, nil, regs, k, res, fell);
      }
    }
  }

  // ---------------------------------------------------------------------------
  // No fold reads `nil`
  // ---------------------------------------------------------------------------

  lemma PlainAt(p: Program, nil: nat, i: nat)
    requires Plain(p, nil) && i < |p| && p[i].Deb? && p[i].onZero != p[i].onTake
    ensures p[i].reg != nil
  {
  }

  lemma DivBinUnread(p: Program, nil: nat, f: Fold)
    requires Plain(p, nil) && DivBinLoop(p, f) && Private(p, f)
    ensures !Reads(f.op, nil)
  {
    hide RunRegs, Without, Times, Distinct, Plain;
    PlainAt(p, nil, f.start + 1);
    assert Targets(f.op)[0] == f.op.exit;
    PlainAt(p, nil, f.start + 2);
  }

  lemma MulAddUnread(p: Program, nil: nat, f: Fold)
    requires Plain(p, nil) && MulAddLoop(p, f) && Private(p, f)
    ensures !Reads(f.op, nil)
  {
    hide RunRegs, Distinct, Plain;
    var head := if f.op.preclear then f.start + 2 else f.start + 1;
    assert Targets(f.op)[0] == f.op.exit;
    PlainAt(p, nil, f.start);
    PlainAt(p, nil, head);
    PlainAt(p, nil, head + 1 + |f.op.dsts| + 1);
  }

  lemma CopyUnread(p: Program, nil: nat, f: Fold)
    requires Plain(p, nil) && CopyLoop(p, f) && Private(p, f)
    ensures !Reads(f.op, nil)
  {
    hide RunRegs, Without, Times, Plain;
    assert Targets(f.op)[0] == f.op.exit;
    PlainAt(p, nil, f.start);
    PlainAt(p, nil, f.end - 2);
  }

  lemma DivModUnread(p: Program, nil: nat, f: Fold)
    requires Plain(p, nil) && DivModLoop(p, f) && Private(p, f)
    ensures !Reads(f.op, nil)
  {
    hide RunRegs, Plain;
    assert p[f.start + 0] == Deb(f.op.reg, f.op.exits[0], f.start + 1);
    assert Targets(f.op)[0] == f.op.exits[0];
    PlainAt(p, nil, f.start);
  }

  lemma OneTakeUnread(p: Program, nil: nat, f: Fold)
    requires Plain(p, nil) && LoopShape(p, f) && Private(p, f)
    requires f.op.Transfer? || f.op.IsZero? || f.op.Zero?
    ensures !Reads(f.op, nil)
  {
    hide RunRegs, Plain;
    match f.op
    case Transfer(_, _, exit) =>
      assert Targets(f.op)[0] == exit;
      PlainAt(p, nil, f.start);
    case IsZero(_, onZero, _) =>
      assert Targets(f.op)[1] == onZero;
      PlainAt(p, nil, f.start);
    case Zero(_, _) =>
  }

  /** A take that goes to one place would have to leave a private loop into its inside, so no
      foldable loop is on `nil`, except the take that jumps to itself. */
  lemma FoldUnread(p: Program, nil: nat, f: Fold)
    requires Plain(p, nil) && GoodFold(p, f)
    ensures !Reads(f.op, nil)
  {
    hide DivBinLoop, MulAddLoop, CopyLoop, DivModLoop, Plain, Private;
    match f.op
    case DivBin(_, _, _, _, _, _) => DivBinUnread(p, nil, f);
    case MulAdd(_, _, _, _, _, _) => MulAddUnread(p, nil, f);
    case Copy(_, _, _, _) => CopyUnread(p, nil, f);
    case DivMod(_, _, _) => DivModUnread(p, nil, f);
    case _ => OneTakeUnread(p, nil, f);
  }

  // ---------------------------------------------------------------------------
  // The whole optimizer
  // ---------------------------------------------------------------------------

  lemma FoldedUnread(p: Program, nil: nat, folds: seq<Fold>, i: nat)
    requires IsRaw(p) && Plain(p, nil) && Laid(p, folds) && i < |p|
    ensures !Reads(FoldedOps(p, folds)[i], nil)
  {
    hide GoodFold;
    if Starts(folds, i) {
      var j :| 0 <= j < |folds| && folds[j].start == i;
      FoldedAt(p, folds, j);
      assert GoodFold(p, folds[j]);
      FoldUnread(p, nil, folds[j]);
    } else {
      assert IsRawOp(p[i]);
    }
  }

  lemma RetargetUnread(op: Op, m: seq<nat>, nil: nat)
    requires !Reads(op, nil)
    ensures !Reads(RetargetBy(op, m), nil)
  {
  }

  lemma RemappedUnread(p: Program, nil: nat, folds: seq<Fold>, m: seq<nat>, r: Program)
    requires IsRaw(p) && Plain(p, nil) && Laid(p, folds)
    requires Renumbered(FoldedOps(p, folds), VisibleOf(p, folds), m, r)
    ensures Unread(r, nil)
  {
    hide Plain, Laid, Reads, RetargetBy, FoldedOps;
    var vis := VisibleOf(p, folds);
    forall j | 0 <= j < |r| ensures !Reads(r[j], nil) {
      var i := Unrank(vis, |vis|, j);
      FoldedUnread(p, nil, folds, i);
      RetargetUnread(FoldedOps(p, folds)[i], m, nil);
    }
  }

  /** Folding and renumbering change nothing on any bank. */
  lemma FoldedAnywhere(p: Program, isDev: seq<bool>, folds: seq<Fold>, m: seq<nat>, r: Program, n: nat)
    requires IsRaw(p) && ProgOk(p, n) && Greedy(p, isDev, folds, |p|)
    requires Renumbered(FoldedOps(p, folds), VisibleOf(p, folds), m, r)
    ensures Laid(p, folds) && Refines(p, r, n, n) && ProgOk(r, n)
  {
    hide Greedy, Renumbered, ProgOk, Refines, FoldedOps, VisibleOf, Closed, Laid, OpOk;
    var ops, vis := FoldedOps(p, folds), VisibleOf(p, folds);
    GreedyLaid(p, isDev, folds);
    FoldedOpsFold(p, folds);
    FoldRefines(p, folds, ops, vis, n, n);
    forall i | 0 <= i < |ops| && vis[i] ensures OpOk(ops[i], n) {
      FoldedProgOk(p, folds, ops, vis, n, i);
    }
    RenumberRefines(ops, vis, m, r, n, n);
    RenumberedOk(ops, vis, m, r, n);
    RefinesTrans(p, ops, r, n, n);
  }

  /** The optimizer from any bank: if every take of `nil` goes to one place, the optimized
      program halts exactly when the source does, after no more moves, with the same value in
      every register but `nil`, whatever `nil` started with. */
  lemma OptimizerAnyNil(p: Program, isDev: seq<bool>, nil: nat, q: Program, n: nat)
    requires IsRaw(p) && ProgOk(p, n) && Plain(p, nil) && Optimized(p, isDev, nil, q)
    ensures RefinesBut(p, q, n, nil)
  {
    hide Greedy, Renumbered, Pruned, ProgOk, Plain, Unread, Refines, RefinesBut, FoldedOps, VisibleOf, Threaded, Laid;
    var folds: seq<Fold>, m: seq<nat>, r: Program :|
      && Greedy(p, isDev, folds, |p|)
      && Renumbered(FoldedOps(p, folds), VisibleOf(p, folds), m, r)
      && Pruned(ThreadFrom(r, nil, 0), q);
    FoldedAnywhere(p, isDev, folds, m, r, n);
    RemappedUnread(p, nil, folds, m, r);
    ThreadedSelf(r, nil);
    ThreadFromThreaded(r, r, nil, 0);
    var t := ThreadFrom(r, nil, 0);
    ThreadRefinesBut(r, t, n, nil);
    ThreadedOk(r, t, nil, n);
    PrunedRefines(t, q, n, n);
    RefinesButJoin(p, r, t, q, n, nil);
  }
}
