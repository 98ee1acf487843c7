/** Jump threading: sending every jump past chains of `take :nil X X`. */
module Threading {
  import opened Machine
  import opened Passes

  /** The program never puts a bean in `r`. */
  predicate Feeds(op: Op, r: nat) {
    match op
    case Inc(x, _) => x == r
    case Transfer(_, ds, _) => r in ds
    case DivMod(_, ds, _) => r in ds
    case MulAdd(_, s, _, ds, _, _) => r == s || r in ds
    case Copy(s, _, ds, _) => r == s || r in ds
    case DivBin(_, p, rem, q, xs, _) => r == p || r == rem || r == q || r in xs
    case _ => false
  }

  ghost predicate NeverFed(p: Program, r: nat) {
    forall i :: 0 <= i < |p| ==> !Feeds(p[i], r)
  }

  lemma StaysEmpty(op: Op, r: nat, regs: Regs)
    requires OpOk(op, |regs|) && !Feeds(op, r) && NilEmpty(regs, r)
    ensures NilEmpty(Effect(op, regs), r)
  {
    if r < |regs| {
      EmptyUnderAdd(op, r, regs);
    }
  }

  lemma AddKeeps(regs: Regs, ds: seq<nat>, v: nat, r: nat)
    requires r < |regs| && r !in ds
    ensures AddAll(regs, ds, v)[r] == regs[r]
  {
    assert Times(ds, r) == 0;
    assert v * Times(ds, r) == 0;
  }

  lemma MulAddKeeps(op: Op, r: nat, regs: Regs)
    requires op.MulAdd? && r < |regs| && OpOk(op, |regs|) && !Feeds(op, r) && regs[r] == 0
    ensures Effect(op, regs)[r] == 0
  {
    hide AddAll;
    var MulAdd(c, s, t, ds, pre, _) := op;
    if regs[c] > 0 {
      var a, b := regs[c] * regs[s], (regs[c] - 1) * regs[t];
      AddKeeps(regs, ds, a, r);
      AddKeeps(regs[s := regs[s] + regs[t]], ds, a + b, r);
    }
  }

  lemma DivBinKeeps(op: Op, r: nat, regs: Regs)
    requires op.DivBin? && r < |regs| && OpOk(op, |regs|) && !Feeds(op, r) && regs[r] == 0
    ensures Effect(op, regs)[r] == 0
  {
    hide AddAll;
    if regs[op.p] > 0 {
      AddKeeps(regs, op.xs, regs[op.reg], r);
    }
  }

  lemma EmptyUnderAdd(op: Op, r: nat, regs: Regs)
    requires r < |regs| && OpOk(op, |regs|) && !Feeds(op, r) && regs[r] == 0
    ensures Effect(op, regs)[r] == 0
  {
    hide AddAll, DivBinEffect;
    match op
    case Transfer(x, ds, _) => AddKeeps(regs, ds, regs[x], r);
    case DivMod(x, ds, es) => AddKeeps(regs, ds, regs[x] / |es|, r);
    case MulAdd(_, _, _, _, _, _) => MulAddKeeps(op, r, regs);
    case Copy(s, _, ds, _) => AddKeeps(regs, ds, regs[s], r);
    case DivBin(_, _, _, _, _, _) => DivBinKeeps(op, r, regs);
    case _ =>
  }

  /** With `nil` empty a take of it always leaves by its zero branch: `h` such moves from
      `a` lead to `b`. */
  ghost predicate NilPath(p: Program, nil: nat, a: nat, b: nat, h: nat)
    decreases h
  {
    if h == 0 then a == b
    else a < |p| && p[a].Deb? && p[a].reg == nil && NilPath(p, nil, p[a].onZero, b, h - 1)
  }

  ghost predicate Follows(p: Program, nil: nat, a: nat, b: nat) {
    exists h: nat :: NilPath(p, nil, a, b, h)
  }

  lemma {:induction false} NilPathJoin(p: Program, nil: nat, a: nat, h: nat, b: nat, k: nat, c: nat)
    requires NilPath(p, nil, a, b, h) && NilPath(p, nil, b, c, k)
    ensures NilPath(p, nil, a, c, h + k)
    decreases h
  {
    if h > 0 {
      NilPathJoin(p, nil, p[a].onZero, h - 1, b, k, c);
    }
  }

  lemma {:induction false} NilPathRuns(p: Program, nil: nat, a: nat, b: nat, h: nat, regs: Regs)
    requires NilPath(p, nil, a, b, h) && ProgOk(p, |regs|) && NilEmpty(regs, nil)
    ensures Reaches(p, Config(a, regs), h, Config(b, regs))
    decreases h
  {
    if h > 0 {
      assert OpOk(p[a], |regs|);
      NilPathRuns(p, nil, p[a].onZero, b, h - 1, regs);
      assert Next(p, Config(a, regs)) == Config(p[a].onZero, regs);
    }
  }

  /** `q` is `p` with every target moved along a path of empty takes. */
  ghost predicate ThreadedOp(p: Program, nil: nat, op: Op, op': Op) {
    && |Targets(op)| == |Targets(op')|
    && op' == WithTargets(op, Targets(op'))
    && forall k :: 0 <= k < |Targets(op)| ==> Follows(p, nil, Targets(op)[k], Targets(op')[k])
  }

  ghost predicate Threaded(p: Program, q: Program, nil: nat) {
    |p| == |q| && forall i :: 0 <= i < |p| ==> ThreadedOp(p, nil, p[i], q[i])
  }

  ghost predicate ThreadRel(n: nat, nil: nat, c: Config, d: Config) {
    c == d && |c.regs| == n && NilEmpty(c.regs, nil)
  }

  lemma ThreadMatches(p: Program, q: Program, n: nat, nil: nat, c: Config)
    requires ProgOk(p, n) && NeverFed(p, nil) && Threaded(p, q, nil) && ThreadRel(n, nil, c, c)
    ensures Matches(p, q, (c, d) => ThreadRel(n, nil, c, d), (c, d) => SameOutcome(p, q, c, d), c, c)
  {
    hide Effect, Target, Targets, WithTargets, OpOk, Spins, Pick, Feeds, NilPath, Threaded;
    var rel := (c, d) => ThreadRel(n, nil, c, d);
    var out := (c, d) => SameOutcome(p, q, c, d);
    ThreadedAt(p, q, nil, c.pc);
    if Stopped(p, c) {
      assert HaltsIn(p, c, 0, c);
      assert out(c, c);
    } else {
      var op, op' := p[c.pc], q[c.pc];
      assert OpOk(op, n);
      TargetPicked(op, c.pc, c.regs);
      Retargeted(op, Targets(op'), c.pc, c.regs);
      StaysEmpty(op, nil, c.regs);
      var d := Next(q, c);
      var c1 := Next(p, c);
      assert Reaches(p, c, 1, c1) by {
        assert Reaches(p, c1, 0, c1);
      }
      if Spins(op, c.regs) {
        assert rel(c1, d);
        assert Advances(p, c, rel, d);
      } else {
        var h: nat :| NilPath(p, nil, Targets(op)[Pick(op, c.regs)], Targets(op')[Pick(op, c.regs)], h);
        NilPathRuns(p, nil, c1.pc, d.pc, h, c1.regs);
        ReachesJoin(p, c, 1, c1, h, d);
        assert rel(d, d);
        assert Advances(p, c, rel, d);
      }
    }
  }

  lemma ThreadedAt(p: Program, q: Program, nil: nat, i: nat)
    requires Threaded(p, q, nil)
    ensures |p| == |q|
    ensures i < |p| ==> ThreadedOp(p, nil, p[i], q[i]) && (p[i].End? <==> q[i].End?)
  {
  }

  /** Threading changes no outcome of a program that leaves `nil` empty, and only saves moves. */
  lemma ThreadRefines(p: Program, q: Program, n: nat, nil: nat)
    requires ProgOk(p, n) && NeverFed(p, nil) && Threaded(p, q, nil)
    ensures Refines(p, q, n, nil)
  {
    hide Threaded, ProgOk, NeverFed;
    var rel := (c, d) => ThreadRel(n, nil, c, d);
    var out := (c, d) => SameOutcome(p, q, c, d);
    forall c, d | rel(c, d) ensures Matches(p, q, rel, out, c, d) {
      ThreadMatches(p, q, n, nil, c);
    }
    SimulationRefines(p, q, rel, n, nil);
  }

  // ---------------------------------------------------------------------------
  // The pass: targets rewritten one by one in the program being rewritten
  // ---------------------------------------------------------------------------

  /** `take :nil X X`: goes to X whatever it finds. */
  predicate PureJump(op: Op, nil: nat) {
    op.Deb? && op.onZero == op.onTake && op.reg == nil
  }

  /** Follow pure jumps from `t`, at most `hops` of them, stopping at a jump to itself. */
  function ThreadTarget(ops: Program, nil: nat, t: nat, hops: nat): nat
    decreases hops
  {
    if hops == 0 || t >= |ops| || !PureJump(ops[t], nil) || ops[t].onZero == t then t
    else ThreadTarget(ops, nil, ops[t].onZero, hops - 1)
  }

  /** Instruction `i` with its targets from the `k`-th on threaded, in order, each in the
      program as the ones before it have left it. */
  function ThreadSlots(ops: Program, nil: nat, i: nat, k: nat): (r: Program)
    requires i < |ops|
    ensures |r| == |ops|
    ensures |Targets(r[i])| == |Targets(ops[i])|
    decreases |Targets(ops[i])| - k
  {
    var ts := Targets(ops[i]);
    if k >= |ts| then ops
    else
      var t := ThreadTarget(ops, nil, ts[k], |ops|);
      TargetsKept(ops[i], ts[k := t]);
      ThreadSlots(ops[i := WithTargets(ops[i], ts[k := t])], nil, i, k + 1)
  }

  lemma TargetsKept(op: Op, ts: seq<nat>)
    requires |ts| == |Targets(op)|
    ensures Targets(WithTargets(op, ts)) == ts
  {
  }

  /** The whole pass, from instruction `i` on. */
  function ThreadFrom(ops: Program, nil: nat, i: nat): (r: Program)
    ensures |r| == |ops|
    decreases |ops| - i
  {
    if i >= |ops| then ops else ThreadFrom(ThreadSlots(ops, nil, i, 0), nil, i + 1)
  }

  lemma ThreadedSelf(p: Program, nil: nat)
    ensures Threaded(p, p, nil)
  {
    forall i | 0 <= i < |p| ensures ThreadedOp(p, nil, p[i], p[i]) {
      SameTargets(p[i]);
      forall k | 0 <= k < |Targets(p[i])| ensures Follows(p, nil, Targets(p[i])[k], Targets(p[i])[k]) {
        assert NilPath(p, nil, Targets(p[i])[k], Targets(p[i])[k], 0);
      }
    }
  }

  lemma SameTargets(op: Op)
    ensures WithTargets(op, Targets(op)) == op
  {
  }

  /** A pure jump of the half-threaded program is a path of empty takes of the original. */
  lemma JumpFollows(p: Program, cur: Program, nil: nat, t: nat)
    requires Threaded(p, cur, nil) && t < |cur| && PureJump(cur[t], nil)
    ensures Follows(p, nil, t, cur[t].onZero)
  {
    assert ThreadedOp(p, nil, p[t], cur[t]);
    assert p[t].Deb? && p[t].reg == nil;
    assert Targets(p[t])[1] == p[t].onZero && Targets(cur[t])[1] == cur[t].onZero;
    var h: nat :| NilPath(p, nil, p[t].onZero, cur[t].onZero, h);
    assert NilPath(p, nil, t, cur[t].onZero, h + 1);
  }

  lemma FollowsJoin(p: Program, nil: nat, a: nat, b: nat, c: nat)
    requires Follows(p, nil, a, b) && Follows(p, nil, b, c)
    ensures Follows(p, nil, a, c)
  {
    var h: nat :| NilPath(p, nil, a, b, h);
    var k: nat :| NilPath(p, nil, b, c, k);
    NilPathJoin(p, nil, a, h, b, k, c);
  }

  lemma {:induction false} ThreadTargetFollows(p: Program, cur: Program, nil: nat, t: nat, hops: nat)
    requires Threaded(p, cur, nil)
    ensures Follows(p, nil, t, ThreadTarget(cur, nil, t, hops))
    decreases hops
  {
    hide Threaded, Follows;
    if hops == 0 || t >= |cur| || !PureJump(cur[t], nil) || cur[t].onZero == t {
      FollowsSelf(p, nil, t);
    } else {
      JumpFollows(p, cur, nil, t);
      ThreadTargetFollows(p, cur, nil, cur[t].onZero, hops - 1);
      FollowsJoin(p, nil, t, cur[t].onZero, ThreadTarget(cur, nil, t, hops));
    }
  }

  lemma FollowsSelf(p: Program, nil: nat, t: nat)
    ensures Follows(p, nil, t, t)
  {
    assert NilPath(p, nil, t, t, 0);
  }

  lemma ThreadOneSlot(p: Program, cur: Program, nil: nat, i: nat, k: nat, t: nat)
    requires Threaded(p, cur, nil) && i < |cur| && k < |Targets(cur[i])|
    requires Follows(p, nil, Targets(cur[i])[k], t)
    ensures Threaded(p, cur[i := WithTargets(cur[i], Targets(cur[i])[k := t])], nil)
  {
    hide Follows, Targets, WithTargets;
    assert ThreadedOp(p, nil, p[i], cur[i]);
    var ts := Targets(cur[i]);
    var op := WithTargets(cur[i], ts[k := t]);
    RetargetTwice(p[i], ts, ts[k := t]);
    TargetsKept(cur[i], ts[k := t]);
    forall j | 0 <= j < |Targets(p[i])| ensures Follows(p, nil, Targets(p[i])[j], Targets(op)[j]) {
      if j == k {
        FollowsJoin(p, nil, Targets(p[i])[k], ts[k], t);
      }
    }
  }

  lemma RetargetTwice(op: Op, ts: seq<nat>, us: seq<nat>)
    requires |ts| == |us| == |Targets(op)|
    ensures |Targets(WithTargets(op, ts))| == |us|
    ensures WithTargets(WithTargets(op, ts), us) == WithTargets(op, us)
  {
    TargetsKept(op, ts);
  }

  lemma {:induction false} ThreadSlotsThreaded(p: Program, cur: Program, nil: nat, i: nat, k: nat)
    requires Threaded(p, cur, nil) && i < |cur|
    ensures Threaded(p, ThreadSlots(cur, nil, i, k), nil)
    decreases |Targets(cur[i])| - k
  {
    hide Threaded, Follows, Targets, WithTargets, ThreadTarget;
    var ts := Targets(cur[i]);
    if k < |ts| {
      var t := ThreadTarget(cur, nil, ts[k], |cur|);
      ThreadTargetFollows(p, cur, nil, ts[k], |cur|);
      ThreadOneSlot(p, cur, nil, i, k, t);
      TargetsKept(cur[i], ts[k := t]);
      ThreadSlotsThreaded(p, cur[i := WithTargets(cur[i], ts[k := t])], nil, i, k + 1);
    }
  }

  /** Threading in place, each jump through targets some of which are already rewritten,
      still moves every target only along empty takes of the original program. */
  lemma {:induction false} ThreadFromThreaded(p: Program, cur: Program, nil: nat, i: nat)
    requires Threaded(p, cur, nil)
    ensures Threaded(p, ThreadFrom(cur, nil, i), nil)
    decreases |cur| - i
  {
    hide Threaded, ThreadSlots;
    if i < |cur| {
      ThreadSlotsThreaded(p, cur, nil, i, 0);
      ThreadFromThreaded(p, ThreadSlots(cur, nil, i, 0), nil, i + 1);
    }
  }

  // ---------------------------------------------------------------------------
  // As many hops as instructions are enough
  // ---------------------------------------------------------------------------

  /** A target nothing is gained by following: not a no-op, or one that only jumps to itself. */
  predicate Settled(ops: Program, nil: nat, t: nat) {
    t >= |ops| || !PureJump(ops[t], nil) || ops[t].onZero == t
  }

  /** Where `h` no-ops lead from `t`. */
  function Hop(ops: Program, nil: nat, t: nat, h: nat): nat
    decreases h
  {
    if h == 0 || Settled(ops, nil, t) then t else Hop(ops, nil, ops[t].onZero, h - 1)
  }

  lemma {:induction false} HopIsThread(ops: Program, nil: nat, t: nat, h: nat)
    ensures Hop(ops, nil, t, h) == ThreadTarget(ops, nil, t, h)
    decreases h
  {
    if h > 0 && !Settled(ops, nil, t) {
      HopIsThread(ops, nil, ops[t].onZero, h - 1);
    }
  }

  lemma {:induction false} HopJoin(ops: Program, nil: nat, t: nat, h: nat, k: nat)
    ensures Hop(ops, nil, t, h + k) == Hop(ops, nil, Hop(ops, nil, t, h), k)
    decreases h
  {
    if h > 0 && !Settled(ops, nil, t) {
      HopJoin(ops, nil, ops[t].onZero, h - 1, k);
    } else if h > 0 {
      assert Hop(ops, nil, t, k) == t;
    }
  }

  /** Distinct numbers below `n` are at most `n`. */
  lemma {:induction false} Pigeonhole(s: seq<nat>, n: nat)
    requires forall i :: 0 <= i < |s| ==> s[i] < n
    requires forall i, j :: 0 <= i < j < |s| ==> s[i] != s[j]
    ensures |s| <= n
    decreases n
  {
    if s == [] {
    } else if i :| 0 <= i < |s| && s[i] == n - 1 {
      var rest := s[..i] + s[i + 1..];
      forall j | 0 <= j < |rest| ensures rest[j] < n - 1 {
        assert rest[j] == s[if j < i then j else j + 1];
      }
      forall j, k | 0 <= j < k < |rest| ensures rest[j] != rest[k] {
        assert rest[j] == s[if j < i then j else j + 1];
        assert rest[k] == s[if k < i then k else k + 1];
      }
      Pigeonhole(rest, n - 1);
    } else {
      assert s[0] < n;
      Pigeonhole(s, n - 1);
    }
  }

  ghost predicate Endless(ops: Program, nil: nat, t: nat) {
    forall h: nat :: !Settled(ops, nil, Hop(ops, nil, t, h))
  }

  /** A chain that has not settled after `h` hops had not before. */
  lemma NotYetSettled(ops: Program, nil: nat, t: nat, g: nat, h: nat)
    requires g <= h && !Settled(ops, nil, Hop(ops, nil, t, h))
    ensures !Settled(ops, nil, Hop(ops, nil, t, g))
  {
    HopJoin(ops, nil, t, g, h - g);
  }

  /** A chain that comes back to where it was, not settled, goes round for ever. */
  lemma {:induction false} RoundForEver(ops: Program, nil: nat, t: nat, g: nat, d: nat, h: nat)
    requires d > 0 && Hop(ops, nil, t, g) == Hop(ops, nil, t, g + d)
    requires !Settled(ops, nil, Hop(ops, nil, t, g + d))
    ensures !Settled(ops, nil, Hop(ops, nil, t, h))
    decreases h
  {
    hide Settled, Hop;
    if h <= g + d {
      NotYetSettled(ops, nil, t, h, g + d);
    } else {
      RoundForEver(ops, nil, t, g, d, h - d);
      HopJoin(ops, nil, t, g + d, h - g - d);
      HopJoin(ops, nil, t, g, h - g - d);
    }
  }

  /** Threading a target through at most as many no-ops as there are instructions either
      settles it, or the no-ops go round in a circle. */
  lemma ThreadSettles(ops: Program, nil: nat, t: nat)
    ensures Settled(ops, nil, ThreadTarget(ops, nil, t, |ops|)) || Endless(ops, nil, t)
  {
    hide Hop, ThreadTarget;
    var n := |ops|;
    HopIsThread(ops, nil, t, n);
    if !Settled(ops, nil, Hop(ops, nil, t, n)) {
      var s := seq(n + 1, h requires 0 <= h < n + 1 => Hop(ops, nil, t, h));
      forall h | 0 <= h < |s| ensures s[h] < n {
        NotYetSettled(ops, nil, t, h, n);
      }
      if forall i, j :: 0 <= i < j < |s| ==> s[i] != s[j] {
        Pigeonhole(s, n);
      }
      var i, j :| 0 <= i < j < |s| && s[i] == s[j];
      NotYetSettled(ops, nil, t, j, n);
      forall h: nat ensures !Settled(ops, nil, Hop(ops, nil, t, h)) {
        RoundForEver(ops, nil, t, i, j - i, h);
      }
    }
  }
}
