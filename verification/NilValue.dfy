/** What the no-op register itself holds at the end, before and after optimizing.  The raw
    program takes from it at every no-op; the threaded one at most once, because every jump
    has been sent past the no-ops and only a no-op at the very start is still met. */
module NilValue {
  import opened Machine
  import opened Loops
  import opened Passes
  import opened Folding
  import opened Renumbering
  import opened Threading
  import opened Detect
  import opened Devices
  import opened Optimizer
  import opened NilRegister

  predicate NilTake(p: Program, nil: nat, i: nat) {
    i < |p| && p[i].Deb? && p[i].reg == nil
  }

  // ---------------------------------------------------------------------------
  // Chains of takes of `nil`
  // ---------------------------------------------------------------------------

  /** Two stretches of one chain: the shorter leads on to the end of the longer. */
  lemma {:induction false} PathSplit(r: Program, nil: nat, a: nat, b: nat, g: nat, e: nat, h: nat)
    requires NilPath(r, nil, a, b, g) && NilPath(r, nil, a, e, h) && g <= h
    ensures NilPath(r, nil, b, e, h - g)
    decreases g
  {
    if g > 0 {
      PathSplit(r, nil, r[a].onZero, b, g - 1, e, h - 1);
    }
  }

  /** Nothing on the chain is past its end. */
  lemma PathThrough(r: Program, nil: nat, a: nat, b: nat, g: nat, e: nat, h: nat)
    requires NilPath(r, nil, a, b, g) && NilPath(r, nil, a, e, h) && !NilTake(r, nil, e)
    ensures g <= h && NilPath(r, nil, b, e, h - g)
  {
    if g > h {
      PathSplit(r, nil, a, e, h, b, g);
    } else {
      PathSplit(r, nil, a, b, g, e, h);
    }
  }

  lemma PathOnce(r: Program, nil: nat, a: nat, e: nat, h: nat, e': nat, h': nat)
    requires NilPath(r, nil, a, e, h) && !NilTake(r, nil, e)
    requires NilPath(r, nil, a, e', h') && !NilTake(r, nil, e')
    ensures h == h' && e == e'
  {
    PathThrough(r, nil, a, e, h, e', h');
    PathThrough(r, nil, a, e', h', e, h);
  }

  function Along(r: Program, nil: nat, a: nat, g: nat): nat
    decreases g
  {
    if g == 0 || !NilTake(r, nil, a) then a else Along(r, nil, r[a].onZero, g - 1)
  }

  lemma {:induction false} AlongPath(r: Program, nil: nat, a: nat, e: nat, h: nat, g: nat)
    requires NilPath(r, nil, a, e, h) && g <= h
    ensures NilPath(r, nil, a, Along(r, nil, a, g), g)
    decreases g
  {
    if g > 0 {
      AlongPath(r, nil, r[a].onZero, e, h - 1, g - 1);
    }
  }

  /** A chain that comes to an end visits no instruction twice, so it is no longer than the
      program. */
  lemma PathShort(r: Program, nil: nat, a: nat, e: nat, h: nat)
    requires NilPath(r, nil, a, e, h) && !NilTake(r, nil, e)
    ensures h <= |r|
  {
    hide NilPath, Along;
    var s := seq(h, g requires 0 <= g < h => Along(r, nil, a, g));
    forall g | 0 <= g < h
      ensures NilPath(r, nil, a, s[g], g) && NilPath(r, nil, s[g], e, h - g) && s[g] < |r|
    {
      AlongPath(r, nil, a, e, h, g);
      PathThrough(r, nil, a, s[g], g, e, h);
      OnPath(r, nil, s[g], e, h - g);
    }
    forall i, j | 0 <= i < j < h ensures s[i] != s[j] {
      if s[i] == s[j] {
        PathOnce(r, nil, s[i], e, h - i, e, h - j);
      }
    }
    Pigeonhole(s, |r|);
  }

  lemma OnPath(r: Program, nil: nat, a: nat, e: nat, h: nat)
    requires NilPath(r, nil, a, e, h) && h > 0
    ensures NilTake(r, nil, a) && NilPath(r, nil, r[a].onZero, e, h - 1)
  {
  }

  // ---------------------------------------------------------------------------
  // Threading sends every target to the end of its chain, if there is one
  // ---------------------------------------------------------------------------

  /** If the chain from `x` comes to an end, `t` is that end. */
  ghost predicate Sent(r: Program, nil: nat, x: nat, t: nat) {
    forall e: nat, h: nat :: NilPath(r, nil, x, e, h) && !NilTake(r, nil, e) ==> t == e
  }

  /** Slot `j` of instruction `a` comes before slot `k` of instruction `i`. */
  predicate Done(a: nat, j: nat, i: nat, k: nat) {
    a < i || (a == i && j < k)
  }

  /** The targets up to slot `k` of instruction `i` have been sent; the rest are as they were. */
  ghost predicate SentTo(r: Program, cur: Program, nil: nat, i: nat, k: nat) {
    && Threaded(r, cur, nil)
    && forall a :: 0 <= a < |r| ==> InstState(r, cur, nil, i, k, a)
  }

  ghost predicate InstState(r: Program, cur: Program, nil: nat, i: nat, k: nat, a: nat)
    requires a < |r|
  {
    forall j :: 0 <= j < |Targets(r[a])| ==> SlotState(r, cur, nil, i, k, a, j)
  }

  ghost predicate SlotState(r: Program, cur: Program, nil: nat, i: nat, k: nat, a: nat, j: nat) {
    && a < |r| && a < |cur| && j < |Targets(r[a])| && j < |Targets(cur[a])|
    && if Done(a, j, i, k) then Sent(r, nil, Targets(r[a])[j], Targets(cur[a])[j])
       else Targets(cur[a])[j] == Targets(r[a])[j]
  }

  /** Every take of `nil` within `h` hops of the chain's end still goes to one place. */
  ghost predicate Smooth(r: Program, cur: Program, nil: nat, e: nat, h: nat) {
    forall a: nat, g: nat :: 1 <= g <= h && NilPath(r, nil, a, e, g) ==>
      a < |cur| && cur[a].Deb? && cur[a].onZero == cur[a].onTake
  }

  lemma ThreadedTake(r: Program, cur: Program, nil: nat, a: nat)
    requires Threaded(r, cur, nil)
    ensures NilTake(cur, nil, a) <==> NilTake(r, nil, a)
    ensures NilTake(r, nil, a) ==> Follows(r, nil, r[a].onZero, cur[a].onZero)
  {
    hide Follows;
    if a < |r| {
      assert ThreadedOp(r, nil, r[a], cur[a]);
      if r[a].Deb? {
        assert Targets(r[a])[1] == r[a].onZero && Targets(cur[a])[1] == cur[a].onZero;
      }
    }
  }

  lemma {:induction false} ThreadsToEnd(r: Program, cur: Program, nil: nat, x: nat, e: nat, h: nat, hops: nat)
    requires Threaded(r, cur, nil) && Smooth(r, cur, nil, e, h)
    requires NilPath(r, nil, x, e, h) && !NilTake(r, nil, e) && h <= hops
    ensures ThreadTarget(cur, nil, x, hops) == e
    decreases h
  {
    hide NilPath, Threaded;
    ThreadedTake(r, cur, nil, x);
    if h == 0 {
      PathNone(r, nil, x, e);
    } else {
      OnPath(r, nil, x, e, h);
      var y := cur[x].onZero;
      var g: nat :| NilPath(r, nil, r[x].onZero, y, g);
      PathThrough(r, nil, r[x].onZero, y, g, e, h - 1);
      if y == x {
        PathOnce(r, nil, x, e, h, e, h - 1 - g);
      }
      ThreadsToEnd(r, cur, nil, y, e, h - 1 - g, hops - 1);
    }
  }

  lemma PathNone(r: Program, nil: nat, x: nat, e: nat)
    requires NilPath(r, nil, x, e, 0)
    ensures x == e
  {
  }

  /** No instruction on the chain beyond the slot being rewritten is half rewritten. */
  lemma SmoothBeyond(r: Program, cur: Program, nil: nat, i: nat, k: nat, e: nat, h: nat)
    requires SentTo(r, cur, nil, i, k) && Unread(r, nil) && i < |r| && k < |Targets(r[i])|
    requires NilPath(r, nil, Targets(r[i])[k], e, h) && !NilTake(r, nil, e)
    ensures Smooth(r, cur, nil, e, h)
  {
    hide NilPath, Threaded, Sent;
    forall a: nat, g: nat | 1 <= g <= h && NilPath(r, nil, a, e, g)
      ensures a < |cur| && cur[a].Deb? && cur[a].onZero == cur[a].onTake
    {
      OnPath(r, nil, a, e, g);
      assert !Reads(r[a], nil);
      ThreadedTake(r, cur, nil, a);
      assert Targets(r[a])[0] == Targets(r[a])[1] == r[a].onZero;
      if a == i {
        PathOnce(r, nil, r[a].onZero, e, g - 1, e, h);
      }
      assert InstState(r, cur, nil, i, k, a);
      assert SlotState(r, cur, nil, i, k, a, 0) && SlotState(r, cur, nil, i, k, a, 1);
      BothSent(r, cur, nil, i, k, a, e, g);
    }
  }

  lemma BothSent(r: Program, cur: Program, nil: nat, i: nat, k: nat, a: nat, e: nat, g: nat)
    requires a != i && NilTake(r, nil, a) && NilTake(cur, nil, a) && r[a].onZero == r[a].onTake
    requires SlotState(r, cur, nil, i, k, a, 0) && SlotState(r, cur, nil, i, k, a, 1)
    requires g >= 1 && NilPath(r, nil, r[a].onZero, e, g - 1) && !NilTake(r, nil, e)
    ensures cur[a].onZero == cur[a].onTake
  {
    hide NilPath;
    assert Targets(cur[a])[0] == cur[a].onTake && Targets(cur[a])[1] == cur[a].onZero;
  }

  lemma SlotIsSent(r: Program, cur: Program, nil: nat, i: nat, k: nat)
    requires SentTo(r, cur, nil, i, k) && Unread(r, nil) && i < |r| && k < |Targets(r[i])|
    ensures |cur| == |r| && k < |Targets(cur[i])| && Targets(cur[i])[k] == Targets(r[i])[k]
    ensures Sent(r, nil, Targets(r[i])[k], ThreadTarget(cur, nil, Targets(r[i])[k], |cur|))
  {
    hide NilPath, Targets, ThreadTarget, Unread;
    assert InstState(r, cur, nil, i, k, i);
    assert SlotState(r, cur, nil, i, k, i, k);
    var x := Targets(r[i])[k];
    forall e: nat, h: nat | NilPath(r, nil, x, e, h) && !NilTake(r, nil, e)
      ensures ThreadTarget(cur, nil, x, |cur|) == e
    {
      SmoothBeyond(r, cur, nil, i, k, e, h);
      PathShort(r, nil, x, e, h);
      ThreadsToEnd(r, cur, nil, x, e, h, |cur|);
    }
  }

  lemma SlotNext(r: Program, cur: Program, nil: nat, i: nat, k: nat, t: nat)
    requires SentTo(r, cur, nil, i, k) && i < |r| && k < |Targets(r[i])| && |cur| == |r|
    requires k < |Targets(cur[i])| && Sent(r, nil, Targets(r[i])[k], t)
    requires Threaded(r, cur[i := WithTargets(cur[i], Targets(cur[i])[k := t])], nil)
    ensures SentTo(r, cur[i := WithTargets(cur[i], Targets(cur[i])[k := t])], nil, i, k + 1)
  {
    hide Targets, WithTargets, Threaded, Sent;
    var next := cur[i := WithTargets(cur[i], Targets(cur[i])[k := t])];
    TargetsKept(cur[i], Targets(cur[i])[k := t]);
    var k' := k + 1;
    forall a | 0 <= a < |r| ensures InstState(r, next, nil, i, k', a) {
      assert InstState(r, cur, nil, i, k, a);
      forall j | 0 <= j < |Targets(r[a])| ensures SlotState(r, next, nil, i, k', a, j) {
        assert SlotState(r, cur, nil, i, k, a, j);
      }
    }
  }

  lemma {:induction false} SlotsSent(r: Program, cur: Program, nil: nat, i: nat, k: nat)
    requires SentTo(r, cur, nil, i, k) && Unread(r, nil) && i < |r| == |cur| && k <= |Targets(cur[i])|
    ensures SentTo(r, ThreadSlots(cur, nil, i, k), nil, i + 1, 0)
    decreases |Targets(cur[i])| - k
  {
    hide Targets, WithTargets, Threaded, Sent, ThreadTarget, Unread;
    SentThreaded(r, cur, nil, i, k);
    var ts := Targets(cur[i]);
    if k < |ts| {
      SlotIsSent(r, cur, nil, i, k);
      var t := ThreadTarget(cur, nil, ts[k], |cur|);
      ThreadTargetFollows(r, cur, nil, ts[k], |cur|);
      ThreadOneSlot(r, cur, nil, i, k, t);
      SlotNext(r, cur, nil, i, k, t);
      TargetsKept(cur[i], ts[k := t]);
      SlotsSent(r, cur[i := WithTargets(cur[i], ts[k := t])], nil, i, k + 1);
    } else {
      var i' := i + 1;
      forall a | 0 <= a < |r| ensures InstState(r, cur, nil, i', 0, a) {
        assert InstState(r, cur, nil, i, k, a);
        forall j | 0 <= j < |Targets(r[a])| ensures SlotState(r, cur, nil, i', 0, a, j) {
          assert SlotState(r, cur, nil, i, k, a, j);
        }
      }
    }
  }

  lemma SentThreaded(r: Program, cur: Program, nil: nat, i: nat, k: nat)
    requires SentTo(r, cur, nil, i, k) && i < |r|
    ensures Threaded(r, cur, nil) && |cur| == |r| && |Targets(cur[i])| == |Targets(r[i])|
  {
    hide Targets, WithTargets, Follows;
    assert ThreadedOp(r, nil, r[i], cur[i]);
  }

  lemma {:induction false} AllSent(r: Program, cur: Program, nil: nat, i: nat)
    requires SentTo(r, cur, nil, i, 0) && Unread(r, nil) && i <= |r| == |cur|
    ensures SentTo(r, ThreadFrom(cur, nil, i), nil, |r|, 0)
    decreases |r| - i
  {
    hide SentTo, ThreadSlots, Unread;
    if i < |cur| {
      SlotsSent(r, cur, nil, i, 0);
      AllSent(r, ThreadSlots(cur, nil, i, 0), nil, i + 1);
    }
  }

  /** After the pass every target whose chain of no-ops ends has been sent to its end, however
      the rewriting order half-rewrote the no-ops on the way. */
  lemma ThreadedToEnds(r: Program, nil: nat)
    requires Unread(r, nil)
    ensures SentTo(r, ThreadFrom(r, nil, 0), nil, |r|, 0)
  {
    hide Threaded, Targets, Unread, ThreadFrom;
    ThreadedSelf(r, nil);
    assert SentTo(r, r, nil, 0, 0);
    AllSent(r, r, nil, 0);
  }

  // ---------------------------------------------------------------------------
  // A chain without an end
  // ---------------------------------------------------------------------------

  /** The chain of no-ops from `a` never ends. */
  ghost predicate Stuck(r: Program, nil: nat, a: nat) {
    forall e: nat, h: nat :: NilPath(r, nil, a, e, h) ==> NilTake(r, nil, e)
  }

  lemma StuckOn(r: Program, nil: nat, a: nat)
    requires Stuck(r, nil, a)
    ensures NilTake(r, nil, a) && Stuck(r, nil, r[a].onZero)
  {
    assert NilPath(r, nil, a, a, 0);
    forall e: nat, h: nat | NilPath(r, nil, r[a].onZero, e, h) ensures NilTake(r, nil, e) {
      assert NilPath(r, nil, a, e, h + 1);
    }
  }

  /** What lies along the chain from a target that has been sent has no end either. */
  lemma SentStuck(r: Program, nil: nat, x: nat, t: nat)
    requires Follows(r, nil, x, t) && Sent(r, nil, x, t) && NilTake(r, nil, t)
    ensures Stuck(r, nil, t)
  {
    hide NilPath;
    var g: nat :| NilPath(r, nil, x, t, g);
    forall e: nat, h: nat | NilPath(r, nil, t, e, h) ensures NilTake(r, nil, e) {
      NilPathJoin(r, nil, x, g, t, h, e);
    }
  }

  lemma StuckMoves(r: Program, nil: nat, a: nat, regs: Regs)
    requires Stuck(r, nil, a) && ProgOk(r, |regs|) && Unread(r, nil)
    ensures !Stopped(r, Config(a, regs)) && OpOk(r[a], |regs|)
    ensures var c := Next(r, Config(a, regs)); Stuck(r, nil, c.pc) && |c.regs| == |regs|
  {
    StuckOn(r, nil, a);
    assert OpOk(r[a], |regs|) && !Reads(r[a], nil);
  }

  lemma StuckDiverges(r: Program, nil: nat, a: nat, regs: Regs)
    requires Stuck(r, nil, a) && ProgOk(r, |regs|) && Unread(r, nil)
    ensures Diverges(r, Config(a, regs))
  {
    hide Stuck, OpOk, ProgOk, Unread, Next;
    var region := (c: Config) => Stuck(r, nil, c.pc) && |c.regs| == |regs|;
    forall c | region(c) ensures MovesWithin(r, region, c) {
      StuckMoves(r, nil, c.pc, c.regs);
      var d := Next(r, c);
      assert Reaches(r, d, 0, d) && Reaches(r, c, 1, d);
      assert region(d);
    }
    forall k: nat, d ensures !HaltsIn(r, Config(a, regs), k, d) {
      ForeverWithin(r, region, Config(a, regs), k, d);
    }
  }

  /** What never halts still does not once it is threaded. */
  lemma ThreadedDiverges(r: Program, t: Program, nil: nat, a: nat, regs: Regs)
    requires ProgOk(r, |regs|) && Unread(r, nil) && Threaded(r, t, nil) && Diverges(r, Config(a, regs))
    ensures Diverges(t, Config(a, regs))
  {
    hide Threaded, ProgOk, Unread, HaltsIn, Simulates, SameBut;
    var c := Config(a, regs);
    var rel := (c, d) => ButNil(|regs|, nil, c, d);
    var out := (c, d) => SameBut(r, t, nil, c, d);
    ButNilSimulates(r, t, |regs|, nil);
    forall k: nat, d ensures !HaltsIn(t, c, k, d) {
      if HaltsIn(t, c, k, d) {
        UnderSelf(regs, nil);
        assert rel(c, c);
        var m, c' := FastHalts(r, t, rel, out, c, c, k, d);
      }
    }
  }

  // ---------------------------------------------------------------------------
  // The final value of `nil`
  // ---------------------------------------------------------------------------

  /** A take of `nil` that jumps to itself is folded into a clear that jumps to itself. */
  ghost predicate ClearsSpin(r: Program, nil: nat) {
    forall i :: 0 <= i < |r| && r[i].Zero? && r[i].reg == nil ==> r[i].exit == i
  }

  lemma ClearDiverges(t: Program, nil: nat, i: nat, regs: Regs)
    requires i < |t| && t[i] == Zero(nil, i) && nil < |regs|
    ensures Diverges(t, Config(i, regs))
  {
    var region := (c: Config) => c.pc == i && nil < |c.regs|;
    forall c | region(c) ensures MovesWithin(t, region, c) {
      var d := Next(t, c);
      assert Reaches(t, d, 0, d) && Reaches(t, c, 1, d);
      assert region(d);
    }
    forall k: nat, d ensures !HaltsIn(t, Config(i, regs), k, d) {
      ForeverWithin(t, region, Config(i, regs), k, d);
    }
  }

  /** Nothing but a take or a clear of `nil` changes it where nothing gives or reads it. */
  lemma NilKept(op: Op, nil: nat, regs: Regs)
    requires OpOk(op, |regs|) && nil < |regs| && !Feeds(op, nil) && !Reads(op, nil)
    requires !((op.Deb? || op.Zero?) && op.reg == nil)
    ensures Effect(op, regs)[nil] == regs[nil]
  {
    hide AddAll, DivBinEffect;
    match op
    case Transfer(x, ds, _) => AddKeeps(regs, ds, regs[x], nil);
    case DivMod(x, ds, es) => AddKeeps(regs, ds, regs[x] / |es|, nil);
    case MulAdd(_, _, _, _, _, _) => MulAddLeaves(op, nil, regs);
    case Copy(s, _, ds, _) => AddKeeps(regs, ds, regs[s], nil);
    case DivBin(_, _, _, _, _, _) => DivBinLeaves(op, nil, regs);
    case _ =>
  }

  lemma MulAddLeaves(op: Op, nil: nat, regs: Regs)
    requires op.MulAdd? && OpOk(op, |regs|) && nil < |regs| && !Feeds(op, nil) && !Reads(op, nil)
    ensures Effect(op, regs)[nil] == regs[nil]
  {
    hide AddAll;
    var MulAdd(c, s, t, ds, pre, _) := op;
    if regs[c] > 0 {
      var a, b := regs[c] * regs[s], (regs[c] - 1) * regs[t];
      AddKeeps(regs, ds, a, nil);
      AddKeeps(regs[s := regs[s] + regs[t]], ds, a + b, nil);
    }
  }

  lemma DivBinLeaves(op: Op, nil: nat, regs: Regs)
    requires op.DivBin? && OpOk(op, |regs|) && nil < |regs| && !Feeds(op, nil) && !Reads(op, nil)
    ensures Effect(op, regs)[nil] == regs[nil]
  {
    hide AddAll;
    if regs[op.p] > 0 {
      AddKeeps(regs, op.xs, regs[op.reg], nil);
    }
  }

  /** What threading starts from and what it makes. */
  ghost predicate ThreadPair(r: Program, t: Program, nil: nat, n: nat) {
    && ProgOk(r, n) && Unread(r, nil) && NeverFed(r, nil) && ClearsSpin(r, nil)
    && SentTo(r, t, nil, |r|, 0) && nil < n
  }

  /** Control is not at a no-op, or at one whose chain has no end. */
  ghost predicate PastNoOps(r: Program, nil: nat, pc: nat) {
    NilTake(r, nil, pc) ==> Stuck(r, nil, pc)
  }

  /** The instruction a halting run of the threaded program is at. */
  lemma HaltingAt(r: Program, t: Program, nil: nat, c: Config, k: nat, d: Config)
    requires ThreadPair(r, t, nil, |c.regs|) && HaltsIn(t, c, k, d) && k > 0 && PastNoOps(r, nil, c.pc)
    ensures c.pc < |r| == |t| && !NilTake(r, nil, c.pc) && ThreadedOp(r, nil, r[c.pc], t[c.pc])
    ensures !(r[c.pc].Zero? && r[c.pc].reg == nil)
  {
    hide Stuck, Follows, ProgOk, Unread, NeverFed, Targets, WithTargets, Sent;
    ThreadedAt(r, t, nil, c.pc);
    if NilTake(r, nil, c.pc) {
      StuckDiverges(r, nil, c.pc, c.regs);
      ThreadedDiverges(r, t, nil, c.pc, c.regs);
    }
    var op := r[c.pc];
    if op.Zero? && op.reg == nil {
      ClearStays(r, t, nil, c.pc);
      ClearDiverges(t, nil, c.pc, c.regs);
    }
  }

  lemma ClearStays(r: Program, t: Program, nil: nat, i: nat)
    requires SentTo(r, t, nil, |r|, 0) && ClearsSpin(r, nil) && i < |r| && r[i].Zero? && r[i].reg == nil
    ensures i < |t| && t[i] == Zero(nil, i)
  {
    hide Follows;
    ThreadedAt(r, t, nil, i);
    assert InstState(r, t, nil, |r|, 0, i);
    assert SlotState(r, t, nil, |r|, 0, i, 0);
    assert Targets(r[i])[0] == i;
    assert NilPath(r, nil, i, i, 0) && !NilTake(r, nil, i);
  }

  /** One move of the threaded program past the no-ops leaves `nil` alone and stays past them. */
  lemma PastMove(r: Program, t: Program, nil: nat, c: Config, k: nat, d: Config)
    requires ThreadPair(r, t, nil, |c.regs|) && HaltsIn(t, c, k, d) && k > 0 && PastNoOps(r, nil, c.pc)
    ensures !Stopped(t, c) && OpOk(t[c.pc], |c.regs|)
    ensures var e := Next(t, c);
            |e.regs| == |c.regs| && e.regs[nil] == c.regs[nil] && PastNoOps(r, nil, e.pc)
  {
    hide Follows, Targets, WithTargets, Sent, Stuck, OpOk, Effect, Target, Spins, Pick, Feeds, Reads, ClearsSpin,
      Threaded;
    HaltingAt(r, t, nil, c, k, d);
    var op, op' := r[c.pc], t[c.pc];
    assert OpOk(op, |c.regs|) && !Reads(op, nil) && !Feeds(op, nil);
    assert !op.End? by { ThreadedAt(r, t, nil, c.pc); }
    Retargeted(op, Targets(op'), c.pc, c.regs);
    NilKept(op, nil, c.regs);
    if !Spins(op, c.regs) {
      SentTarget(r, t, nil, c.pc, Pick(op, c.regs));
    }
  }

  lemma SentTarget(r: Program, t: Program, nil: nat, i: nat, k: nat)
    requires SentTo(r, t, nil, |r|, 0) && i < |r| && k < |Targets(r[i])|
    ensures |t| == |r| && k < |Targets(t[i])| && PastNoOps(r, nil, Targets(t[i])[k])
  {
    hide Targets, WithTargets, Sent, Stuck, Follows;
    ThreadedAt(r, t, nil, i);
    assert InstState(r, t, nil, |r|, 0, i);
    assert SlotState(r, t, nil, |r|, 0, i, k);
    assert Follows(r, nil, Targets(r[i])[k], Targets(t[i])[k]);
    if NilTake(r, nil, Targets(t[i])[k]) {
      SentStuck(r, nil, Targets(r[i])[k], Targets(t[i])[k]);
    }
  }

  lemma {:induction false} PastKeeps(r: Program, t: Program, nil: nat, c: Config, k: nat, d: Config)
    requires ThreadPair(r, t, nil, |c.regs|) && HaltsIn(t, c, k, d) && PastNoOps(r, nil, c.pc)
    ensures |d.regs| == |c.regs| && d.regs[nil] == c.regs[nil]
    decreases k
  {
    hide ThreadPair, PastNoOps, Next, OpOk;
    if k > 0 {
      assert nil < |c.regs| by { PairSize(r, t, nil, |c.regs|); }
      PastMove(r, t, nil, c, k, d);
      PastKeeps(r, t, nil, Next(t, c), k - 1, d);
    } else {
      PairSize(r, t, nil, |c.regs|);
    }
  }

  lemma PairSize(r: Program, t: Program, nil: nat, n: nat)
    requires ThreadPair(r, t, nil, n)
    ensures nil < n
  {
  }

  function Less(x: nat, y: nat): nat {
    if x < y then 0 else x - y
  }

  /** One if the program starts with a no-op. */
  function Leading(p: Program, nil: nat): nat {
    if NilTake(p, nil, 0) then 1 else 0
  }

  /** A halting run of the threaded program takes from `nil` at its first move or not at all. */
  lemma ThreadedTakes(r: Program, t: Program, nil: nat, v: Regs, k: nat, d: Config)
    requires ThreadPair(r, t, nil, |v|) && HaltsIn(t, Config(0, v), k, d)
    ensures |d.regs| == |v| && d.regs[nil] == Less(v[nil], Leading(r, nil))
  {
    hide Threaded, Sent, Stuck, ClearsSpin, Targets, WithTargets;
    var c := Config(0, v);
    if NilTake(r, nil, 0) {
      ThreadedTake(r, t, nil, 0);
      assert OpOk(r[0], |v|);
      var e := Next(t, c);
      DebTargets(r[0]);
      SentTarget(r, t, nil, 0, 0);
      SentTarget(r, t, nil, 0, 1);
      DebTargets(t[0]);
      PastKeeps(r, t, nil, e, k - 1, d);
    } else {
      PastKeeps(r, t, nil, c, k, d);
    }
  }

  lemma DebTargets(op: Op)
    requires op.Deb?
    ensures Targets(op) == [op.onTake, op.onZero]
  {
  }

  /** How many of the first `k` moves from `c` take from `nil`, or find it empty. */
  ghost function NilMoves(p: Program, nil: nat, c: Config, k: nat): nat
    decreases k
  {
    if k == 0 || Stopped(p, c) || !OpOk(p[c.pc], |c.regs|) then 0
    else (if NilTake(p, nil, c.pc) then 1 else 0) + NilMoves(p, nil, Next(p, c), k - 1)
  }

  /** The raw program takes from `nil` at every no-op it meets. */
  lemma {:induction false} RawTakes(p: Program, nil: nat, c: Config, k: nat, d: Config)
    requires IsRaw(p) && NeverFed(p, nil) && Reaches(p, c, k, d) && nil < |c.regs|
    ensures |d.regs| == |c.regs| && d.regs[nil] == Less(c.regs[nil], NilMoves(p, nil, c, k))
    decreases k
  {
    if k > 0 {
      assert IsRawOp(p[c.pc]) && !Feeds(p[c.pc], nil);
      RawTakes(p, nil, Next(p, c), k - 1, d);
    }
  }

  // ---------------------------------------------------------------------------
  // What folding and renumbering leave for threading
  // ---------------------------------------------------------------------------

  /** The one foldable loop that starts with a take of `nil` is the take that jumps to itself. */
  lemma FoldOnNil(p: Program, nil: nat, f: Fold)
    requires Plain(p, nil) && GoodFold(p, f) && (NilTake(p, nil, f.start) || (f.op.Zero? && f.op.reg == nil))
    ensures f.op == Zero(nil, f.start) && p[f.start] == Deb(nil, f.start, f.start)
  {
    hide RunRegs, Without, Times, Distinct, Private, Plain;
    FoldUnread(p, nil, f);
    match f.op
    case DivBin(_, _, _, _, _, _) => PlainAt(p, nil, f.start);
    case DivMod(_, _, _) => DivModStart(p, f);
    case Zero(_, _) => ZeroOnNil(p, nil, f);
    case _ =>
  }

  lemma DivModStart(p: Program, f: Fold)
    requires DivModLoop(p, f)
    ensures f.start + 1 < |p| && p[f.start].Deb? && p[f.start + 1].Deb?
    ensures p[f.start].reg == p[f.start + 1].reg == f.op.reg
  {
    hide RunRegs;
    var es := f.op.exits;
    assert p[f.start + 0] == Deb(f.op.reg, es[0], f.start + 1);
    var last := if f.op.dsts == [] then f.start else f.start + |es|;
    assert p[f.start + 1] == Deb(f.op.reg, es[1], if 2 < |es| then f.start + 2 else last);
  }

  lemma ZeroOnNil(p: Program, nil: nat, f: Fold)
    requires Plain(p, nil) && ZeroLoop(p, f) && (NilTake(p, nil, f.start) || f.op.reg == nil)
    ensures f.op == Zero(nil, f.start) && p[f.start] == Deb(nil, f.start, f.start)
  {
  }

  lemma FoldedClears(p: Program, nil: nat, folds: seq<Fold>, i: nat)
    requires IsRaw(p) && Plain(p, nil) && Laid(p, folds) && i < |p|
    ensures var op := FoldedOps(p, folds)[i];
            op.Zero? && op.reg == nil ==> op.exit == i
  {
    hide GoodFold, Plain;
    if Starts(folds, i) {
      var j :| 0 <= j < |folds| && folds[j].start == i;
      FoldedAt(p, folds, j);
      assert GoodFold(p, folds[j]);
      if folds[j].op.Zero? && folds[j].op.reg == nil {
        FoldOnNil(p, nil, folds[j]);
      }
    } else {
      assert IsRawOp(p[i]);
    }
  }

  lemma RemappedClears(p: Program, nil: nat, folds: seq<Fold>, m: seq<nat>, r: Program)
    requires IsRaw(p) && Plain(p, nil) && Laid(p, folds)
    requires Renumbered(FoldedOps(p, folds), VisibleOf(p, folds), m, r)
    ensures ClearsSpin(r, nil)
  {
    hide Plain, Laid, FoldedOps;
    var vis := VisibleOf(p, folds);
    forall j | 0 <= j < |r| && r[j].Zero? && r[j].reg == nil ensures r[j].exit == j {
      var i := Unrank(vis, |vis|, j);
      FoldedClears(p, nil, folds, i);
    }
  }

  /** The first instruction is a no-op after folding and renumbering exactly if it was before,
      unless it only jumps to itself. */
  lemma LeadingKept(p: Program, nil: nat, folds: seq<Fold>, m: seq<nat>, r: Program)
    requires IsRaw(p) && Plain(p, nil) && Laid(p, folds) && |p| > 0 && p[0] != Deb(nil, 0, 0)
    requires Renumbered(FoldedOps(p, folds), VisibleOf(p, folds), m, r)
    ensures Leading(r, nil) == Leading(p, nil)
  {
    hide Plain, GoodFold, FoldedOps;
    var ops, vis := FoldedOps(p, folds), VisibleOf(p, folds);
    assert vis[0];
    RenumberedSizes(ops, vis, m, r);
    assert |r| > 0 && r[0] == RetargetBy(ops[0], m);
    FirstFolded(p, nil, folds);
  }

  lemma FirstFolded(p: Program, nil: nat, folds: seq<Fold>)
    requires IsRaw(p) && Plain(p, nil) && Laid(p, folds) && |p| > 0 && p[0] != Deb(nil, 0, 0)
    ensures NilTake(FoldedOps(p, folds), nil, 0) <==> NilTake(p, nil, 0)
  {
    hide Plain, GoodFold;
    if Starts(folds, 0) {
      var j :| 0 <= j < |folds| && folds[j].start == 0;
      FoldedAt(p, folds, j);
      assert GoodFold(p, folds[j]);
      FoldIsFold(p, folds[j]);
      if NilTake(p, nil, 0) {
        FoldOnNil(p, nil, folds[j]);
      }
    }
  }

  lemma FoldIsFold(p: Program, f: Fold)
    requires GoodFold(p, f)
    ensures !f.op.Deb?
  {
    hide LoopShape, Private;
    ShapeRange(p, f);
  }

  lemma SelfNoOp(p: Program, nil: nat, v: Regs)
    requires |p| > 0 && p[0] == Deb(nil, 0, 0) && nil < |v|
    ensures Diverges(p, Config(0, v))
  {
    var region := (c: Config) => c.pc == 0 && nil < |c.regs|;
    forall c | region(c) ensures MovesWithin(p, region, c) {
      var d := Next(p, c);
      assert Reaches(p, d, 0, d) && Reaches(p, c, 1, d);
      assert region(d);
    }
    forall k: nat, d ensures !HaltsIn(p, Config(0, v), k, d) {
      ForeverWithin(p, region, Config(0, v), k, d);
    }
  }

  /** Folding, renumbering and threading set up what `ThreadedTakes` needs. */
  lemma OptimizedPair(p: Program, isDev: seq<bool>, nil: nat, folds: seq<Fold>, m: seq<nat>, r: Program, n: nat)
    requires IsRaw(p) && ProgOk(p, n) && Plain(p, nil) && NeverFed(p, nil) && nil < n
    requires Greedy(p, isDev, folds, |p|)
    requires Renumbered(FoldedOps(p, folds), VisibleOf(p, folds), m, r)
    ensures Laid(p, folds) && ThreadPair(r, ThreadFrom(r, nil, 0), nil, n)
    ensures ProgOk(ThreadFrom(r, nil, 0), n)
  {
    hide Greedy, Renumbered, ProgOk, Plain, NeverFed, Unread, ClearsSpin, SentTo, Refines, Laid, ThreadFrom, Threaded;
    FoldedAnywhere(p, isDev, folds, m, r, n);
    RemappedUnread(p, nil, folds, m, r);
    RemappedNeverFed(p, folds, m, r, nil);
    RemappedClears(p, nil, folds, m, r);
    ThreadedToEnds(r, nil);
    ThreadedSelf(r, nil);
    ThreadFromThreaded(r, r, nil, 0);
    ThreadedOk(r, ThreadFrom(r, nil, 0), nil, n);
  }

  /** A halting run of the optimized program leaves in `nil` what it started with, less one
      bean if the program starts with a no-op. */
  lemma OptimizedNil(p: Program, isDev: seq<bool>, nil: nat, q: Program, v: Regs, m: nat, res: Regs, fell: bool)
    requires IsRaw(p) && ProgOk(p, |v|) && Plain(p, nil) && NeverFed(p, nil) && nil < |v|
    requires Optimized(p, isDev, nil, q) && Halts(q, v, m, res, fell) && |p| > 0 && p[0] != Deb(nil, 0, 0)
    ensures |res| == |v| && res[nil] == Less(v[nil], Leading(p, nil))
  {
    hide Greedy, Renumbered, Pruned, ProgOk, Plain, NeverFed, Refines, Laid, ThreadPair, Leading, HaltsIn,
      FoldedOps, VisibleOf;
    var folds: seq<Fold>, map': seq<nat>, r: Program :|
      && Greedy(p, isDev, folds, |p|)
      && Renumbered(FoldedOps(p, folds), VisibleOf(p, folds), map', r)
      && Pruned(ThreadFrom(r, nil, 0), q);
    var t := ThreadFrom(r, nil, 0);
    OptimizedPair(p, isDev, nil, folds, map', r, |v|);
    PrunedRefines(t, q, |v|, |v|);
    RefinesAt(t, q, |v|, |v|, v, m, res, fell);
    var k: nat :| k >= m && Halts(t, v, k, res, fell);
    var d :| HaltsIn(t, Config(0, v), k, d) && d.regs == res && fell == (d.pc >= |t|);
    ThreadedTakes(r, t, nil, v, k, d);
    LeadingKept(p, nil, folds, map', r);
  }

  /** When both programs halt, the raw one has taken from `nil` at every no-op it met and the
      optimized one at most at its first move; `nil` itself agrees exactly when the first move
      was the only such take, or had already emptied it. */
  lemma NilAgrees(p: Program, isDev: seq<bool>, nil: nat, q: Program, v: Regs,
                  k: nat, res: Regs, fell: bool, m: nat, res': Regs, fell': bool)
    requires IsRaw(p) && ProgOk(p, |v|) && Plain(p, nil) && NeverFed(p, nil) && nil < |v|
    requires Optimized(p, isDev, nil, q) && Halts(p, v, k, res, fell) && Halts(q, v, m, res', fell')
    ensures |res| == |v| == |res'|
    ensures res[nil] == Less(v[nil], NilMoves(p, nil, Config(0, v), k))
    ensures res'[nil] == Less(v[nil], Leading(p, nil))
    ensures res[nil] == res'[nil] <==>
              v[nil] <= Leading(p, nil) || NilMoves(p, nil, Config(0, v), k) == Leading(p, nil)
  {
    hide Optimized, ProgOk, Plain, NeverFed, Reaches;
    var d :| HaltsIn(p, Config(0, v), k, d) && d.regs == res && fell == (d.pc >= |p|);
    RawTakes(p, nil, Config(0, v), k, d);
    if p == [] {
      EmptyOptimized(p, isDev, nil, q);
      var d' :| HaltsIn(q, Config(0, v), m, d') && d'.regs == res' && fell' == (d'.pc >= |q|);
      NoMoves(p, v, k, d);
      NoMoves(q, v, m, d');
    } else {
      if p[0] == Deb(nil, 0, 0) {
        SelfNoOp(p, nil, v);
      }
      OptimizedNil(p, isDev, nil, q, v, m, res', fell');
      LeadingCounted(p, nil, v, k, d);
    }
  }

  /** No jump from instruction 0, or from what such jumps lead to, leads to a no-op. */
  ghost predicate NoOpsBehind(p: Program, nil: nat) {
    forall i, k: nat :: k >= 1 && ReachedIn(p, 0, i, k) ==> !NilTake(p, nil, i)
  }

  lemma {:induction false} BehindNone(p: Program, nil: nat, c: Config, k: nat, d: Config, j: nat)
    requires IsRaw(p) && NoOpsBehind(p, nil) && Reaches(p, c, k, d) && ReachedIn(p, 0, c.pc, j) && j >= 1
    ensures NilMoves(p, nil, c, k) == 0
    decreases k
  {
    hide Effect;
    if k > 0 {
      ReachMove(p, c, j);
      BehindNone(p, nil, Next(p, c), k - 1, d, j + 1);
    }
  }

  /** A move follows a jump. */
  lemma ReachMove(p: Program, c: Config, j: nat)
    requires IsRaw(p) && !Stopped(p, c) && OpOk(p[c.pc], |c.regs|) && ReachedIn(p, 0, c.pc, j)
    ensures ReachedIn(p, 0, Next(p, c).pc, j + 1)
  {
    hide Effect, Targets, ReachedIn;
    var op := p[c.pc];
    assert IsRawOp(op);
    TargetPicked(op, c.pc, c.regs);
    assert Next(p, c).pc == Targets(op)[Pick(op, c.regs)];
    ReachJump(p, c.pc, Pick(op, c.regs), j);
  }

  lemma ReachJump(p: Program, i: nat, k: nat, j: nat)
    requires i < |p| && ReachedIn(p, 0, i, j) && k < |Targets(p[i])|
    ensures ReachedIn(p, 0, Targets(p[i])[k], j + 1)
  {
    hide Targets;
  }

  /** If the program has no no-op but one it may start with and never comes back to, `nil` agrees
      from every bank. */
  lemma NilAgreesAnywhere(p: Program, isDev: seq<bool>, nil: nat, q: Program, v: Regs,
                          k: nat, res: Regs, fell: bool, m: nat, res': Regs, fell': bool)
    requires IsRaw(p) && ProgOk(p, |v|) && Plain(p, nil) && NeverFed(p, nil) && nil < |v|
    requires Optimized(p, isDev, nil, q) && Halts(p, v, k, res, fell) && Halts(q, v, m, res', fell')
    requires NoOpsBehind(p, nil)
    ensures |res| == |v| == |res'| && res[nil] == res'[nil]
  {
    hide Optimized, ProgOk, Plain, NeverFed, Reaches, NoOpsBehind, ReachedIn, Next, OpOk;
    NilAgrees(p, isDev, nil, q, v, k, res, fell, m, res', fell');
    var c := Config(0, v);
    var d :| HaltsIn(p, c, k, d) && d.regs == res && fell == (d.pc >= |p|);
    if k == 0 {
      NoneAtOnce(p, nil, c, d);
    } else {
      FirstMove(p, nil, c, k, d);
      StartReached(p);
      ReachMove(p, c, 0);
      BehindNone(p, nil, Next(p, c), k - 1, d, 1);
    }
  }

  lemma StartReached(p: Program)
    ensures ReachedIn(p, 0, 0, 0)
  {
  }

  lemma NoneAtOnce(p: Program, nil: nat, c: Config, d: Config)
    requires HaltsIn(p, c, 0, d) && c.pc == 0
    ensures NilMoves(p, nil, c, 0) == Leading(p, nil)
  {
  }

  lemma FirstMove(p: Program, nil: nat, c: Config, k: nat, d: Config)
    requires HaltsIn(p, c, k, d) && c.pc == 0 && k > 0
    ensures !Stopped(p, c) && OpOk(p[0], |c.regs|) && Reaches(p, Next(p, c), k - 1, d)
    ensures NilMoves(p, nil, c, k) == Leading(p, nil) + NilMoves(p, nil, Next(p, c), k - 1)
  {
    hide Next, OpOk;
  }

  lemma NoMoves(p: Program, v: Regs, k: nat, d: Config)
    requires p == [] && HaltsIn(p, Config(0, v), k, d)
    ensures k == 0 && d == Config(0, v)
  {
  }

  lemma LeadingCounted(p: Program, nil: nat, v: Regs, k: nat, d: Config)
    requires HaltsIn(p, Config(0, v), k, d)
    ensures NilMoves(p, nil, Config(0, v), k) >= Leading(p, nil)
  {
  }

  lemma EmptyOptimized(p: Program, isDev: seq<bool>, nil: nat, q: Program)
    requires Optimized(p, isDev, nil, q) && p == []
    ensures q == []
  {
    hide Greedy;
    var folds: seq<Fold>, map': seq<nat>, r: Program :|
      && Greedy(p, isDev, folds, |p|)
      && Renumbered(FoldedOps(p, folds), VisibleOf(p, folds), map', r)
      && Pruned(ThreadFrom(r, nil, 0), q);
    assert r == [];
    var m: seq<nat> :| Renumbered(r, ReachSet(r), m, q);
  }

  // ---------------------------------------------------------------------------
  // A program for which it matters
  // ---------------------------------------------------------------------------

  /** A give, a no-op behind it, and the halt. */
  function GiveThenNoOp(): Program {
    [Inc(0, 1), Deb(1, 2, 2), End]
  }

  /** Started with a bean in `nil`, the program ends with `nil` empty and its optimized form,
      the no-op gone, with the bean still there: comparing every register finds a mismatch. */
  lemma NilMatters()
    ensures IsRaw(GiveThenNoOp()) && ProgOk(GiveThenNoOp(), 2)
    ensures Plain(GiveThenNoOp(), 1) && NeverFed(GiveThenNoOp(), 1)
    ensures Optimized(GiveThenNoOp(), [], 1, [Inc(0, 1), End])
    ensures Ends(GiveThenNoOp(), [0, 1], 2, [1, 0]) && Ends([Inc(0, 1), End], [0, 1], 1, [1, 1])
  {
    hide Ends, Optimized;
    NoOpOptimized();
    NoOpRuns();
  }

  lemma NoOpRuns()
    ensures Ends(GiveThenNoOp(), [0, 1], 2, [1, 0]) && Ends([Inc(0, 1), End], [0, 1], 1, [1, 1])
  {
    var p, q := GiveThenNoOp(), [Inc(0, 1), End];
    var a, b, c := Config(0, [0, 1]), Config(1, [1, 1]), Config(2, [1, 0]);
    assert Next(p, a) == b && Next(p, b) == c && Next(q, a) == b;
    assert Reaches(p, c, 0, c) && Reaches(p, b, 1, c) && Reaches(p, a, 2, c);
    assert Reaches(q, b, 0, b) && Reaches(q, a, 1, b);
    assert HaltsIn(p, a, 2, c) && HaltsIn(q, a, 1, b);
  }

  /** A program without foldable loops reaches threading as it is. */
  lemma NothingFolds(p: Program, m: seq<nat>)
    requires forall f: Fold :: !GoodFold(p, f)
    requires m == seq(|p|, i => i)
    ensures Greedy(p, [], [], |p|)
    ensures Renumbered(FoldedOps(p, []), VisibleOf(p, []), m, p)
  {
    hide GoodFold, TouchesDevice;
    forall i | 0 <= i < |p| ensures PassedOver(p, [], i) {
      assert FirstOf(p, i, None);
    }
    var vis := VisibleOf(p, []);
    assert FoldedOps(p, []) == p;
    RankAll(vis, |p|);
    forall i | 0 <= i < |p| ensures m[i] == Rank(vis, i) && RetargetBy(p[i], m) == p[i] {
      RankAll(vis, i);
      assert Remap(m, Targets(p[i])) == Targets(p[i]);
      SameTargets(p[i]);
    }
  }

  lemma NoOpOptimized()
    ensures Optimized(GiveThenNoOp(), [], 1, [Inc(0, 1), End])
  {
    hide Greedy, Renumbered, Pruned, FoldedOps, VisibleOf, ThreadFrom, GoodFold;
    var p, m := GiveThenNoOp(), seq(3, i => i);
    forall f: Fold ensures !GoodFold(p, f) {
      NoOpHoldsNoLoop(f);
    }
    NothingFolds(p, m);
    NoOpThreaded();
    NoOpPruned();
    assert Greedy(p, [], [], |p|) && Renumbered(FoldedOps(p, []), VisibleOf(p, []), m, p);
  }

  lemma NoOpHoldsNoLoop(f: Fold)
    ensures !GoodFold(GiveThenNoOp(), f)
  {
    hide RunRegs, Without, Times, Distinct, PrivateRange, DivModLoop;
    if GoodFold(GiveThenNoOp(), f) && f.op.DivMod? {
      DivModStart(GiveThenNoOp(), f);
    }
  }

  lemma NoOpThreaded()
    ensures ThreadFrom(GiveThenNoOp(), 1, 0) == [Inc(0, 2), Deb(1, 2, 2), End]
  {
    var p, t := GiveThenNoOp(), [Inc(0, 2), Deb(1, 2, 2), End];
    assert ThreadTarget(p, 1, 2, 2) == 2 && ThreadTarget(p, 1, 1, 3) == 2;
    assert ThreadTarget(t, 1, 2, 3) == 2;
    assert ThreadSlots(p, 1, 0, 0) == t;
    assert ThreadSlots(t, 1, 1, 2) == t && ThreadSlots(t, 1, 1, 1) == t && ThreadSlots(t, 1, 1, 0) == t;
    assert ThreadSlots(t, 1, 2, 0) == t;
    assert ThreadFrom(t, 1, 3) == t && ThreadFrom(t, 1, 2) == t && ThreadFrom(t, 1, 1) == t;
  }

  lemma NoOpPruned()
    ensures Pruned([Inc(0, 2), Deb(1, 2, 2), End], [Inc(0, 1), End])
  {
    hide ReachedIn, Reachable;
    var t, q, m := [Inc(0, 2), Deb(1, 2, 2), End], [Inc(0, 1), End], [0, 1, 1];
    ReachZero(t);
    ReachNext(t, 0, 0);
    NoOpUnreached();
    var vis := ReachSet(t);
    assert vis == [true, false, true];
    assert Rank(vis, 1) == 1 && Rank(vis, 2) == 1 && Rank(vis, 3) == 2;
    assert Renumbered(t, vis, m, q);
  }

  lemma NoOpUnreached()
    ensures !Reachable([Inc(0, 2), Deb(1, 2, 2), End], 1)
  {
    hide ReachedIn;
    var t, vis := [Inc(0, 2), Deb(1, 2, 2), End], [true, false, true];
    forall k: nat ensures !ReachedIn(t, 0, 1, k) {
      if ReachedIn(t, 0, 1, k) {
        ReachedWithin(t, vis, 0, 1, k);
      }
    }
  }

  // ---------------------------------------------------------------------------
  // Coming back to a leading no-op
  // ---------------------------------------------------------------------------

  /** A label on a line of its own, and a take that jumps back to it. */
  function LoopBack(): Program {
    [Deb(0, 1, 1), Deb(1, 2, 0), End]
  }

  /** That the only no-op is the first instruction is not enough: the raw program meets it once a
      round, the optimized one only at its first move. */
  lemma ComingBackMatters()
    ensures IsRaw(LoopBack()) && ProgOk(LoopBack(), 2) && Plain(LoopBack(), 0) && NeverFed(LoopBack(), 0)
    ensures forall i :: 0 < i < 3 ==> !NilTake(LoopBack(), 0, i)
    ensures Optimized(LoopBack(), [], 0, [Deb(0, 1, 1), Deb(1, 2, 1), End])
    ensures Ends(LoopBack(), [2, 1], 4, [0, 0])
    ensures Ends([Deb(0, 1, 1), Deb(1, 2, 1), End], [2, 1], 3, [1, 0])
  {
    hide Ends, Optimized;
    LoopBackOptimized();
    LoopBackRuns();
  }

  lemma LoopBackRuns()
    ensures Ends(LoopBack(), [2, 1], 4, [0, 0])
    ensures Ends([Deb(0, 1, 1), Deb(1, 2, 1), End], [2, 1], 3, [1, 0])
  {
    RawLoopRuns();
    ThreadedLoopRuns();
  }

  lemma RawLoopRuns()
    ensures Ends(LoopBack(), [2, 1], 4, [0, 0])
  {
    var p, a, b, c := LoopBack(), Config(0, [2, 1]), Config(1, [1, 1]), Config(0, [1, 0]);
    var d, e := Config(1, [0, 0]), Config(2, [0, 0]);
    assert Next(p, a) == b && Next(p, b) == c && Next(p, c) == d && Next(p, d) == e;
    assert Reaches(p, e, 0, e) && Reaches(p, d, 1, e) && Reaches(p, c, 2, e) && Reaches(p, b, 3, e);
    assert HaltsIn(p, a, 4, e);
  }

  lemma ThreadedLoopRuns()
    ensures Ends([Deb(0, 1, 1), Deb(1, 2, 1), End], [2, 1], 3, [1, 0])
  {
    var q, a, b := [Deb(0, 1, 1), Deb(1, 2, 1), End], Config(0, [2, 1]), Config(1, [1, 1]);
    var c, d := Config(1, [1, 0]), Config(2, [1, 0]);
    assert Next(q, a) == b && Next(q, b) == c && Next(q, c) == d;
    assert Reaches(q, d, 0, d) && Reaches(q, c, 1, d) && Reaches(q, b, 2, d);
    assert HaltsIn(q, a, 3, d);
  }

  lemma LoopBackOptimized()
    ensures Optimized(LoopBack(), [], 0, [Deb(0, 1, 1), Deb(1, 2, 1), End])
  {
    hide Greedy, Renumbered, Pruned, FoldedOps, VisibleOf, ThreadFrom, GoodFold;
    var p, m := LoopBack(), seq(3, i => i);
    forall f: Fold ensures !GoodFold(p, f) {
      LoopBackHoldsNoLoop(f);
    }
    NothingFolds(p, m);
    LoopBackThreaded();
    LoopBackReached();
    assert Greedy(p, [], [], |p|) && Renumbered(FoldedOps(p, []), VisibleOf(p, []), m, p);
  }

  lemma LoopBackHoldsNoLoop(f: Fold)
    ensures !GoodFold(LoopBack(), f)
  {
    hide RunRegs, Without, Times, Distinct, PrivateRange, DivModLoop;
    if GoodFold(LoopBack(), f) && f.op.DivMod? {
      DivModStart(LoopBack(), f);
    }
  }

  lemma LoopBackThreaded()
    ensures ThreadFrom(LoopBack(), 0, 0) == [Deb(0, 1, 1), Deb(1, 2, 1), End]
  {
    var p, t := LoopBack(), [Deb(0, 1, 1), Deb(1, 2, 1), End];
    assert ThreadTarget(p, 0, 1, 2) == 1 && ThreadTarget(p, 0, 1, 3) == 1 && ThreadTarget(p, 0, 0, 3) == 1;
    assert ThreadTarget(t, 0, 2, 3) == 2;
    assert ThreadSlots(p, 0, 0, 2) == p && ThreadSlots(p, 0, 0, 1) == p && ThreadSlots(p, 0, 0, 0) == p;
    assert ThreadSlots(t, 0, 1, 2) == t && ThreadSlots(t, 0, 1, 1) == t && ThreadSlots(p, 0, 1, 0) == t;
    assert ThreadSlots(t, 0, 2, 0) == t;
    assert ThreadFrom(t, 0, 3) == t && ThreadFrom(t, 0, 2) == t && ThreadFrom(p, 0, 1) == t;
  }

  lemma LoopBackReached()
    ensures Pruned([Deb(0, 1, 1), Deb(1, 2, 1), End], [Deb(0, 1, 1), Deb(1, 2, 1), End])
  {
    hide Reachable;
    var t := [Deb(0, 1, 1), Deb(1, 2, 1), End];
    ReachZero(t);
    ReachNext(t, 0, 0);
    ReachNext(t, 1, 1);
    PrunedNothing(t);
  }
}
