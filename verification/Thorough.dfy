/** How much the passes take out: neither the optimizer nor the tally encoder leaves an
    instruction that control cannot come to, nor a jump to a no-op. */
module Thorough {
  import opened Machine
  import opened Passes
  import opened Folding
  import opened Renumbering
  import opened Threading
  import opened Optimizer
  import opened NilRegister
  import opened NilValue
  import opened Cleaning

  // ---------------------------------------------------------------------------
  // No dead code
  // ---------------------------------------------------------------------------

  /** The set holds whatever its members jump to. */
  ghost predicate ClosedUnder(q: Program, s: seq<bool>) {
    && |s| == |q|
    && forall i, k :: 0 <= i < |q| && s[i] && 0 <= k < |Targets(q[i])| && Targets(q[i])[k] < |q| ==>
         s[Targets(q[i])[k]]
  }

  lemma RetargetTargets(op: Op, m: seq<nat>)
    ensures Targets(RetargetBy(op, m)) == Remap(m, Targets(op))
  {
    TargetsKept(op, Remap(m, Targets(op)));
  }

  /** The instructions whose new positions are in the set form a set closed in the old program. */
  lemma PulledBack(ops: Program, vis: seq<bool>, m: seq<nat>, q: Program, s: seq<bool>, back: seq<bool>)
    requires Renumbered(ops, vis, m, q) && Closed(ops, vis) && ClosedUnder(q, s) && |back| == |ops|
    requires forall i :: 0 <= i < |ops| ==> (back[i] <==> vis[i] && m[i] < |s| && s[m[i]])
    ensures Trap(ops, back)
  {
    hide Targets, RetargetBy, Rank;
    forall i | 0 <= i < |ops| && back[i] ensures StaysIn(Targets(ops[i]), back) {
      RetargetTargets(ops[i], m);
      forall k | 0 <= k < |Targets(ops[i])| && Targets(ops[i])[k] < |back| ensures back[Targets(ops[i])[k]] {
        ClosedAt(ops, vis, i, k);
        assert Targets(q[m[i]])[k] == m[Targets(ops[i])[k]];
      }
    }
  }

  /** Every instruction of an optimized program can be come to: a set of them that holds the first
      and whatever its members jump to holds them all. */
  lemma NoDeadCode(p: Program, isDev: seq<bool>, nil: nat, q: Program, s: seq<bool>)
    requires Optimized(p, isDev, nil, q) && ClosedUnder(q, s) && (|q| > 0 ==> s[0])
    ensures forall j :: 0 <= j < |q| ==> s[j]
  {
    hide Greedy, Renumbered, ClosedUnder;
    var folds, m', r :|
      && Greedy(p, isDev, folds, |p|)
      && Renumbered(FoldedOps(p, folds), VisibleOf(p, folds), m', r)
      && Pruned(ThreadFrom(r, nil, 0), q);
    NonePruned(ThreadFrom(r, nil, 0), q, s);
  }

  lemma NonePruned(ops: Program, q: Program, s: seq<bool>)
    requires Pruned(ops, q) && ClosedUnder(q, s) && (|q| > 0 ==> s[0])
    ensures forall j :: 0 <= j < |q| ==> s[j]
  {
    hide Targets, RetargetBy, Rank, ReachedIn;
    var vis := ReachSet(ops);
    var m: seq<nat> :| Renumbered(ops, vis, m, q);
    ReachClosed(ops);
    var back := seq(|ops|, i requires 0 <= i < |ops| => vis[i] && m[i] < |s| && s[m[i]]);
    PulledBack(ops, vis, m, q, s, back);
    RenumberedSizes(ops, vis, m, q);
    forall j | 0 <= j < |q| ensures s[j] {
      var i := Unrank(vis, |vis|, j);
      var k: nat :| ReachedIn(ops, 0, i, k);
      ReachZero(ops);
      ReachedWithin(ops, back, 0, i, k);
    }
  }

  // ---------------------------------------------------------------------------
  // No jump to a no-op
  // ---------------------------------------------------------------------------

  lemma TakeKept(op: Op, m: seq<nat>)
    ensures var op' := RetargetBy(op, m);
            && (op'.Deb? <==> op.Deb?) && (op.Deb? ==> op'.reg == op.reg && op'.onZero == Lookup(m, op.onZero))
  {
    if op.Deb? {
      assert Targets(op)[1] == op.onZero;
    }
  }

  /** The no-ops a stuck chain of the program before threading goes through are no-ops of the
      threaded, pruned program too. */
  lemma {:induction false} StuckKept(r: Program, nil: nat, q: Program, m: seq<nat>, a: nat, e: nat, h: nat)
    requires var t := ThreadFrom(r, nil, 0);
             && Threaded(r, t, nil) && Renumbered(t, ReachSet(t), m, q) && Closed(t, ReachSet(t))
             && Stuck(r, nil, a) && a < |t| && ReachSet(t)[a] && m[a] < |q| && NilPath(q, nil, m[a], e, h)
    ensures e < |q| && q[e].Deb? && q[e].reg == nil
    decreases h
  {
    hide ThreadFrom, Threaded, Targets, RetargetBy, Rank, Closed, Stuck, ReachSet;
    var t := ThreadFrom(r, nil, 0);
    StuckOn(r, nil, a);
    ThreadedTake(r, t, nil, a);
    TakeKept(t[a], m);
    if h > 0 {
      var b := t[a].onZero;
      StuckAlong(r, nil, r[a].onZero, b);
      StuckOn(r, nil, b);
      ThreadedTake(r, t, nil, b);
      ZeroTargetVisible(t, ReachSet(t), a);
      StuckKept(r, nil, q, m, b, e, h - 1);
    }
  }

  lemma ZeroTargetVisible(ops: Program, vis: seq<bool>, a: nat)
    requires Closed(ops, vis) && a < |ops| && vis[a] && ops[a].Deb?
    ensures ops[a].onZero < |vis| ==> vis[ops[a].onZero]
  {
    assert Targets(ops[a])[1] == ops[a].onZero;
    ClosedAt(ops, vis, a, 1);
  }

  lemma StuckAlong(r: Program, nil: nat, a: nat, b: nat)
    requires Stuck(r, nil, a) && Follows(r, nil, a, b)
    ensures Stuck(r, nil, b)
  {
    hide NilPath;
    var g: nat :| NilPath(r, nil, a, b, g);
    forall e: nat, h: nat | NilPath(r, nil, b, e, h) ensures NilTake(r, nil, e) {
      NilPathJoin(r, nil, a, g, b, h, e);
    }
  }

  /** A jump of an optimized program goes to a no-op only if the no-ops from there on go round for
      ever. */
  lemma NoJumpToNoOp(p: Program, isDev: seq<bool>, nil: nat, q: Program, i: nat, k: nat, e: nat, h: nat)
    requires IsRaw(p) && Plain(p, nil) && Optimized(p, isDev, nil, q) && i < |q| && k < |Targets(q[i])|
    requires var x := Targets(q[i])[k];
             x < |q| && q[x].Deb? && q[x].reg == nil && NilPath(q, nil, x, e, h)
    ensures e < |q| && q[e].Deb? && q[e].reg == nil
  {
    hide Greedy, Renumbered, Plain, FoldedOps, VisibleOf, ThreadFrom, Unread, NilPath, Targets, SentTo, Threaded;
    var folds, m', r :|
      && Greedy(p, isDev, folds, |p|)
      && Renumbered(FoldedOps(p, folds), VisibleOf(p, folds), m', r)
      && Pruned(ThreadFrom(r, nil, 0), q);
    GreedyLaid(p, isDev, folds);
    RemappedUnread(p, nil, folds, m', r);
    ThreadedToEnds(r, nil);
    ThreadedSelf(r, nil);
    ThreadFromThreaded(r, r, nil, 0);
    PrunedNoOp(r, nil, q, i, k, e, h);
  }

  lemma PrunedNoOp(r: Program, nil: nat, q: Program, i: nat, k: nat, e: nat, h: nat)
    requires var t := ThreadFrom(r, nil, 0);
             Threaded(r, t, nil) && SentTo(r, t, nil, |r|, 0) && Pruned(t, q)
    requires i < |q| && k < |Targets(q[i])|
    requires var x := Targets(q[i])[k];
             x < |q| && q[x].Deb? && q[x].reg == nil && NilPath(q, nil, x, e, h)
    ensures e < |q| && q[e].Deb? && q[e].reg == nil
  {
    hide ThreadFrom, Threaded, Targets, RetargetBy, Rank, Closed, Stuck, ReachSet, NilPath, Sent, SentTo;
    var t := ThreadFrom(r, nil, 0);
    var m: seq<nat> :| Renumbered(t, ReachSet(t), m, q);
    ReachClosed(t);
    var a := Unrank(ReachSet(t), |t|, i);
    RetargetTargets(t[a], m);
    var y := Targets(t[a])[k];
    assert Targets(q[i])[k] == Lookup(m, y);
    if y < |t| {
      ClosedAt(t, ReachSet(t), a, k);
      TakeKept(t[y], m);
      ThreadedTake(r, t, nil, y);
      TargetSent(r, t, nil, a, k);
      SentStuck(r, nil, Targets(r[a])[k], y);
      StuckKept(r, nil, q, m, y, e, h);
    }
  }

  lemma TargetSent(r: Program, t: Program, nil: nat, a: nat, k: nat)
    requires Threaded(r, t, nil) && SentTo(r, t, nil, |r|, 0) && a < |t| && k < |Targets(t[a])|
    ensures |t| == |r| && |Targets(r[a])| == |Targets(t[a])|
    ensures Follows(r, nil, Targets(r[a])[k], Targets(t[a])[k]) && Sent(r, nil, Targets(r[a])[k], Targets(t[a])[k])
  {
    hide Targets, NilPath, Sent, Follows;
    assert ThreadedOp(r, nil, r[a], t[a]);
    assert InstState(r, t, nil, |r|, 0, a);
    assert SlotState(r, t, nil, |r|, 0, a, k);
  }

  // ---------------------------------------------------------------------------
  // The encoder's cleaning
  // ---------------------------------------------------------------------------

  /** Every kept instruction is one of the cleaned program or a stop dropped from its end. */
  lemma CleanedAt(p: Program, nil: nat, full: Program, q: Program, i: nat)
    requires Kept(p, nil, LiveSet(p, nil), full) && q == Trimmed(full) && i < |p| && LiveSet(p, nil)[i]
    ensures var j := Rank(LiveSet(p, nil), i);
            if j < |q| then q[j] == RetargetBy(ThreadAll(p, nil)[i], RankTable(LiveSet(p, nil)))
            else Targets(ThreadAll(p, nil)[i]) == []
  {
    hide LiveSet, ThreadAll, Rank, RankTable;
    var j := Rank(LiveSet(p, nil), i);
    if j >= |q| {
      assert full[j].End?;
      EndHasNone(ThreadAll(p, nil)[i], RankTable(LiveSet(p, nil)));
    }
  }

  lemma EndHasNone(op: Op, m: seq<nat>)
    requires RetargetBy(op, m).End?
    ensures Targets(op) == []
  {
  }

  /** The cleaned program ends with no stop, and everything in it can be come to from where the
      entry stands. */
  lemma CleanedTight(p: Program, nil: nat, q: Program, s: seq<bool>)
    requires Cleaned(p, nil, q) && ClosedUnder(q, s) && (NewEntry(p, nil) < |q| ==> s[NewEntry(p, nil)])
    ensures q == [] || !q[|q| - 1].End?
    ensures forall j :: 0 <= j < |q| ==> s[j]
  {
    hide LiveSet, ThreadAll, Targets, Rank, RankTable, RetargetBy, Kept, ReachedIn, Entry;
    var live, ops, e := LiveSet(p, nil), ThreadAll(p, nil), Entry(p, nil);
    var full :| Kept(p, nil, live, full) && q == Trimmed(full);
    var back := seq(|p|, i requires 0 <= i < |p| => live[i] && (Rank(live, i) < |s| ==> s[Rank(live, i)]));
    forall i | 0 <= i < |p| && back[i] ensures StaysIn(Targets(ops[i]), back) {
      CleanedBack(p, nil, full, q, s, back, i);
    }
    LiveEntry(p, nil);
    KeptCount(p, nil, live, full);
    forall j | 0 <= j < |q| ensures s[j] {
      var i := Unrank(live, |live|, j);
      var k := LiveReached(p, nil, i);
      ReachedWithin(ops, back, e, i, k);
    }
  }

  lemma LiveReached(p: Program, nil: nat, i: nat) returns (k: nat)
    requires i < |p| && LiveSet(p, nil)[i]
    ensures ReachedIn(ThreadAll(p, nil), Entry(p, nil), i, k)
  {
    k :| ReachedIn(ThreadAll(p, nil), Entry(p, nil), i, k);
  }

  lemma CleanedBack(p: Program, nil: nat, full: Program, q: Program, s: seq<bool>, back: seq<bool>, i: nat)
    requires Kept(p, nil, LiveSet(p, nil), full) && q == Trimmed(full) && ClosedUnder(q, s) && i < |p| == |back|
    requires var live := LiveSet(p, nil);
             forall i :: 0 <= i < |p| ==> (back[i] <==> live[i] && (Rank(live, i) < |s| ==> s[Rank(live, i)]))
    requires back[i]
    ensures StaysIn(Targets(ThreadAll(p, nil)[i]), back)
  {
    hide LiveSet, ThreadAll, Targets, Rank, RankTable, RetargetBy, Kept, Trimmed;
    var live, op := LiveSet(p, nil), ThreadAll(p, nil)[i];
    CleanedAt(p, nil, full, q, i);
    RetargetTargets(op, RankTable(live));
    forall k | 0 <= k < |Targets(op)| && Targets(op)[k] < |back| ensures back[Targets(op)[k]] {
      LiveTarget(p, nil, i, k);
      TableAt(live, Targets(op)[k]);
      assert Targets(q[Rank(live, i)])[k] == Rank(live, Targets(op)[k]);
    }
  }

  /** A no-op that jumps to itself, or from which the no-ops go round for ever. */
  ghost predicate Circles(p: Program, nil: nat, a: nat) {
    a < |p| && PureJump(p[a], nil) && (p[a].onZero == a || Endless(p, nil, a))
  }

  lemma EndlessAlong(p: Program, nil: nat, a: nat, g: nat)
    requires Endless(p, nil, a)
    ensures Endless(p, nil, Hop(p, nil, a, g))
  {
    hide Settled, Hop;
    forall h: nat ensures !Settled(p, nil, Hop(p, nil, Hop(p, nil, a, g), h)) {
      HopJoin(p, nil, a, g, h);
    }
  }

  lemma EndlessCircles(p: Program, nil: nat, a: nat)
    requires Endless(p, nil, a)
    ensures Circles(p, nil, a)
  {
    assert Hop(p, nil, a, 0) == a;
  }

  /** Where threading leaves off there is no no-op, or one that circles. */
  lemma ThreadedCircles(p: Program, nil: nat, z: nat)
    requires var y := ThreadTarget(p, nil, z, |p|); y < |p| && PureJump(p[y], nil)
    ensures Circles(p, nil, ThreadTarget(p, nil, z, |p|))
  {
    hide Hop, Endless;
    ThreadSettles(p, nil, z);
    if Endless(p, nil, z) {
      HopIsThread(p, nil, z, |p|);
      EndlessAlong(p, nil, z, |p|);
      EndlessCircles(p, nil, ThreadTarget(p, nil, z, |p|));
    }
  }

  lemma CirclesOn(p: Program, nil: nat, a: nat)
    requires Circles(p, nil, a)
    ensures Circles(p, nil, ThreadTarget(p, nil, p[a].onZero, |p|))
  {
    var b := p[a].onZero;
    if b == a {
      assert ThreadTarget(p, nil, a, |p|) == a;
    } else {
      EndlessAlong(p, nil, a, 1);
      assert Hop(p, nil, a, 1) == b;
      HopIsThread(p, nil, b, |p|);
      EndlessAlong(p, nil, b, |p|);
      EndlessCircles(p, nil, Hop(p, nil, b, |p|));
    }
  }

  lemma ThreadedTakeAll(p: Program, nil: nat, a: nat)
    requires a < |p|
    ensures ThreadAll(p, nil)[a].Deb? <==> p[a].Deb?
    ensures p[a].Deb? ==>
              && ThreadAll(p, nil)[a].reg == p[a].reg
              && ThreadAll(p, nil)[a].onZero == ThreadTarget(p, nil, p[a].onZero, |p|)
  {
    hide ThreadTarget;
    if p[a].Deb? {
      assert Targets(p[a])[1] == p[a].onZero;
    }
  }

  /** From a circling no-op that is kept, the cleaned program too only ever comes to no-ops. */
  lemma {:induction false} CirclesKept(p: Program, nil: nat, full: Program, q: Program, a: nat, e: nat, h: nat)
    requires Kept(p, nil, LiveSet(p, nil), full) && q == Trimmed(full)
    requires Circles(p, nil, a) && LiveSet(p, nil)[a] && NilPath(q, nil, Rank(LiveSet(p, nil), a), e, h)
    ensures e < |q| && q[e].Deb? && q[e].reg == nil
    decreases h
  {
    hide LiveSet, ThreadAll, ThreadTarget, Targets, Rank, RankTable, RetargetBy, Kept, Trimmed, Endless;
    var live, op := LiveSet(p, nil), ThreadAll(p, nil)[a];
    CleanedAt(p, nil, full, q, a);
    ThreadedTakeAll(p, nil, a);
    assert Targets(op) != [] by { DebTargets(op); }
    TakeKept(op, RankTable(live));
    if h > 0 {
      var b := ThreadTarget(p, nil, p[a].onZero, |p|);
      CirclesOn(p, nil, a);
      DebTargets(op);
      LiveTarget(p, nil, a, 1);
      TableAt(live, b);
      CirclesKept(p, nil, full, q, b, e, h - 1);
    }
  }

  lemma DebTargets(op: Op)
    requires op.Deb?
    ensures |Targets(op)| == 2 && Targets(op)[1] == op.onZero
  {
  }

  /** A jump of the cleaned program goes to a no-op only if the no-ops from there on go round for
      ever. */
  lemma CleanedNoJump(p: Program, nil: nat, q: Program, i: nat, k: nat, e: nat, h: nat)
    requires IsRaw(p) && Plain(p, nil) && Cleaned(p, nil, q) && i < |q| && k < |Targets(q[i])|
    requires var x := Targets(q[i])[k];
             x < |q| && q[x].Deb? && q[x].reg == nil && NilPath(q, nil, x, e, h)
    ensures e < |q| && q[e].Deb? && q[e].reg == nil
  {
    hide LiveSet, ThreadAll, ThreadTarget, Targets, Rank, RankTable, RetargetBy, Kept, Trimmed, Circles, NilPath;
    var live := LiveSet(p, nil);
    var full :| Kept(p, nil, live, full) && q == Trimmed(full);
    KeptCount(p, nil, live, full);
    TrimmedShorter(full, q);
    var a := Unrank(live, |live|, i);
    CleanedAt(p, nil, full, q, a);
    RetargetTargets(ThreadAll(p, nil)[a], RankTable(live));
    var y := Targets(ThreadAll(p, nil)[a])[k];
    assert Targets(q[i])[k] == Lookup(RankTable(live), y);
    if y <= |p| {
      TableAt(live, y);
    }
    if y < |p| {
      LiveTarget(p, nil, a, k);
      CleanedAt(p, nil, full, q, y);
      TakeKept(ThreadAll(p, nil)[y], RankTable(live));
      ThreadedTakeAll(p, nil, y);
      ThreadedFrom(p, nil, a, k);
      ThreadedCircles(p, nil, Targets(p[a])[k]);
      CirclesKept(p, nil, full, q, y, e, h);
    }
  }

  lemma ThreadedFrom(p: Program, nil: nat, a: nat, k: nat)
    requires a < |p| && k < |Targets(ThreadAll(p, nil)[a])|
    ensures |Targets(p[a])| == |Targets(ThreadAll(p, nil)[a])|
    ensures Targets(ThreadAll(p, nil)[a])[k] == ThreadTarget(p, nil, Targets(p[a])[k], |p|)
  {
    hide Targets, WithTargets, ThreadTarget;
    TargetsKept(p[a], ThreadEach(p, nil, Targets(p[a])));
  }
}
