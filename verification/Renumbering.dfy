/** Dropping the instructions nothing reaches and renumbering the rest. */
module Renumbering {
  import opened Machine
  import opened Passes
  import opened Folding

  /** How many of the first `i` instructions are kept. */
  function Rank(vis: seq<bool>, i: nat): (r: nat)
    requires i <= |vis|
    ensures r <= i
  {
    if i == 0 then 0 else Rank(vis, i - 1) + if vis[i - 1] then 1 else 0
  }

  lemma RankZero(vis: seq<bool>)
    ensures Rank(vis, 0) == 0
  {
  }

  lemma RankNext(vis: seq<bool>, i: nat)
    requires i < |vis|
    ensures Rank(vis, i + 1) == Rank(vis, i) + if vis[i] then 1 else 0
  {
  }

  lemma {:induction false} RankBelow(vis: seq<bool>, i: nat, j: nat)
    requires i < j <= |vis|
    ensures Rank(vis, i) + (if vis[i] then 1 else 0) <= Rank(vis, j)
    decreases j
  {
    if j > i + 1 {
      RankBelow(vis, i, j - 1);
    }
  }

  lemma {:induction false} RankSet(vis: seq<bool>, t: nat, i: nat)
    requires t < |vis| && !vis[t] && i <= |vis|
    ensures Rank(vis[t := true], i) == Rank(vis, i) + if t < i then 1 else 0
  {
    if i > 0 {
      RankSet(vis, t, i - 1);
    }
  }

  /** A target through the table; past the end it stays as it is. */
  function Lookup(m: seq<nat>, t: nat): nat {
    if t < |m| then m[t] else t
  }

  function Remap(m: seq<nat>, ts: seq<nat>): (r: seq<nat>)
    ensures |r| == |ts|
  {
    seq(|ts|, k requires 0 <= k < |ts| => Lookup(m, ts[k]))
  }

  function RetargetBy(op: Op, m: seq<nat>): Op {
    WithTargets(op, Remap(m, Targets(op)))
  }

  /** `q` is exactly the kept instructions of `ops`, in order, with every jump sent through
      the table of new positions. */
  ghost predicate Renumbered(ops: Program, vis: seq<bool>, m: seq<nat>, q: Program) {
    && |ops| == |vis| == |m|
    && |q| == Rank(vis, |vis|)
    && forall i :: 0 <= i < |ops| && vis[i] ==>
         m[i] == Rank(vis, i) && m[i] < |q| && q[m[i]] == RetargetBy(ops[i], m)
  }

  ghost predicate RenumberRel(vis: seq<bool>, m: seq<nat>, n: nat, c: Config, d: Config)
    requires |vis| == |m|
  {
    && c.regs == d.regs && |c.regs| == n
    && (if c.pc < |vis| then vis[c.pc] && d.pc == m[c.pc] else d.pc == c.pc)
  }

  lemma RenumberStep(ops: Program, vis: seq<bool>, m: seq<nat>, q: Program, n: nat, c: Config, d: Config)
    requires Closed(ops, vis) && Renumbered(ops, vis, m, q) && RenumberRel(vis, m, n, c, d)
    requires !Stopped(ops, c) && OpOk(ops[c.pc], n)
    ensures !Stopped(q, d) && OpOk(q[d.pc], n) && RenumberRel(vis, m, n, Next(ops, c), Next(q, d))
  {
    hide Effect, Target, Targets, WithTargets, OpOk, Closed, Spins, Pick;
    var op := ops[c.pc];
    TargetPicked(op, c.pc, c.regs);
    Retargeted(op, Remap(m, Targets(op)), d.pc, c.regs);
    if !Spins(op, c.regs) {
      ClosedAt(ops, vis, c.pc, Pick(op, c.regs));
    }
  }

  lemma RenumberMatches(ops: Program, vis: seq<bool>, m: seq<nat>, q: Program, n: nat, c: Config, d: Config)
    requires Closed(ops, vis) && Renumbered(ops, vis, m, q) && RenumberRel(vis, m, n, c, d)
    requires forall i :: 0 <= i < |ops| && vis[i] ==> OpOk(ops[i], n)
    ensures Matches(ops, q, (c, d) => RenumberRel(vis, m, n, c, d), (c, d) => SameOutcome(ops, q, c, d), c, d)
  {
    hide Closed, OpOk, Next, RetargetBy;
    var rel := (c, d) => RenumberRel(vis, m, n, c, d);
    var out := (c, d) => SameOutcome(ops, q, c, d);
    if Stopped(ops, c) {
      if c.pc < |ops| {
        EndStays(ops[c.pc], m);
      }
      assert HaltsIn(ops, c, 0, c);
      assert out(c, d);
    } else {
      RenumberStep(ops, vis, m, q, n, c, d);
      assert rel(Next(ops, c), Next(q, d));
      assert Reaches(ops, c, 1, Next(ops, c)) by {
        assert Reaches(ops, Next(ops, c), 0, Next(ops, c));
      }
      assert Advances(ops, c, rel, Next(q, d));
    }
  }

  lemma EndStays(op: Op, m: seq<nat>)
    ensures RetargetBy(op, m).End? <==> op.End?
  {
  }

  /** Keeping a set of instructions that control never leaves changes no outcome. */
  lemma RenumberRefines(ops: Program, vis: seq<bool>, m: seq<nat>, q: Program, n: nat, nil: nat)
    requires Closed(ops, vis) && Renumbered(ops, vis, m, q)
    requires forall i :: 0 <= i < |ops| && vis[i] ==> OpOk(ops[i], n)
    ensures Refines(ops, q, n, nil)
  {
    hide Renumbered, OpOk;
    assert |vis| == |m| by { RenumberedSizes(ops, vis, m, q); }
    var rel := (c, d) => RenumberRel(vis, m, n, c, d);
    var out := (c, d) => SameOutcome(ops, q, c, d);
    forall c, d | rel(c, d) ensures Matches(ops, q, rel, out, c, d) {
      RenumberMatches(ops, vis, m, q, n, c, d);
    }
    forall regs | |regs| == n && NilEmpty(regs, nil) ensures rel(Config(0, regs), Config(0, regs)) {
      RenumberedSizes(ops, vis, m, q);
    }
    SimulationRefines(ops, q, rel, n, nil);
  }

  lemma RenumberedSizes(ops: Program, vis: seq<bool>, m: seq<nat>, q: Program)
    requires Renumbered(ops, vis, m, q)
    ensures |ops| == |vis| == |m| && |q| <= |ops|
    ensures |vis| > 0 && vis[0] ==> m[0] == 0
  {
  }

  /** What is kept names the same registers. */
  lemma RenumberedOk(ops: Program, vis: seq<bool>, m: seq<nat>, q: Program, n: nat)
    requires Renumbered(ops, vis, m, q)
    requires forall i :: 0 <= i < |ops| && vis[i] ==> OpOk(ops[i], n)
    ensures ProgOk(q, n)
  {
    forall j | 0 <= j < |q| ensures OpOk(q[j], n) {
      var i := Unrank(vis, |vis|, j);
      RetargetOk(ops[i], m, n);
    }
  }

  lemma RetargetOk(op: Op, m: seq<nat>, n: nat)
    requires OpOk(op, n)
    ensures OpOk(RetargetBy(op, m), n)
  {
  }

  /** Every new position comes from one kept instruction. */
  lemma {:induction false} Unrank(vis: seq<bool>, i: nat, r: nat) returns (j: nat)
    requires i <= |vis| && r < Rank(vis, i)
    ensures j < i && vis[j] && Rank(vis, j) == r
    decreases i
  {
    if vis[i - 1] && Rank(vis, i - 1) == r {
      j := i - 1;
    } else {
      j := Unrank(vis, i - 1, r);
    }
  }

  /** The relation leaves nothing open: the result is determined. */
  lemma RenumberedUnique(ops: Program, vis: seq<bool>, m: seq<nat>, q: Program, m': seq<nat>, q': Program)
    requires Closed(ops, vis) && Renumbered(ops, vis, m, q) && Renumbered(ops, vis, m', q')
    ensures q == q'
  {
    hide Targets, WithTargets, Closed;
    forall j | 0 <= j < |q| ensures q[j] == q'[j] {
      var i := Unrank(vis, |vis|, j);
      var ts := Targets(ops[i]);
      forall k | 0 <= k < |ts| ensures Lookup(m, ts[k]) == Lookup(m', ts[k]) {
        ClosedAt(ops, vis, i, k);
      }
      assert Remap(m, ts) == Remap(m', ts);
    }
  }

  // ---------------------------------------------------------------------------
  // Reachability
  // ---------------------------------------------------------------------------

  /** A chain of `k` jumps leads from `e` to `i`. */
  ghost predicate ReachedIn(ops: Program, e: nat, i: nat, k: nat)
    decreases k
  {
    if k == 0 then i == e
    else exists j :: 0 <= j < |ops| && ReachedIn(ops, e, j, k - 1) && i in Targets(ops[j])
  }

  ghost predicate ReachableFrom(ops: Program, e: nat, i: nat) {
    exists k: nat :: ReachedIn(ops, e, i, k)
  }

  ghost predicate Reachable(ops: Program, i: nat) {
    ReachableFrom(ops, 0, i)
  }

  ghost function ReachSet(ops: Program): (vis: seq<bool>)
    ensures |vis| == |ops|
  {
    seq(|ops|, i requires 0 <= i < |ops| => Reachable(ops, i))
  }

  lemma ReachOn(ops: Program, e: nat, j: nat, k: nat)
    requires j < |ops| && ReachableFrom(ops, e, j) && k < |Targets(ops[j])|
    ensures ReachableFrom(ops, e, Targets(ops[j])[k])
  {
    hide Targets;
    var n: nat :| ReachedIn(ops, e, j, n);
    assert ReachedIn(ops, e, Targets(ops[j])[k], n + 1);
  }

  lemma ReachNext(ops: Program, j: nat, k: nat)
    requires j < |ops| && Reachable(ops, j) && k < |Targets(ops[j])|
    ensures Reachable(ops, Targets(ops[j])[k])
  {
    ReachOn(ops, 0, j, k);
  }

  lemma ReachStart(ops: Program, e: nat)
    ensures ReachableFrom(ops, e, e)
  {
    assert ReachedIn(ops, e, e, 0);
  }

  lemma ReachZero(ops: Program)
    ensures Reachable(ops, 0)
  {
    ReachStart(ops, 0);
  }

  /** A set that control never leaves. */
  ghost predicate Trap(ops: Program, vis: seq<bool>) {
    |ops| == |vis| && forall i :: 0 <= i < |ops| && vis[i] ==> StaysIn(Targets(ops[i]), vis)
  }

  /** Any set that holds the start and is closed under jumps holds all that is reachable. */
  lemma {:induction false} ReachedWithin(ops: Program, vis: seq<bool>, e: nat, i: nat, k: nat)
    requires Trap(ops, vis) && ReachedIn(ops, e, i, k) && i < |ops|
    requires e < |vis| ==> vis[e]
    ensures vis[i]
    decreases k
  {
    hide Targets;
    if k > 0 {
      var j :| 0 <= j < |ops| && ReachedIn(ops, e, j, k - 1) && i in Targets(ops[j]);
      ReachedWithin(ops, vis, e, j, k - 1);
      var n :| 0 <= n < |Targets(ops[j])| && Targets(ops[j])[n] == i;
      assert StaysIn(Targets(ops[j]), vis);
    }
  }

  /** The reachable set itself is such a set, so it is the least one. */
  lemma ReachClosed(ops: Program)
    ensures Closed(ops, ReachSet(ops))
  {
    hide Targets, Reachable;
    var vis := ReachSet(ops);
    forall i | 0 <= i < |ops| && vis[i] ensures StaysIn(Targets(ops[i]), vis) {
      forall k | 0 <= k < |Targets(ops[i])| && Targets(ops[i])[k] < |vis| ensures vis[Targets(ops[i])[k]] {
        ReachNext(ops, i, k);
      }
    }
    ReachZero(ops);
  }

  /** `q` is `ops` with exactly the unreachable instructions gone. */
  ghost predicate Pruned(ops: Program, q: Program) {
    exists m: seq<nat> :: Renumbered(ops, ReachSet(ops), m, q)
  }

  lemma PrunedRefines(ops: Program, q: Program, n: nat, nil: nat)
    requires Pruned(ops, q) && ProgOk(ops, n)
    ensures Refines(ops, q, n, nil)
  {
    hide Renumbered, OpOk;
    var m: seq<nat> :| Renumbered(ops, ReachSet(ops), m, q);
    ReachClosed(ops);
    RenumberRefines(ops, ReachSet(ops), m, q, n, nil);
  }

  lemma {:induction false} RankAll(vis: seq<bool>, i: nat)
    requires i <= |vis| && forall j :: 0 <= j < i ==> vis[j]
    ensures Rank(vis, i) == i
  {
    if i > 0 {
      RankAll(vis, i - 1);
    }
  }

  lemma {:induction false} RankFull(vis: seq<bool>, i: nat)
    requires i <= |vis| && Rank(vis, i) == i
    ensures forall j :: 0 <= j < i ==> vis[j]
  {
    if i > 0 {
      RankFull(vis, i - 1);
    }
  }

  /** With everything reachable there is nothing to do. */
  lemma PrunedNothing(ops: Program)
    requires forall i :: 0 <= i < |ops| ==> Reachable(ops, i)
    ensures Pruned(ops, ops)
  {
    hide Targets, WithTargets, Reachable;
    var vis := ReachSet(ops);
    var m := seq(|ops|, i => i);
    RankAll(vis, |vis|);
    forall i | 0 <= i < |ops| ensures m[i] == Rank(vis, i) && ops[m[i]] == RetargetBy(ops[i], m) {
      RankAll(vis, i);
      assert Remap(m, Targets(ops[i])) == Targets(ops[i]);
      WithOwn(ops[i]);
    }
    assert Renumbered(ops, vis, m, ops);
  }

  lemma WithOwn(op: Op)
    ensures WithTargets(op, Targets(op)) == op
  {
  }
}
