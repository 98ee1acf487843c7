/** From source to native code: optimizing, compiling and running agrees with stepping the
    unoptimized program. */
module EndToEnd {
  import opened Machine
  import opened Passes
  import opened Threading
  import opened Optimizer
  import opened NilRegister
  import opened Roles
  import opened Interp
  import opened Lowering
  import opened Checking
  import opened Qbe
  import opened Universal
  import opened Universality

  /** Whenever the raw program comes to rest under a cap, the optimized program compiled to
      blocks ends under the same cap with the same registers and no more steps. */
  lemma CompiledAgrees(p: Program, isDev: seq<bool>, nil: nat, q: Program, v: Regs, cap: nat, t: nat, res: Regs)
    requires IsRaw(p) && ProgOk(p, |v|) && NeverFed(p, nil) && NilEmpty(v, nil) && Landed(p)
    requires Optimized(p, isDev, nil, q) && Rested(p, v, cap, t, res)
    ensures exists t': nat :: t' <= t && Compiled(q, v, cap, t', res)
  {
    hide Optimized, NeverFed, Landed, Refines, Halts, Outcome, Compiled, ProgOk, Runnable, NilEmpty;
    OptimizerCorrect(p, isDev, nil, q, |v|);
    OptimizedRunnable(p, isDev, nil, q, |v|);
    OptimizedLanded(p, isDev, nil, q);
    RunnableOk(q, |v|);
    var k: nat, fell :| Halts(p, v, k, res, fell) && k < cap && t == k + Tick(fell);
    RefinesAt(p, q, |v|, nil, v, k, res, fell);
    var m: nat :| m <= k && Halts(q, v, m, res, fell);
    var d := HaltOutcome(q, v, cap, m, res, fell);
    Lockstep(q, v, cap, m + Tick(fell), res);
  }

  /** The same from statements: whatever lowers and gives no no-op register. */
  lemma SourceToNative<N(!new)>(nodes: seq<Statement<N>>, deps: N -> seq<N>, nilName: N, l: Lowered<N>,
                                isDev: seq<bool>, q: Program, v: Regs, cap: nat, t: nat, res: Regs)
    requires Lowers(nodes, deps, nilName, l) && GivesNoNil(nodes, nilName) && |v| == |l.names| && v[l.nil] == 0
    requires Optimized(l.insts, isDev, l.nil, q) && Rested(l.insts, v, cap, t, res)
    ensures exists t': nat :: t' <= t && Compiled(q, v, cap, t', res)
  {
    hide Optimized, Rested, Compiled, Lowering.Matches;
    LoweredIsGood(nodes, deps, nilName, l);
    CompiledAgrees(l.insts, isDev, l.nil, q, v, cap, t, res);
  }

  /** From statements whose no-ops go to one place: whatever the no-op register starts with, the
      optimized program halts exactly when the lowered one does, after no more moves, with the
      same value in every other register. */
  lemma SourceAnyNil<N(!new)>(nodes: seq<Statement<N>>, deps: N -> seq<N>, nilName: N, l: Lowered<N>,
                              isDev: seq<bool>, q: Program)
    requires Lowers(nodes, deps, nilName, l) && NoOpsPlain(nodes, nilName) && Optimized(l.insts, isDev, l.nil, q)
    ensures RefinesBut(l.insts, q, |l.names|, l.nil)
  {
    hide Optimized, Lowers, Plain;
    LoweredIsGood(nodes, deps, nilName, l);
    LoweredPlain(nodes, deps, nilName, l);
    OptimizerAnyNil(l.insts, isDev, l.nil, q, |l.names|);
  }

  lemma HaltOutcome(p: Program, v: Regs, cap: nat, m: nat, res: Regs, fell: bool) returns (d: Config)
    requires Halts(p, v, m, res, fell) && m < cap
    ensures Outcome(p, Config(0, v), cap, m + Tick(fell), d) && d.regs == res
  {
    d :| HaltsIn(p, Config(0, v), m, d) && d.regs == res && fell == (d.pc >= |p|);
  }

  /** The universal machine never gives to its no-op register. */
  lemma UniversalNeverFeeds()
    ensures NeverFed(U(), NIL)
  {
    hide U;
    forall i | 0 <= i < |U()| ensures !Feeds(U()[i], NIL) {
      Fetch(i);
    }
  }

  /** `o`, started where the universal machine starts, halts after `k` moves with `res` in R. */
  ghost predicate ComputesOn(o: Program, code: nat, bank: nat, k: nat, res: nat) {
    exists d :: HaltsIn(o, At(0, Start(code, bank)), k, d) && |d.regs| == 15 && d.regs[RR] == res
  }

  /** Optimizing the universal machine leaves what it computes alone. */
  lemma OptimizedUniversal(o: Program, isDev: seq<bool>, code: nat, bank: nat)
    requires Optimized(U(), isDev, NIL, o)
    ensures forall k: nat, res :: Computes(code, bank, k, res) ==>
              exists m: nat :: m <= k && ComputesOn(o, code, bank, m, res)
    ensures forall m: nat, res :: ComputesOn(o, code, bank, m, res) ==>
              exists k: nat :: k >= m && Computes(code, bank, k, res)
  {
    hide U, Optimized, Refines, Reaches, Regs15;
    UOk();
    UniversalNeverFeeds();
    OptimizerCorrect(U(), isDev, NIL, o, 15);
    var v := Regs15(Start(code, bank));
    StartEmpty(code, bank);
    forall k: nat, res | Computes(code, bank, k, res)
      ensures exists m: nat :: m <= k && ComputesOn(o, code, bank, m, res)
    {
      var d :| HaltsIn(U(), At(0, Start(code, bank)), k, d) && |d.regs| == 15 && d.regs[RR] == res;
      assert Halts(U(), v, k, d.regs, d.pc >= |U()|);
      RefinesAt(U(), o, 15, NIL, v, k, d.regs, d.pc >= |U()|);
      var m: nat :| m <= k && Halts(o, v, m, d.regs, d.pc >= |U()|);
      assert ComputesOn(o, code, bank, m, res);
    }
    forall m: nat, res | ComputesOn(o, code, bank, m, res)
      ensures exists k: nat :: k >= m && Computes(code, bank, k, res)
    {
      var d :| HaltsIn(o, At(0, Start(code, bank)), m, d) && |d.regs| == 15 && d.regs[RR] == res;
      assert Halts(o, v, m, d.regs, d.pc >= |o|);
      RefinesAt(U(), o, 15, NIL, v, m, d.regs, d.pc >= |o|);
      var k: nat :| k >= m && Halts(U(), v, k, d.regs, d.pc >= |o|);
      assert Computes(code, bank, k, res);
    }
  }

  lemma StartEmpty(code: nat, bank: nat)
    ensures NilEmpty(Regs15(Start(code, bank)), NIL)
  {
  }
}
