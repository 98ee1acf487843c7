/** What the optimizer's passes do to a program, as relations between programs, and the
    proof that each of them leaves every run's outcome alone. */
module Passes {
  import opened Machine

  // ---------------------------------------------------------------------------
  // Jump targets
  // ---------------------------------------------------------------------------

  function Targets(op: Op): seq<nat> {
    match op
    case End => []
    case Inc(_, n) => [n]
    case Deb(_, a, b) => [b, a]
    case IsZero(_, a, b) => [b, a]
    case DivMod(_, _, es) => es
    case Zero(_, e) => [e]
    case Transfer(_, _, e) => [e]
    case MulAdd(_, _, _, _, _, e) => [e]
    case Copy(_, _, _, e) => [e]
    case DivBin(_, _, _, _, _, e) => [e]
  }

  /** The operation with its targets replaced by `ts`. */
  function WithTargets(op: Op, ts: seq<nat>): Op
    requires |ts| == |Targets(op)|
  {
    match op
    case End => op
    case Inc(r, _) => Inc(r, ts[0])
    case Deb(r, _, _) => Deb(r, ts[1], ts[0])
    case IsZero(r, _, _) => IsZero(r, ts[1], ts[0])
    case DivMod(r, ds, _) => DivMod(r, ds, ts)
    case Zero(r, _) => Zero(r, ts[0])
    case Transfer(r, ds, _) => Transfer(r, ds, ts[0])
    case MulAdd(c, s, t, ds, pre, _) => MulAdd(c, s, t, ds, pre, ts[0])
    case Copy(s, t, ds, _) => Copy(s, t, ds, ts[0])
    case DivBin(r, p, rem, q, xs, _) => DivBin(r, p, rem, q, xs, ts[0])
  }

  /** The operation stays where it is: a division by an empty bin. */
  predicate Spins(op: Op, regs: Regs)
    requires OpOk(op, |regs|)
  {
    op.DivBin? && regs[op.p] == 0
  }

  /** Which of its targets an operation takes. */
  function Pick(op: Op, regs: Regs): (k: nat)
    requires OpOk(op, |regs|) && !op.End?
    ensures k < |Targets(op)|
  {
    match op
    case Deb(r, _, _) => if regs[r] == 0 then 1 else 0
    case IsZero(r, _, _) => if regs[r] == 0 then 1 else 0
    case DivMod(r, _, es) => regs[r] % |es|
    case _ => 0
  }

  lemma TargetPicked(op: Op, pc: nat, regs: Regs)
    requires OpOk(op, |regs|) && !op.End?
    ensures Target(op, pc, regs) == if Spins(op, regs) then pc else Targets(op)[Pick(op, regs)]
  {
  }

  /** Retargeting changes where an operation goes and nothing else. */
  lemma Retargeted(op: Op, ts: seq<nat>, pc: nat, regs: Regs)
    requires OpOk(op, |regs|) && !op.End? && |ts| == |Targets(op)|
    ensures var op' := WithTargets(op, ts);
            && OpOk(op', |regs|) && !op'.End? && Targets(op') == ts
            && Effect(op', regs) == Effect(op, regs)
            && Target(op', pc, regs) == if Spins(op, regs) then pc else ts[Pick(op, regs)]
  {
    hide AddAll, DivBinEffect;
  }

  // ---------------------------------------------------------------------------
  // Same outcome
  // ---------------------------------------------------------------------------

  /** The bin `nil` (if there is one) is empty. */
  predicate NilEmpty(regs: Regs, nil: nat) {
    nil < |regs| ==> regs[nil] == 0
  }

  /** Started at instruction 0 on `regs`, `p` stops after `k` moves with the bank `res`;
      `fell` says whether it ran past its end rather than onto a `stop`. */
  ghost predicate Halts(p: Program, regs: Regs, k: nat, res: Regs, fell: bool) {
    exists d :: HaltsIn(p, Config(0, regs), k, d) && d.regs == res && fell == (d.pc >= |p|)
  }

  /** The same, however it stopped. */
  ghost predicate Ends(p: Program, regs: Regs, k: nat, res: Regs) {
    exists d :: HaltsIn(p, Config(0, regs), k, d) && d.regs == res
  }

  ghost predicate HaltsBy(p: Program, regs: Regs, k: nat, res: Regs, fell: bool) {
    exists m: nat :: m <= k && Halts(p, regs, m, res, fell)
  }

  ghost predicate HaltsFrom(p: Program, regs: Regs, k: nat, res: Regs, fell: bool) {
    exists m: nat :: m >= k && Halts(p, regs, m, res, fell)
  }

  /** On every bank of `n` registers with `nil` empty, `q` halts exactly when `p` does, with
      the same bank, and after no more moves. */
  ghost predicate Refines(p: Program, q: Program, n: nat, nil: nat) {
    forall regs, k: nat, res, fell | |regs| == n && NilEmpty(regs, nil) ::
      && (Halts(p, regs, k, res, fell) ==> HaltsBy(q, regs, k, res, fell))
      && (Halts(q, regs, k, res, fell) ==> HaltsFrom(p, regs, k, res, fell))
  }

  lemma RefinesAt(p: Program, q: Program, n: nat, nil: nat, regs: Regs, k: nat, res: Regs, fell: bool)
    requires Refines(p, q, n, nil) && |regs| == n && NilEmpty(regs, nil)
    ensures Halts(p, regs, k, res, fell) ==> HaltsBy(q, regs, k, res, fell)
    ensures Halts(q, regs, k, res, fell) ==> HaltsFrom(p, regs, k, res, fell)
  {
    hide Halts, HaltsBy, HaltsFrom;
  }

  lemma HaltsByOn(q: Program, r: Program, n: nat, nil: nat, regs: Regs, k: nat, res: Regs, fell: bool)
    requires Refines(q, r, n, nil) && |regs| == n && NilEmpty(regs, nil) && HaltsBy(q, regs, k, res, fell)
    ensures HaltsBy(r, regs, k, res, fell)
  {
    hide Halts, Refines;
    var m: nat :| m <= k && Halts(q, regs, m, res, fell);
    RefinesAt(q, r, n, nil, regs, m, res, fell);
  }

  lemma HaltsFromOn(p: Program, q: Program, n: nat, nil: nat, regs: Regs, k: nat, res: Regs, fell: bool)
    requires Refines(p, q, n, nil) && |regs| == n && NilEmpty(regs, nil) && HaltsFrom(q, regs, k, res, fell)
    ensures HaltsFrom(p, regs, k, res, fell)
  {
    hide Halts, Refines;
    var m: nat :| m >= k && Halts(q, regs, m, res, fell);
    RefinesAt(p, q, n, nil, regs, m, res, fell);
  }

  lemma RefinesTrans(p: Program, q: Program, r: Program, n: nat, nil: nat)
    requires Refines(p, q, n, nil) && Refines(q, r, n, nil)
    ensures Refines(p, r, n, nil)
  {
    hide Halts, HaltsBy, HaltsFrom;
    forall regs, k: nat, res, fell | |regs| == n && NilEmpty(regs, nil)
      ensures Halts(p, regs, k, res, fell) ==> HaltsBy(r, regs, k, res, fell)
      ensures Halts(r, regs, k, res, fell) ==> HaltsFrom(p, regs, k, res, fell)
    {
      RefinesAt(p, q, n, nil, regs, k, res, fell);
      RefinesAt(q, r, n, nil, regs, k, res, fell);
      if HaltsBy(q, regs, k, res, fell) {
        HaltsByOn(q, r, n, nil, regs, k, res, fell);
      }
      if HaltsFrom(q, regs, k, res, fell) {
        HaltsFromOn(p, q, n, nil, regs, k, res, fell);
      }
    }
  }

  /** Outcomes that count as the same: equal banks, and both or neither past the end. */
  ghost predicate SameOutcome(p: Program, q: Program, c: Config, d: Config) {
    c.regs == d.regs && (c.pc >= |p| <==> d.pc >= |q|)
  }

  /** A simulation that starts at instruction 0 is a refinement. */
  lemma SimulationRefines(p: Program, q: Program, rel: (Config, Config) -> bool, n: nat, nil: nat)
    requires Simulates(p, q, rel, (c, d) => SameOutcome(p, q, c, d))
    requires forall regs :: |regs| == n && NilEmpty(regs, nil) ==> rel(Config(0, regs), Config(0, regs))
    ensures Refines(p, q, n, nil)
  {
    hide Reaches, HaltsIn, Simulates;
    var out := (c, d) => SameOutcome(p, q, c, d);
    forall regs, k: nat, res, fell | |regs| == n && NilEmpty(regs, nil)
      ensures Halts(p, regs, k, res, fell) ==> HaltsBy(q, regs, k, res, fell)
      ensures Halts(q, regs, k, res, fell) ==> HaltsFrom(p, regs, k, res, fell)
    {
      var c := Config(0, regs);
      assert rel(c, c);
      if Halts(p, regs, k, res, fell) {
        var c' :| HaltsIn(p, c, k, c') && c'.regs == res && fell == (c'.pc >= |p|);
        var m, d' := SlowHalts(p, q, rel, out, c, c, k, c');
        assert Halts(q, regs, m, res, fell);
      }
      if Halts(q, regs, k, res, fell) {
        var d' :| HaltsIn(q, c, k, d') && d'.regs == res && fell == (d'.pc >= |q|);
        var m, c' := FastHalts(p, q, rel, out, c, c, k, d');
        assert Halts(p, regs, m, res, fell);
      }
    }
  }
}
