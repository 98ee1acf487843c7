/** The interpreter: packed instructions over a bank of tagged words, one step at a time
    until the program halts or the step cap is reached. */
module Interp {
  import opened Machine
  import opened Arith
  import opened Limbs
  import opened Packed
  import opened Passes
  import opened Roles
  import opened Bignums
  import opened LongDivision
  import opened RegFiles

  /** How far the step counter moves when the machine halts at `c`: executing a `stop` is a
      step, noticing that the program counter has left the program is not. */
  function LastTick(p: Program, c: Config): nat {
    if c.pc < |p| then 1 else 0
  }

  lemma InstReady(insts: seq<IrOptInst>, dests: seq<nat>, pc: nat, v: Regs)
    requires PackOk(insts, dests) && Runnable(ViewOf(insts, dests), |v|) && pc < |insts|
    ensures SliceOk(insts[pc], |dests|) && ViewOf(insts, dests)[pc] == Decode(insts[pc], dests)
    ensures OpOk(Decode(insts[pc], dests), |v|) && RolesApart(Decode(insts[pc], dests))
  {
    hide Decode, OpOk, RolesApart;
    assert OpOk(ViewOf(insts, dests)[pc], |v|);
  }

  lemma DivModReady(x: nat, k: nat, quot: nat, rem: nat)
    requires Splits(x, k, quot, rem)
    ensures k > 0 && x / k == quot && x % k == rem
  {
    DivModUnique(x, k, quot, rem);
  }

  lemma MulAddReady(v: Regs, op: Op)
    requires op.MulAdd? && OpOk(op, |v|)
    ensures MulAddEffect(v, op.reg, op.s, op.t, op.dsts, op.preclear) == Effect(op, v)
  {
    hide AddAll;
  }

  lemma SpinReady(v: Regs, op: Op)
    requires op.DivBin? && OpOk(op, |v|)
    ensures Effect(op, v) == if v[op.p] == 0 then v else DivBinEffect(v, op.reg, op.p, op.rem, op.q, op.xs)
  {
    hide DivBinEffect;
  }

  /** A division the bit counter covers; any other operation. */
  ghost predicate DivisionFits(counter: Counter, op: Op, regs: Regs)
    requires OpOk(op, |regs|)
  {
    op.DivBin? && regs[op.p] > 0 ==> Covers(counter, regs[op.reg], regs[op.p])
  }

  /** Every division the machine comes to in fewer than `n` moves from `c` fits. */
  ghost predicate RunFits(counter: Counter, p: Program, c: Config, n: nat) {
    forall k: nat, d :: k < n && Reaches(p, c, k, d) && !Stopped(p, d) && OpOk(p[d.pc], |d.regs|) ==>
      DivisionFits(counter, p[d.pc], d.regs)
  }

  /** The divisor is empty or immediate or above the dividend, or the dividend has at most
      2^26 - 1 limbs; any other operation. */
  predicate NarrowFits(op: Op, regs: Regs)
    requires OpOk(op, |regs|)
  {
    op.DivBin? ==>
      var divisor, dividend := regs[op.p], regs[op.reg];
      divisor <= 0x3FFF_FFFF_FFFF_FFFF || dividend < divisor || dividend < Weight(0x3FF_FFFF)
  }

  /** With the source's counter a run fits exactly if every division it comes to is such. */
  lemma NarrowRunFits(p: Program, c: Config, n: nat)
    ensures RunFits(Narrow, p, c, n) <==>
              forall k: nat, d :: k < n && Reaches(p, c, k, d) && !Stopped(p, d) && OpOk(p[d.pc], |d.regs|) ==>
                NarrowFits(p[d.pc], d.regs)
  {
    hide Weight, Covers, DivisionFits, NarrowFits;
    if RunFits(Narrow, p, c, n) {
      forall k: nat, d | k < n && Reaches(p, c, k, d) && !Stopped(p, d) && OpOk(p[d.pc], |d.regs|)
        ensures NarrowFits(p[d.pc], d.regs)
      {
        FitsAt(Narrow, p, c, n, k, d);
        NarrowIs(p[d.pc], d.regs);
      }
    } else {
      var k: nat, d :| k < n && Reaches(p, c, k, d) && !Stopped(p, d) && OpOk(p[d.pc], |d.regs|)
        && !DivisionFits(Narrow, p[d.pc], d.regs);
      NarrowIs(p[d.pc], d.regs);
      assert Reaches(p, c, k, d) && !NarrowFits(p[d.pc], d.regs);
    }
  }

  lemma NarrowIs(op: Op, regs: Regs)
    requires OpOk(op, |regs|)
    ensures DivisionFits(Narrow, op, regs) <==> NarrowFits(op, regs)
  {
    hide Weight, Covers;
    if op.DivBin? {
      NarrowCovers(regs[op.reg], regs[op.p]);
    }
  }

  /** With a counter wide enough every division fits. */
  lemma WideRunFits(p: Program, c: Config, n: nat)
    ensures RunFits(Wide, p, c, n)
  {
    hide Reaches, OpOk;
  }

  class InterpState {
    const counter: Counter
    const insts: seq<IrOptInst>
    const dests: seq<nat>
    const bank: RegFile
    var pc: nat
    var steps: nat
    var halted: bool

    ghost predicate Valid()
      reads this, bank, bank.words, Repr(bank.words[..])
    {
      && bank.Valid()
      && this !in Repr(bank.words[..]) && bank !in Repr(bank.words[..])
      && PackOk(insts, dests)
      && Runnable(ViewOf(insts, dests), bank.words.Length)
    }

    ghost function Code(): Program
      requires PackOk(insts, dests)
    {
      ViewOf(insts, dests)
    }

    /** The machine configuration the state stands for. */
    ghost function Now(): (c: Config)
      requires Valid()
      reads this, bank, bank.words, Repr(bank.words[..])
      ensures |c.regs| == bank.words.Length
    {
      Config(pc, bank.Values())
    }

    constructor (code: seq<IrOptInst>, pool: seq<nat>, n: nat, counter: Counter)
      requires PackOk(code, pool) && Runnable(ViewOf(code, pool), n)
      ensures this.counter == counter
      ensures Valid() && fresh(bank) && fresh(bank.words) && Repr(bank.words[..]) == {}
      ensures insts == code && dests == pool && bank.words.Length == n
      ensures Now() == Config(0, seq(n, _ => 0)) && steps == 0 && !halted
    {
      insts, dests, this.counter := code, pool, counter;
      pc, steps, halted := 0, 0, false;
      bank := new RegFile(n);
    }

    /** One register's starting value, copied from the caller's number. */
    method SetReg(i: nat, x: Bignum)
      requires Valid() && i < bank.words.Length && Ok(x)
      requires bank.words !in Footprint(x) && this !in Footprint(x) && bank !in Footprint(x)
      modifies bank.words
      ensures Valid() && forall o | o in Repr(bank.words[..]) :: o in old(Repr(bank.words[..])) || fresh(o)
      ensures Now() == Config(old(pc), old(Now()).regs[i := old(Value(x))])
    {
      hide Ok, Value, PackOk, ViewOf, Runnable, Repr;
      bank.CopyFrom(i, x);
    }

    /** The record is well formed and its operands are registers in distinct roles. */
    ghost predicate Ready(inst: IrOptInst) {
      && SliceOk(inst, |dests|)
      && OpOk(Decode(inst, dests), bank.words.Length)
      && RolesApart(Decode(inst, dests))
    }

    /** give, take, and the two operations on a single bin. */
    method ExecuteSimple(inst: IrOptInst)
      requires Valid() && Ready(inst) && (inst.op.OpInc? || inst.op.OpDeb? || inst.op.OpZero? || inst.op.OpIsZero?)
      modifies this`pc, bank.words, Repr(bank.words[..])
      ensures Valid() && forall o | o in Repr(bank.words[..]) :: o in old(Repr(bank.words[..])) || fresh(o)
      ensures bank.Values() == Effect(Decode(inst, dests), old(bank.Values()))
      ensures pc == Target(Decode(inst, dests), old(pc), old(bank.Values()))
    {
      hide Ok, Value, PackOk, ViewOf, Runnable, Repr, AddAll, DivBinEffect, MulAddEffect, Splits;
      match inst.op
      case OpInc =>
        bank.IncAt(inst.reg);
        pc := inst.argA;
      case OpDeb =>
        var ok := bank.DecAt(inst.reg);
        pc := if ok then inst.argB else inst.argA;
      case OpZero =>
        bank.SetZeroAt(inst.reg);
        pc := inst.argA;
      case OpIsZero =>
        bank.WordTest(inst.reg);
        pc := if Bignums.IsZero(bank.words[inst.reg]) then inst.argA else inst.argB;
    }

    /** TRANSFER. */
    method ExecuteTransfer(inst: IrOptInst)
      requires Valid() && Ready(inst) && inst.op.OpTransfer?
      modifies this`pc, bank.words, Repr(bank.words[..])
      ensures Valid() && forall o | o in Repr(bank.words[..]) :: o in old(Repr(bank.words[..])) || fresh(o)
      ensures bank.Values() == Effect(Decode(inst, dests), old(bank.Values()))
      ensures pc == Target(Decode(inst, dests), old(pc), old(bank.Values()))
    {
      hide Ok, Value, PackOk, ViewOf, Runnable, Repr, AddAll, DivBinEffect, MulAddEffect, Splits;
      bank.TransferAt(inst.reg, dests[inst.destOff..inst.destOff + inst.destCount]);
      pc := inst.argA;
    }

    /** DIVMOD: the remainder selects the exit from the pool. */
    method ExecuteDivMod(inst: IrOptInst)
      requires Valid() && Ready(inst) && inst.op.OpDivMod?
      modifies this`pc, bank.words, Repr(bank.words[..])
      ensures Valid() && forall o | o in Repr(bank.words[..]) :: o in old(Repr(bank.words[..])) || fresh(o)
      ensures bank.Values() == Effect(Decode(inst, dests), old(bank.Values()))
      ensures pc == Target(Decode(inst, dests), old(pc), old(bank.Values()))
    {
      hide Ok, Value, PackOk, ViewOf, Runnable, Repr, AddAll, DivBinEffect, MulAddEffect, Splits;
      ghost var v := bank.Values();
      var lo := inst.destOff;
      var rem, quot := bank.DivModAt(inst.reg, dests[lo..lo + inst.destCount], inst.argB);
      DivModReady(v[inst.reg], inst.argB, quot, rem);
      pc := dests[lo + inst.destCount + rem];
    }

    /** MULADD. */
    method ExecuteMulAdd(inst: IrOptInst)
      requires Valid() && Ready(inst) && inst.op.OpMulAdd?
      modifies this`pc, bank.words, Repr(bank.words[..])
      ensures Valid() && forall o | o in Repr(bank.words[..]) :: o in old(Repr(bank.words[..])) || fresh(o)
      ensures bank.Values() == Effect(Decode(inst, dests), old(bank.Values()))
      ensures pc == Target(Decode(inst, dests), old(pc), old(bank.Values()))
    {
      hide Ok, Value, PackOk, ViewOf, Runnable, Repr, AddAll, DivBinEffect, MulAddEffect, Splits;
      ghost var v := bank.Values();
      var lo := inst.destOff;
      MulAddReady(v, Decode(inst, dests));
      bank.MulAddAt(inst.reg, dests[lo], dests[lo + 1], dests[lo + 2..lo + inst.destCount], inst.argB != 0);
      pc := inst.argA;
    }

    /** COPY. */
    method ExecuteCopy(inst: IrOptInst)
      requires Valid() && Ready(inst) && inst.op.OpCopy?
      modifies this`pc, bank.words, Repr(bank.words[..])
      ensures Valid() && forall o | o in Repr(bank.words[..]) :: o in old(Repr(bank.words[..])) || fresh(o)
      ensures bank.Values() == Effect(Decode(inst, dests), old(bank.Values()))
      ensures pc == Target(Decode(inst, dests), old(pc), old(bank.Values()))
    {
      hide Ok, Value, PackOk, ViewOf, Runnable, Repr, AddAll, DivBinEffect, MulAddEffect, Splits;
      var lo := inst.destOff;
      bank.CopyAt(inst.reg, dests[lo], dests[lo + 1..lo + inst.destCount]);
      pc := inst.argA;
    }

    /** DIVBIN: an empty divisor leaves everything, the program counter included, as it is. */
    method ExecuteDivBin(inst: IrOptInst)
      requires Valid() && Ready(inst) && inst.op.OpDivBin?
      modifies this`pc, bank.words, Repr(bank.words[..])
      ensures Valid() && forall o | o in Repr(bank.words[..]) :: o in old(Repr(bank.words[..])) || fresh(o)
      ensures DivisionFits(counter, Decode(inst, dests), old(bank.Values())) ==>
                bank.Values() == Effect(Decode(inst, dests), old(bank.Values()))
      ensures pc == Target(Decode(inst, dests), old(pc), old(bank.Values()))
    {
      hide Ok, Value, PackOk, ViewOf, Runnable, Repr, AddAll, DivBinEffect, MulAddEffect, Splits;
      var lo := inst.destOff;
      ghost var v, op := bank.Values(), Decode(inst, dests);
      SpinReady(v, op);
      bank.WordTest(dests[lo]);
      if !Bignums.IsZero(bank.words[dests[lo]]) {
        bank.DivBinAt(inst.reg, dests[lo], dests[lo + 1], dests[lo + 2], dests[lo + 3..lo + inst.destCount],
                      counter);
        pc := inst.argA;
      }
    }

    /** One step.  A `stop` counts as a step; running off the end does not.  The step is the
        machine's unless it is a division the bit counter does not cover. */
    method Step()
      requires Valid()
      modifies this`pc, this`steps, this`halted, bank.words, Repr(bank.words[..])
      ensures Valid() && forall o | o in Repr(bank.words[..]) :: o in old(Repr(bank.words[..])) || fresh(o)
      ensures old(halted) ==> halted && Now() == old(Now()) && steps == old(steps)
      ensures !old(halted) ==> halted == Stopped(Code(), old(Now()))
      ensures !old(halted) ==> steps == old(steps) + if old(pc) < |insts| then 1 else 0
      ensures !old(halted) && halted ==> Now() == old(Now())
      ensures !halted ==>
        && OpOk(Code()[old(pc)], bank.words.Length) && steps == old(steps) + 1
        && (DivisionFits(counter, Code()[old(pc)], old(bank.Values())) ==> Now() == Next(Code(), old(Now())))
    {
      hide Ok, Value, PackOk, ViewOf, Runnable, Repr, AddAll, DivBinEffect, MulAddEffect, Splits, Effect, Target, OpOk,
        DivisionFits;
      if halted {
        return;
      }
      if pc >= |insts| {
        halted := true;
        return;
      }
      var inst := insts[pc];
      InstReady(insts, dests, pc, bank.Values());
      match inst.op {
        case OpEnd => halted := true;
        case OpTransfer => ExecuteTransfer(inst);
        case OpDivMod => ExecuteDivMod(inst);
        case OpMulAdd => ExecuteMulAdd(inst);
        case OpCopy => ExecuteCopy(inst);
        case OpDivBin => ExecuteDivBin(inst);
        case _ => ExecuteSimple(inst);
      }
      steps := steps + 1;
    }

    /** Step until the program halts or the counter reaches `maxSteps`.  The counter never
        passes the cap, and if the bit counter covers every division the machine comes to,
        every step but a final `stop` is one move of the machine and the run halts exactly
        when the machine does within fewer moves than the cap has room for. */
    method Run(maxSteps: nat)
      requires Valid() && !halted
      modifies this`pc, this`steps, this`halted, bank.words, Repr(bank.words[..])
      ensures Valid() && forall o | o in Repr(bank.words[..]) :: o in old(Repr(bank.words[..])) || fresh(o)
      ensures old(steps) <= maxSteps ==> steps <= maxSteps
      ensures !halted ==> steps == (if old(steps) <= maxSteps then maxSteps else old(steps))
      ensures RunFits(counter, Code(), old(Now()), maxSteps) ==>
        && (halted ==>
              && HaltedAfter(Code(), old(Now()), steps - old(steps), Now())
              && steps - LastTick(Code(), Now()) < maxSteps)
        && (!halted ==> Reaches(Code(), old(Now()), steps - old(steps), Now()))
        && (old(steps) == 0 ==> Outcome(Code(), old(Now()), maxSteps, steps, Now()))
      ensures RunFits(counter, Code(), old(Now()), maxSteps) && halted ==>
        var moves := steps - old(steps) - if pc < |insts| then 1 else 0;
        0 <= moves < maxSteps - old(steps) && HaltsIn(Code(), old(Now()), moves, Now())
    {
      hide Ok, Value, PackOk, ViewOf, Runnable, Repr, AddAll, DivBinEffect, MulAddEffect, Splits,
        Decode, Effect, Target, OpOk, Next, Stopped, DivisionFits, RunFits;
      ghost var start := Now();
      ghost var fits := RunFits(counter, Code(), start, maxSteps);
      while !halted && steps < maxSteps
        invariant Valid() && forall o | o in Repr(bank.words[..]) :: o in old(Repr(bank.words[..])) || fresh(o)
        invariant old(steps) <= steps && (old(steps) <= maxSteps ==> steps <= maxSteps)
        invariant old(steps) > maxSteps ==> steps == old(steps)
        invariant fits && halted ==>
          && HaltedAfter(Code(), start, steps - old(steps), Now())
          && steps - LastTick(Code(), Now()) < maxSteps
        invariant fits && !halted ==> Reaches(Code(), start, steps - old(steps), Now())
        decreases !halted, maxSteps - steps
      {
        ghost var c, k := Now(), steps - old(steps);
        Step();
        if fits && !halted {
          FitsAt(counter, Code(), start, maxSteps, k, c);
          ReachesNext(Code(), start, k, c);
        } else if fits {
          HaltedHere(Code(), start, k, c);
        }
      }
    }
  }

  lemma FitsAt(counter: Counter, p: Program, c: Config, n: nat, k: nat, d: Config)
    requires RunFits(counter, p, c, n) && k < n && Reaches(p, c, k, d)
    requires !Stopped(p, d) && OpOk(p[d.pc], |d.regs|)
    ensures DivisionFits(counter, p[d.pc], d.regs)
  {
    hide DivisionFits, Reaches;
  }

  /** The machine halts from `c` in `d`, and executing it costs `ticks` steps. */
  ghost predicate HaltedAfter(p: Program, c: Config, ticks: int, d: Config) {
    ticks >= LastTick(p, d) && HaltsIn(p, c, ticks - LastTick(p, d), d)
  }

  /** What stepping from `c` under a step cap comes to: a halt, its `stop` counted, or the cap. */
  ghost predicate Outcome(p: Program, c: Config, cap: nat, steps: nat, d: Config) {
    || (HaltedAfter(p, c, steps, d) && steps - LastTick(p, d) < cap)
    || (steps == cap && Reaches(p, c, cap, d))
  }

  /** There is only one outcome. */
  lemma OutcomeUnique(p: Program, c: Config, cap: nat, s: nat, d: Config, t: nat, e: Config)
    requires Outcome(p, c, cap, s, d) && Outcome(p, c, cap, t, e)
    ensures s == t && d == e
  {
    hide Reaches;
    var haltedD := HaltedAfter(p, c, s, d) && s - LastTick(p, d) < cap;
    var haltedE := HaltedAfter(p, c, t, e) && t - LastTick(p, e) < cap;
    if haltedD && haltedE {
      HaltUnique(p, c, s - LastTick(p, d), d, t - LastTick(p, e), e);
    } else if haltedD {
      HaltThrough(p, c, cap, e, s - LastTick(p, d), d);
    } else if haltedE {
      HaltThrough(p, c, cap, d, t - LastTick(p, e), e);
    } else {
      ReachUnique(p, c, cap, d, e);
    }
  }

  lemma {:induction false} ReachUnique(p: Program, c: Config, k: nat, d: Config, e: Config)
    requires Reaches(p, c, k, d) && Reaches(p, c, k, e)
    ensures d == e
    decreases k
  {
    hide Next, OpOk;
    if k > 0 {
      ReachUnique(p, Next(p, c), k - 1, d, e);
    }
  }

  lemma HaltedHere(p: Program, c: Config, k: nat, d: Config)
    requires Reaches(p, c, k, d) && Stopped(p, d)
    ensures HaltedAfter(p, c, k + LastTick(p, d), d)
  {
  }

  lemma ReachesNext(p: Program, c: Config, k: nat, d: Config)
    requires Reaches(p, c, k, d) && !Stopped(p, d) && OpOk(p[d.pc], |d.regs|)
    ensures Reaches(p, c, k + 1, Next(p, d))
  {
    hide Next, OpOk;
    assert Reaches(p, Next(p, d), 0, Next(p, d));
    assert Reaches(p, d, 1, Next(p, d));
    ReachesJoin(p, c, k, d, 1, Next(p, d));
  }
}
