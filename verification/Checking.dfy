/** The differential check: run one program unoptimized and optimized from the same registers
    under the same step cap, and compare every register. */
module Checking {
  import opened Machine
  import opened Passes
  import opened Packed
  import opened Threading
  import opened Optimizer
  import opened NilRegister
  import opened NilValue
  import opened Roles
  import opened Bignums
  import opened LongDivision
  import opened RegFiles
  import opened Interp

  datatype Verdict =
    | Agree(rawSteps: nat, optSteps: nat)
    | Mismatch(count: nat)
    | Inconclusive(rawHalted: bool, optHalted: bool)

  /** `p` started on `v` comes to rest after fewer than `cap` moves. */
  ghost predicate RestsWithin(p: Program, v: Regs, cap: nat) {
    exists k: nat, res, fell :: Halts(p, v, k, res, fell) && k < cap
  }

  /** It does so with the bank `res`, and the step counter reads `ticks`. */
  ghost predicate Rested(p: Program, v: Regs, cap: nat, ticks: nat, res: Regs) {
    exists k: nat, fell :: Halts(p, v, k, res, fell) && k < cap && ticks == k + Tick(fell)
  }

  function Tick(fell: bool): nat {
    if fell then 0 else 1
  }

  lemma RestedHalted(p: Program, v: Regs, ticks: nat, d: Config, cap: nat)
    requires HaltedAfter(p, Config(0, v), ticks, d) && ticks - LastTick(p, d) < cap
    ensures Rested(p, v, cap, ticks, d.regs)
  {
    assert Halts(p, v, ticks - LastTick(p, d), d.regs, d.pc >= |p|);
  }

  lemma RestedRests(p: Program, v: Regs, cap: nat, ticks: nat, res: Regs)
    requires Rested(p, v, cap, ticks, res)
    ensures RestsWithin(p, v, cap)
  {
    hide Halts;
  }

  /** A program that is still going at the cap does not rest within it. */
  lemma CutOff(p: Program, v: Regs, cap: nat, d: Config)
    requires Reaches(p, Config(0, v), cap, d)
    ensures !RestsWithin(p, v, cap)
  {
    hide Reaches;
    forall k: nat, res, fell | Halts(p, v, k, res, fell) ensures k >= cap {
      var e :| HaltsIn(p, Config(0, v), k, e) && e.regs == res && fell == (e.pc >= |p|);
      HaltThrough(p, Config(0, v), cap, d, k, e);
    }
  }

  lemma HaltsOnce(p: Program, v: Regs, k: nat, res: Regs, fell: bool, k': nat, res': Regs, fell': bool)
    requires Halts(p, v, k, res, fell) && Halts(p, v, k', res', fell')
    ensures k == k' && res == res' && fell == fell'
  {
    hide HaltsIn;
    var d :| HaltsIn(p, Config(0, v), k, d) && d.regs == res && fell == (d.pc >= |p|);
    var d' :| HaltsIn(p, Config(0, v), k', d') && d'.regs == res' && fell' == (d'.pc >= |p|);
    HaltUnique(p, Config(0, v), k, d, k', d');
  }

  /** A program comes to rest in one bank, its counter at one reading. */
  lemma RestedOnce(p: Program, v: Regs, cap: nat, t: nat, res: Regs, t': nat, res': Regs)
    requires Rested(p, v, cap, t, res) && Rested(p, v, cap, t', res')
    ensures t == t' && res == res'
  {
    hide Halts;
    var k: nat, fell :| Halts(p, v, k, res, fell) && k < cap && t == k + Tick(fell);
    var k': nat, fell' :| Halts(p, v, k', res', fell') && k' < cap && t' == k' + Tick(fell');
    HaltsOnce(p, v, k, res, fell, k', res', fell');
  }

  /** From the bank `v`, the two programs agree on whether they halt and on every register but
      `x`, and the second takes no more moves.  No register is excepted if there is no `x`. */
  ghost predicate SameFrom(p: Program, q: Program, v: Regs, x: nat) {
    forall k: nat, res, fell ::
      && (Halts(p, v, k, res, fell) ==> HaltsByBut(q, v, k, res, x, fell))
      && (Halts(q, v, k, res, fell) ==> HaltsFromBut(p, v, k, res, x, fell))
  }

  lemma RefinementSame(p: Program, q: Program, nil: nat, v: Regs)
    requires Refines(p, q, |v|, nil) && NilEmpty(v, nil)
    ensures SameFrom(p, q, v, |v|)
  {
    hide Halts, Refines;
    forall k: nat, res, fell
      ensures Halts(p, v, k, res, fell) ==> HaltsByBut(q, v, k, res, |v|, fell)
      ensures Halts(q, v, k, res, fell) ==> HaltsFromBut(p, v, k, res, |v|, fell)
    {
      RefinesAt(p, q, |v|, nil, v, k, res, fell);
      UnderSelf(res, |v|);
    }
  }

  lemma RefinementBut(p: Program, q: Program, nil: nat, v: Regs)
    requires RefinesBut(p, q, |v|, nil)
    ensures SameFrom(p, q, v, nil)
  {
    hide Halts, HaltsByBut, HaltsFromBut;
  }

  /** Two such programs that both come to rest agree on every register but one, and the second
      one's counter reads no more. */
  lemma BothRest(p: Program, q: Program, x: nat, v: Regs, cap: nat, t: nat, res: Regs, t': nat, res': Regs)
    requires SameFrom(p, q, v, x) && Rested(p, v, cap, t, res) && Rested(q, v, cap, t', res')
    ensures Under(res, res', x) && t' <= t
  {
    hide Halts, Under, SameFrom;
    var k: nat, fell :| Halts(p, v, k, res, fell) && k < cap && t == k + Tick(fell);
    var k': nat, fell' :| Halts(q, v, k', res', fell') && k' < cap && t' == k' + Tick(fell');
    var m, out := SameAt(p, q, v, x, k, res, fell);
    HaltsOnce(q, v, k', res', fell', m, out, fell);
  }

  lemma SameAt(p: Program, q: Program, v: Regs, x: nat, k: nat, res: Regs, fell: bool) returns (m: nat, out: Regs)
    requires SameFrom(p, q, v, x) && Halts(p, v, k, res, fell)
    ensures m <= k && Under(res, out, x) && Halts(q, v, m, out, fell)
  {
    hide Halts, Under, HaltsFromBut;
    assert HaltsByBut(q, v, k, res, x, fell);
    m, out :| m <= k && Under(res, out, x) && Halts(q, v, m, out, fell);
  }

  /** Within any cap, if the source comes to rest so does the optimized program. */
  lemma RestsSooner(p: Program, q: Program, x: nat, v: Regs, cap: nat)
    requires SameFrom(p, q, v, x) && RestsWithin(p, v, cap)
    ensures RestsWithin(q, v, cap)
  {
    hide Halts, Under, SameFrom;
    var k: nat, res, fell :| Halts(p, v, k, res, fell) && k < cap;
    var m, out := SameAt(p, q, v, x, k, res, fell);
  }

  /** A halting run keeps the number of registers. */
  lemma {:induction false} RunSize(p: Program, c: Config, k: nat, d: Config)
    requires Reaches(p, c, k, d)
    ensures |d.regs| == |c.regs|
    decreases k
  {
    hide Effect, Target;
    if k > 0 {
      RunSize(p, Next(p, c), k - 1, d);
    }
  }

  lemma RestedSize(p: Program, v: Regs, cap: nat, t: nat, res: Regs)
    requires Rested(p, v, cap, t, res)
    ensures |res| == |v|
  {
    var k: nat, fell :| Halts(p, v, k, res, fell) && k < cap && t == k + Tick(fell);
    var d :| HaltsIn(p, Config(0, v), k, d) && d.regs == res && fell == (d.pc >= |p|);
    RunSize(p, Config(0, v), k, d);
  }

  // ---------------------------------------------------------------------------
  // The verdict
  // ---------------------------------------------------------------------------

  /** In how many of the first `n` registers two banks differ. */
  function Differ(a: Regs, b: Regs, n: nat): (d: nat)
    requires n <= |a| == |b|
    ensures d <= n
  {
    if n == 0 then 0 else Differ(a, b, n - 1) + if a[n - 1] == b[n - 1] then 0 else 1
  }

  lemma {:induction false} DifferNone(a: Regs, b: Regs, n: nat)
    requires n <= |a| == |b|
    ensures Differ(a, b, n) == 0 <==> a[..n] == b[..n]
  {
    if n > 0 {
      DifferNone(a, b, n - 1);
      assert a[..n] == a[..n - 1] + [a[n - 1]] && b[..n] == b[..n - 1] + [b[n - 1]];
    }
  }

  lemma {:induction false} DifferOne(a: Regs, b: Regs, x: nat, n: nat)
    requires n <= |a| == |b| && Under(a, b, x)
    ensures Differ(a, b, n) == if x < n && a[x] != b[x] then 1 else 0
  {
    if n > 0 {
      DifferOne(a, b, x, n - 1);
    }
  }

  /** What the comparison of two programs from one bank under one cap comes to. */
  ghost predicate Judged(verdict: Verdict, p: Program, q: Program, v: Regs, cap: nat) {
    if RestsWithin(p, v, cap) && RestsWithin(q, v, cap) then
      exists t: nat, res, t': nat, res' :: Compared(verdict, p, q, v, cap, t, res, t', res')
    else
      verdict == Inconclusive(RestsWithin(p, v, cap), RestsWithin(q, v, cap))
  }

  ghost predicate Compared(verdict: Verdict, p: Program, q: Program, v: Regs, cap: nat,
                           t: nat, res: Regs, t': nat, res': Regs) {
    && Rested(p, v, cap, t, res) && Rested(q, v, cap, t', res') && |res| == |res'|
    && verdict == if res == res' then Agree(t, t') else Mismatch(Differ(res, res', |res|))
  }

  /** The first `n` places where two banks differ. */
  ghost function Places(a: Regs, b: Regs, n: nat): set<int>
    requires n <= |a| == |b|
  {
    set i | 0 <= i < n && a[i] != b[i]
  }

  lemma PlacesNext(a: Regs, b: Regs, n: nat)
    requires n < |a| == |b|
    ensures |Places(a, b, n + 1)| == |Places(a, b, n)| + if a[n] == b[n] then 0 else 1
  {
    assert Places(a, b, n + 1) == if a[n] == b[n] then Places(a, b, n) else Places(a, b, n) + {n};
  }

  lemma {:induction false} DifferCount(a: Regs, b: Regs, n: nat)
    requires n <= |a| == |b|
    ensures Differ(a, b, n) == |Places(a, b, n)|
  {
    if n > 0 {
      hide Places;
      DifferCount(a, b, n - 1);
      PlacesNext(a, b, n - 1);
    }
  }

  /** `p` from `v` halts in `d` after `k` moves, fewer than the cap, and its counter reads
      `ticks`: a `stop` counts as a step, running past the end does not. */
  lemma RestedMeans(p: Program, v: Regs, cap: nat, ticks: nat, res: Regs) returns (k: nat, d: Config)
    requires Rested(p, v, cap, ticks, res)
    ensures HaltsIn(p, Config(0, v), k, d) && k < cap && d.regs == res
    ensures ticks == k + if d.pc < |p| then 1 else 0
  {
    var fell;
    k, fell :| Halts(p, v, k, res, fell) && k < cap && ticks == k + Tick(fell);
    d :| HaltsIn(p, Config(0, v), k, d) && d.regs == res && fell == (d.pc >= |p|);
  }

  lemma RestsMeans(p: Program, v: Regs, cap: nat)
    ensures RestsWithin(p, v, cap) <==> exists k: nat, d :: HaltsIn(p, Config(0, v), k, d) && k < cap
  {
    hide HaltsIn;
    if RestsWithin(p, v, cap) {
      var k: nat, res, fell :| Halts(p, v, k, res, fell) && k < cap;
      var d :| HaltsIn(p, Config(0, v), k, d) && d.regs == res && fell == (d.pc >= |p|);
    }
    if k: nat, d :| HaltsIn(p, Config(0, v), k, d) && k < cap {
      assert Halts(p, v, k, d.regs, d.pc >= |p|);
    }
  }

  /** What a verdict says of the runs of the machine. */
  lemma JudgedMeans(verdict: Verdict, p: Program, q: Program, v: Regs, cap: nat)
    requires Judged(verdict, p, q, v, cap)
    ensures verdict.Agree? ==> exists k: nat, d, l: nat, e ::
              && HaltsIn(p, Config(0, v), k, d) && k < cap && verdict.rawSteps == k + (if d.pc < |p| then 1 else 0)
              && HaltsIn(q, Config(0, v), l, e) && l < cap && verdict.optSteps == l + (if e.pc < |q| then 1 else 0)
              && d.regs == e.regs
    ensures verdict.Mismatch? ==> exists k: nat, d, l: nat, e ::
              && HaltsIn(p, Config(0, v), k, d) && k < cap && HaltsIn(q, Config(0, v), l, e) && l < cap
              && |d.regs| == |e.regs| && d.regs != e.regs
              && verdict.count == |set i | 0 <= i < |d.regs| && d.regs[i] != e.regs[i]|
    ensures verdict.Inconclusive? ==>
              && (verdict.rawHalted <==> exists k: nat, d :: HaltsIn(p, Config(0, v), k, d) && k < cap)
              && (verdict.optHalted <==> exists k: nat, d :: HaltsIn(q, Config(0, v), k, d) && k < cap)
              && !(verdict.rawHalted && verdict.optHalted)
  {
    hide Rested, RestsWithin, HaltsIn;
    RestsMeans(p, v, cap);
    RestsMeans(q, v, cap);
    if RestsWithin(p, v, cap) && RestsWithin(q, v, cap) {
      var t: nat, res, t': nat, res' :| Compared(verdict, p, q, v, cap, t, res, t', res');
      var k, d := RestedMeans(p, v, cap, t, res);
      var l, e := RestedMeans(q, v, cap, t', res');
      DifferCount(res, res', |res|);
      assert Places(res, res', |res|) == set i | 0 <= i < |d.regs| && d.regs[i] != e.regs[i];
    }
  }

  /** No mismatch, except in the one register `x` if there is such a register; a comparison
      exactly when `p` comes to rest within the cap, the second run having taken no more
      steps; and the second is never cut off when the first was not. */
  ghost predicate Meets(verdict: Verdict, p: Program, v: Regs, cap: nat, x: nat) {
    && (verdict.Mismatch? ==> x < |v| && verdict.count == 1)
    && (!verdict.Inconclusive? <==> RestsWithin(p, v, cap))
    && (verdict.Agree? ==> verdict.optSteps <= verdict.rawSteps <= cap)
    && (verdict.Inconclusive? ==> !verdict.rawHalted)
  }

  /** No two verdicts fit. */
  lemma JudgedOnce(a: Verdict, b: Verdict, p: Program, q: Program, v: Regs, cap: nat)
    requires Judged(a, p, q, v, cap) && Judged(b, p, q, v, cap)
    ensures a == b
  {
    hide RestsWithin, Rested;
    if RestsWithin(p, v, cap) && RestsWithin(q, v, cap) {
      var t: nat, res, t': nat, res' :| Compared(a, p, q, v, cap, t, res, t', res');
      var u: nat, out, u': nat, out' :| Compared(b, p, q, v, cap, u, out, u', out');
      RestedOnce(p, v, cap, t, res, u, out);
      RestedOnce(q, v, cap, t', res', u', out');
    }
  }

  /** A bean in `nil` at the start, and checking does report a mismatch. */
  lemma NilMismatch(verdict: Verdict, q: Program, cap: nat)
    requires Optimized(GiveThenNoOp(), [], 1, q) && Judged(verdict, GiveThenNoOp(), q, [0, 1], cap) && cap > 2
    ensures verdict == Mismatch(1)
  {
    hide Ends, Optimized, Judged, Rested, RestsWithin;
    NilMatters();
    OptimizedUnique(GiveThenNoOp(), [], 1, q, [Inc(0, 1), End]);
    EndsRested(GiveThenNoOp(), [0, 1], 2, [1, 0], cap);
    EndsRested(q, [0, 1], 1, [1, 1], cap);
    var t: nat :| Rested(GiveThenNoOp(), [0, 1], cap, t, [1, 0]);
    var t': nat :| Rested(q, [0, 1], cap, t', [1, 1]);
    RestedRests(GiveThenNoOp(), [0, 1], cap, t, [1, 0]);
    RestedRests(q, [0, 1], cap, t', [1, 1]);
    assert Differ([1, 0], [1, 1], 1) == 0 && Differ([1, 0], [1, 1], 2) == 1;
    assert Compared(Mismatch(1), GiveThenNoOp(), q, [0, 1], cap, t, [1, 0], t', [1, 1]);
    ComparedJudged(Mismatch(1), GiveThenNoOp(), q, [0, 1], cap, t, [1, 0], t', [1, 1]);
    JudgedOnce(verdict, Mismatch(1), GiveThenNoOp(), q, [0, 1], cap);
  }

  lemma EndsRested(p: Program, v: Regs, k: nat, res: Regs, cap: nat)
    requires Ends(p, v, k, res) && k < cap
    ensures exists t: nat :: Rested(p, v, cap, t, res)
  {
    var d :| HaltsIn(p, Config(0, v), k, d) && d.regs == res;
    var fell := d.pc >= |p|;
    assert Halts(p, v, k, res, fell);
    assert Rested(p, v, cap, k + Tick(fell), res);
  }

  lemma ComparedJudged(verdict: Verdict, p: Program, q: Program, v: Regs, cap: nat,
                       t: nat, res: Regs, t': nat, res': Regs)
    requires Compared(verdict, p, q, v, cap, t, res, t', res') && RestsWithin(p, v, cap) && RestsWithin(q, v, cap)
    ensures Judged(verdict, p, q, v, cap)
  {
    hide Compared, RestsWithin;
  }

  lemma RestedBelow(p: Program, v: Regs, cap: nat, t: nat, res: Regs)
    requires Rested(p, v, cap, t, res)
    ensures t <= cap
  {
    hide Halts;
  }

  lemma JudgedMeets(verdict: Verdict, p: Program, q: Program, v: Regs, cap: nat, x: nat)
    requires Judged(verdict, p, q, v, cap) && SameFrom(p, q, v, x)
    ensures Meets(verdict, p, v, cap, x)
  {
    hide RestsWithin, Rested, SameFrom, Under;
    if RestsWithin(p, v, cap) {
      RestsSooner(p, q, x, v, cap);
      var t: nat, res, t': nat, res' :| Compared(verdict, p, q, v, cap, t, res, t', res');
      BothRest(p, q, x, v, cap, t, res, t', res');
      RestedBelow(p, v, cap, t, res);
      RestedSize(p, v, cap, t, res);
      DifferOne(res, res', x, |res|);
      DifferNone(res, res', |res|);
      assert res[..|res|] == res && res'[..|res'|] == res';
    }
  }

  /** A fresh interpreter holding the given registers. */
  method Load(code: IrOptProgram, start: seq<Bignum>, ghost v: Regs) returns (state: InterpState)
    requires code.Valid() && Runnable(code.View(), |start|) && AllOk(start) && v == ValuesOf(start)
    ensures AllOk(start) && v == ValuesOf(start)
    ensures fresh(state) && fresh(state.bank) && fresh(state.bank.words) && fresh(Repr(state.bank.words[..]))
    ensures state.Valid() && state.bank.words.Length == |start| && state.Code() == code.View()
    ensures state.Now() == Config(0, v) && state.steps == 0 && !state.halted && state.counter.Wide?
  {
    hide Ok, Value, PackOk, ViewOf, Runnable, Repr, ValuesOf;
    ReprAllocated(start);
    state := new InterpState(code.insts[..code.instCount], code.dests[..code.destTotal], |start|, Wide);
    for i := 0 to |start|
      invariant fresh(state) && fresh(state.bank) && fresh(state.bank.words) && fresh(Repr(state.bank.words[..]))
      invariant state.Valid() && state.bank.words.Length == |start| && state.Code() == code.View()
      invariant state.steps == 0 && !state.halted && state.pc == 0
      invariant AllOk(start) && ValuesOf(start) == v
      invariant state.Now().regs[..i] == v[..i]
    {
      OkAt(start, i);
      state.SetReg(i, start[i]);
    }
  }

  /** How many registers differ in value. */
  method CountMismatches(a: RegFile, b: RegFile, ghost va: Regs, ghost vb: Regs) returns (count: nat)
    requires a.Valid() && b.Valid() && a.words.Length == b.words.Length
    requires va == a.Values() && vb == b.Values()
    ensures |va| == |vb| && count == Differ(va, vb, |va|)
  {
    hide Ok, Value, AllOk, ValuesOf, Separate, Repr;
    ReprAllocated(a.words[..]);
    ReprAllocated(b.words[..]);
    count := 0;
    for i := 0 to a.words.Length
      invariant a.Valid() && b.Valid() && va == a.Values() && vb == b.Values()
      invariant count == Differ(va, vb, i)
    {
      OkAt(a.words[..], i);
      OkAt(b.words[..], i);
      var c := Cmp(a.words[i], b.words[i]);
      if c != 0 {
        count := count + 1;
      }
    }
  }

  ghost predicate Ready(s: InterpState, v: Regs)
    reads s, s.bank, s.bank.words, Repr(s.bank.words[..])
  {
    s.Valid() && s.Now() == Config(0, v) && s.steps == 0 && !s.halted && s.counter.Wide?
  }

  ghost function Objects(s: InterpState): set<object>
    reads s, s.bank, s.bank.words
  {
    {s, s.bank, s.bank.words} + Repr(s.bank.words[..])
  }

  /** Run two interpreters under the same cap and compare. */
  method RunBoth(raw: InterpState, opt: InterpState, maxSteps: nat, ghost v: Regs) returns (verdict: Verdict)
    requires Ready(raw, v) && Ready(opt, v) && Objects(raw) !! Objects(opt)
    modifies Objects(raw), Objects(opt)
    ensures Judged(verdict, raw.Code(), opt.Code(), v, maxSteps)
    ensures var p, q := raw.Code(), opt.Code();
            verdict.Agree? ==> exists k: nat, d, l: nat, e ::
              && HaltsIn(p, Config(0, v), k, d) && verdict.rawSteps == k + (if d.pc < |p| then 1 else 0)
              && HaltsIn(q, Config(0, v), l, e) && verdict.optSteps == l + (if e.pc < |q| then 1 else 0)
              && d.regs == e.regs && k < maxSteps && l < maxSteps
    ensures var p, q := raw.Code(), opt.Code();
            verdict.Mismatch? ==> exists k: nat, d, l: nat, e ::
              && HaltsIn(p, Config(0, v), k, d) && k < maxSteps && HaltsIn(q, Config(0, v), l, e) && l < maxSteps
              && |d.regs| == |e.regs| && d.regs != e.regs
              && verdict.count == |set i | 0 <= i < |d.regs| && d.regs[i] != e.regs[i]|
    ensures var p, q := raw.Code(), opt.Code();
            verdict.Inconclusive? ==>
              && (verdict.rawHalted <==> exists k: nat, d :: HaltsIn(p, Config(0, v), k, d) && k < maxSteps)
              && (verdict.optHalted <==> exists k: nat, d :: HaltsIn(q, Config(0, v), k, d) && k < maxSteps)
              && !(verdict.rawHalted && verdict.optHalted)
  {
    hide Ok, Value, AllOk, ValuesOf, Separate, Repr, PackOk, ViewOf, Runnable, RestsWithin,
      Rested, HaltedAfter, HaltsIn, Reaches, RunFits;
    ghost var p, q := raw.Code(), opt.Code();
    WideRunFits(p, Config(0, v), maxSteps);
    WideRunFits(q, Config(0, v), maxSteps);
    ReprAllocated(raw.bank.words[..]);
    ReprAllocated(opt.bank.words[..]);
    raw.Run(maxSteps);
    ReprAllocated(raw.bank.words[..]);
    ghost var c := raw.Now();
    opt.Run(maxSteps);
    ghost var d := opt.Now();
    RunVerdict(p, v, maxSteps, raw.halted, raw.steps, c);
    RunVerdict(q, v, maxSteps, opt.halted, opt.steps, d);
    if !raw.halted || !opt.halted {
      verdict := Inconclusive(raw.halted, opt.halted);
      JudgedMeans(verdict, p, q, v, maxSteps);
      return;
    }
    var mismatches := CountMismatches(raw.bank, opt.bank, c.regs, d.regs);
    verdict := if mismatches == 0 then Agree(raw.steps, opt.steps) else Mismatch(mismatches);
    DifferNone(c.regs, d.regs, |c.regs|);
    assert c.regs[..|c.regs|] == c.regs && d.regs[..|d.regs|] == d.regs;
    assert Compared(verdict, p, q, v, maxSteps, raw.steps, c.regs, opt.steps, d.regs);
    JudgedMeans(verdict, p, q, v, maxSteps);
  }

  /** Load both programs with the same registers, run and compare. */
  method RunLoaded(rawCode: IrOptProgram, optCode: IrOptProgram, start: seq<Bignum>, maxSteps: nat, ghost v: Regs)
    returns (verdict: Verdict)
    requires rawCode.Valid() && Runnable(rawCode.View(), |start|)
    requires optCode.Valid() && Runnable(optCode.View(), |start|)
    requires AllOk(start) && v == ValuesOf(start)
    ensures Judged(verdict, old(rawCode.View()), old(optCode.View()), v, maxSteps)
  {
    hide Ok, Value, AllOk, ValuesOf, Separate, Repr, PackOk, ViewOf, Runnable, Judged, HaltsIn, RestsWithin;
    ReprAllocated(start);
    var raw := Load(rawCode, start, v);
    ReprAllocated(raw.bank.words[..]);
    var opt := Load(optCode, start, v);
    verdict := RunBoth(raw, opt, maxSteps, v);
  }

  /** Checking any raw program from any registers under any cap.  Where nothing gives `nil` and
      it starts empty no mismatch is ever reported; where every take of `nil` goes to one
      place, `nil` is the only register that can be reported. */
  method Check(p: Program, isDev: seq<bool>, nil: nat, start: seq<Bignum>, maxSteps: nat)
    returns (verdict: Verdict, ghost q: Program, ghost v: Regs)
    requires IsRaw(p) && ProgOk(p, |start|) && AllOk(start)
    ensures v == old(ValuesOf(start)) && Optimized(p, isDev, nil, q) && Judged(verdict, p, q, v, maxSteps)
    ensures verdict.Agree? ==> exists k: nat, d, l: nat, e ::
              && HaltsIn(p, Config(0, v), k, d) && verdict.rawSteps == k + (if d.pc < |p| then 1 else 0)
              && HaltsIn(q, Config(0, v), l, e) && verdict.optSteps == l + (if e.pc < |q| then 1 else 0)
              && d.regs == e.regs && k < maxSteps && l < maxSteps
    ensures verdict.Mismatch? ==> exists k: nat, d, l: nat, e ::
              && HaltsIn(p, Config(0, v), k, d) && k < maxSteps && HaltsIn(q, Config(0, v), l, e) && l < maxSteps
              && |d.regs| == |e.regs| && d.regs != e.regs
              && verdict.count == |set i | 0 <= i < |d.regs| && d.regs[i] != e.regs[i]|
    ensures verdict.Inconclusive? ==>
              && (verdict.rawHalted <==> exists k: nat, d :: HaltsIn(p, Config(0, v), k, d) && k < maxSteps)
              && (verdict.optHalted <==> exists k: nat, d :: HaltsIn(q, Config(0, v), k, d) && k < maxSteps)
              && !(verdict.rawHalted && verdict.optHalted)
    ensures NeverFed(p, nil) && NilEmpty(v, nil) ==> Meets(verdict, p, v, maxSteps, |start|)
    ensures Plain(p, nil) ==> Meets(verdict, p, v, maxSteps, nil)
  {
    hide Ok, Value, AllOk, ValuesOf, Separate, Repr, PackOk, ViewOf, Runnable, Optimized, RestsWithin,
      NeverFed, Refines, ProgOk, NilEmpty, Meets, Judged, Plain, RefinesBut, SameFrom, HaltsIn;
    v := ValuesOf(start);
    ReprAllocated(start);
    var rawCode := IrOptimize(p, isDev, nil, OptNone);
    var optCode := IrOptimize(p, isDev, nil, OptLoops);
    q := optCode.View();
    RawRunnable(p, |start|);
    OptimizedRunnable(p, isDev, nil, q, |start|);
    verdict := RunLoaded(rawCode, optCode, start, maxSteps, v);
    JudgedMeans(verdict, p, q, v, maxSteps);
    CheckMeets(verdict, p, isDev, nil, q, v, maxSteps);
  }

  lemma CheckMeets(verdict: Verdict, p: Program, isDev: seq<bool>, nil: nat, q: Program, v: Regs, cap: nat)
    requires IsRaw(p) && ProgOk(p, |v|) && Optimized(p, isDev, nil, q) && Judged(verdict, p, q, v, cap)
    ensures NeverFed(p, nil) && NilEmpty(v, nil) ==> Meets(verdict, p, v, cap, |v|)
    ensures Plain(p, nil) ==> Meets(verdict, p, v, cap, nil)
  {
    hide Optimized, NeverFed, Refines, ProgOk, NilEmpty, Meets, Judged, Plain, RefinesBut, SameFrom;
    if NeverFed(p, nil) && NilEmpty(v, nil) {
      OptimizerCorrect(p, isDev, nil, q, |v|);
      RefinementSame(p, q, nil, v);
      JudgedMeets(verdict, p, q, v, cap, |v|);
    }
    if Plain(p, nil) {
      OptimizerAnyNil(p, isDev, nil, q, |v|);
      RefinementBut(p, q, nil, v);
      JudgedMeets(verdict, p, q, v, cap, nil);
    }
  }

  /** What a finished run says about the program. */
  lemma RunVerdict(p: Program, v: Regs, cap: nat, halted: bool, steps: nat, d: Config)
    requires halted ==> HaltedAfter(p, Config(0, v), steps, d) && steps - LastTick(p, d) < cap
    requires !halted ==> steps == cap && Reaches(p, Config(0, v), steps, d)
    ensures halted <==> RestsWithin(p, v, cap)
    ensures halted ==> Rested(p, v, cap, steps, d.regs)
  {
    hide HaltedAfter, Rested, RestsWithin, Reaches;
    if halted {
      RestedHalted(p, v, steps, d, cap);
      RestedRests(p, v, cap, steps, d.regs);
    } else {
      CutOff(p, v, cap, d);
    }
  }
}
