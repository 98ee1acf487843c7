/** The counter machine that every stage of beancraft runs.

    A program is a sequence of operations over a bank of unbounded natural registers.
    `Inc`, `Deb` and `End` are the raw machine; the other seven operations are the
    constant-time folds the optimizer substitutes for loops.  `Next` is one move of the
    interpreter.  The module also holds the simulation theorem that every pass, the
    universal machine and the compiled code are proved with. */
module Machine {

  type Regs = seq<nat>

  datatype Op =
    | Inc(reg: nat, next: nat)
    | Deb(reg: nat, onZero: nat, onTake: nat)
    | End
    | Zero(reg: nat, exit: nat)
    | Transfer(reg: nat, dsts: seq<nat>, exit: nat)
    | DivMod(reg: nat, dsts: seq<nat>, exits: seq<nat>)
    | MulAdd(reg: nat, s: nat, t: nat, dsts: seq<nat>, preclear: bool, exit: nat)
    | IsZero(reg: nat, onZero: nat, onTake: nat)
    | Copy(reg: nat, t: nat, dsts: seq<nat>, exit: nat)
    | DivBin(reg: nat, p: nat, rem: nat, q: nat, xs: seq<nat>, exit: nat)

  type Program = seq<Op>

  datatype Config = Config(pc: nat, regs: Regs)

  predicate IsRawOp(op: Op) {
    op.Inc? || op.Deb? || op.End?
  }

  predicate IsRaw(p: Program) {
    forall i :: 0 <= i < |p| ==> IsRawOp(p[i])
  }

  predicate AllBelow(rs: seq<nat>, n: nat) {
    forall i :: 0 <= i < |rs| ==> rs[i] < n
  }

  /** Every register the operation names exists in a bank of `n` registers. */
  predicate OpOk(op: Op, n: nat) {
    match op
    case End => true
    case Inc(r, _) => r < n
    case Deb(r, _, _) => r < n
    case Zero(r, _) => r < n
    case IsZero(r, _, _) => r < n
    case Transfer(r, ds, _) => r < n && AllBelow(ds, n)
    case DivMod(r, ds, es) => r < n && AllBelow(ds, n) && |es| > 0
    case MulAdd(c, s, t, ds, _, _) => c < n && s < n && t < n && AllBelow(ds, n)
    case Copy(s, t, ds, _) => s < n && t < n && AllBelow(ds, n)
    case DivBin(r, p, rem, q, xs, _) => r < n && p < n && rem < n && q < n && AllBelow(xs, n)
  }

  ghost predicate ProgOk(p: Program, n: nat) {
    forall i :: 0 <= i < |p| ==> OpOk(p[i], n)
  }

  /** How often `r` occurs in `rs`: a register named twice receives twice. */
  function Times(rs: seq<nat>, r: nat): nat {
    multiset(rs)[r]
  }

  /** Add `v` into every register listed in `dsts`, once per occurrence. */
  function AddAll(regs: Regs, dsts: seq<nat>, v: nat): (r: Regs)
    ensures |r| == |regs|
  {
    seq(|regs|, j requires 0 <= j < |regs| => regs[j] + v * Times(dsts, j))
  }

  /** The bank after one operation. */
  function Effect(op: Op, regs: Regs): (r: Regs)
    requires OpOk(op, |regs|)
    ensures |r| == |regs|
  {
    match op
    case End => regs
    case Inc(x, _) => regs[x := regs[x] + 1]
    case Deb(x, _, _) => if regs[x] == 0 then regs else regs[x := regs[x] - 1]
    case Zero(x, _) => regs[x := 0]
    case IsZero(_, _, _) => regs
    case Transfer(x, ds, _) => AddAll(regs, ds, regs[x])[x := 0]
    case DivMod(x, ds, es) => AddAll(regs, ds, regs[x] / |es|)[x := 0]
    case MulAdd(c, s, t, ds, pre, _) =>
      if regs[c] == 0 then regs
      else if pre then AddAll(regs, ds, regs[c] * regs[s])[t := 0][c := 0]
      else
        AddAll(regs[s := regs[s] + regs[t]], ds,
               regs[c] * regs[s] + (regs[c] - 1) * regs[t])[t := 0][c := 0]
    case Copy(s, t, ds, _) =>
      var r := AddAll(regs, ds, regs[s]);
      r[s := r[s] + r[t]][t := 0]
    case DivBin(x, p, rem, q, xs, _) =>
      if regs[p] == 0 then regs else DivBinEffect(regs, x, p, rem, q, xs)
  }

  /** Long division of `x` by the value of `p`: quotient into `q`, remainder in `rem`, the
      dividend into each of `xs`; the divisor keeps one bean less than was not matched. */
  function DivBinEffect(regs: Regs, x: nat, p: nat, rem: nat, q: nat, xs: seq<nat>): (r: Regs)
    requires x < |regs| && p < |regs| && rem < |regs| && q < |regs| && regs[p] > 0
    ensures |r| == |regs|
  {
    var quotient, left: nat := regs[x] / regs[p], regs[x] % regs[p];
    assert left < regs[p];
    var added := AddAll(regs, xs, regs[x]);
    added[q := added[q] + quotient][x := 0][p := regs[p] - left - 1][rem := left]
  }

  /** Where control goes after an operation at `pc`. */
  function Target(op: Op, pc: nat, regs: Regs): nat
    requires OpOk(op, |regs|)
  {
    match op
    case End => pc
    case Inc(_, n) => n
    case Deb(x, a, b) => if regs[x] == 0 then a else b
    case Zero(_, e) => e
    case IsZero(x, a, b) => if regs[x] == 0 then a else b
    case Transfer(_, _, e) => e
    case DivMod(x, _, es) => es[regs[x] % |es|]
    case MulAdd(_, _, _, _, _, e) => e
    case Copy(_, _, _, e) => e
    case DivBin(_, p, _, _, _, e) => if regs[p] == 0 then pc else e
  }

  /** No move is left: a `stop`, or a program counter past the end. */
  predicate Stopped(p: Program, c: Config) {
    c.pc >= |p| || p[c.pc].End?
  }

  function Next(p: Program, c: Config): Config
    requires !Stopped(p, c) && OpOk(p[c.pc], |c.regs|)
  {
    Config(Target(p[c.pc], c.pc, c.regs), Effect(p[c.pc], c.regs))
  }

  /** `p` takes `c` to `d` in exactly `k` moves. */
  ghost predicate Reaches(p: Program, c: Config, k: nat, d: Config)
    decreases k
  {
    if k == 0 then c == d
    else !Stopped(p, c) && OpOk(p[c.pc], |c.regs|) && Reaches(p, Next(p, c), k - 1, d)
  }

  ghost predicate HaltsIn(p: Program, c: Config, k: nat, d: Config) {
    Reaches(p, c, k, d) && Stopped(p, d)
  }

  ghost predicate Diverges(p: Program, c: Config) {
    forall k: nat, d :: !HaltsIn(p, c, k, d)
  }

  // ---------------------------------------------------------------------------
  // Runs
  // ---------------------------------------------------------------------------

  lemma {:induction false} ReachesJoin(p: Program, a: Config, k: nat, b: Config, l: nat, c: Config)
    requires Reaches(p, a, k, b) && Reaches(p, b, l, c)
    ensures Reaches(p, a, k + l, c)
    decreases k
  {
    hide Next, OpOk;
    if k != 0 {
      ReachesJoin(p, Next(p, a), k - 1, b, l, c);
    }
  }

  /** The machine is deterministic: a halting run passes through every reachable point. */
  lemma {:induction false} HaltThrough(p: Program, c: Config, j: nat, b: Config, k: nat, d: Config)
    requires Reaches(p, c, j, b) && HaltsIn(p, c, k, d)
    ensures j <= k && HaltsIn(p, b, k - j, d)
    decreases j
  {
    if j != 0 {
      HaltThrough(p, Next(p, c), j - 1, b, k - 1, d);
    }
  }

  /** A halting run ends in one place after one number of moves. */
  lemma HaltUnique(p: Program, c: Config, k: nat, d: Config, k': nat, d': Config)
    requires HaltsIn(p, c, k, d) && HaltsIn(p, c, k', d')
    ensures k == k' && d == d'
  {
    HaltThrough(p, c, k, d, k', d');
  }

  /** Coming back to a diverging point means diverging. */
  lemma DivergeBack(p: Program, c: Config, k: nat, d: Config)
    requires Reaches(p, c, k, d) && Diverges(p, d)
    ensures Diverges(p, c)
  {
    forall m: nat, e ensures !HaltsIn(p, c, m, e) {
      if HaltsIn(p, c, m, e) {
        HaltThrough(p, c, k, d, m, e);
      }
    }
  }

  /** From `a` the machine can move on, by at least one step, to a point of `region`. */
  ghost predicate MovesWithin(p: Program, region: Config -> bool, a: Config) {
    exists j: nat, b :: j >= 1 && Reaches(p, a, j, b) && region(b)
  }

  lemma MoveWithin(p: Program, region: Config -> bool, a: Config) returns (j: nat, b: Config)
    requires MovesWithin(p, region, a)
    ensures j >= 1 && Reaches(p, a, j, b) && region(b)
  {
    j, b :| j >= 1 && Reaches(p, a, j, b) && region(b);
  }

  /** A machine that can always move on inside a region never halts from there. */
  lemma {:induction false} ForeverWithin(p: Program, region: Config -> bool, c: Config, k: nat, d: Config)
    requires forall a :: region(a) ==> MovesWithin(p, region, a)
    requires region(c)
    ensures !HaltsIn(p, c, k, d)
    decreases k
  {
    hide MovesWithin, Reaches;
    if HaltsIn(p, c, k, d) {
      var j, b := MoveWithin(p, region, c);
      HaltThrough(p, c, j, b, k, d);
      ForeverWithin(p, region, b, k - j, d);
    }
  }

  // ---------------------------------------------------------------------------
  // Simulation: each move of a fast program is one or more moves of a slow one
  // ---------------------------------------------------------------------------

  ghost predicate Advances(p: Program, c: Config, rel: (Config, Config) -> bool, d: Config) {
    exists k: nat, c' :: k >= 1 && Reaches(p, c, k, c') && rel(c', d)
  }

  ghost predicate Finishes(p: Program, c: Config, out: (Config, Config) -> bool, d: Config) {
    exists k: nat, c' :: HaltsIn(p, c, k, c') && out(c', d)
  }

  ghost predicate Matches(p: Program, q: Program, rel: (Config, Config) -> bool,
                          out: (Config, Config) -> bool, c: Config, d: Config) {
    if Stopped(q, d) then Finishes(p, c, out, d)
    else
      && OpOk(q[d.pc], |d.regs|)
      && (Advances(p, c, rel, Next(q, d)) || (Diverges(p, c) && Diverges(q, d)))
  }

  ghost predicate Simulates(p: Program, q: Program, rel: (Config, Config) -> bool,
                            out: (Config, Config) -> bool) {
    forall c, d :: rel(c, d) ==> Matches(p, q, rel, out, c, d)
  }

  lemma Advance(p: Program, c: Config, rel: (Config, Config) -> bool, d: Config)
    returns (k: nat, c': Config)
    requires Advances(p, c, rel, d)
    ensures k >= 1 && Reaches(p, c, k, c') && rel(c', d)
  {
    k, c' :| k >= 1 && Reaches(p, c, k, c') && rel(c', d);
  }

  lemma Finish(p: Program, c: Config, out: (Config, Config) -> bool, d: Config)
    returns (k: nat, c': Config)
    requires Finishes(p, c, out, d)
    ensures HaltsIn(p, c, k, c') && out(c', d)
  {
    k, c' :| HaltsIn(p, c, k, c') && out(c', d);
  }

  /** If the fast program halts, so does the slow one, with a related result, after at
      least as many moves. */
  lemma {:induction false} FastHalts(p: Program, q: Program, rel: (Config, Config) -> bool,
                                     out: (Config, Config) -> bool,
                                     c: Config, d: Config, m: nat, d': Config)
    returns (k: nat, c': Config)
    requires Simulates(p, q, rel, out) && rel(c, d) && HaltsIn(q, d, m, d')
    ensures k >= m && HaltsIn(p, c, k, c') && out(c', d')
    decreases m
  {
    hide Advances, Finishes, OpOk, Next;
    assert Matches(p, q, rel, out, c, d);
    if m == 0 {
      k, c' := Finish(p, c, out, d);
    } else {
      var k1, c1 := Advance(p, c, rel, Next(q, d));
      var k2;
      k2, c' := FastHalts(p, q, rel, out, c1, Next(q, d), m - 1, d');
      ReachesJoin(p, c, k1, c1, k2, c');
      k := k1 + k2;
    }
  }

  /** If the slow program halts, so does the fast one, with a related result, after at
      most as many moves. */
  lemma {:induction false} SlowHalts(p: Program, q: Program, rel: (Config, Config) -> bool,
                                     out: (Config, Config) -> bool,
                                     c: Config, d: Config, k: nat, c': Config)
    returns (m: nat, d': Config)
    requires Simulates(p, q, rel, out) && rel(c, d) && HaltsIn(p, c, k, c')
    ensures m <= k && HaltsIn(q, d, m, d') && out(c', d')
    decreases k
  {
    hide Advances, Finishes, OpOk, Next;
    assert Matches(p, q, rel, out, c, d);
    if Stopped(q, d) {
      var k0, c0 := Finish(p, c, out, d);
      HaltUnique(p, c, k, c', k0, c0);
      m, d' := 0, d;
    } else {
      var k1, c1 := Advance(p, c, rel, Next(q, d));
      HaltThrough(p, c, k1, c1, k, c');
      m, d' := SlowHalts(p, q, rel, out, c1, Next(q, d), k - k1, c');
      m := m + 1;
    }
  }
}
