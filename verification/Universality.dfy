/** The universal machine runs every encoded program: given a program's tallies and the bank
    of its registers it halts exactly when the program does, holding the bank of the
    program's final registers. */
module Universality {
  import opened Machine
  import opened Passes
  import opened Arith
  import opened Primes
  import opened Banks
  import opened Tallies
  import opened Universal

  /** A raw program over `|primes|` registers, each it names standing for its own prime. */
  ghost predicate CanEncode(q: Program, primes: seq<nat>) {
    IsRaw(q) && ProgOk(q, |primes|) && HasPrimes(q, primes) && PrimesOk(primes)
  }

  /** Between two simulated instructions everything but the program, the bank and the
      program counter is empty, save what the next fetch or division clears first. */
  predicate Idle(b: State, code: nat, bank: nat, pc: nat) {
    && b.p == code && b.r == bank && b.pc == pc
    && b.t == 0 && b.p2 == 0 && b.x == 0 && b.s == 0 && b.pr == 0
    && b.rs == 0 && b.q == 0 && b.m == 0 && b.tm == 0
  }

  /** The universal machine in `b` stands for the program `q` in `d`. */
  ghost predicate Stands(q: Program, primes: seq<nat>, b: State, d: Config)
    requires HasPrimes(q, primes)
  {
    |d.regs| == |primes| && Idle(b, Code(q, primes), Bank(primes, d.regs), TargetField(q, d.pc))
  }

  ghost predicate Rel(q: Program, primes: seq<nat>, c: Config, d: Config)
    requires HasPrimes(q, primes)
  {
    exists b :: c == At(0, b) && Stands(q, primes, b, d)
  }

  ghost predicate Out(primes: seq<nat>, c: Config, d: Config) {
    |d.regs| == |primes| && exists b :: c == At(61, b) && b.r == Bank(primes, d.regs)
  }

  // ---------------------------------------------------------------------------
  // What is found at the program counter
  // ---------------------------------------------------------------------------

  lemma FindGive(q: Program, primes: seq<nat>, i: nat, r: nat, a: nat)
    requires HasPrimes(q, primes) && i < |q| && q[i] == Inc(r, a)
    ensures r < |primes|
    ensures var at := Skip(Code(q, primes), Offset(q, i));
            Field(at) == 2 * primes[r] && Field(Rest(at)) == TargetField(q, a)
  {
    hide Number, Field, Rest, Skip, Offset;
    JumpLands(q, primes, i);
    var fs := FieldsFrom(q, primes, i);
    assert fs == FieldsOf(q, primes, i) + FieldsFrom(q, primes, i + 1);
    ReadFirst(fs);
    ReadFirst(fs[1..]);
  }

  lemma FindTake(q: Program, primes: seq<nat>, i: nat, r: nat, a: nat, t: nat)
    requires HasPrimes(q, primes) && i < |q| && q[i] == Deb(r, a, t)
    ensures r < |primes|
    ensures var at := Skip(Code(q, primes), Offset(q, i));
            && Field(at) == 2 * primes[r] + 1
            && Field(Rest(at)) == TargetField(q, a)
            && Field(Rest(Rest(at))) == TargetField(q, t)
  {
    hide Number, Field, Rest, Skip, Offset;
    JumpLands(q, primes, i);
    var fs := FieldsFrom(q, primes, i);
    assert fs == FieldsOf(q, primes, i) + FieldsFrom(q, primes, i + 1);
    ReadFirst(fs);
    ReadFirst(fs[1..]);
    ReadFirst(fs[1..][1..]);
  }

  lemma FindStop(q: Program, primes: seq<nat>, i: nat)
    requires HasPrimes(q, primes) && (i < |q| ==> q[i].End?)
    ensures Field(Skip(Code(q, primes), TargetField(q, i))) == 0
  {
    hide Number, Field, Rest, Skip, Offset;
    if i < |q| {
      JumpLands(q, primes, i);
      ReadFirst(FieldsFrom(q, primes, i));
    } else {
      PastTheEnd(q, primes, 0);
    }
  }

  // ---------------------------------------------------------------------------
  // One instruction
  // ---------------------------------------------------------------------------

  lemma SimulateGive(q: Program, primes: seq<nat>, b: State, d: Config) returns (e: State)
    requires CanEncode(q, primes) && Stands(q, primes, b, d) && d.pc < |q| && q[d.pc].Inc?
    ensures OpOk(q[d.pc], |d.regs|) && Goes(At(0, b), At(0, e)) && Stands(q, primes, e, Next(q, d))
  {
    hide Goes, Field, Rest, Skip, Offset, Code, BankTo, IsPrime, At;
    var Inc(r, a) := q[d.pc];
    var p := primes[r];
    FindGive(q, primes, d.pc, r, a);
    PrimePositive(primes, r);
    var at := Skip(b.p, b.pc);
    var c := b.(pc := 0, x := Field(at), pw := Rest(at));
    Fetches(b);
    Gives(c, p);
    e := c.(r := c.r * p, pc := Field(c.pw), pw := Rest(c.pw), x := 0);
    GoesTrans(At(0, b), At(39, c), At(0, e));
    BankGive(primes, d.regs, |d.regs|, r);
  }

  lemma PrimePositive(primes: seq<nat>, r: nat)
    requires PrimesOk(primes) && r < |primes| && primes[r] != 0
    ensures IsPrime(primes[r]) && primes[r] > 0
  {
  }

  lemma SimulateTake(q: Program, primes: seq<nat>, b: State, d: Config) returns (e: State)
    requires CanEncode(q, primes) && Stands(q, primes, b, d) && d.pc < |q| && q[d.pc].Deb?
    ensures OpOk(q[d.pc], |d.regs|) && Goes(At(0, b), At(0, e)) && Stands(q, primes, e, Next(q, d))
  {
    hide Goes, Field, Rest, Skip, Offset, Code, BankTo, IsPrime, At, TargetField;
    var Deb(r, a, t) := q[d.pc];
    var p := primes[r];
    AtOffset(q, d.pc);
    FindTake(q, primes, d.pc, r, a, t);
    PrimePositive(primes, r);
    var at := Skip(b.p, b.pc);
    var c := b.(pc := 0, x := Field(at), pw := Rest(at));
    Fetches(b);
    Takes(c, p);
    var tail := Rest(c.pw);
    var f := c.(pr := p, pc := Field(c.pw), x := Field(tail), pw := Rest(tail));
    GoesTrans(At(0, b), At(39, c), At(17, f));
    BankTake(primes, d.regs, r);
    if d.regs[r] > 0 {
      Taken(f);
      e := f.(r := f.r / f.pr, pr := 0, rem := 0, pc := f.x, x := 0);
      DivModUnique(f.r, p, Bank(primes, d.regs[r := d.regs[r] - 1]), 0);
    } else {
      Empty(f);
      e := f.(pr := 0, rem := f.r % f.pr - 1, x := 0);
    }
    GoesTrans(At(0, b), At(17, f), At(0, e));
  }

  lemma AtOffset(q: Program, i: nat)
    requires i <= |q|
    ensures TargetField(q, i) == Offset(q, i)
  {
  }

  lemma SimulateStop(q: Program, primes: seq<nat>, b: State, d: Config) returns (e: State)
    requires CanEncode(q, primes) && Stands(q, primes, b, d) && Stopped(q, d)
    ensures Goes(At(0, b), At(61, e)) && e.r == Bank(primes, d.regs)
  {
    hide Goes, Field, Rest, Skip, Offset, Code, BankTo, IsPrime, At, TargetField;
    FindStop(q, primes, d.pc);
    var at := Skip(b.p, b.pc);
    e := b.(pc := 0, x := Field(at), pw := Rest(at));
    Fetches(b);
    Halting(e);
    GoesTrans(At(0, b), At(39, e), At(61, e));
  }

  // ---------------------------------------------------------------------------
  // Whole runs
  // ---------------------------------------------------------------------------

  lemma GoesAdvances(c: Config, d: Config, rel: (Config, Config) -> bool, e: Config)
    requires Goes(c, d) && rel(d, e)
    ensures Advances(U(), c, rel, e)
  {
    hide Reaches, U;
  }

  lemma GoesFinishes(c: Config, b: State, out: (Config, Config) -> bool, e: Config)
    requires Goes(c, At(61, b)) && out(At(61, b), e)
    ensures Finishes(U(), c, out, e)
  {
    hide Reaches, U;
    Fetch(61);
    var k: nat :| k >= 1 && Reaches(U(), c, k, At(61, b));
    assert HaltsIn(U(), c, k, At(61, b));
  }

  lemma InstructionMatches(q: Program, primes: seq<nat>, c: Config, d: Config)
    requires CanEncode(q, primes) && Rel(q, primes, c, d)
    ensures Matches(U(), q, (c, d) => HasPrimes(q, primes) && Rel(q, primes, c, d),
                    (c, d) => Out(primes, c, d), c, d)
  {
    hide Goes, U, Advances, Finishes, Stands, CanEncode, At, Effect, Target, OpOk, Diverges;
    var rel := (c, d) => HasPrimes(q, primes) && Rel(q, primes, c, d);
    var out := (c, d) => Out(primes, c, d);
    assert HasPrimes(q, primes) by { EncodeHasPrimes(q, primes); }
    var b :| c == At(0, b) && Stands(q, primes, b, d);
    if Stopped(q, d) {
      var e := SimulateStop(q, primes, b, d);
      StandsWidth(q, primes, b, d);
      assert Out(primes, At(61, e), d);
      GoesFinishes(c, e, out, d);
    } else {
      RawAt(q, primes, d.pc);
      var e;
      if q[d.pc].Inc? {
        e := SimulateGive(q, primes, b, d);
      } else {
        e := SimulateTake(q, primes, b, d);
      }
      assert rel(At(0, e), Next(q, d));
      GoesAdvances(c, At(0, e), rel, Next(q, d));
    }
  }

  lemma StandsWidth(q: Program, primes: seq<nat>, b: State, d: Config)
    requires HasPrimes(q, primes) && Stands(q, primes, b, d)
    ensures |d.regs| == |primes|
  {
  }

  lemma RawAt(q: Program, primes: seq<nat>, i: nat)
    requires CanEncode(q, primes) && i < |q|
    ensures IsRawOp(q[i])
  {
  }

  /** Where the universal machine starts: the program, the bank, and nothing else. */
  function Start(code: nat, bank: nat): State {
    State(0, code, 0, 0, 0, 0, 0, 0, bank, 0, 0, 0, 0, 0, 0)
  }

  /** The universal machine, started on the numbers `code` and `bank`, halts after `k` moves
      with `res` in R. */
  ghost predicate Computes(code: nat, bank: nat, k: nat, res: nat) {
    exists d :: HaltsIn(U(), At(0, Start(code, bank)), k, d) && |d.regs| == 15 && d.regs[RR] == res
  }

  /** Universality. */
  lemma UniversalMachine(q: Program, primes: seq<nat>, v: Regs)
    requires CanEncode(q, primes) && |v| == |primes|
    ensures forall k, res :: Ends(q, v, k, res) ==>
              |res| == |primes| && exists m: nat ::
                m >= k && Computes(Code(q, primes), Bank(primes, v), m, Bank(primes, res))
    ensures forall m, out :: Computes(Code(q, primes), Bank(primes, v), m, out) ==>
              exists k: nat, res :: k <= m && Ends(q, v, k, res) && |res| == |primes| && out == Bank(primes, res)
  {
    hide Reaches, HaltsIn, U, Simulates, CanEncode, Bank, Code, Stands, Matches;
    var rel := (c, d) => HasPrimes(q, primes) && Rel(q, primes, c, d);
    var out := (c, d) => Out(primes, c, d);
    assert HasPrimes(q, primes) by { EncodeHasPrimes(q, primes); }
    var b, d := Start(Code(q, primes), Bank(primes, v)), Config(0, v);
    StartStands(q, primes, v);
    assert Rel(q, primes, At(0, b), d);
    EncodedSimulates(q, primes);
    forall k, res | Ends(q, v, k, res)
      ensures |res| == |primes| && exists m: nat ::
                m >= k && Computes(Code(q, primes), Bank(primes, v), m, Bank(primes, res))
    {
      var d' :| HaltsIn(q, d, k, d') && d'.regs == res;
      var m, c' := FastHalts(U(), q, rel, out, At(0, b), d, k, d');
      assert Out(primes, c', d');
      assert Computes(Code(q, primes), Bank(primes, v), m, Bank(primes, res));
    }
    forall m, r | Computes(Code(q, primes), Bank(primes, v), m, r)
      ensures exists k: nat, res :: k <= m && Ends(q, v, k, res) && |res| == |primes| && r == Bank(primes, res)
    {
      var c' :| HaltsIn(U(), At(0, b), m, c') && |c'.regs| == 15 && c'.regs[RR] == r;
      var k, d' := SlowHalts(U(), q, rel, out, At(0, b), d, m, c');
      assert Out(primes, c', d');
      assert Ends(q, v, k, d'.regs);
    }
  }

  lemma EncodeHasPrimes(q: Program, primes: seq<nat>)
    requires CanEncode(q, primes)
    ensures HasPrimes(q, primes)
  {
  }

  lemma StartStands(q: Program, primes: seq<nat>, v: Regs)
    requires HasPrimes(q, primes) && |v| == |primes|
    ensures Stands(q, primes, Start(Code(q, primes), Bank(primes, v)), Config(0, v))
  {
  }

  lemma EncodedSimulates(q: Program, primes: seq<nat>)
    requires CanEncode(q, primes)
    ensures Simulates(U(), q, (c, d) => HasPrimes(q, primes) && Rel(q, primes, c, d), (c, d) => Out(primes, c, d))
  {
    hide U, CanEncode, Rel, Out, Matches;
    var rel := (c, d) => HasPrimes(q, primes) && Rel(q, primes, c, d);
    var out := (c, d) => Out(primes, c, d);
    forall c, d | rel(c, d) ensures Matches(U(), q, rel, out, c, d) {
      InstructionMatches(q, primes, c, d);
    }
  }
}
