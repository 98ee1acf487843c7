/** The tally encoder and the universal machine together: a program and its registers encoded
    as two numbers, the text of the universal machine lowered, optimized and run on big-number
    words, and the registers read back from the bank it leaves. */
module Emulation {
  import opened Machine
  import opened Passes
  import opened Threading
  import opened Cleaning
  import opened Banks
  import opened Tallies
  import opened Layouts
  import opened Universal
  import opened Universality
  import opened TallySource
  import opened Packed
  import opened Optimizer
  import opened Roles
  import opened Bignums
  import opened RegFiles
  import opened Interp
  import opened Checking
  import opened Tally
  import opened EndToEnd

  /** The program as one number and its registers as another. */
  method Encode(p: Program, nil: nat, values: seq<Bignum>) returns (l: TallyLayout, code: Bignum, bank: Bignum)
    requires IsRaw(p) && ProgOk(p, |values|) && TargetsWithin(p) && AllOk(values)
    requires |values| <= 0x1_0000_0000
    ensures AllOk(values) && ValuesOf(values) == old(ValuesOf(values))
    ensures Lays(p, nil, |values|, l) && WordPrimes(l.primeOf)
    ensures Ok(code) && Ok(bank)
    ensures Value(code) == Code(l.insts, l.primeOf) && Value(bank) == Bank(l.primeOf, ValuesOf(values))
  {
    hide Ok, Value, AllOk, ValuesOf, Repr, Lays, Bank, Code, TargetsWithin, WordPrimes;
    ReprAllocated(values);
    l := LayOut(p, nil, |values|);
    LaysSizes(p, nil, |values|, l);
    code := TallyProgram(l, p, nil, |values|);
    ReprAllocated(values);
    FootprintAllocated(code);
    bank := TallyBank(l, values);
  }

  lemma LaysSizes(p: Program, nil: nat, rc: nat, l: TallyLayout)
    requires Lays(p, nil, rc, l)
    ensures |l.primeOf| == rc && PrimesOk(l.primeOf) && HasPrimes(l.insts, l.primeOf)
  {
  }

  /** The universal machine's registers at the start, as words. */
  function StartWords(code: Bignum, bank: Bignum): (ws: seq<Bignum>)
    ensures |ws| == 15
  {
    var z := Imm(0);
    [z, code, z, z, z, z, z, z, bank, z, z, z, z, z, z]
  }

  lemma StartWordsOk(code: Bignum, bank: Bignum)
    requires Ok(code) && Ok(bank)
    ensures AllOk(StartWords(code, bank))
    ensures ValuesOf(StartWords(code, bank)) == Regs15(Start(Value(code), Value(bank)))
  {
    hide Ok, Value;
    var ws := StartWords(code, bank);
    RegFiles.ZeroOk();
    forall i | 0 <= i < 15 ensures Footprint(ws[i]) <= Repr(ws) && Ok(ws[i]) {
      InRepr(ws, i);
    }
    var v, w := ValuesOf(ws), Regs15(Start(Value(code), Value(bank)));
    forall i | 0 <= i < 15 ensures v[i] == w[i] {
      StartWordAt(code, bank, i);
    }
  }

  lemma StartWordAt(code: Bignum, bank: Bignum, i: nat)
    requires Ok(code) && Ok(bank) && i < 15
    ensures Ok(StartWords(code, bank)[i])
    ensures Value(StartWords(code, bank)[i]) == Regs15(Start(Value(code), Value(bank)))[i]
  {
    hide Ok, Value;
    RegFiles.ZeroOk();
  }

  /** A halted run of the optimized universal machine has computed something. */
  lemma HaltedComputes(o: Program, code: nat, bank: nat, steps: nat, d: Config)
    requires HaltedAfter(o, Config(0, Regs15(Start(code, bank))), steps, d) && |d.regs| == 15
    ensures exists m: nat :: ComputesOn(o, code, bank, m, d.regs[RR])
  {
    hide Regs15;
    assert ComputesOn(o, code, bank, steps - LastTick(o, d), d.regs[RR]);
  }

  /** A register the program does not name keeps its value. */
  lemma {:induction false} UnnamedKept(q: Program, primes: seq<nat>, c: Config, k: nat, d: Config, r: nat)
    requires HasPrimes(q, primes) && IsRaw(q) && Reaches(q, c, k, d) && |c.regs| == |primes|
    requires r < |primes| && primes[r] == 0
    ensures |d.regs| == |c.regs| && d.regs[r] == c.regs[r]
    decreases k
  {
    if k > 0 {
      assert IsRawOp(q[c.pc]);
      UnnamedKept(q, primes, Next(q, c), k - 1, d, r);
    }
  }

  lemma UnnamedEnds(q: Program, primes: seq<nat>, v: Regs, k: nat, res: Regs)
    requires HasPrimes(q, primes) && IsRaw(q) && Ends(q, v, k, res) && |v| == |res| == |primes|
    ensures forall r :: 0 <= r < |primes| && primes[r] == 0 ==> res[r] == v[r]
  {
    hide HasPrimes, Reaches;
    var d :| HaltsIn(q, Config(0, v), k, d) && d.regs == res;
    forall r | 0 <= r < |primes| && primes[r] == 0 ensures res[r] == v[r] {
      UnnamedKept(q, primes, Config(0, v), k, d, r);
    }
  }

  /** The source ends with the registers `w` where the encoded program names one, and with what
      it started with elsewhere. */
  ghost predicate Final(p: Program, v: Regs, primes: seq<nat>, w: seq<nat>) {
    exists k: nat, res ::
      && Ends(p, v, k, res) && |res| == |v| == |w| == |primes|
      && forall r :: 0 <= r < |v| ==> res[r] == if primes[r] == 0 then v[r] else w[r]
  }

  /** What the optimized universal machine leaves in R decodes to the source's final registers. */
  lemma DecodesFinal(p: Program, nil: nat, l: TallyLayout, v: Regs, o: Program, m: nat, out: nat,
                     rest: nat, w: seq<nat>)
    requires IsRaw(p) && ProgOk(p, |v|) && NeverFed(p, nil) && TargetsWithin(p) && NilEmpty(v, nil)
    requires Lays(p, nil, |v|, l) && EntryLowest(p, nil) && Optimized(U(), [], NIL, o)
    requires ComputesOn(o, Code(l.insts, l.primeOf), Bank(l.primeOf, v), m, out)
    requires Decodes(l.primeOf, out, rest, w)
    ensures rest == 1 && Final(p, v, l.primeOf, w)
  {
    hide Ends, Computes, ComputesOn, Code, Bank, NeverFed, EntryLowest, TargetsWithin, PrimesOk, HasPrimes,
      Optimized, U, Decodes, Cleaned, SameNamed, ProgOk, NilEmpty;
    var code, bank := Code(l.insts, l.primeOf), Bank(l.primeOf, v);
    OptimizedUniversal(o, [], code, bank);
    var k: nat :| k >= m && Computes(code, bank, k, out);
    TallyRuns(p, nil, l, v);
    var j: nat, res :| Ends(p, v, j, res) && |res| == |v| && out == Bank(l.primeOf, res);
    DecodeBank(l.primeOf, res, rest, w);
    CleaningCorrect(p, nil, l.insts, v);
    var i: nat :| i <= j && Ends(l.insts, v, i, res);
    UnnamedEnds(l.insts, l.primeOf, v, i, res);
    assert SameNamed(l.primeOf, w, res);
    NamedFinal(p, v, l.primeOf, w, j, res);
  }

  lemma NamedFinal(p: Program, v: Regs, primes: seq<nat>, w: seq<nat>, k: nat, res: Regs)
    requires Ends(p, v, k, res) && SameNamed(primes, w, res) && |v| == |res|
    requires forall r :: 0 <= r < |primes| && primes[r] == 0 ==> res[r] == v[r]
    ensures Final(p, v, primes, w)
  {
    hide Ends;
  }

  /** The text of the universal machine, lowered and optimized. */
  method OptimizedMachine(hash: Word -> nat) returns (machine: IrOptProgram)
    ensures fresh(machine) && machine.Valid()
    ensures Optimized(U(), [], NIL, machine.View()) && Runnable(machine.View(), 15)
  {
    hide U, Optimized, Runnable, PackOk, ViewOf;
    var text := LowerText(hash);
    UOk();
    machine := IrOptimize(text, [], NIL, OptLoops);
    OptimizedRunnable(text, [], NIL, machine.View(), 15);
  }

  /** The universal machine, lowered from its text and optimized, stepped under a cap on the
      words `code` and `bank`: it comes to rest or not, and if it does, what is in R is what it
      computes. */
  method RunUniversal(code: Bignum, bank: Bignum, maxSteps: nat, hash: Word -> nat)
    returns (done: bool, regs: RegFile, ghost o: Program)
    requires Ok(code) && Ok(bank)
    ensures Ok(code) && Value(code) == old(Value(code)) && Ok(bank) && Value(bank) == old(Value(bank))
    ensures Optimized(U(), [], NIL, o)
    ensures done <==> RestsWithin(o, Regs15(Start(Value(code), Value(bank))), maxSteps)
    ensures fresh(regs) && fresh(regs.words) && regs.Valid() && regs.words.Length == 15
    ensures done ==> exists m: nat :: ComputesOn(o, Value(code), Value(bank), m, regs.Values()[RR])
  {
    hide Ok, Value, AllOk, ValuesOf, Repr, Separate, U, Optimized, Runnable, PackOk, ViewOf, Regs15,
      HaltedAfter, RunFits, RestsWithin, Rested, Reaches, ComputesOn;
    FootprintAllocated(code);
    FootprintAllocated(bank);
    ghost var c, b := Value(code), Value(bank);
    var machine := OptimizedMachine(hash);
    o := machine.View();
    StartWordsOk(code, bank);
    var state := Load(machine, StartWords(code, bank), Regs15(Start(c, b)));
    ReprAllocated(state.bank.words[..]);
    WideRunFits(o, state.Now(), maxSteps);
    state.Run(maxSteps);
    ghost var d := state.Now();
    done, regs := state.halted, state.bank;
    RunVerdict(o, Regs15(Start(c, b)), maxSteps, done, state.steps, d);
    if done {
      HaltedComputes(o, c, b, state.steps, d);
    }
  }

  /** Run a program on the universal machine: encode it and its registers, optimize the machine,
      step it under a cap, and decode the bank.  If the machine came to rest, the decoded
      registers are the source program's final ones and nothing is left over. */
  method Emulate(p: Program, nil: nat, values: seq<Bignum>, maxSteps: nat, hash: Word -> nat)
    returns (l: TallyLayout, done: bool, rest: Bignum, out: RegFile, ghost o: Program)
    requires IsRaw(p) && ProgOk(p, |values|) && NeverFed(p, nil) && TargetsWithin(p) && EntryLowest(p, nil)
    requires AllOk(values) && NilEmpty(ValuesOf(values), nil) && |values| <= 0x1_0000_0000
    ensures Lays(p, nil, |values|, l) && Optimized(U(), [], NIL, o)
    ensures var code, bank := Code(l.insts, l.primeOf), Bank(l.primeOf, old(ValuesOf(values)));
            done <==> RestsWithin(o, Regs15(Start(code, bank)), maxSteps)
    ensures done ==> out.Valid() && Ok(rest) && Value(rest) == 1
    ensures done ==> Final(p, old(ValuesOf(values)), l.primeOf, out.Values())
  {
    hide Ok, Value, AllOk, ValuesOf, Repr, Separate, Lays, Bank, Code, TargetsWithin, WordPrimes, PrimesOk, U,
      Optimized, NeverFed, EntryLowest, ProgOk, NilEmpty, Regs15, Decodes, Final, RestsWithin, ComputesOn;
    ghost var v := ValuesOf(values);
    ReprAllocated(values);
    var code, bank, regs;
    l, code, bank := Encode(p, nil, values);
    LaysSizes(p, nil, |values|, l);
    done, regs, o := RunUniversal(code, bank, maxSteps, hash);
    ghost var x := regs.Values()[RR];
    OkAt(regs.words[..], RR);
    rest, out := TallyDecode(l, regs.words[RR]);
    if done {
      ghost var m: nat :| ComputesOn(o, Code(l.insts, l.primeOf), Bank(l.primeOf, v), m, x);
      DecodesFinal(p, nil, l, v, o, m, x, Value(rest), out.Values());
    }
  }

  /** If the source program ends, a large enough cap lets the machine come to rest. */
  lemma EmulationEnds(p: Program, nil: nat, l: TallyLayout, v: Regs, o: Program, k: nat, res: Regs)
    requires IsRaw(p) && ProgOk(p, |v|) && NeverFed(p, nil) && TargetsWithin(p) && NilEmpty(v, nil)
    requires Lays(p, nil, |v|, l) && EntryLowest(p, nil) && Optimized(U(), [], NIL, o) && Ends(p, v, k, res)
    ensures exists cap: nat ::
              RestsWithin(o, Regs15(Start(Code(l.insts, l.primeOf), Bank(l.primeOf, v))), cap)
  {
    hide Ends, Computes, ComputesOn, Code, Bank, NeverFed, EntryLowest, TargetsWithin, PrimesOk, HasPrimes,
      Optimized, U, Cleaned, Regs15, ProgOk, NilEmpty, RestsWithin;
    var code, bank := Code(l.insts, l.primeOf), Bank(l.primeOf, v);
    TallyRuns(p, nil, l, v);
    var m: nat :| Computes(code, bank, m, Bank(l.primeOf, res));
    OptimizedUniversal(o, [], code, bank);
    var j: nat :| ComputesOn(o, code, bank, j, Bank(l.primeOf, res));
    ComputesRests(o, code, bank, j, Bank(l.primeOf, res));
  }

  lemma ComputesRests(o: Program, code: nat, bank: nat, m: nat, res: nat)
    requires ComputesOn(o, code, bank, m, res)
    ensures RestsWithin(o, Regs15(Start(code, bank)), m + 1)
  {
    hide Regs15;
    var d :| HaltsIn(o, At(0, Start(code, bank)), m, d) && |d.regs| == 15 && d.regs[RR] == res;
    assert Halts(o, Regs15(Start(code, bank)), m, d.regs, d.pc >= |o|);
  }
}
