/** The emitted blocks run on tagged words.  The lines of a block work on the bank of registers
    in place; a loaded word is the register's own word, so it may be added into other registers
    and compared with the word for zero only while its register has not been written. */
module Native {
  import opened Machine
  import opened Loops
  import opened Limbs
  import opened Roles
  import opened Bignums
  import opened LongDivision
  import opened RegFiles
  import opened Interp
  import opened Qbe

  /** Which register the loaded word still is the word of. */
  datatype Held = Nothing | Word(reg: nat)

  function After(s: Stmt, held: Held): Held {
    match s
    case Load(r) => Word(r)
    case BcAddInto(_) => held
    case Bump => held
    case CompareLimit => held
    case CompareOne => held
    case CompareRem(_) => held
    case _ => Nothing
  }

  /** The line may run on words: what it adds or compares is a word still held, apart from what
      it writes, and a fold's registers are apart. */
  predicate Fits(s: Stmt, held: Held) {
    match s
    case BcAddInto(d) => held.Word? && held.reg != d
    case CompareOne => held.Word?
    case BcDivmod(_, k) => 0 < k < BASE
    case BcMulAdd(c, m, t, _, _) => c != t && m != t
    case BcDivBin(r, p, rem, q, xs) =>
      r !in xs && p !in xs && r != p && r != q && p != q && rem != p && rem != r && rem != q
    case _ => true
  }

  predicate FitsAll(body: seq<Stmt>, held: Held) {
    body == [] || (Fits(body[0], held) && FitsAll(body[1..], After(body[0], held)))
  }

  function AfterAll(body: seq<Stmt>, held: Held): Held {
    if body == [] then held else AfterAll(body[1..], After(body[0], held))
  }

  // ---------------------------------------------------------------------------
  // Every emitted block fits
  // ---------------------------------------------------------------------------

  lemma {:induction false} FitsJoin(a: seq<Stmt>, b: seq<Stmt>, held: Held)
    requires FitsAll(a, held) && FitsAll(b, AfterAll(a, held))
    ensures FitsAll(a + b, held) && AfterAll(a + b, held) == AfterAll(b, AfterAll(a, held))
    decreases |a|
  {
    hide Fits, After;
    if a == [] {
      assert a + b == b;
    } else {
      assert (a + b)[1..] == a[1..] + b && (a + b)[0] == a[0];
      FitsJoin(a[1..], b, After(a[0], held));
    }
  }

  lemma FitsOne(s: Stmt, held: Held)
    requires Fits(s, held)
    ensures FitsAll([s], held) && AfterAll([s], held) == After(s, held)
  {
    hide Fits, After;
    assert [s][1..] == [];
  }

  lemma FitsTwo(s: Stmt, t: Stmt, held: Held)
    requires Fits(s, held) && Fits(t, After(s, held))
    ensures FitsAll([s, t], held) && AfterAll([s, t], held) == After(t, After(s, held))
  {
    hide Fits, After;
    assert [s, t][1..] == [t];
    FitsOne(t, After(s, held));
  }

  /** The loaded word is added into registers other than its own. */
  lemma {:induction false} AddsFit(ds: seq<nat>, r: nat)
    requires r !in ds
    ensures FitsAll(AddsTo(ds), Word(r)) && AfterAll(AddsTo(ds), Word(r)) == Word(r)
    decreases |ds|
  {
    if ds != [] {
      assert AddsTo(ds)[1..] == AddsTo(ds[1..]) && AddsTo(ds)[0] == BcAddInto(ds[0]);
      AddsFit(ds[1..], r);
    }
  }

  lemma TransferFits(r: nat, ds: seq<nat>)
    requires r !in ds
    ensures FitsAll([Bump, Load(r)] + AddsTo(ds) + [BcZero(r)], Nothing)
  {
    hide FitsAll, AfterAll, AddsTo;
    FitsTwo(Bump, Load(r), Nothing);
    AddsFit(ds, r);
    FitsJoin([Bump, Load(r)], AddsTo(ds), Nothing);
    FitsOne(BcZero(r), Word(r));
    FitsJoin([Bump, Load(r)] + AddsTo(ds), [BcZero(r)], Nothing);
  }

  lemma CopyFits(s: nat, t: nat, ds: seq<nat>)
    requires s !in ds && s != t
    ensures FitsAll([Bump, Load(s)] + AddsTo(ds) + [Load(t), BcAddInto(s), BcZero(t)], Nothing)
  {
    hide FitsAll, AfterAll, AddsTo;
    FitsTwo(Bump, Load(s), Nothing);
    AddsFit(ds, s);
    FitsJoin([Bump, Load(s)], AddsTo(ds), Nothing);
    FitsOne(Load(t), Word(s));
    FitsTwo(BcAddInto(s), BcZero(t), Word(t));
    FitsJoin([Load(t)], [BcAddInto(s), BcZero(t)], Word(s));
    assert [Load(t)] + [BcAddInto(s), BcZero(t)] == [Load(t), BcAddInto(s), BcZero(t)];
    FitsJoin([Bump, Load(s)] + AddsTo(ds), [Load(t), BcAddInto(s), BcZero(t)], Nothing);
  }

  lemma DivModFits(r: nat, ds: seq<nat>, k: nat)
    requires r !in ds && 0 < k <= MAX_DESTS
    ensures FitsAll(DivModLines(r, ds, k), Nothing) && FitsAll(DivModLines(r, ds, k) + [CompareRem(0)], Nothing)
  {
    hide FitsAll, AfterAll, AddsTo;
    var head := [Bump, BcDivmod(r, k)];
    FitsTwo(Bump, BcDivmod(r, k), Nothing);
    var adds := if ds == [] then [] else [Load(r)] + AddsTo(ds);
    var held := if ds == [] then Nothing else Word(r);
    if ds == [] {
      FitsNone(Nothing);
    } else {
      FitsOne(Load(r), Nothing);
      AddsFit(ds, r);
      FitsJoin([Load(r)], AddsTo(ds), Nothing);
    }
    FitsJoin(head, adds, Nothing);
    FitsOne(BcZero(r), held);
    FitsJoin(head + adds, [BcZero(r)], Nothing);
    FitsOne(CompareRem(0), Nothing);
    FitsJoin(DivModLines(r, ds, k), [CompareRem(0)], Nothing);
  }

  lemma FitsNone(held: Held)
    ensures FitsAll([], held) && AfterAll([], held) == held
  {
  }

  lemma {:induction false} CascadeFits(i: nat, exits: seq<nat>, e: nat)
    requires 1 <= e < |exits|
    ensures forall b :: b in CascadeFrom(i, exits, e) ==> FitsAll(b.body, Nothing)
    decreases |exits| - e
  {
    hide FitsAll;
    if e + 1 == |exits| {
      FitsNone(Nothing);
    } else {
      FitsOne(CompareRem(e), Nothing);
      CascadeFits(i, exits, e + 1);
    }
  }

  /** What the emitter writes for an operation whose registers are apart can run on words. */
  lemma BodyFits(i: nat, op: Op, n: nat, b: Block)
    requires OpOk(op, n) && RolesApart(op) && b in BodyOf(i, op)
    ensures FitsAll(b.body, Nothing)
  {
    hide FitsAll, AddsTo, DivModLines, CascadeFrom;
    match op
    case Transfer(r, ds, _) => TransferFits(r, ds);
    case Copy(s, t, ds, _) => CopyFits(s, t, ds);
    case DivMod(r, ds, es) =>
      DivModFits(r, ds, |es|);
      if |es| > 1 {
        CascadeFits(i, es, 1);
      }
    case IsZero(r, _, _) => IsZeroFits(r);
    case End => FitsOne(Bump, Nothing);
    case _ => FitsTwo(Bump, b.body[1], Nothing);
  }

  lemma IsZeroFits(r: nat)
    ensures FitsAll([Bump, Load(r), CompareOne], Nothing)
  {
    assert [Bump, Load(r), CompareOne][1..] == [Load(r), CompareOne];
    FitsTwo(Load(r), CompareOne, Nothing);
  }

  lemma {:induction false} BlockOrigin(p: Program, n: nat, b: Block) returns (i: nat)
    requires n <= |p| && b in EmittedTo(p, n)
    ensures i < n && (b == CheckOf(i) || b in BodyOf(i, p[i]))
  {
    hide BodyOf, CheckOf;
    if b in EmittedTo(p, n - 1) {
      i := BlockOrigin(p, n - 1, b);
    } else {
      i := n - 1;
    }
  }

  lemma EmittedFits(p: Program, n: nat, b: Block)
    requires Runnable(p, n) && b in Emitted(p)
    ensures FitsAll(b.body, Nothing)
  {
    hide BodyOf, FitsAll, OpOk, RolesApart;
    if b in EmittedTo(p, |p|) {
      var i := BlockOrigin(p, |p|, b);
      if b == CheckOf(i) {
        FitsOne(CompareLimit, Nothing);
      } else {
        assert OpOk(p[i], n) && RolesApart(p[i]);
        BodyFits(i, p[i], n, b);
      }
    } else {
      assert b == Block(Exit, [], Ret);
      FitsNone(Nothing);
    }
  }

  // ---------------------------------------------------------------------------
  // Running on words
  // ---------------------------------------------------------------------------

  class Process {
    const bank: RegFile
    var steps: nat
    var loaded: Bignum
    var rem: nat
    var flag: bool

    ghost predicate Valid()
      reads this, bank, bank.words, Repr(bank.words[..])
    {
      bank.Valid() && this !in Repr(bank.words[..]) && bank !in Repr(bank.words[..])
    }

    constructor (b: RegFile)
      requires b.Valid() && b !in Repr(b.words[..])
      ensures Valid() && bank == b && steps == 0 && rem == 0 && !flag
    {
      hide Ok, Value, Repr, AllOk, ValuesOf, Separate;
      ReprAllocated(b.words[..]);
      bank, steps, loaded, rem, flag := b, 0, Imm(0), 0, false;
    }

    /** The process stands for the frame `f`; the word it has loaded is still the one of the
        register `held` names. */
    ghost predicate Tracks(f: Frame, held: Held)
      requires Valid()
      reads this, bank, bank.words, Repr(bank.words[..])
    {
      && bank.Values() == f.regs && steps == f.steps && rem == f.rem && flag == f.flag
      && (held.Word? ==>
            held.reg < bank.words.Length && loaded == bank.words[held.reg] && f.val == f.regs[held.reg])
    }

    /** The loaded word is added into another register. */
    method AddLoaded(d: nat, ghost f: Frame, ghost cap: nat, ghost held: Held)
      requires Valid() && Tracks(f, held) && d < bank.words.Length && held.Word? && held.reg != d
      modifies bank.words
      ensures Valid() && forall o | o in Repr(bank.words[..]) :: o in old(Repr(bank.words[..])) || fresh(o)
      ensures Tracks(Exec(BcAddInto(d), f, cap), held)
    {
      hide Ok, Value, Repr, AllOk, ValuesOf, Separate;
      OkAt(bank.words[..], held.reg);
      Apart(bank.words[..], d, held.reg);
      ghost var r := held.reg;
      bank.AddFrom(d, loaded);
      assert bank.words[..][r] == bank.words[r] == loaded;
    }

    /** The calls that are one operation on one register. */
    method ExecCall(s: Stmt, ghost f: Frame, ghost cap: nat, ghost held: Held)
      requires Valid() && Tracks(f, held) && StmtOk(s, bank.words.Length) && Fits(s, held)
      requires s.BcInc? || s.BcDec? || s.BcZero? || s.BcDivmod?
      modifies this`rem, this`flag, bank.words, Repr(bank.words[..])
      ensures Valid() && forall o | o in Repr(bank.words[..]) :: o in old(Repr(bank.words[..])) || fresh(o)
      ensures Tracks(Exec(s, f, cap), Nothing)
    {
      hide Ok, Value, Repr, AllOk, ValuesOf, Separate, Splits;
      match s
      case BcInc(r) => bank.IncAt(r);
      case BcDec(r) => flag := bank.DecAt(r);
      case BcZero(r) => bank.SetZeroAt(r);
      case BcDivmod(r, k) =>
        ghost var quot;
        rem, quot := bank.QuotientAt(r, k);
        DivModReady(f.regs[r], k, quot, rem);
    }

    /** The two folds that are one call over several registers. */
    method ExecFold(s: Stmt, ghost f: Frame, ghost cap: nat, ghost held: Held)
      requires Valid() && Tracks(f, held) && StmtOk(s, bank.words.Length) && Fits(s, held)
      requires s.BcMulAdd? || s.BcDivBin?
      modifies this`flag, bank.words, Repr(bank.words[..])
      ensures Valid() && forall o | o in Repr(bank.words[..]) :: o in old(Repr(bank.words[..])) || fresh(o)
      ensures Tracks(Exec(s, f, cap), Nothing)
    {
      hide Ok, Value, Repr, AllOk, ValuesOf, Separate, AddAll, MulAddEffect, DivBinEffect;
      match s
      case BcMulAdd(c, m, t, ds, pre) => bank.MulAddAt(c, m, t, ds, pre);
      case BcDivBin(r, p, rem, q, xs) =>
        bank.WordTest(p);
        flag := Bignums.IsZero(bank.words[p]);
        if !flag {
          bank.DivBinAt(r, p, rem, q, xs, Wide);
        }
    }

    /** One line. */
    method ExecLine(s: Stmt, cap: nat, ghost f: Frame, ghost held: Held)
      requires Valid() && Tracks(f, held) && StmtOk(s, bank.words.Length) && Fits(s, held)
      modifies this`steps, this`loaded, this`rem, this`flag, bank.words, Repr(bank.words[..])
      ensures Valid() && forall o | o in Repr(bank.words[..]) :: o in old(Repr(bank.words[..])) || fresh(o)
      ensures Tracks(Exec(s, f, cap), After(s, held))
    {
      hide Ok, Value, Repr, AllOk, ValuesOf, Separate, AddAll, MulAddEffect, DivBinEffect;
      match s
      case Bump => steps := steps + 1;
      case CompareLimit => flag := steps >= cap;
      case Load(r) => loaded := bank.words[r];
      case CompareOne =>
        bank.WordTest(held.reg);
        flag := Bignums.IsZero(loaded);
      case CompareRem(e) => flag := rem == e;
      case BcAddInto(d) => AddLoaded(d, f, cap, held);
      case BcMulAdd(_, _, _, _, _) => ExecFold(s, f, cap, held);
      case BcDivBin(_, _, _, _, _) => ExecFold(s, f, cap, held);
      case _ => ExecCall(s, f, cap, held);
    }

    /** The lines of a block. */
    method ExecBody(body: seq<Stmt>, cap: nat, ghost f: Frame, ghost held: Held)
      requires Valid() && Tracks(f, held) && BodyOk(body, bank.words.Length) && FitsAll(body, held)
      modifies this`steps, this`loaded, this`rem, this`flag, bank.words, Repr(bank.words[..])
      ensures Valid() && forall o | o in Repr(bank.words[..]) :: o in old(Repr(bank.words[..])) || fresh(o)
      ensures Tracks(ExecAll(body, f, cap), AfterAll(body, held))
    {
      hide Ok, Value, Repr, AllOk, ValuesOf, Separate, Exec, After, Fits, StmtOk;
      ghost var g, h := f, held;
      for i := 0 to |body|
        invariant Valid() && forall o | o in Repr(bank.words[..]) :: o in old(Repr(bank.words[..])) || fresh(o)
        invariant Tracks(g, h) && |g.regs| == |f.regs| && FitsAll(body[i..], h)
        invariant ExecAll(body, f, cap) == ExecAll(body[i..], g, cap)
        invariant AfterAll(body, held) == AfterAll(body[i..], h)
      {
        assert body[i..][0] == body[i] && body[i..][1..] == body[i + 1..];
        ExecLine(body[i], cap, g, h);
        g, h := Exec(body[i], g, cap), After(body[i], h);
      }
    }

    /** From the first block to the exit: on words, in place, the compiled program does exactly
        what its blocks do on values. */
    method Run(g: Graph, cap: nat, ghost p: Program)
      requires Valid() && g == Emitted(p) && Landed(p) && Runnable(p, bank.words.Length)
      modifies this`steps, this`loaded, this`rem, this`flag, bank.words, Repr(bank.words[..])
      ensures Valid() && forall o | o in Repr(bank.words[..]) :: o in old(Repr(bank.words[..])) || fresh(o)
      ensures Compiled(p, old(bank.Values()), cap, steps, bank.Values())
    {
      hide Ok, Value, Repr, AllOk, ValuesOf, Separate, Emitted, ExecAll, FitsAll, Find, Runnable, Landed, Outcome;
      steps, rem, flag := 0, 0, false;
      var at := Inst(0);
      ghost var f := Frame(bank.Values(), 0, 0, 0, false);
      ghost var start := Point(at, f);
      ghost var h, k := WayOut(p, f.regs, cap);
      while at != Exit
        invariant Valid() && forall o | o in Repr(bank.words[..]) :: o in old(Repr(bank.words[..])) || fresh(o)
        invariant Tracks(f, Nothing)
        invariant Leads(g, cap, Point(at, f), k, Point(Exit, h))
        decreases k
      {
        var b := g[Find(g, at)];
        EmittedFits(p, bank.words.Length, b);
        ghost var q := RunBlock(g, Point(at, f), cap);
        ExecBody(b.body, cap, f, Nothing);
        at := Follow(b.jump, flag);
        f, k := q.frame, k - 1;
      }
      OutIsOut(p, cap, f, k, h);
    }
  }

  /** The run of blocks that leads out. */
  lemma WayOut(p: Program, regs: Regs, cap: nat) returns (h: Frame, k: nat)
    requires Landed(p) && Runnable(p, |regs|)
    ensures Leads(Emitted(p), cap, Point(Inst(0), Frame(regs, 0, 0, 0, false)), k, Point(Exit, h))
    ensures Compiled(p, regs, cap, h.steps, h.regs)
  {
    hide Emitted, Leads, Reaches, Outcome, Landed;
    var c, f := Config(0, regs), Frame(regs, 0, 0, 0, false);
    RunnableOk(p, |regs|);
    AtStart(p, c);
    LandedSome(p);
    ghost var d;
    h, d := RunsOut(p, c, cap, 0, f);
    k :| Leads(Emitted(p), cap, Point(Inst(0), f), k, Point(Exit, h));
  }

  lemma OutIsOut(p: Program, cap: nat, f: Frame, k: nat, h: Frame)
    requires Leads(Emitted(p), cap, Point(Exit, f), k, Point(Exit, h))
    ensures f == h
  {
    hide Emitted, RunBlock;
    ExitStuck(p, f);
  }

  /** So running the emitted blocks on words ends with the step count and the registers that
      stepping the instructions ends with, under every cap. */
  method RunCompiled(g: Graph, bank: RegFile, cap: nat, ghost p: Program) returns (steps: nat)
    requires bank.Valid() && bank !in Repr(bank.words[..])
    requires g == Emitted(p) && Landed(p) && Runnable(p, bank.words.Length)
    modifies bank.words, Repr(bank.words[..])
    ensures bank.Valid()
    ensures exists d :: Outcome(p, Config(0, old(bank.Values())), cap, steps, d) && d.regs == bank.Values()
  {
    hide Ok, Value, Repr, AllOk, ValuesOf, Separate, Emitted, Runnable, Landed, Outcome, Compiled;
    ghost var v := bank.Values();
    ReprAllocated(bank.words[..]);
    var process := new Process(bank);
    assert bank.Values() == v;
    process.Run(g, cap, p);
    steps := process.steps;
    RunnableOk(p, |v|);
    Lockstep(p, v, cap, steps, bank.Values());
  }
}
