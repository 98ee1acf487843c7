/** The 62-instruction universal machine: a fixed raw program that runs any program handed to
    it as a number. */
module Universal {
  import opened Machine
  import opened Loops
  import opened Tallies

  // Its registers, in order of first mention.
  const PW: nat := 0
  const PP: nat := 1
  const TT: nat := 2
  const P2: nat := 3
  const XX: nat := 4
  const SS: nat := 5
  const REM: nat := 6
  const PR: nat := 7
  const RR: nat := 8
  const RS: nat := 9
  const QQ: nat := 10
  const PC: nat := 11
  const MM: nat := 12
  const TM: nat := 13
  const NIL: nat := 14

  /** Fetch a copy of the program, and read one tally of it into X. */
  function ListFetch(k: nat): Op {
    match k
    case 0 => Deb(PW, 1, 0)
    case 1 => Deb(PP, 4, 2)
    case 2 => Inc(PW, 3)
    case 3 => Inc(TT, 1)
    case 4 => Deb(TT, 6, 5)
    case 5 => Inc(PP, 4)
    case 6 => Deb(PW, 12, 7)
    case 7 => Deb(PW, 9, 8)
    case 8 => Inc(P2, 6)
    case 9 => Deb(P2, 11, 10)
    case 10 => Inc(PW, 9)
    case 11 => Inc(XX, 6)
    case 12 => Deb(P2, 14, 13)
    case 13 => Inc(PW, 12)
    case _ => End
  }

  /** Which field it was; for a take, divide the bank by the prime. */
  function ListDivide(k: nat): Op {
    match k
    case 0 => Deb(SS, 37, 15)
    case 1 => Deb(SS, 52, 16)
    case 2 => Deb(SS, 56, 17)
    case 3 => Deb(REM, 18, 17)
    case 4 => Deb(PR, 22, 19)
    case 5 => Deb(RR, 25, 20)
    case 6 => Inc(REM, 21)
    case 7 => Inc(RS, 18)
    case 8 => Deb(REM, 24, 23)
    case 9 => Inc(PR, 22)
    case 10 => Inc(QQ, 18)
    case 11 => Deb(PR, 26, 25)
    case _ => End
  }

  /** Not divisible: put the bank back.  Divisible: keep the quotient, and jump. */
  function ListTake(k: nat): Op {
    match k
    case 0 => Deb(REM, 31, 27)
    case 1 => Deb(RS, 29, 28)
    case 2 => Inc(RR, 27)
    case 3 => Deb(QQ, 30, 29)
    case 4 => Deb(XX, 0, 30)
    case 5 => Deb(QQ, 33, 32)
    case 6 => Inc(RR, 31)
    case 7 => Deb(RS, 34, 33)
    case 8 => Deb(PC, 35, 34)
    case 9 => Deb(XX, 0, 36)
    case 10 => Inc(PC, 35)
    case _ => End
  }

  /** Skip tallies, or decode the kind; for a give, multiply the bank by the prime. */
  function ListDecode(k: nat): Op {
    match k
    case 0 => Deb(PC, 39, 38)
    case 1 => Deb(XX, 6, 38)
    case 2 => Deb(XX, 42, 40)
    case 3 => Deb(XX, 54, 41)
    case 4 => Inc(PR, 39)
    case 5 => Deb(PR, 61, 43)
    case 6 => Deb(PR, 49, 44)
    case 7 => Deb(RR, 47, 45)
    case 8 => Inc(MM, 46)
    case 9 => Inc(TM, 44)
    case 10 => Deb(TM, 43, 48)
    case 11 => Inc(RR, 47)
    case _ => End
  }

  /** Keep the product; read the targets. */
  function ListTargets(k: nat): Op {
    match k
    case 0 => Deb(MM, 51, 50)
    case 1 => Inc(RR, 49)
    case 2 => Inc(SS, 6)
    case 3 => Deb(XX, 0, 53)
    case 4 => Inc(PC, 52)
    case 5 => Inc(SS, 55)
    case 6 => Inc(SS, 6)
    case 7 => Deb(XX, 58, 57)
    case 8 => Inc(PC, 56)
    case 9 => Inc(SS, 59)
    case 10 => Inc(SS, 60)
    case 11 => Inc(SS, 6)
    case _ => End
  }

  /** The listing: instruction `i`, section by section. */
  function Listing(i: nat): Op {
    if i < 14 then ListFetch(i)
    else if i < 26 then ListDivide(i - 14)
    else if i < 37 then ListTake(i - 26)
    else if i < 49 then ListDecode(i - 37)
    else ListTargets(i - 49)
  }

  function U(): (p: Program)
    ensures |p| == 62
  {
    seq(62, i requires 0 <= i < 62 => Listing(i))
  }

  datatype State = State(pw: nat, p: nat, t: nat, p2: nat, x: nat, s: nat, rem: nat, pr: nat,
                         r: nat, rs: nat, q: nat, pc: nat, m: nat, tm: nat, nil: nat)

  function Regs15(b: State): (v: Regs)
    ensures |v| == 15
  {
    [b.pw, b.p, b.t, b.p2, b.x, b.s, b.rem, b.pr, b.r, b.rs, b.q, b.pc, b.m, b.tm, b.nil]
  }

  function At(i: nat, b: State): Config {
    Config(i, Regs15(b))
  }

  ghost predicate Goes(c: Config, d: Config) {
    exists k: nat :: k >= 1 && Reaches(U(), c, k, d)
  }

  lemma GoesTrans(a: Config, b: Config, c: Config)
    requires Goes(a, b) && Goes(b, c)
    ensures Goes(a, c)
  {
    hide Reaches, U;
    var k: nat :| k >= 1 && Reaches(U(), a, k, b);
    var l: nat :| l >= 1 && Reaches(U(), b, l, c);
    ReachesJoin(U(), a, k, b, l, c);
  }

  lemma UOk()
    ensures |U()| == 62 && ProgOk(U(), 15) && IsRaw(U())
  {
  }

  lemma FoldGoes(f: Fold, v: Regs)
    requires LoopShape(U(), f) && |v| == 15 && !f.op.DivBin?
    ensures OpOk(f.op, 15) && Goes(Config(f.start, v), Config(Target(f.op, f.start, v), Effect(f.op, v)))
  {
    hide Reaches, U, LoopShape, Effect, Target;
    UOk();
    var k := FoldRuns(U(), f, v);
  }

  lemma Fetch(i: nat)
    requires i < 62
    ensures InstAt(U(), i, Listing(i))
  {
  }

  lemma AddAllOne(v: Regs, d: nat, x: nat)
    requires d < |v|
    ensures AddAll(v, [d], x) == v[d := v[d] + x]
  {
    hide AddAll;
    AddAllNone(v[d := v[d] + x], [], x);
    AddAllCons(v, d, [], x);
    assert [d] + [] == [d];
  }

  /** Two gives in a row. */
  lemma TwoGives(i: nat, back: nat, a: nat, b: nat, exclude: nat)
    requires i + 1 < 62 && Listing(i) == Inc(a, i + 1) && Listing(i + 1) == Inc(b, back)
    requires a != exclude && b != exclude && a != b && back != i + 1
    ensures IncRun(U(), i, 2, back, exclude) && RunRegs(U(), i, 2) == [a, b]
    ensures Times([a, b], b) == 1 && Without([a, b], b) == [a]
    ensures Times([a, b], a) == 1 && Without([a, b], a) == [b]
  {
    hide U, Listing;
    Fetch(i);
    Fetch(i + 1);
    assert Without([b], b) == [] && Without([b], a) == [b] + [];
    assert [a, b][1..] == [b];
  }

  /** A single give. */
  lemma OneGive(i: nat, back: nat, a: nat, exclude: nat)
    requires i < 62 && Listing(i) == Inc(a, back) && a != exclude
    ensures IncRunOf(U(), i, back, exclude, [a])
  {
    hide U, Listing;
    Fetch(i);
  }

  // ---------------------------------------------------------------------------
  // One move, or one loop, at a time
  // ---------------------------------------------------------------------------

  lemma Move0(b: State)
    ensures Goes(At(0, b), At(1, b.(pw := 0)))
  {
    hide Goes, U;
    Fetch(0);
    FoldGoes(Fold(0, 1, Zero(PW, 1)), Regs15(b));
    assert Regs15(b)[PW := 0] == Regs15(b.(pw := 0));
  }

  lemma CopyShape()
    ensures LoopShape(U(), Fold(1, 6, Copy(PP, TT, [PW], 6)))
  {
    hide U, IncRun, RunRegs, Times, Without;
    Fetch(1);
    TwoGives(2, 1, PW, TT, PP);
    Fetch(4);
    Fetch(5);
  }

  lemma Move1(b: State)
    requires b.t == 0
    ensures Goes(At(1, b), At(6, b.(pw := b.pw + b.p)))
  {
    hide Goes, U, LoopShape, AddAll;
    CopyShape();
    var f := Fold(1, 6, Copy(PP, TT, [PW], 6));
    FoldGoes(f, Regs15(b));
    AddAllOne(Regs15(b), PW, b.p);
    assert Effect(f.op, Regs15(b)) == Regs15(b.(pw := b.pw + b.p));
  }

  lemma HalvingShape(i: nat, r: nat, d: nat, even: nat, odd: nat)
    requires i + 2 < 62 && Listing(i) == Deb(r, even, i + 1) && Listing(i + 1) == Deb(r, odd, i + 2)
    requires Listing(i + 2) == Inc(d, i) && d != r
    ensures LoopShape(U(), Fold(i, i + 3, DivMod(r, [d], [even, odd])))
  {
    hide U, Listing, IncRunOf;
    Fetch(i);
    Fetch(i + 1);
    Fetch(i + 2);
    OneGive(i + 2, i, d, r);
  }

  lemma Move6(b: State)
    ensures Goes(At(6, b), At(if b.pw % 2 == 0 then 12 else 9, b.(p2 := b.p2 + b.pw / 2, pw := 0)))
  {
    hide Goes, U, AddAll, IncRunOf;
    HalvingShape(6, PW, P2, 12, 9);
    var f := Fold(6, 9, DivMod(PW, [P2], [12, 9]));
    FoldGoes(f, Regs15(b));
    AddAllOne(Regs15(b), P2, b.pw / 2);
    assert Effect(f.op, Regs15(b)) == Regs15(b.(p2 := b.p2 + b.pw / 2, pw := 0));
  }

  lemma Move9(b: State)
    ensures Goes(At(9, b), At(11, b.(pw := b.pw + b.p2, p2 := 0)))
  {
    hide Goes, U, AddAll, IncRunOf;
    Fetch(9);
    OneGive(10, 9, PW, P2);
    var f := Fold(9, 11, Transfer(P2, [PW], 11));
    FoldGoes(f, Regs15(b));
    AddAllOne(Regs15(b), PW, b.p2);
    assert Effect(f.op, Regs15(b)) == Regs15(b.(pw := b.pw + b.p2, p2 := 0));
  }

  lemma Move11(b: State)
    ensures Goes(At(11, b), At(6, b.(x := b.x + 1)))
  {
    hide U;
    Fetch(11);
    Give(U(), 11, XX, 6, Regs15(b));
    assert Regs15(b)[XX := b.x + 1] == Regs15(b.(x := b.x + 1));
  }

  lemma Move12(b: State)
    ensures Goes(At(12, b), At(14, b.(pw := b.pw + b.p2, p2 := 0)))
  {
    hide Goes, U, AddAll, IncRunOf;
    Fetch(12);
    OneGive(13, 12, PW, P2);
    var f := Fold(12, 14, Transfer(P2, [PW], 14));
    FoldGoes(f, Regs15(b));
    AddAllOne(Regs15(b), PW, b.p2);
    assert Effect(f.op, Regs15(b)) == Regs15(b.(pw := b.pw + b.p2, p2 := 0));
  }

  lemma Move14(b: State)
    ensures b.s == 0 ==> Goes(At(14, b), At(37, b))
    ensures b.s > 0 ==> Goes(At(14, b), At(15, b.(s := b.s - 1)))
  {
    hide U;
    Fetch(14);
    Take(U(), 14, SS, 37, 15, Regs15(b));
    if b.s > 0 {
      assert Regs15(b)[SS := b.s - 1] == Regs15(b.(s := b.s - 1));
    }
  }

  lemma Move15(b: State)
    ensures b.s == 0 ==> Goes(At(15, b), At(52, b))
    ensures b.s > 0 ==> Goes(At(15, b), At(16, b.(s := b.s - 1)))
  {
    hide U;
    Fetch(15);
    Take(U(), 15, SS, 52, 16, Regs15(b));
    if b.s > 0 {
      assert Regs15(b)[SS := b.s - 1] == Regs15(b.(s := b.s - 1));
    }
  }

  lemma Move16(b: State)
    ensures b.s == 0 ==> Goes(At(16, b), At(56, b))
    ensures b.s > 0 ==> Goes(At(16, b), At(17, b.(s := b.s - 1)))
  {
    hide U;
    Fetch(16);
    Take(U(), 16, SS, 56, 17, Regs15(b));
    if b.s > 0 {
      assert Regs15(b)[SS := b.s - 1] == Regs15(b.(s := b.s - 1));
    }
  }

  lemma DivisionShape()
    ensures LoopShape(U(), Fold(17, 25, DivBin(RR, PR, REM, QQ, [RS], 25)))
  {
    hide U, IncRun, RunRegs, Times, Without;
    Fetch(17);
    Fetch(18);
    Fetch(19);
    TwoGives(20, 18, REM, RS, RR);
    Fetch(22);
    Fetch(23);
    Fetch(24);
  }

  lemma Move17(b: State)
    requires b.pr > 0
    ensures Goes(At(17, b), At(25, b.(rs := b.rs + b.r, q := b.q + b.r / b.pr, r := 0,
                                      pr := b.pr - b.r % b.pr - 1, rem := b.r % b.pr)))
  {
    hide Goes, U, LoopShape, AddAll;
    DivisionShape();
    var op := DivBin(RR, PR, REM, QQ, [RS], 25);
    UOk();
    DivisionGoes(Fold(17, 25, op), Regs15(b));
    AddAllOne(Regs15(b), RS, b.r);
    assert b.r % b.pr < b.pr;
    assert Effect(op, Regs15(b))
        == Regs15(b.(rs := b.rs + b.r, q := b.q + b.r / b.pr, r := 0,
                     pr := b.pr - b.r % b.pr - 1, rem := b.r % b.pr));
  }

  lemma DivisionGoes(f: Fold, v: Regs)
    requires LoopShape(U(), f) && f.op.DivBin? && |v| == 15 && OpOk(f.op, 15) && v[f.op.p] > 0
    ensures Goes(Config(f.start, v), Config(f.op.exit, Effect(f.op, v)))
  {
    hide Reaches, U, LoopShape, Effect;
    UOk();
    var k := FoldRuns(U(), f, v);
  }

  lemma Move25(b: State)
    ensures Goes(At(25, b), At(26, b.(pr := 0)))
  {
    hide Goes, U;
    Fetch(25);
    FoldGoes(Fold(25, 26, Zero(PR, 26)), Regs15(b));
    assert Regs15(b)[PR := 0] == Regs15(b.(pr := 0));
  }

  lemma Move26(b: State)
    ensures b.rem == 0 ==> Goes(At(26, b), At(31, b))
    ensures b.rem > 0 ==> Goes(At(26, b), At(27, b.(rem := b.rem - 1)))
  {
    hide U;
    Fetch(26);
    Take(U(), 26, REM, 31, 27, Regs15(b));
    if b.rem > 0 {
      assert Regs15(b)[REM := b.rem - 1] == Regs15(b.(rem := b.rem - 1));
    }
  }

  lemma Move27(b: State)
    ensures Goes(At(27, b), At(29, b.(r := b.r + b.rs, rs := 0)))
  {
    hide Goes, U, AddAll, IncRunOf;
    Fetch(27);
    OneGive(28, 27, RR, RS);
    var f := Fold(27, 29, Transfer(RS, [RR], 29));
    FoldGoes(f, Regs15(b));
    AddAllOne(Regs15(b), RR, b.rs);
    assert Effect(f.op, Regs15(b)) == Regs15(b.(r := b.r + b.rs, rs := 0));
  }

  lemma Move29(b: State)
    ensures Goes(At(29, b), At(30, b.(q := 0)))
  {
    hide Goes, U;
    Fetch(29);
    FoldGoes(Fold(29, 30, Zero(QQ, 30)), Regs15(b));
    assert Regs15(b)[QQ := 0] == Regs15(b.(q := 0));
  }

  lemma Move30(b: State)
    ensures Goes(At(30, b), At(0, b.(x := 0)))
  {
    hide Goes, U;
    Fetch(30);
    FoldGoes(Fold(30, 31, Zero(XX, 0)), Regs15(b));
    assert Regs15(b)[XX := 0] == Regs15(b.(x := 0));
  }

  lemma Move31(b: State)
    ensures Goes(At(31, b), At(33, b.(r := b.r + b.q, q := 0)))
  {
    hide Goes, U, AddAll, IncRunOf;
    Fetch(31);
    OneGive(32, 31, RR, QQ);
    var f := Fold(31, 33, Transfer(QQ, [RR], 33));
    FoldGoes(f, Regs15(b));
    AddAllOne(Regs15(b), RR, b.q);
    assert Effect(f.op, Regs15(b)) == Regs15(b.(r := b.r + b.q, q := 0));
  }

  lemma Move33(b: State)
    ensures Goes(At(33, b), At(34, b.(rs := 0)))
  {
    hide Goes, U;
    Fetch(33);
    FoldGoes(Fold(33, 34, Zero(RS, 34)), Regs15(b));
    assert Regs15(b)[RS := 0] == Regs15(b.(rs := 0));
  }

  lemma Move34(b: State)
    ensures Goes(At(34, b), At(35, b.(pc := 0)))
  {
    hide Goes, U;
    Fetch(34);
    FoldGoes(Fold(34, 35, Zero(PC, 35)), Regs15(b));
    assert Regs15(b)[PC := 0] == Regs15(b.(pc := 0));
  }

  lemma Move35(b: State)
    ensures Goes(At(35, b), At(0, b.(pc := b.pc + b.x, x := 0)))
  {
    hide Goes, U, AddAll, IncRunOf;
    Fetch(35);
    OneGive(36, 35, PC, XX);
    var f := Fold(35, 37, Transfer(XX, [PC], 0));
    FoldGoes(f, Regs15(b));
    AddAllOne(Regs15(b), PC, b.x);
    assert Effect(f.op, Regs15(b)) == Regs15(b.(pc := b.pc + b.x, x := 0));
  }

  lemma Move37(b: State)
    ensures b.pc == 0 ==> Goes(At(37, b), At(39, b))
    ensures b.pc > 0 ==> Goes(At(37, b), At(38, b.(pc := b.pc - 1)))
  {
    hide U;
    Fetch(37);
    Take(U(), 37, PC, 39, 38, Regs15(b));
    if b.pc > 0 {
      assert Regs15(b)[PC := b.pc - 1] == Regs15(b.(pc := b.pc - 1));
    }
  }

  lemma Move38(b: State)
    ensures Goes(At(38, b), At(6, b.(x := 0)))
  {
    hide Goes, U;
    Fetch(38);
    FoldGoes(Fold(38, 39, Zero(XX, 6)), Regs15(b));
    assert Regs15(b)[XX := 0] == Regs15(b.(x := 0));
  }

  lemma Move39(b: State)
    ensures Goes(At(39, b), At(if b.x % 2 == 0 then 42 else 54, b.(pr := b.pr + b.x / 2, x := 0)))
  {
    hide Goes, U, Effect, IncRunOf;
    HalvingShape(39, XX, PR, 42, 54);
    FoldGoes(Fold(39, 42, DivMod(XX, [PR], [42, 54])), Regs15(b));
    HalfOut(b);
  }

  lemma HalfOut(b: State)
    ensures Effect(DivMod(XX, [PR], [42, 54]), Regs15(b)) == Regs15(b.(pr := b.pr + b.x / 2, x := 0))
  {
    hide AddAll;
    AddAllOne(Regs15(b), PR, b.x / 2);
  }

  lemma Move42(b: State)
    ensures b.pr == 0 ==> Goes(At(42, b), At(61, b))
    ensures b.pr > 0 ==> Goes(At(42, b), At(43, b.(pr := b.pr - 1)))
  {
    hide U;
    Fetch(42);
    Take(U(), 42, PR, 61, 43, Regs15(b));
    if b.pr > 0 {
      assert Regs15(b)[PR := b.pr - 1] == Regs15(b.(pr := b.pr - 1));
    }
  }

  lemma MultiplyShape()
    ensures LoopShape(U(), Fold(43, 49, MulAdd(PR, RR, TM, [MM], false, 49)))
  {
    hide U, IncRun, RunRegs;
    Fetch(43);
    Fetch(44);
    TwoGives(45, 44, MM, TM, RR);
    assert [MM] + [TM] == [MM, TM];
    Fetch(47);
    Fetch(48);
  }

  lemma Move43(b: State)
    requires b.tm == 0
    ensures Goes(At(43, b), At(49, b.(m := b.m + b.pr * b.r, pr := 0)))
  {
    hide Goes, U, LoopShape, AddAll;
    MultiplyShape();
    var f := Fold(43, 49, MulAdd(PR, RR, TM, [MM], false, 49));
    FoldGoes(f, Regs15(b));
    var v := Regs15(b);
    if b.pr == 0 {
      assert b.pr * b.r == 0;
    } else {
      var gain: nat := b.pr * b.r + (b.pr - 1) * b.tm;
      assert gain == b.pr * b.r;
      AddAllOne(v, MM, gain);
      assert v[RR := v[RR] + v[TM]] == v;
    }
    assert Effect(f.op, v) == Regs15(b.(m := b.m + b.pr * b.r, pr := 0));
  }

  lemma Move49(b: State)
    ensures Goes(At(49, b), At(51, b.(r := b.r + b.m, m := 0)))
  {
    hide Goes, U, AddAll, IncRunOf;
    Fetch(49);
    OneGive(50, 49, RR, MM);
    var f := Fold(49, 51, Transfer(MM, [RR], 51));
    FoldGoes(f, Regs15(b));
    AddAllOne(Regs15(b), RR, b.m);
    assert Effect(f.op, Regs15(b)) == Regs15(b.(r := b.r + b.m, m := 0));
  }

  lemma Move51(b: State)
    ensures Goes(At(51, b), At(6, b.(s := b.s + 1)))
  {
    hide U;
    Fetch(51);
    Give(U(), 51, SS, 6, Regs15(b));
    assert Regs15(b)[SS := b.s + 1] == Regs15(b.(s := b.s + 1));
  }

  lemma Move52(b: State)
    ensures Goes(At(52, b), At(0, b.(pc := b.pc + b.x, x := 0)))
  {
    hide Goes, U, AddAll, IncRunOf;
    Fetch(52);
    OneGive(53, 52, PC, XX);
    var f := Fold(52, 54, Transfer(XX, [PC], 0));
    FoldGoes(f, Regs15(b));
    AddAllOne(Regs15(b), PC, b.x);
    assert Effect(f.op, Regs15(b)) == Regs15(b.(pc := b.pc + b.x, x := 0));
  }

  lemma Move54(b: State)
    ensures Goes(At(54, b), At(55, b.(s := b.s + 1)))
  {
    hide U;
    Fetch(54);
    Give(U(), 54, SS, 55, Regs15(b));
    assert Regs15(b)[SS := b.s + 1] == Regs15(b.(s := b.s + 1));
  }

  lemma Move55(b: State)
    ensures Goes(At(55, b), At(6, b.(s := b.s + 1)))
  {
    hide U;
    Fetch(55);
    Give(U(), 55, SS, 6, Regs15(b));
    assert Regs15(b)[SS := b.s + 1] == Regs15(b.(s := b.s + 1));
  }

  lemma Move56(b: State)
    ensures Goes(At(56, b), At(58, b.(pc := b.pc + b.x, x := 0)))
  {
    hide Goes, U, AddAll, IncRunOf;
    Fetch(56);
    OneGive(57, 56, PC, XX);
    var f := Fold(56, 58, Transfer(XX, [PC], 58));
    FoldGoes(f, Regs15(b));
    AddAllOne(Regs15(b), PC, b.x);
    assert Effect(f.op, Regs15(b)) == Regs15(b.(pc := b.pc + b.x, x := 0));
  }

  lemma Move58(b: State)
    ensures Goes(At(58, b), At(59, b.(s := b.s + 1)))
  {
    hide U;
    Fetch(58);
    Give(U(), 58, SS, 59, Regs15(b));
    assert Regs15(b)[SS := b.s + 1] == Regs15(b.(s := b.s + 1));
  }

  lemma Move59(b: State)
    ensures Goes(At(59, b), At(60, b.(s := b.s + 1)))
  {
    hide U;
    Fetch(59);
    Give(U(), 59, SS, 60, Regs15(b));
    assert Regs15(b)[SS := b.s + 1] == Regs15(b.(s := b.s + 1));
  }

  lemma Move60(b: State)
    ensures Goes(At(60, b), At(6, b.(s := b.s + 1)))
  {
    hide U;
    Fetch(60);
    Give(U(), 60, SS, 6, Regs15(b));
    assert Regs15(b)[SS := b.s + 1] == Regs15(b.(s := b.s + 1));
  }

  // ---------------------------------------------------------------------------
  // Reading tallies
  // ---------------------------------------------------------------------------

  /** From `rd`: the next tally of `Pw` is added to X. */
  lemma {:induction false} Read(b: State)
    requires b.p2 == 0
    ensures Goes(At(6, b), At(14, b.(x := b.x + Field(b.pw), pw := Rest(b.pw))))
    decreases b.pw
  {
    hide Goes;
    var h := b.(p2 := b.pw / 2, pw := 0);
    Move6(b);
    if b.pw % 2 == 0 {
      Move12(h);
      GoesTrans(At(6, b), At(12, h), At(14, h.(pw := h.p2, p2 := 0)));
    } else {
      var i := b.(pw := b.pw / 2);
      var j := i.(x := b.x + 1);
      Move9(h);
      GoesTrans(At(6, b), At(9, h), At(11, i));
      Move11(i);
      GoesTrans(At(6, b), At(11, i), At(6, j));
      Read(j);
      GoesTrans(At(6, b), At(6, j), At(14, j.(x := j.x + Field(j.pw), pw := Rest(j.pw))));
    }
  }

  /** With s == 0: `PC` tallies are dropped, and the next one is read for its kind. */
  lemma {:induction false} Seek(b: State)
    requires b.p2 == 0 && b.x == 0 && b.s == 0
    ensures Goes(At(6, b), At(39, b.(pc := 0, x := Field(Skip(b.pw, b.pc)), pw := Rest(Skip(b.pw, b.pc)))))
    decreases b.pc
  {
    hide Goes, Field, Rest;
    var c := b.(x := Field(b.pw), pw := Rest(b.pw));
    Read(b);
    Move14(c);
    GoesTrans(At(6, b), At(14, c), At(37, c));
    Move37(c);
    if b.pc == 0 {
      GoesTrans(At(6, b), At(37, c), At(39, c));
    } else {
      var d := c.(pc := b.pc - 1);
      var e := d.(x := 0);
      GoesTrans(At(6, b), At(37, c), At(38, d));
      Move38(d);
      GoesTrans(At(6, b), At(38, d), At(6, e));
      Seek(e);
      GoesTrans(At(6, b), At(6, e),
                At(39, e.(pc := 0, x := Field(Skip(e.pw, e.pc)), pw := Rest(Skip(e.pw, e.pc)))));
    }
  }

  /** From `step`: the program is copied and the instruction at `PC` tallies found. */
  lemma Fetches(b: State)
    requires b.p2 == 0 && b.x == 0 && b.s == 0 && b.t == 0
    ensures var at := Skip(b.p, b.pc);
            Goes(At(0, b), At(39, b.(pc := 0, x := Field(at), pw := Rest(at))))
  {
    hide Goes, Field, Rest, Skip;
    var c := b.(pw := 0);
    var d := c.(pw := b.p);
    Move0(b);
    Move1(c);
    GoesTrans(At(0, b), At(1, c), At(6, d));
    Seek(d);
    GoesTrans(At(0, b), At(6, d), At(39, d.(pc := 0, x := Field(Skip(b.p, b.pc)), pw := Rest(Skip(b.p, b.pc)))));
  }

  // ---------------------------------------------------------------------------
  // The three kinds of instruction
  // ---------------------------------------------------------------------------

  /** X = 2p with p > 0: the bank is multiplied by p, and the next tally is the new PC. */
  lemma Gives(b: State, p: nat)
    requires b.x == 2 * p && p > 0 && b.pc == 0
    requires b.p2 == 0 && b.s == 0 && b.pr == 0 && b.m == 0 && b.tm == 0
    ensures Goes(At(39, b), At(0, b.(r := b.r * p, pc := Field(b.pw), pw := Rest(b.pw), x := 0)))
  {
    hide Goes, Field, Rest;
    var c := b.(pr := p, x := 0);
    Move39(b);
    var d := c.(pr := p - 1);
    Move42(c);
    GoesTrans(At(39, b), At(42, c), At(43, d));
    var e := d.(m := (p - 1) * b.r, pr := 0);
    Move43(d);
    GoesTrans(At(39, b), At(43, d), At(49, e));
    var f := e.(r := b.r * p, m := 0);
    assert b.r + (p - 1) * b.r == b.r * p;
    Move49(e);
    GoesTrans(At(39, b), At(49, e), At(51, f));
    var g := f.(s := 1);
    Move51(f);
    GoesTrans(At(39, b), At(51, f), At(6, g));
    var h := g.(x := Field(b.pw), pw := Rest(b.pw));
    Read(g);
    GoesTrans(At(39, b), At(6, g), At(14, h));
    var i := h.(s := 0);
    Move14(h);
    GoesTrans(At(39, b), At(14, h), At(15, i));
    Move15(i);
    GoesTrans(At(39, b), At(15, i), At(52, i));
    Move52(i);
    GoesTrans(At(39, b), At(52, i), At(0, i.(pc := i.x, x := 0)));
  }

  /** X = 2p + 1: both targets are read before the bank is divided. */
  lemma Takes(b: State, p: nat)
    requires b.x == 2 * p + 1 && b.pc == 0
    requires b.p2 == 0 && b.s == 0 && b.pr == 0
    ensures var tail := Rest(b.pw);
            Goes(At(39, b), At(17, b.(pr := p, pc := Field(b.pw), x := Field(tail), pw := Rest(tail))))
  {
    hide Goes, Field, Rest;
    var tail := Rest(b.pw);
    var c := b.(pr := p, x := 0);
    Move39(b);
    var d := c.(s := 1);
    Move54(c);
    GoesTrans(At(39, b), At(54, c), At(55, d));
    var e := d.(s := 2);
    Move55(d);
    GoesTrans(At(39, b), At(55, d), At(6, e));
    var f := e.(x := Field(b.pw), pw := tail);
    Read(e);
    GoesTrans(At(39, b), At(6, e), At(14, f));
    ToTakeA(f);
    var g := f.(s := 0);
    GoesTrans(At(39, b), At(14, f), At(56, g));
    var h := g.(pc := Field(b.pw), x := 0);
    Move56(g);
    GoesTrans(At(39, b), At(56, g), At(58, h));
    var i := h.(s := 3);
    ThirdField(h);
    GoesTrans(At(39, b), At(58, h), At(6, i));
    var j := i.(x := Field(tail), pw := Rest(tail));
    Read(i);
    GoesTrans(At(39, b), At(6, i), At(14, j));
    ToTakeB(j);
    GoesTrans(At(39, b), At(14, j), At(17, j.(s := 0)));
  }

  lemma ToTakeA(b: State)
    requires b.s == 2
    ensures Goes(At(14, b), At(56, b.(s := 0)))
  {
    hide Goes;
    var c, d := b.(s := 1), b.(s := 0);
    Move14(b);
    Move15(c);
    GoesTrans(At(14, b), At(15, c), At(16, d));
    Move16(d);
    GoesTrans(At(14, b), At(16, d), At(56, d));
  }

  lemma ToTakeB(b: State)
    requires b.s == 3
    ensures Goes(At(14, b), At(17, b.(s := 0)))
  {
    hide Goes;
    var c, d := b.(s := 2), b.(s := 1);
    Move14(b);
    Move15(c);
    GoesTrans(At(14, b), At(15, c), At(16, d));
    Move16(d);
    GoesTrans(At(14, b), At(16, d), At(17, d.(s := 0)));
  }

  lemma ThirdField(b: State)
    requires b.s == 0
    ensures Goes(At(58, b), At(6, b.(s := 3)))
  {
    hide Goes;
    var c, d := b.(s := 1), b.(s := 2);
    Move58(b);
    Move59(c);
    GoesTrans(At(58, b), At(59, c), At(60, d));
    Move60(d);
    GoesTrans(At(58, b), At(60, d), At(6, d.(s := 3)));
  }

  /** The division up to the test of its remainder. */
  lemma DivideBank(b: State)
    requires b.pr > 0 && b.q == 0 && b.rs == 0
    ensures Goes(At(17, b), At(26, b.(rs := b.r, q := b.r / b.pr, r := 0, pr := 0, rem := b.r % b.pr)))
  {
    hide Goes;
    var c := b.(rs := b.r, q := b.r / b.pr, r := 0, pr := b.pr - b.r % b.pr - 1, rem := b.r % b.pr);
    Move17(b);
    Move25(c);
    GoesTrans(At(17, b), At(25, c), At(26, c.(pr := 0)));
  }

  /** p divides the bank: the quotient is the new bank, the second target the new PC. */
  lemma Taken(b: State)
    requires b.pr > 0 && b.q == 0 && b.rs == 0 && b.r % b.pr == 0
    ensures Goes(At(17, b), At(0, b.(r := b.r / b.pr, pr := 0, rem := 0, pc := b.x, x := 0)))
  {
    hide Goes;
    var c := b.(rs := b.r, q := b.r / b.pr, r := 0, pr := 0, rem := 0);
    DivideBank(b);
    Move26(c);
    GoesTrans(At(17, b), At(26, c), At(31, c));
    var d := c.(r := c.q, q := 0);
    Move31(c);
    GoesTrans(At(17, b), At(31, c), At(33, d));
    var e := d.(rs := 0);
    Move33(d);
    GoesTrans(At(17, b), At(33, d), At(34, e));
    var f := e.(pc := 0);
    Move34(e);
    GoesTrans(At(17, b), At(34, e), At(35, f));
    Move35(f);
    GoesTrans(At(17, b), At(35, f), At(0, f.(pc := f.x, x := 0)));
  }

  /** It does not: the bank is put back, and the first target stays the PC. */
  lemma Empty(b: State)
    requires b.pr > 0 && b.q == 0 && b.rs == 0 && b.r % b.pr != 0
    ensures Goes(At(17, b), At(0, b.(pr := 0, rem := b.r % b.pr - 1, x := 0)))
  {
    hide Goes;
    var c := b.(rs := b.r, q := b.r / b.pr, r := 0, pr := 0, rem := b.r % b.pr);
    DivideBank(b);
    var d := c.(rem := c.rem - 1);
    Move26(c);
    GoesTrans(At(17, b), At(26, c), At(27, d));
    var e := d.(r := b.r, rs := 0);
    Move27(d);
    GoesTrans(At(17, b), At(27, d), At(29, e));
    var f := e.(q := 0);
    Move29(e);
    GoesTrans(At(17, b), At(29, e), At(30, f));
    Move30(f);
    GoesTrans(At(17, b), At(30, f), At(0, f.(x := 0)));
  }

  /** The empty tally: the machine goes to its own stop. */
  lemma Halting(b: State)
    requires b.x == 0 && b.pr == 0
    ensures Goes(At(39, b), At(61, b))
  {
    hide Goes;
    Move39(b);
    assert b.(pr := 0, x := 0) == b;
    Move42(b);
    GoesTrans(At(39, b), At(42, b), At(61, b));
  }
}
