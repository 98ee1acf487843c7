/** The native backend: each instruction becomes a few basic blocks, and running the blocks
    from the first instruction is running the interpreter, step for step. */
module Qbe {
  import opened Machine
  import opened Loops
  import opened Passes
  import opened Packed
  import opened Roles
  import opened RegFiles
  import opened Interp

  // ---------------------------------------------------------------------------
  // Block graphs
  // ---------------------------------------------------------------------------

  datatype Label = Inst(i: nat) | Body(i: nat) | Cascade(i: nat, e: nat) | Exit

  /** One line of a block: a call into the runtime, a load or a comparison. */
  datatype Stmt =
    | Bump
    | CompareLimit
    | BcInc(reg: nat)
    | BcDec(reg: nat)
    | BcZero(reg: nat)
    | Load(reg: nat)
    | BcAddInto(dst: nat)
    | CompareOne
    | BcDivmod(reg: nat, k: nat)
    | CompareRem(e: nat)
    | BcMulAdd(c: nat, s: nat, t: nat, ds: seq<nat>, preclear: bool)
    | BcDivBin(r: nat, p: nat, rem: nat, q: nat, xs: seq<nat>)

  datatype Jump = Jmp(to: Label) | Jnz(yes: Label, no: Label) | Ret

  datatype Block = Block(name: Label, body: seq<Stmt>, jump: Jump)

  type Graph = seq<Block>

  /** The registers, the step counter and the temporaries: the word last loaded, the last
      remainder and the last condition. */
  datatype Frame = Frame(regs: Regs, steps: nat, val: nat, rem: nat, flag: bool)

  predicate StmtOk(s: Stmt, n: nat) {
    match s
    case BcInc(r) => r < n
    case BcDec(r) => r < n
    case BcZero(r) => r < n
    case Load(r) => r < n
    case BcAddInto(d) => d < n
    case BcDivmod(r, k) => r < n && k > 0
    case BcMulAdd(c, s, t, ds, _) => c < n && s < n && t < n && AllBelow(ds, n)
    case BcDivBin(r, p, rem, q, xs) => r < n && p < n && rem < n && q < n && AllBelow(xs, n)
    case _ => true
  }

  /** The effect of one line.  A loaded word is compared with the word for zero. */
  function Exec(s: Stmt, f: Frame, cap: nat): (g: Frame)
    requires StmtOk(s, |f.regs|)
    ensures |g.regs| == |f.regs|
  {
    var v := f.regs;
    match s
    case Bump => f.(steps := f.steps + 1)
    case CompareLimit => f.(flag := f.steps >= cap)
    case BcInc(r) => f.(regs := v[r := v[r] + 1])
    case BcDec(r) => f.(regs := if v[r] == 0 then v else v[r := v[r] - 1], flag := v[r] > 0)
    case BcZero(r) => f.(regs := v[r := 0])
    case Load(r) => f.(val := v[r])
    case BcAddInto(d) => f.(regs := v[d := v[d] + f.val])
    case CompareOne => f.(flag := f.val == 0)
    case BcDivmod(r, k) => f.(regs := v[r := v[r] / k], rem := v[r] % k)
    case CompareRem(e) => f.(flag := f.rem == e)
    case BcMulAdd(c, s, t, ds, pre) => f.(regs := MulAddEffect(v, c, s, t, ds, pre))
    case BcDivBin(r, p, rem, q, xs) =>
      f.(regs := if v[p] == 0 then v else DivBinEffect(v, r, p, rem, q, xs), flag := v[p] == 0)
  }

  predicate BodyOk(body: seq<Stmt>, n: nat) {
    forall i :: 0 <= i < |body| ==> StmtOk(body[i], n)
  }

  function ExecAll(body: seq<Stmt>, f: Frame, cap: nat): (g: Frame)
    requires BodyOk(body, |f.regs|)
    ensures |g.regs| == |f.regs|
  {
    if body == [] then f else ExecAll(body[1..], Exec(body[0], f, cap), cap)
  }

  function Find(g: Graph, l: Label): (k: nat)
    ensures k <= |g|
    ensures k < |g| ==> g[k].name == l
  {
    if g == [] then 0
    else if g[0].name == l then 0
    else 1 + Find(g[1..], l)
  }

  datatype Point = Point(at: Label, frame: Frame)

  predicate CanRun(g: Graph, p: Point) {
    var k := Find(g, p.at);
    k < |g| && !g[k].jump.Ret? && BodyOk(g[k].body, |p.frame.regs|)
  }

  /** One block. */
  function RunBlock(g: Graph, p: Point, cap: nat): Point
    requires CanRun(g, p)
  {
    var b := g[Find(g, p.at)];
    var f := ExecAll(b.body, p.frame, cap);
    Point(match b.jump
          case Jmp(l) => l
          case Jnz(y, n) => if f.flag then y else n
          case Ret => p.at, f)
  }

  ghost predicate Leads(g: Graph, cap: nat, p: Point, k: nat, q: Point)
    decreases k
  {
    if k == 0 then p == q else CanRun(g, p) && Leads(g, cap, RunBlock(g, p, cap), k - 1, q)
  }

  // ---------------------------------------------------------------------------
  // Emission
  // ---------------------------------------------------------------------------

  /** The blocks that branch on a remainder from `e` on. */
  function CascadeFrom(i: nat, exits: seq<nat>, e: nat): (g: Graph)
    requires 1 <= e < |exits|
    decreases |exits| - e
  {
    if e + 1 == |exits| then [Block(Cascade(i, e), [], Jmp(Inst(exits[e])))]
    else
      [Block(Cascade(i, e), [CompareRem(e)], Jnz(Inst(exits[e]), Cascade(i, e + 1)))]
      + CascadeFrom(i, exits, e + 1)
  }

  function AddsTo(ds: seq<nat>): (body: seq<Stmt>)
    ensures |body| == |ds|
  {
    seq(|ds|, k requires 0 <= k < |ds| => BcAddInto(ds[k]))
  }

  /** The lines of a division before its branch. */
  function DivModLines(r: nat, ds: seq<nat>, k: nat): seq<Stmt> {
    [Bump, BcDivmod(r, k)] + (if ds == [] then [] else [Load(r)] + AddsTo(ds)) + [BcZero(r)]
  }

  /** The blocks of one instruction after its step check. */
  function BodyOf(i: nat, op: Op): (g: Graph) {
    match op
    case Inc(r, n) => [Block(Body(i), [Bump, BcInc(r)], Jmp(Inst(n)))]
    case Deb(r, a, b) => [Block(Body(i), [Bump, BcDec(r)], Jnz(Inst(b), Inst(a)))]
    case End => [Block(Body(i), [Bump], Jmp(Exit))]
    case Zero(r, e) => [Block(Body(i), [Bump, BcZero(r)], Jmp(Inst(e)))]
    case IsZero(r, a, b) => [Block(Body(i), [Bump, Load(r), CompareOne], Jnz(Inst(a), Inst(b)))]
    case Transfer(r, ds, e) =>
      [Block(Body(i), [Bump, Load(r)] + AddsTo(ds) + [BcZero(r)], Jmp(Inst(e)))]
    case DivMod(r, ds, es) =>
      var body := DivModLines(r, ds, |es|);
      if |es| == 0 then []
      else if |es| == 1 then [Block(Body(i), body, Jmp(Inst(es[0])))]
      else [Block(Body(i), body + [CompareRem(0)], Jnz(Inst(es[0]), Cascade(i, 1)))] + CascadeFrom(i, es, 1)
    case MulAdd(c, s, t, ds, pre, e) => [Block(Body(i), [Bump, BcMulAdd(c, s, t, ds, pre)], Jmp(Inst(e)))]
    case Copy(s, t, ds, e) =>
      [Block(Body(i), [Bump, Load(s)] + AddsTo(ds) + [Load(t), BcAddInto(s), BcZero(t)], Jmp(Inst(e)))]
    case DivBin(r, p, rem, q, xs, e) =>
      [Block(Body(i), [Bump, BcDivBin(r, p, rem, q, xs)], Jnz(Inst(i), Inst(e)))]
  }

  /** The step check: leave at the cap, otherwise on to the body. */
  function CheckOf(i: nat): Block {
    Block(Inst(i), [CompareLimit], Jnz(Exit, Body(i)))
  }

  function EmittedTo(p: Program, n: nat): (g: Graph)
    requires n <= |p|
  {
    if n == 0 then [] else EmittedTo(p, n - 1) + [CheckOf(n - 1)] + BodyOf(n - 1, p[n - 1])
  }

  function Emitted(p: Program): Graph {
    EmittedTo(p, |p|) + [Block(Exit, [], Ret)]
  }

  lemma DivModWritten(lines: seq<Stmt>, r: nat, ds: seq<nat>, k: nat)
    requires lines == [Bump] + [BcDivmod(r, k)] + (if ds == [] then [] else [Load(r)] + AddsTo(ds)) + [BcZero(r)]
    ensures lines == DivModLines(r, ds, k)
  {
  }

  /** The text of the program as it is written: finished blocks, and the one being written. */
  class QbeBuffer {
    var blocks: Graph
    var open: Label
    var lines: seq<Stmt>

    constructor ()
      ensures blocks == []
    {
      blocks, open, lines := [], Exit, [];
    }

    method Start(l: Label)
      modifies this
      ensures blocks == old(blocks) && open == l && lines == []
    {
      open, lines := l, [];
    }

    method Line(s: Stmt)
      modifies this`lines
      ensures lines == old(lines) + [s]
    {
      lines := lines + [s];
    }

    method Close(j: Jump)
      modifies this`blocks
      ensures blocks == old(blocks) + [Block(open, lines, j)]
    {
      blocks := blocks + [Block(open, lines, j)];
    }

    /** One addition of the loaded word per destination. */
    method Adds(ds: seq<nat>)
      modifies this`lines
      ensures lines == old(lines) + AddsTo(ds)
    {
      for d := 0 to |ds|
        invariant lines == old(lines) + AddsTo(ds)[..d]
      {
        Line(BcAddInto(ds[d]));
      }
      assert AddsTo(ds)[..|ds|] == AddsTo(ds);
    }

    method EmitStepCheck(i: nat)
      modifies this
      ensures blocks == old(blocks) + [CheckOf(i)] && open == Body(i) && lines == [Bump]
    {
      Start(Inst(i));
      Line(CompareLimit);
      assert lines == [CompareLimit];
      Close(Jnz(Exit, Body(i)));
      Start(Body(i));
      Line(Bump);
      assert lines == [Bump];
    }

    /** The branch on a remainder: a comparison for every exit but the last. */
    method EmitCascade(i: nat, exits: seq<nat>)
      requires |exits| > 0
      modifies this
      ensures blocks == old(blocks) +
        if |exits| == 1 then [Block(old(open), old(lines), Jmp(Inst(exits[0])))]
        else [Block(old(open), old(lines) + [CompareRem(0)], Jnz(Inst(exits[0]), Cascade(i, 1)))]
             + CascadeFrom(i, exits, 1)
    {
      var e := 0;
      ghost var first := [Block(open, lines + [CompareRem(0)], Jnz(Inst(exits[0]), Cascade(i, 1)))];
      while e + 1 < |exits|
        invariant e < |exits|
        invariant e == 0 ==> blocks == old(blocks) && open == old(open) && lines == old(lines)
        invariant e > 0 ==> open == Cascade(i, e) && lines == []
        invariant e > 0 ==> blocks + CascadeFrom(i, exits, e) == old(blocks) + first + CascadeFrom(i, exits, 1)
      {
        Line(CompareRem(e));
        if e > 0 {
          assert lines == [CompareRem(e)];
        }
        Close(Jnz(Inst(exits[e]), Cascade(i, e + 1)));
        Start(Cascade(i, e + 1));
        e := e + 1;
      }
      Close(Jmp(Inst(exits[|exits| - 1])));
    }

    /** TRANSFER and COPY: the loaded source into every destination, then the rest. */
    method EmitFanOut(i: nat, inst: IrOptInst, dests: seq<nat>)
      requires SliceOk(inst, |dests|) && open == Body(i) && lines == [Bump] && (inst.op.OpTransfer? || inst.op.OpCopy?)
      modifies this
      ensures blocks == old(blocks) + BodyOf(i, Decode(inst, dests))
    {
      hide AddsTo, CascadeFrom, DivModLines;
      var lo, hi := inst.destOff, inst.destOff + inst.destCount;
      if inst.op.OpTransfer? {
        Line(Load(inst.reg));
        Adds(dests[lo..hi]);
        Line(BcZero(inst.reg));
        assert lines == [Bump, Load(inst.reg)] + AddsTo(dests[lo..hi]) + [BcZero(inst.reg)];
      } else {
        Line(Load(inst.reg));
        Adds(dests[lo + 1..hi]);
        Line(Load(dests[lo]));
        Line(BcAddInto(inst.reg));
        Line(BcZero(dests[lo]));
        assert lines == [Bump, Load(inst.reg)] + AddsTo(dests[lo + 1..hi])
                        + [Load(dests[lo]), BcAddInto(inst.reg), BcZero(dests[lo])];
      }
      Close(Jmp(Inst(inst.argA)));
    }

    /** DIVMOD: divide, fan the quotient out, branch on the remainder. */
    method EmitDivMod(i: nat, inst: IrOptInst, dests: seq<nat>)
      requires SliceOk(inst, |dests|) && open == Body(i) && lines == [Bump] && inst.op.OpDivMod?
      modifies this
      ensures blocks == old(blocks) + BodyOf(i, Decode(inst, dests))
    {
      hide AddsTo, CascadeFrom, DivModLines;
      var lo, hi := inst.destOff, inst.destOff + inst.destCount;
      Line(BcDivmod(inst.reg, inst.argB));
      if inst.destCount > 0 {
        Line(Load(inst.reg));
        Adds(dests[lo..hi]);
      }
      Line(BcZero(inst.reg));
      DivModWritten(lines, inst.reg, dests[lo..hi], inst.argB);
      EmitCascade(i, dests[hi..hi + inst.argB]);
    }

    /** The instructions that are one call into the runtime. */
    method EmitCall(i: nat, inst: IrOptInst, dests: seq<nat>)
      requires SliceOk(inst, |dests|) && open == Body(i) && lines == [Bump]
      requires (inst.op.OpInc? || inst.op.OpDeb? || inst.op.OpZero? || inst.op.OpMulAdd? || inst.op.OpDivBin?)
      modifies this
      ensures blocks == old(blocks) + BodyOf(i, Decode(inst, dests))
    {
      hide AddsTo, CascadeFrom, DivModLines;
      var lo, hi := inst.destOff, inst.destOff + inst.destCount;
      match inst.op
      case OpInc =>
        Line(BcInc(inst.reg));
        assert lines == [Bump, BcInc(inst.reg)];
        Close(Jmp(Inst(inst.argA)));
      case OpDeb =>
        Line(BcDec(inst.reg));
        assert lines == [Bump, BcDec(inst.reg)];
        Close(Jnz(Inst(inst.argB), Inst(inst.argA)));
      case OpZero =>
        Line(BcZero(inst.reg));
        assert lines == [Bump, BcZero(inst.reg)];
        Close(Jmp(Inst(inst.argA)));
      case OpMulAdd =>
        Line(BcMulAdd(inst.reg, dests[lo], dests[lo + 1], dests[lo + 2..hi], inst.argB != 0));
        assert lines == [Bump, lines[1]];
        Close(Jmp(Inst(inst.argA)));
      case OpDivBin =>
        Line(BcDivBin(inst.reg, dests[lo], dests[lo + 1], dests[lo + 2], dests[lo + 3..hi]));
        assert lines == [Bump, lines[1]];
        Close(Jnz(Inst(i), Inst(inst.argA)));
    }

    /** The same for an instruction that has not been packed. */
    method EmitRaw(i: nat, op: Op)
      requires IsRawOp(op) && open == Body(i) && lines == [Bump]
      modifies this
      ensures blocks == old(blocks) + BodyOf(i, op)
    {
      hide AddsTo, CascadeFrom, DivModLines;
      if op.Inc? {
        Line(BcInc(op.reg));
        assert lines == [Bump, BcInc(op.reg)];
        Close(Jmp(Inst(op.next)));
      } else if op.Deb? {
        Line(BcDec(op.reg));
        assert lines == [Bump, BcDec(op.reg)];
        Close(Jnz(Inst(op.onTake), Inst(op.onZero)));
      } else {
        Close(Jmp(Exit));
      }
    }

    /** The rest of instruction `i`, whose step check has just been written. */
    method EmitInst(i: nat, inst: IrOptInst, dests: seq<nat>)
      requires SliceOk(inst, |dests|) && open == Body(i) && lines == [Bump]
      modifies this
      ensures blocks == old(blocks) + BodyOf(i, Decode(inst, dests))
    {
      hide AddsTo, CascadeFrom, DivModLines;
      match inst.op
      case OpEnd =>
        Close(Jmp(Exit));
      case OpIsZero =>
        Line(Load(inst.reg));
        Line(CompareOne);
        assert lines == [Bump, Load(inst.reg), CompareOne];
        Close(Jnz(Inst(inst.argA), Inst(inst.argB)));
      case OpTransfer => EmitFanOut(i, inst, dests);
      case OpCopy => EmitFanOut(i, inst, dests);
      case OpDivMod => EmitDivMod(i, inst, dests);
      case _ => EmitCall(i, inst, dests);
    }
  }

  /** The blocks of a packed program, its exit block last. */
  method QbeGenerateOpt(insts: seq<IrOptInst>, dests: seq<nat>) returns (g: Graph)
    requires PackOk(insts, dests)
    ensures g == Emitted(ViewOf(insts, dests))
  {
    hide BodyOf, CheckOf;
    ghost var p := ViewOf(insts, dests);
    var buf := new QbeBuffer();
    for i: nat := 0 to |insts|
      invariant buf.blocks == EmittedTo(p, i)
    {
      buf.EmitStepCheck(i);
      buf.EmitInst(i, insts[i], dests);
    }
    buf.Start(Exit);
    buf.Close(Ret);
    g := buf.blocks;
  }

  /** The plain backend: the blocks of an unoptimized program. */
  method QbeGenerate(p: Program) returns (g: Graph)
    requires IsRaw(p)
    ensures g == Emitted(p)
  {
    hide CheckOf;
    var buf := new QbeBuffer();
    for i: nat := 0 to |p|
      invariant buf.blocks == EmittedTo(p, i)
    {
      buf.EmitStepCheck(i);
      buf.EmitRaw(i, p[i]);
    }
    buf.Start(Exit);
    buf.Close(Ret);
    g := buf.blocks;
  }

  // ---------------------------------------------------------------------------
  // Labels are unique
  // ---------------------------------------------------------------------------

  predicate LabelOf(l: Label, i: nat) {
    match l
    case Inst(j) => j == i
    case Body(j) => j == i
    case Cascade(j, _) => j == i
    case Exit => false
  }

  /** A label of one of the first `n` instructions. */
  predicate LabelBelow(l: Label, n: nat) {
    match l
    case Inst(j) => j < n
    case Body(j) => j < n
    case Cascade(j, _) => j < n
    case Exit => false
  }

  predicate DistinctLabels(g: Graph) {
    forall j, k :: 0 <= j < k < |g| ==> g[j].name != g[k].name
  }

  lemma {:induction false} CascadeLabels(i: nat, exits: seq<nat>, e: nat)
    requires 1 <= e < |exits|
    ensures var g := CascadeFrom(i, exits, e);
            && |g| == |exits| - e
            && forall k {:trigger g[k]} :: 0 <= k < |g| ==> g[k].name == Cascade(i, e + k)
    decreases |exits| - e
  {
    if e + 1 < |exits| {
      CascadeLabels(i, exits, e + 1);
    }
  }

  lemma InstLabels(i: nat, op: Op)
    ensures var g := [CheckOf(i)] + BodyOf(i, op);
            DistinctLabels(g) && forall k :: 0 <= k < |g| ==> LabelOf(g[k].name, i)
  {
    hide DivModLines, AddsTo, CascadeFrom;
    if op.DivMod? && |op.exits| > 1 {
      CascadeLabels(i, op.exits, 1);
    }
  }

  lemma {:induction false} EmittedLabels(p: Program, n: nat)
    requires n <= |p|
    ensures var g := EmittedTo(p, n); DistinctLabels(g) && forall k :: 0 <= k < |g| ==> LabelBelow(g[k].name, n)
  {
    hide BodyOf, DistinctLabels;
    if n == 0 {
      NoLabels();
    } else {
      EmittedLabels(p, n - 1);
      InstLabels(n - 1, p[n - 1]);
      var a, b := EmittedTo(p, n - 1), [CheckOf(n - 1)] + BodyOf(n - 1, p[n - 1]);
      JoinLabels(a, b, n - 1);
      assert EmittedTo(p, n) == a + b;
    }
  }

  lemma NoLabels()
    ensures DistinctLabels([])
  {
  }

  lemma JoinLabels(a: Graph, b: Graph, n: nat)
    requires DistinctLabels(a) && DistinctLabels(b)
    requires forall k :: 0 <= k < |a| ==> LabelBelow(a[k].name, n)
    requires forall k :: 0 <= k < |b| ==> LabelOf(b[k].name, n)
    ensures DistinctLabels(a + b) && forall k :: 0 <= k < |a + b| ==> LabelBelow((a + b)[k].name, n + 1)
  {
    var g := a + b;
    forall j, k | 0 <= j < k < |g| ensures g[j].name != g[k].name {
      if k < |a| {
        assert g[j] == a[j] && g[k] == a[k];
      } else if j >= |a| {
        assert g[j] == b[j - |a|] && g[k] == b[k - |a|];
      }
    }
  }

  lemma {:induction false} FindAt(g: Graph, k: nat)
    requires DistinctLabels(g) && k < |g|
    ensures Find(g, g[k].name) == k
  {
    if k > 0 {
      assert g[1..][k - 1] == g[k];
      FindAt(g[1..], k - 1);
    }
  }

  ghost predicate Has(g: Graph, b: Block) {
    var k := Find(g, b.name);
    k < |g| && g[k] == b
  }

  lemma HasIn(g: Graph, b: Block)
    requires DistinctLabels(g) && b in g
    ensures Has(g, b)
  {
    var k :| 0 <= k < |g| && g[k] == b;
    FindAt(g, k);
  }

  lemma {:induction false} EmittedHolds(p: Program, n: nat, i: nat, b: Block)
    requires i < n <= |p| && (b == CheckOf(i) || b in BodyOf(i, p[i]))
    ensures b in EmittedTo(p, n)
  {
    hide BodyOf, CheckOf;
    if i < n - 1 {
      EmittedHolds(p, n - 1, i, b);
    }
  }

  /** Every block of every instruction is found under its label. */
  lemma EmittedHas(p: Program, i: nat, b: Block)
    requires i < |p| && (b == CheckOf(i) || b in BodyOf(i, p[i]))
    ensures Has(Emitted(p), b)
  {
    hide BodyOf, CheckOf, Find;
    EmittedHolds(p, |p|, i, b);
    EmittedDistinct(p);
    HasIn(Emitted(p), b);
  }

  lemma EmittedDistinct(p: Program)
    ensures DistinctLabels(Emitted(p))
  {
    EmittedLabels(p, |p|);
    var g := EmittedTo(p, |p|);
    var exit := Block(Exit, [], Ret);
    forall j, k | 0 <= j < k < |g + [exit]| ensures (g + [exit])[j].name != (g + [exit])[k].name {
      assert (g + [exit])[j] == g[j];
      if k < |g| {
        assert (g + [exit])[k] == g[k];
      }
    }
  }

  // ---------------------------------------------------------------------------
  // Running the lines of a block
  // ---------------------------------------------------------------------------

  lemma {:induction false} ExecJoin(a: seq<Stmt>, b: seq<Stmt>, f: Frame, cap: nat)
    requires BodyOk(a, |f.regs|) && BodyOk(b, |f.regs|)
    ensures BodyOk(a + b, |f.regs|) && ExecAll(a + b, f, cap) == ExecAll(b, ExecAll(a, f, cap), cap)
    decreases |a|
  {
    hide Exec;
    if a == [] {
      assert a + b == b;
    } else {
      assert (a + b)[1..] == a[1..] + b && (a + b)[0] == a[0];
      assert StmtOk(a[0], |f.regs|);
      ExecJoin(a[1..], b, Exec(a[0], f, cap), cap);
    }
  }

  lemma ExecOne(s: Stmt, f: Frame, cap: nat)
    requires StmtOk(s, |f.regs|)
    ensures BodyOk([s], |f.regs|) && ExecAll([s], f, cap) == Exec(s, f, cap)
  {
    hide Exec;
    assert [s][1..] == [];
  }

  lemma ExecTwo(s: Stmt, t: Stmt, f: Frame, cap: nat)
    requires StmtOk(s, |f.regs|) && StmtOk(t, |f.regs|)
    ensures BodyOk([s, t], |f.regs|) && ExecAll([s, t], f, cap) == Exec(t, Exec(s, f, cap), cap)
  {
    hide Exec;
    ExecOne(s, f, cap);
    ExecOne(t, Exec(s, f, cap), cap);
    assert [s, t][1..] == [t];
  }

  lemma ExecThree(s: Stmt, t: Stmt, u: Stmt, f: Frame, cap: nat)
    requires StmtOk(s, |f.regs|) && StmtOk(t, |f.regs|) && StmtOk(u, |f.regs|)
    ensures BodyOk([s, t, u], |f.regs|)
    ensures ExecAll([s, t, u], f, cap) == Exec(u, Exec(t, Exec(s, f, cap), cap), cap)
  {
    hide Exec;
    ExecTwo(t, u, Exec(s, f, cap), cap);
    assert [s, t, u][1..] == [t, u];
  }

  /** The unrolled additions of one loaded word. */
  lemma {:induction false} ExecAdds(ds: seq<nat>, f: Frame, cap: nat)
    requires AllBelow(ds, |f.regs|)
    ensures BodyOk(AddsTo(ds), |f.regs|)
    ensures ExecAll(AddsTo(ds), f, cap) == f.(regs := AddAll(f.regs, ds, f.val))
    decreases |ds|
  {
    hide AddAll;
    if ds == [] {
      AddAllNone(f.regs, [], f.val);
    } else {
      var d, rest := ds[0], ds[1..];
      var g := f.(regs := f.regs[d := f.regs[d] + f.val]);
      assert AddsTo(ds)[0] == BcAddInto(d) && AddsTo(ds)[1..] == AddsTo(rest);
      ExecAdds(rest, g, cap);
      AddAllCons(f.regs, d, rest, f.val);
      assert [d] + rest == ds;
    }
  }

  ghost predicate Goes(g: Graph, cap: nat, p: Point, q: Point) {
    exists k: nat :: Leads(g, cap, p, k, q)
  }

  lemma {:induction false} LeadsJoin(g: Graph, cap: nat, a: Point, k: nat, b: Point, l: nat, c: Point)
    requires Leads(g, cap, a, k, b) && Leads(g, cap, b, l, c)
    ensures Leads(g, cap, a, k + l, c)
    decreases k
  {
    hide CanRun, RunBlock;
    if k > 0 {
      LeadsJoin(g, cap, RunBlock(g, a, cap), k - 1, b, l, c);
    }
  }

  lemma GoesJoin(g: Graph, cap: nat, a: Point, b: Point, c: Point)
    requires Goes(g, cap, a, b) && Goes(g, cap, b, c)
    ensures Goes(g, cap, a, c)
  {
    hide Leads;
    var k: nat :| Leads(g, cap, a, k, b);
    var l: nat :| Leads(g, cap, b, l, c);
    LeadsJoin(g, cap, a, k, b, l, c);
  }

  function Follow(j: Jump, flag: bool): Label
    requires !j.Ret?
  {
    match j
    case Jmp(l) => l
    case Jnz(y, n) => if flag then y else n
  }

  lemma BlockGoes(g: Graph, b: Block, f: Frame, cap: nat)
    requires Has(g, b) && !b.jump.Ret? && BodyOk(b.body, |f.regs|)
    ensures var h := ExecAll(b.body, f, cap); Goes(g, cap, Point(b.name, f), Point(Follow(b.jump, h.flag), h))
  {
    hide ExecAll;
    var q := RunBlock(g, Point(b.name, f), cap);
    assert Leads(g, cap, q, 0, q);
    assert Leads(g, cap, Point(b.name, f), 1, q);
  }

  // ---------------------------------------------------------------------------
  // One instruction
  // ---------------------------------------------------------------------------

  /** Where an instruction at `i` leaves the frame `f`. */
  ghost predicate Lands(op: Op, i: nat, f: Frame, p: Point)
    requires OpOk(op, |f.regs|)
  {
    && p.at == (if op.End? then Exit else Inst(Target(op, i, f.regs)))
    && p.frame.regs == Effect(op, f.regs) && p.frame.steps == f.steps + 1
  }

  lemma CheckGoes(p: Program, i: nat, f: Frame, cap: nat)
    requires i < |p|
    ensures Goes(Emitted(p), cap, Point(Inst(i), f),
                 Point(if f.steps >= cap then Exit else Body(i), f.(flag := f.steps >= cap)))
  {
    hide BodyOf, Emitted, Has, Goes;
    EmittedHas(p, i, CheckOf(i));
    ExecOne(CompareLimit, f, cap);
    BlockGoes(Emitted(p), CheckOf(i), f, cap);
  }

  lemma OnlyBlock(p: Program, i: nat, b: Block, f: Frame, cap: nat)
    requires i < |p| && b in BodyOf(i, p[i]) && !b.jump.Ret? && BodyOk(b.body, |f.regs|)
    ensures var h := ExecAll(b.body, f, cap); Goes(Emitted(p), cap, Point(b.name, f), Point(Follow(b.jump, h.flag), h))
  {
    hide BodyOf, Emitted, Has, Goes, ExecAll;
    EmittedHas(p, i, b);
    BlockGoes(Emitted(p), b, f, cap);
  }

  /** give, take, stop, and the folds that are one call. */
  lemma SimpleGoes(p: Program, i: nat, f: Frame, cap: nat) returns (q: Point)
    requires i < |p| && OpOk(p[i], |f.regs|)
    requires !p[i].Transfer? && !p[i].DivMod? && !p[i].Copy? && !p[i].IsZero?
    ensures Goes(Emitted(p), cap, Point(Body(i), f), q) && Lands(p[i], i, f, q)
  {
    hide Emitted, Goes, ExecAll, AddAll, DivBinEffect;
    var b := BodyOf(i, p[i])[0];
    if p[i].End? {
      ExecOne(Bump, f, cap);
    } else {
      ExecTwo(Bump, b.body[1], f, cap);
    }
    OnlyBlock(p, i, b, f, cap);
    q := Point(Follow(b.jump, ExecAll(b.body, f, cap).flag), ExecAll(b.body, f, cap));
  }

  lemma IsZeroGoes(p: Program, i: nat, f: Frame, cap: nat) returns (q: Point)
    requires i < |p| && OpOk(p[i], |f.regs|) && p[i].IsZero?
    ensures Goes(Emitted(p), cap, Point(Body(i), f), q) && Lands(p[i], i, f, q)
  {
    hide Emitted, Goes, ExecAll, AddAll, DivBinEffect;
    var b := BodyOf(i, p[i])[0];
    ExecThree(Bump, Load(p[i].reg), CompareOne, f, cap);
    OnlyBlock(p, i, b, f, cap);
    q := Point(Follow(b.jump, ExecAll(b.body, f, cap).flag), ExecAll(b.body, f, cap));
  }

  lemma TransferGoes(p: Program, i: nat, f: Frame, cap: nat) returns (q: Point)
    requires i < |p| && OpOk(p[i], |f.regs|) && p[i].Transfer?
    ensures Goes(Emitted(p), cap, Point(Body(i), f), q) && Lands(p[i], i, f, q)
  {
    hide Emitted, Goes, ExecAll, AddAll, AddsTo, BodyOk;
    var Transfer(r, ds, e) := p[i];
    var b := BodyOf(i, p[i])[0];
    var f1 := f.(steps := f.steps + 1, val := f.regs[r]);
    var f2 := f1.(regs := AddAll(f1.regs, ds, f1.val));
    ExecTwo(Bump, Load(r), f, cap);
    ExecAdds(ds, f1, cap);
    ExecOne(BcZero(r), f2, cap);
    ExecJoin([Bump, Load(r)], AddsTo(ds), f, cap);
    ExecJoin([Bump, Load(r)] + AddsTo(ds), [BcZero(r)], f, cap);
    OnlyBlock(p, i, b, f, cap);
    q := Point(Inst(e), ExecAll(b.body, f, cap));
  }

  lemma CopyGoes(p: Program, i: nat, f: Frame, cap: nat) returns (q: Point)
    requires i < |p| && OpOk(p[i], |f.regs|) && p[i].Copy?
    ensures Goes(Emitted(p), cap, Point(Body(i), f), q) && Lands(p[i], i, f, q)
  {
    hide Emitted, Goes, ExecAll, AddAll, AddsTo, BodyOk;
    var Copy(s, t, ds, e) := p[i];
    var b := BodyOf(i, p[i])[0];
    var f1 := f.(steps := f.steps + 1, val := f.regs[s]);
    var f2 := f1.(regs := AddAll(f1.regs, ds, f1.val));
    ExecTwo(Bump, Load(s), f, cap);
    ExecAdds(ds, f1, cap);
    ExecThree(Load(t), BcAddInto(s), BcZero(t), f2, cap);
    ExecJoin([Bump, Load(s)], AddsTo(ds), f, cap);
    ExecJoin([Bump, Load(s)] + AddsTo(ds), [Load(t), BcAddInto(s), BcZero(t)], f, cap);
    OnlyBlock(p, i, b, f, cap);
    q := Point(Inst(e), ExecAll(b.body, f, cap));
  }

  /** The comparison cascade ends at the exit the remainder selects. */
  lemma {:induction false} CascadeGoes(p: Program, i: nat, e: nat, f: Frame, cap: nat) returns (h: Frame)
    requires i < |p| && p[i].DivMod? && 1 <= e < |p[i].exits| && e <= f.rem < |p[i].exits|
    requires forall b :: b in CascadeFrom(i, p[i].exits, e) ==> b in BodyOf(i, p[i])
    ensures Goes(Emitted(p), cap, Point(Cascade(i, e), f), Point(Inst(p[i].exits[f.rem]), h))
    ensures h.regs == f.regs && h.steps == f.steps
    decreases |p[i].exits| - e
  {
    hide Emitted, Goes, ExecAll, BodyOf;
    var es := p[i].exits;
    var b := CascadeFrom(i, es, e)[0];
    if e + 1 == |es| {
      OnlyBlock(p, i, b, f, cap);
      ExecNothing(f, cap);
      h := f;
    } else {
      ExecOne(CompareRem(e), f, cap);
      OnlyBlock(p, i, b, f, cap);
      var g := f.(flag := f.rem == e);
      if f.rem == e {
        h := g;
      } else {
        h := CascadeGoes(p, i, e + 1, g, cap);
        GoesJoin(Emitted(p), cap, Point(Cascade(i, e), f), Point(Cascade(i, e + 1), g), Point(Inst(es[f.rem]), h));
      }
    }
  }

  lemma ExecNothing(f: Frame, cap: nat)
    ensures BodyOk([], |f.regs|) && ExecAll([], f, cap) == f
  {
  }

  lemma DivModExec(r: nat, ds: seq<nat>, k: nat, f: Frame, cap: nat)
    requires k > 0 && r < |f.regs| && AllBelow(ds, |f.regs|)
    ensures BodyOk(DivModLines(r, ds, k), |f.regs|)
    ensures var h := ExecAll(DivModLines(r, ds, k), f, cap);
            && h.regs == AddAll(f.regs[r := f.regs[r] / k], ds, f.regs[r] / k)[r := 0]
            && h.steps == f.steps + 1 && h.rem == f.regs[r] % k
  {
    hide ExecAll, AddAll, AddsTo, BodyOk;
    var f1 := f.(steps := f.steps + 1, regs := f.regs[r := f.regs[r] / k], rem := f.regs[r] % k);
    ExecTwo(Bump, BcDivmod(r, k), f, cap);
    if ds == [] {
      AddAllNone(f1.regs, ds, f.regs[r] / k);
      ExecNothing(f1, cap);
      ExecJoin([Bump, BcDivmod(r, k)], [], f, cap);
      ExecOne(BcZero(r), f1, cap);
      ExecJoin([Bump, BcDivmod(r, k)] + [], [BcZero(r)], f, cap);
    } else {
      var f2 := f1.(val := f1.regs[r]);
      var f3 := f2.(regs := AddAll(f2.regs, ds, f2.val));
      ExecOne(Load(r), f1, cap);
      ExecAdds(ds, f2, cap);
      ExecJoin([Load(r)], AddsTo(ds), f1, cap);
      ExecJoin([Bump, BcDivmod(r, k)], [Load(r)] + AddsTo(ds), f, cap);
      ExecOne(BcZero(r), f3, cap);
      ExecJoin([Bump, BcDivmod(r, k)] + ([Load(r)] + AddsTo(ds)), [BcZero(r)], f, cap);
    }
  }

  lemma DivModGoes(p: Program, i: nat, f: Frame, cap: nat) returns (q: Point)
    requires i < |p| && OpOk(p[i], |f.regs|) && p[i].DivMod?
    ensures Goes(Emitted(p), cap, Point(Body(i), f), q) && Lands(p[i], i, f, q)
  {
    hide Emitted, Goes, ExecAll, AddAll, AddsTo, BodyOk, CascadeFrom;
    var DivMod(r, ds, es) := p[i];
    var k := |es|;
    var b := BodyOf(i, p[i])[0];
    var lines := DivModLines(r, ds, k);
    DivModExec(r, ds, k, f, cap);
    AddAllExcept(f.regs, ds, f.regs[r] / k, r, f.regs[r] / k);
    var h := ExecAll(lines, f, cap);
    if k == 1 {
      assert b.body == lines;
      OnlyBlock(p, i, b, f, cap);
      q := Point(Inst(es[0]), h);
    } else {
      assert b.body == lines + [CompareRem(0)];
      ExecOne(CompareRem(0), h, cap);
      ExecJoin(lines, [CompareRem(0)], f, cap);
      OnlyBlock(p, i, b, f, cap);
      var g := h.(flag := h.rem == 0);
      if h.rem == 0 {
        q := Point(Inst(es[0]), g);
      } else {
        CascadeIn(i, p[i]);
        var last := CascadeGoes(p, i, 1, g, cap);
        q := Point(Inst(es[h.rem]), last);
        GoesJoin(Emitted(p), cap, Point(Body(i), f), Point(Cascade(i, 1), g), q);
      }
    }
  }

  lemma CascadeIn(i: nat, op: Op)
    requires op.DivMod? && |op.exits| > 1
    ensures forall b :: b in CascadeFrom(i, op.exits, 1) ==> b in BodyOf(i, op)
  {
    hide CascadeFrom, AddsTo;
  }

  lemma InstructionGoes(p: Program, i: nat, f: Frame, cap: nat) returns (q: Point)
    requires i < |p| && OpOk(p[i], |f.regs|)
    ensures Goes(Emitted(p), cap, Point(Body(i), f), q) && Lands(p[i], i, f, q)
  {
    hide Emitted, Goes, Lands, OpOk;
    match p[i]
    case Transfer(_, _, _) => q := TransferGoes(p, i, f, cap);
    case DivMod(_, _, _) => q := DivModGoes(p, i, f, cap);
    case Copy(_, _, _, _) => q := CopyGoes(p, i, f, cap);
    case IsZero(_, _, _) => q := IsZeroGoes(p, i, f, cap);
    case _ => q := SimpleGoes(p, i, f, cap);
  }

  // ---------------------------------------------------------------------------
  // Whole runs
  // ---------------------------------------------------------------------------

  lemma LandedAt(p: Program, i: nat, regs: Regs)
    requires Landed(p) && i < |p| && OpOk(p[i], |regs|) && !p[i].End?
    ensures Target(p[i], i, regs) < |p|
  {
    hide Targets;
    TargetPicked(p[i], i, regs);
    if !Spins(p[i], regs) {
      assert AllBelow(Targets(p[i]), |p|);
    }
  }

  /** From the step check of an instruction the blocks run to the exit, with the outcome the
      interpreter has. */
  lemma {:induction false} RunsOut(p: Program, c: Config, cap: nat, i: nat, f: Frame) returns (h: Frame, d: Config)
    requires Landed(p) && ProgOk(p, |f.regs|) && i < |p| && f.steps <= cap
    requires Reaches(p, c, f.steps, Config(i, f.regs))
    ensures Goes(Emitted(p), cap, Point(Inst(i), f), Point(Exit, h))
    ensures Outcome(p, c, cap, h.steps, d) && d.regs == h.regs
    decreases cap - f.steps
  {
    hide Emitted, Goes, Reaches, Effect, Target, OpOk, Landed;
    var g := f.(flag := f.steps >= cap);
    CheckGoes(p, i, f, cap);
    if f.steps >= cap {
      h, d := g, Config(i, f.regs);
    } else {
      assert OpOk(p[i], |f.regs|);
      var q := InstructionGoes(p, i, g, cap);
      GoesJoin(Emitted(p), cap, Point(Inst(i), f), Point(Body(i), g), q);
      if p[i].End? {
        EndEffect(p[i], f.regs);
        h, d := q.frame, Config(i, f.regs);
        HaltedHere(p, c, f.steps, d);
      } else {
        ReachesNext(p, c, f.steps, Config(i, f.regs));
        LandedAt(p, i, f.regs);
        h, d := RunsOut(p, c, cap, Target(p[i], i, f.regs), q.frame);
        GoesJoin(Emitted(p), cap, Point(Inst(i), f), q, Point(Exit, h));
      }
    }
  }

  lemma EndEffect(op: Op, regs: Regs)
    requires op.End?
    ensures OpOk(op, |regs|) && Effect(op, regs) == regs
  {
  }

  lemma ExitFound(p: Program)
    ensures Has(Emitted(p), Block(Exit, [], Ret))
  {
    EmittedDistinct(p);
    HasIn(Emitted(p), Block(Exit, [], Ret));
  }

  /** A run that has reached the exit is over. */
  lemma {:induction false} ExitOnce(p: Program, cap: nat, a: Point, k: nat, f: Frame, l: nat, g: Frame)
    requires Leads(Emitted(p), cap, a, k, Point(Exit, f)) && Leads(Emitted(p), cap, a, l, Point(Exit, g))
    ensures f == g
    decreases k
  {
    hide Emitted, RunBlock, Has;
    ExitFound(p);
    ExitStuck(p, f);
    ExitStuck(p, g);
    if k > 0 && l > 0 {
      ExitOnce(p, cap, RunBlock(Emitted(p), a, cap), k - 1, f, l - 1, g);
    }
  }

  lemma ExitStuck(p: Program, f: Frame)
    ensures !CanRun(Emitted(p), Point(Exit, f))
  {
    hide Emitted;
    ExitFound(p);
  }

  /** The compiled program: started on `regs` under a step cap, its run reaches the exit with
      `steps` counted and the registers `res`. */
  ghost predicate Compiled(p: Program, regs: Regs, cap: nat, steps: nat, res: Regs) {
    exists h :: Goes(Emitted(p), cap, Point(Inst(0), Frame(regs, 0, 0, 0, false)), Point(Exit, h))
             && h.steps == steps && h.regs == res
  }

  /** Lockstep: under every cap the compiled program ends with exactly the step count and the
      registers that interpreting the same instructions ends with. */
  lemma Lockstep(p: Program, regs: Regs, cap: nat, steps: nat, res: Regs)
    requires Landed(p) && ProgOk(p, |regs|)
    ensures Compiled(p, regs, cap, steps, res) <==>
            exists d :: Outcome(p, Config(0, regs), cap, steps, d) && d.regs == res
  {
    hide Emitted, Leads, Reaches, Outcome, ProgOk, Landed;
    var c, f0 := Config(0, regs), Frame(regs, 0, 0, 0, false);
    AtStart(p, c);
    LandedSome(p);
    var h, e := RunsOut(p, c, cap, 0, f0);
    if Compiled(p, regs, cap, steps, res) {
      var g :| Goes(Emitted(p), cap, Point(Inst(0), f0), Point(Exit, g)) && g.steps == steps && g.regs == res;
      var k: nat :| Leads(Emitted(p), cap, Point(Inst(0), f0), k, Point(Exit, g));
      var l: nat :| Leads(Emitted(p), cap, Point(Inst(0), f0), l, Point(Exit, h));
      ExitOnce(p, cap, Point(Inst(0), f0), k, g, l, h);
      assert Outcome(p, c, cap, steps, e) && e.regs == res;
    }
    if d :| Outcome(p, c, cap, steps, d) && d.regs == res {
      OutcomeUnique(p, c, cap, steps, d, h.steps, e);
    }
  }

  lemma AtStart(p: Program, c: Config)
    ensures Reaches(p, c, 0, c)
  {
  }

  lemma LandedSome(p: Program)
    requires Landed(p)
    ensures |p| > 0
  {
  }
}
