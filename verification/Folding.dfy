/** Replacing loops by folds: which loops may be folded, and why a program whose loops
    have been replaced in place runs to the same outcomes. */
module Folding {
  import opened Machine
  import opened Loops
  import opened Passes

  /** Strictly inside the range a fold covers. */
  predicate Interior(f: Fold, t: nat) {
    f.start < t < f.end
  }

  predicate Misses(ts: seq<nat>, start: nat, end: nat) {
    forall k :: 0 <= k < |ts| ==> !(start < ts[k] < end)
  }

  predicate Covers(f: Fold, i: nat) {
    f.start <= i < f.end
  }

  /** No instruction outside `[start, end)` jumps strictly inside it, nor do `exits`. */
  predicate PrivateRange(p: Program, start: nat, end: nat, exits: seq<nat>) {
    && (forall i :: 0 <= i < |p| && !(start <= i < end) ==> Misses(Targets(p[i]), start, end))
    && Misses(exits, start, end)
  }

  predicate Private(p: Program, f: Fold) {
    PrivateRange(p, f.start, f.end, Targets(f.op))
  }

  predicate GoodFold(p: Program, f: Fold) {
    LoopShape(p, f) && Private(p, f)
  }

  lemma ShapeRange(p: Program, f: Fold)
    requires LoopShape(p, f)
    ensures f.start < f.end <= |p| && !f.op.End? && !IsRawOp(f.op)
  {
    hide Times, Without, Distinct, RunRegs;
  }

  lemma DivModExit(p: Program, f: Fold, k: nat)
    requires DivModLoop(p, f) && k < |f.op.exits|
    ensures f.start + k < |p| && f.op.exits[k] in Targets(p[f.start + k])
  {
    var es, ds := f.op.exits, f.op.dsts;
    var last := if ds == [] then f.start else f.start + |es|;
    assert p[f.start + k] == Deb(f.op.reg, es[k], if k + 1 < |es| then f.start + k + 1 else last);
    assert Targets(p[f.start + k])[1] == es[k];
  }

  /** Every exit of a fold is a jump target of the raw code it covers. */
  lemma ExitIsRawTarget(p: Program, f: Fold, k: nat) returns (i: nat)
    requires LoopShape(p, f) && k < |Targets(f.op)|
    ensures Covers(f, i) && f.end <= |p| && Targets(f.op)[k] in Targets(p[i])
  {
    hide Times, Without, Distinct, RunRegs;
    ShapeRange(p, f);
    match f.op
    case DivBin(_, _, _, _, _, _) => i := f.start + 2;
    case MulAdd(_, _, _, _, _, _) => i := f.start;
    case Copy(_, _, ds, _) => i := f.start + 1 + |ds| + 1;
    case Transfer(_, _, _) => i := f.start;
    case DivMod(r, _, es) =>
      i := f.start + k;
      DivModExit(p, f, k);
    case IsZero(_, _, _) => i := if k == 1 then f.start else f.start + 1;
    case Zero(_, _) => i := f.start;
  }

  /** Folds of `p` in program order, none touching the next. */
  ghost predicate Laid(p: Program, folds: seq<Fold>) {
    && (forall j :: 0 <= j < |folds| ==> GoodFold(p, folds[j]))
    && (forall j, k :: 0 <= j < k < |folds| ==> folds[j].end <= folds[k].start)
  }

  ghost predicate Inside(folds: seq<Fold>, i: nat) {
    exists j :: 0 <= j < |folds| && Interior(folds[j], i)
  }

  ghost predicate Starts(folds: seq<Fold>, i: nat) {
    exists j :: 0 <= j < |folds| && folds[j].start == i
  }

  /** `ops` is `p` with each fold's operation at its start; `vis` marks what is left of `p`
      once the interiors are gone. */
  ghost predicate FoldsTo(p: Program, folds: seq<Fold>, ops: Program, vis: seq<bool>) {
    && |ops| == |p| == |vis|
    && (forall i :: 0 <= i < |vis| ==> (vis[i] <==> !Inside(folds, i)))
    && (forall j :: 0 <= j < |folds| && folds[j].start < |ops| ==> ops[folds[j].start] == folds[j].op)
    && (forall i :: 0 <= i < |p| && vis[i] && !Starts(folds, i) ==> ops[i] == p[i])
  }

  /** Control never leaves the visible part. */
  ghost predicate Closed(ops: Program, vis: seq<bool>) {
    && |ops| == |vis|
    && (|vis| > 0 ==> vis[0])
    && forall i :: 0 <= i < |ops| && vis[i] ==> StaysIn(Targets(ops[i]), vis)
  }

  ghost predicate StaysIn(ts: seq<nat>, vis: seq<bool>) {
    forall k :: 0 <= k < |ts| && ts[k] < |vis| ==> vis[ts[k]]
  }

  lemma AvoidsAt(p: Program, f: Fold, i: nat, t: nat)
    requires Private(p, f) && i < |p| && !Covers(f, i) && t in Targets(p[i])
    ensures !Interior(f, t)
  {
    assert Misses(Targets(p[i]), f.start, f.end);
  }

  /** A visible instruction that starts no fold lies outside every fold. */
  lemma OutsideAll(p: Program, folds: seq<Fold>, i: nat, j: nat)
    requires Laid(p, folds) && !Inside(folds, i) && !Starts(folds, i) && j < |folds|
    ensures !Covers(folds[j], i)
  {
    ShapeRange(p, folds[j]);
    assert folds[j].start != i;
    assert !Interior(folds[j], i);
  }

  /** What `start` of one fold lies outside of. */
  lemma OtherFold(p: Program, folds: seq<Fold>, j: nat, k: nat, i: nat)
    requires Laid(p, folds) && j < |folds| && k < |folds| && j != k && Covers(folds[j], i)
    ensures !Covers(folds[k], i)
  {
    if j < k {
      assert folds[j].end <= folds[k].start;
    } else {
      assert folds[k].end <= folds[j].start;
    }
  }

  /** No surviving jump and no fold exit lands inside a folded loop. */
  lemma FoldedClosed(p: Program, folds: seq<Fold>, ops: Program, vis: seq<bool>)
    requires Laid(p, folds) && FoldsTo(p, folds, ops, vis)
    ensures Closed(ops, vis)
  {
    hide LoopShape, Private, Targets;
    forall i | 0 <= i < |ops| && vis[i] ensures StaysIn(Targets(ops[i]), vis) {
      forall k | 0 <= k < |Targets(ops[i])| && Targets(ops[i])[k] < |vis|
        ensures vis[Targets(ops[i])[k]]
      {
        var t := Targets(ops[i])[k];
        forall g | 0 <= g < |folds| ensures !Interior(folds[g], t) {
          if Starts(folds, i) {
            var j :| 0 <= j < |folds| && folds[j].start == i;
            ShapeRange(p, folds[j]);
            assert ops[i] == folds[j].op;
            if g == j {
              PrivateExit(p, folds[j], k);
            } else {
              var r := ExitIsRawTarget(p, folds[j], k);
              OtherFold(p, folds, j, g, r);
              AvoidsAt(p, folds[g], r, t);
            }
          } else {
            OutsideAll(p, folds, i, g);
            AvoidsAt(p, folds[g], i, t);
          }
        }
      }
    }
    if |vis| > 0 {
      assert !Inside(folds, 0);
    }
  }

  lemma PrivateExit(p: Program, f: Fold, k: nat)
    requires Private(p, f) && k < |Targets(f.op)|
    ensures !Interior(f, Targets(f.op)[k])
  {
  }

  lemma ClosedAt(ops: Program, vis: seq<bool>, i: nat, k: nat)
    requires Closed(ops, vis) && i < |ops| && vis[i] && k < |Targets(ops[i])|
    ensures Targets(ops[i])[k] < |vis| ==> vis[Targets(ops[i])[k]]
  {
    assert StaysIn(Targets(ops[i]), vis);
  }

  /** The correspondence for in-place folding: equal configurations at visible points. */
  ghost predicate FoldRel(vis: seq<bool>, n: nat, c: Config, d: Config) {
    c == d && |c.regs| == n && (c.pc < |vis| ==> vis[c.pc])
  }

  lemma StaysVisible(ops: Program, vis: seq<bool>, n: nat, c: Config)
    requires Closed(ops, vis) && FoldRel(vis, n, c, c) && !Stopped(ops, c) && OpOk(ops[c.pc], n)
    ensures FoldRel(vis, n, Next(ops, c), Next(ops, c))
  {
    hide Effect, Targets;
    var op := ops[c.pc];
    TargetPicked(op, c.pc, c.regs);
    if !Spins(op, c.regs) {
      ClosedAt(ops, vis, c.pc, Pick(op, c.regs));
    }
  }

  lemma FoldedProgOk(p: Program, folds: seq<Fold>, ops: Program, vis: seq<bool>, n: nat, i: nat)
    requires ProgOk(p, n) && Laid(p, folds) && FoldsTo(p, folds, ops, vis) && i < |ops| && vis[i]
    ensures OpOk(ops[i], n)
  {
    hide LoopShape, OpOk, Private;
    if Starts(folds, i) {
      var j :| 0 <= j < |folds| && folds[j].start == i;
      assert GoodFold(p, folds[j]);
      ShapeOk(p, folds[j], n);
    }
  }

  /** A point whose operation stays put never halts. */
  lemma SpinForever(ops: Program, c: Config)
    requires !Stopped(ops, c) && OpOk(ops[c.pc], |c.regs|) && Next(ops, c) == c
    ensures Diverges(ops, c)
  {
    hide Next, OpOk;
    var region := (a: Config) => a == c;
    assert Reaches(ops, c, 1, c) by {
      assert Reaches(ops, Next(ops, c), 0, c);
    }
    assert MovesWithin(ops, region, c) by {
      assert region(c);
    }
    forall k: nat, e ensures !HaltsIn(ops, c, k, e) {
      ForeverWithin(ops, region, c, k, e);
    }
  }

  lemma FoldMatches(p: Program, folds: seq<Fold>, ops: Program, vis: seq<bool>, n: nat, c: Config)
    requires ProgOk(p, n) && Laid(p, folds) && FoldsTo(p, folds, ops, vis) && Closed(ops, vis)
    requires FoldRel(vis, n, c, c)
    ensures Matches(p, ops, (c, d) => FoldRel(vis, n, c, d), (c, d) => SameOutcome(p, ops, c, d), c, c)
  {
    hide LoopShape, OpOk, Private, Effect, Target, ProgOk, Diverges, Closed;
    var rel := (c, d) => FoldRel(vis, n, c, d);
    var out := (c, d) => SameOutcome(p, ops, c, d);
    if c.pc < |p| && Starts(folds, c.pc) {
      var j :| 0 <= j < |folds| && folds[j].start == c.pc;
      var f := folds[j];
      assert GoodFold(p, f);
      ShapeRange(p, f);
      assert ops[c.pc] == f.op;
      var k := FoldRuns(p, f, c.regs);
      if Spins(f.op, c.regs) {
        SpinStays(ops, c);
        SpinForever(ops, c);
      } else {
        StaysVisible(ops, vis, n, c);
        assert rel(Next(ops, c), Next(ops, c));
        assert Advances(p, c, rel, Next(ops, c));
      }
    } else if c.pc < |p| && !p[c.pc].End? {
      assert ops[c.pc] == p[c.pc];
      FoldedProgOk(p, folds, ops, vis, n, c.pc);
      StaysVisible(ops, vis, n, c);
      assert rel(Next(ops, c), Next(ops, c));
      assert Reaches(p, c, 1, Next(ops, c)) by {
        assert Reaches(p, Next(p, c), 0, Next(ops, c));
      }
      assert Advances(p, c, rel, Next(ops, c));
    } else {
      assert HaltsIn(p, c, 0, c);
      assert out(c, c);
    }
  }

  lemma SpinStays(ops: Program, c: Config)
    requires !Stopped(ops, c) && OpOk(ops[c.pc], |c.regs|) && Spins(ops[c.pc], c.regs)
    ensures Next(ops, c) == c
  {
  }

  /** Folding loops in place changes no outcome, and costs no moves. */
  lemma FoldRefines(p: Program, folds: seq<Fold>, ops: Program, vis: seq<bool>, n: nat, nil: nat)
    requires ProgOk(p, n) && Laid(p, folds) && FoldsTo(p, folds, ops, vis)
    ensures Refines(p, ops, n, nil) && Closed(ops, vis)
  {
    hide Laid, FoldsTo, ProgOk;
    FoldedClosed(p, folds, ops, vis);
    var rel := (c, d) => FoldRel(vis, n, c, d);
    var out := (c, d) => SameOutcome(p, ops, c, d);
    forall c, d | rel(c, d) ensures Matches(p, ops, rel, out, c, d) {
      FoldMatches(p, folds, ops, vis, n, c);
    }
    SimulationRefines(p, ops, rel, n, nil);
  }
}
