/** The optimizer as the program runs it: five passes that fill and rewrite the packed
    program in place. */
module Optimizer {
  import opened Machine
  import opened Loops
  import opened Passes
  import opened Folding
  import opened Detect
  import opened Devices
  import opened Packed
  import opened Renumbering
  import opened Threading

  // ---------------------------------------------------------------------------
  // Pass 1: detection
  // ---------------------------------------------------------------------------

  ghost predicate Covered(folds: seq<Fold>, i: nat) {
    exists j :: 0 <= j < |folds| && Covers(folds[j], i)
  }

  /** Nothing starts at `i`, or what does would have to skip a device's side effects. */
  ghost predicate PassedOver(p: Program, isDev: seq<bool>, i: nat) {
    exists r: Option<Fold> :: FirstOf(p, i, r) && (r.None? || TouchesDevice(r.value.op, isDev))
  }

  ghost predicate Chosen(p: Program, isDev: seq<bool>, f: Fold) {
    FirstOf(p, f.start, Some(f)) && !TouchesDevice(f.op, isDev)
  }

  /** The folds are the greedy left-to-right choice: every instruction below `n` is covered
      by a chosen fold or offers none. */
  ghost predicate Greedy(p: Program, isDev: seq<bool>, folds: seq<Fold>, n: nat) {
    && Laid(p, folds)
    && (forall j :: 0 <= j < |folds| ==> Chosen(p, isDev, folds[j]))
    && (forall i :: 0 <= i < n ==> Covered(folds, i) || PassedOver(p, isDev, i))
  }

  function Removed(folds: seq<Fold>): int {
    if folds == [] then 0
    else var f := folds[|folds| - 1]; Removed(folds[..|folds| - 1]) + (f.end - f.start - 1)
  }

  /** The scan has decided everything below `i`, and no fold starts at `i` or later. */
  ghost predicate Scanned(p: Program, isDev: seq<bool>, folds: seq<Fold>, i: nat) {
    Greedy(p, isDev, folds, i) && forall j :: 0 <= j < |folds| ==> folds[j].start < i
  }

  /** The first fold at an uncovered instruction is taken. */
  lemma ScanTake(p: Program, isDev: seq<bool>, folds: seq<Fold>, i: nat, f: Fold)
    requires Scanned(p, isDev, folds, i) && !Covered(folds, i)
    requires FirstOf(p, i, Some(f)) && !TouchesDevice(f.op, isDev)
    ensures Scanned(p, isDev, folds + [f], i + 1)
    ensures f.start == i < f.end <= |p|
  {
    hide FirstOf, GoodFold, TouchesDevice;
    assert f.start == i by { FirstStart(p, i, f); }
    ChosenGood(p, isDev, f);
    GoodRange(p, f);
    var more := folds + [f];
    forall j | 0 <= j < |folds| ensures folds[j].end <= f.start {
      assert !Covers(folds[j], i);
    }
    forall k | 0 <= k < i + 1 ensures Covered(more, k) || PassedOver(p, isDev, k) {
      if k < i {
        if Covered(folds, k) {
          var j :| 0 <= j < |folds| && Covers(folds[j], k);
          assert more[j] == folds[j];
        }
      } else {
        assert Covers(more[|folds|], k);
      }
    }
  }

  lemma FirstStart(p: Program, i: nat, f: Fold)
    requires FirstOf(p, i, Some(f))
    ensures f.start == i
  {
    hide GoodFold, Has;
  }

  lemma ScanSkip(p: Program, isDev: seq<bool>, folds: seq<Fold>, i: nat, r: Option<Fold>)
    requires Scanned(p, isDev, folds, i)
    requires Covered(folds, i) || (FirstOf(p, i, r) && (r.None? || TouchesDevice(r.value.op, isDev)))
    ensures Scanned(p, isDev, folds, i + 1)
  {
    hide FirstOf, Laid, TouchesDevice, Chosen;
    assert Covered(folds, i) || PassedOver(p, isDev, i);
  }

  lemma ChosenGood(p: Program, isDev: seq<bool>, f: Fold)
    requires Chosen(p, isDev, f)
    ensures GoodFold(p, f)
  {
    hide GoodFold, TouchesDevice;
  }

  lemma GoodRange(p: Program, f: Fold)
    requires GoodFold(p, f)
    ensures f.start < f.end <= |p|
  {
    hide LoopShape, PrivateRange;
    ShapeRange(p, f);
  }

  /** Mark the instructions a fold covers. */
  method MarkConsumed(consumed: array<bool>, f: Fold)
    requires f.start < f.end <= consumed.Length
    modifies consumed
    ensures forall k :: 0 <= k < consumed.Length ==> consumed[k] == (old(consumed[k]) || Covers(f, k))
  {
    for j := f.start to f.end
      invariant forall k :: 0 <= k < consumed.Length ==>
                  consumed[k] == (old(consumed[k]) || f.start <= k < j)
    {
      consumed[j] := true;
    }
  }

  lemma CoveredAdd(folds: seq<Fold>, f: Fold, k: nat)
    ensures Covered(folds + [f], k) <==> Covered(folds, k) || Covers(f, k)
  {
    var more := folds + [f];
    if Covered(folds, k) {
      var j :| 0 <= j < |folds| && Covers(folds[j], k);
      assert more[j] == folds[j];
    }
    if Covers(f, k) {
      assert more[|folds|] == f;
    }
  }

  /** The folds stand in order, each the detector's answer where it starts, and none names a
      marked register.  An instruction is left alone only if it starts no loop, or the one it
      starts names a marked register. */
  method DetectAll(p: Program, isDev: seq<bool>) returns (folds: seq<Fold>, removed: nat)
    requires IsRaw(p)
    ensures Greedy(p, isDev, folds, |p|)
    ensures removed == Removed(folds)
    ensures forall k :: 0 <= k < |folds| ==> FirstOf(p, folds[k].start, Some(folds[k])) && folds[k].end <= |p|
    ensures forall k, l :: 0 <= k < l < |folds| ==> folds[k].end <= folds[l].start
    ensures forall k, j ::
              0 <= k < |folds| && folds[k].start <= j < folds[k].end && !p[j].End? && p[j].reg < |isDev| ==>
                !isDev[p[j].reg]
    ensures forall i :: 0 <= i < |p| ==>
              || (exists k :: 0 <= k < |folds| && folds[k].start <= i < folds[k].end)
              || FirstOf(p, i, None)
              || (exists f, j :: FirstOf(p, i, Some(f)) && f.start <= j < f.end && j < |p| && !p[j].End?
                    && p[j].reg < |isDev| && isDev[p[j].reg])
  {
    hide FirstOf, GoodFold, TouchesDevice, Covered, Greedy, Covers, Chosen, PassedOver;
    folds, removed := [], 0;
    var consumed := new bool[|p|](_ => false);
    NothingScanned(p, isDev);
    for i := 0 to |p|
      invariant Scanned(p, isDev, folds, i)
      invariant removed == Removed(folds)
      invariant forall k :: 0 <= k < |p| ==> (consumed[k] <==> Covered(folds, k))
    {
      if consumed[i] {
        ScanSkip(p, isDev, folds, i, None);
        continue;
      }
      var found := DetectPattern(p, i);
      if found.None? {
        ScanSkip(p, isDev, folds, i, found);
        continue;
      }
      var f := found.value;
      var touches := Touches(f.op, isDev);
      if touches {
        ScanSkip(p, isDev, folds, i, found);
        continue;
      }
      ScanTake(p, isDev, folds, i, f);
      MarkConsumed(consumed, f);
      forall k | 0 <= k < |p| ensures consumed[k] <==> Covered(folds + [f], k) {
        CoveredAdd(folds, f, k);
      }
      removed := removed + (f.end - f.start - 1);
      assert (folds + [f])[..|folds|] == folds;
      folds := folds + [f];
    }
    ChosenPlain(p, isDev, folds);
    UnfoldedWhy(p, isDev, folds);
  }

  /** The pattern touches a device exactly if its raw loop names a marked register. */
  lemma TouchesNamed(p: Program, isDev: seq<bool>, f: Fold)
    requires IsRaw(p) && FirstOf(p, f.start, Some(f)) && f.start < f.end <= |p|
    ensures TouchesDevice(f.op, isDev) <==>
              exists j :: f.start <= j < f.end && !p[j].End? && p[j].reg < |isDev| && isDev[p[j].reg]
  {
    hide FirstOf;
    var rs, code := PatternRegs(f.op), p[f.start..f.end];
    if TouchesDevice(f.op, isDev) {
      var k :| 0 <= k < |rs| && rs[k] < |isDev| && isDev[rs[k]];
      PatternNames(p, f.start, f, rs[k]);
      var i :| 0 <= i < |code| && Names(code[i], rs[k]);
      assert p[f.start + i] == code[i];
    }
    if j :| f.start <= j < f.end && !p[j].End? && p[j].reg < |isDev| && isDev[p[j].reg] {
      assert IsRawOp(p[j]) && Names(code[j - f.start], p[j].reg);
      PatternNames(p, f.start, f, p[j].reg);
      var k :| 0 <= k < |rs| && rs[k] == p[j].reg;
    }
  }

  lemma ChosenPlain(p: Program, isDev: seq<bool>, folds: seq<Fold>)
    requires IsRaw(p) && Greedy(p, isDev, folds, |p|)
    ensures forall k :: 0 <= k < |folds| ==> FirstOf(p, folds[k].start, Some(folds[k])) && folds[k].end <= |p|
    ensures forall k, l :: 0 <= k < l < |folds| ==> folds[k].end <= folds[l].start
    ensures forall k, j ::
              0 <= k < |folds| && folds[k].start <= j < folds[k].end && !p[j].End? && p[j].reg < |isDev| ==>
                !isDev[p[j].reg]
  {
    hide FirstOf, GoodFold, TouchesDevice, PassedOver;
    forall k | 0 <= k < |folds|
      ensures FirstOf(p, folds[k].start, Some(folds[k])) && folds[k].end <= |p|
      ensures forall j :: folds[k].start <= j < folds[k].end && !p[j].End? && p[j].reg < |isDev| ==> !isDev[p[j].reg]
    {
      assert Chosen(p, isDev, folds[k]);
      GoodRange(p, folds[k]);
      TouchesNamed(p, isDev, folds[k]);
    }
  }

  lemma UnfoldedWhy(p: Program, isDev: seq<bool>, folds: seq<Fold>)
    requires IsRaw(p) && Greedy(p, isDev, folds, |p|)
    ensures forall i :: 0 <= i < |p| ==>
              || (exists k :: 0 <= k < |folds| && folds[k].start <= i < folds[k].end)
              || FirstOf(p, i, None)
              || (exists f, j :: FirstOf(p, i, Some(f)) && f.start <= j < f.end && j < |p| && !p[j].End?
                    && p[j].reg < |isDev| && isDev[p[j].reg])
  {
    hide FirstOf, GoodFold, TouchesDevice, Laid, Chosen;
    forall i | 0 <= i < |p| && !Covered(folds, i) && !FirstOf(p, i, None)
      ensures exists f, j :: FirstOf(p, i, Some(f)) && f.start <= j < f.end && j < |p| && !p[j].End?
                && p[j].reg < |isDev| && isDev[p[j].reg]
    {
      assert PassedOver(p, isDev, i);
      var r: Option<Fold> :| FirstOf(p, i, r) && (r.None? || TouchesDevice(r.value.op, isDev));
      var f := r.value;
      FirstStart(p, i, f);
      FirstGood(p, i, f);
      GoodRange(p, f);
      TouchesNamed(p, isDev, f);
    }
  }

  lemma FirstGood(p: Program, i: nat, f: Fold)
    requires FirstOf(p, i, Some(f))
    ensures GoodFold(p, f)
  {
    hide GoodFold, Has;
  }

  lemma NothingScanned(p: Program, isDev: seq<bool>)
    ensures Scanned(p, isDev, [], 0)
    ensures forall k: nat :: !Covered([], k)
  {
  }

  // ---------------------------------------------------------------------------
  // The program under construction
  // ---------------------------------------------------------------------------

  class IrOptProgram {
    var insts: array<IrOptInst>
    var instCount: nat
    var dests: array<nat>
    var destTotal: nat
    var patternsFound: nat
    var instructionsRemoved: nat

    ghost predicate Valid()
      reads this, insts, dests
    {
      && instCount <= insts.Length && destTotal <= dests.Length
      && PackOk(insts[..instCount], dests[..destTotal])
    }

    /** The operations the packed records stand for. */
    ghost function View(): (v: Program)
      requires Valid()
      reads this, insts, dests
      ensures |v| == instCount
    {
      ViewOf(insts[..instCount], dests[..destTotal])
    }

    /** Room for as many instructions, and as many pool entries, as the source has
        instructions. */
    constructor (sourceCount: nat)
      ensures Valid() && View() == [] && instCount == 0 && destTotal == 0
      ensures insts.Length == sourceCount && dests.Length >= sourceCount
      ensures patternsFound == 0 && instructionsRemoved == 0
      ensures fresh(insts) && fresh(dests)
    {
      insts := new IrOptInst[sourceCount](_ => IrOptInst(OpEnd, 0, 0, 0, 0, 0));
      instCount := 0;
      dests := new nat[if sourceCount == 0 then 1 else sourceCount];
      destTotal := 0;
      patternsFound, instructionsRemoved := 0, 0;
    }

    /** Append one operation, its operands at the end of the pool. */
    method Emit(op: Op)
      requires Valid() && Encodable(op)
      requires instCount < insts.Length && destTotal + |PoolOf(op)| <= dests.Length
      modifies this`instCount, this`destTotal, insts, dests
      ensures Valid() && View() == old(View()) + [op]
      ensures instCount == old(instCount) + 1 && destTotal == old(destTotal) + |PoolOf(op)|
    {
      hide PackOk, ViewOf, Encode, PoolOf;
      ghost var was, pool := insts[..instCount], dests[..destTotal];
      PackAppend(was, pool, op);
      insts[instCount] := Encode(op, destTotal);
      instCount := instCount + 1;
      assert insts[..instCount] == was + [Encode(op, |pool|)];
      var mine := PoolOf(op);
      var off := destTotal;
      for d := 0 to |mine|
        invariant destTotal == off + d && instCount == old(instCount) + 1
        invariant dests[..destTotal] == pool + mine[..d]
        invariant insts[..instCount] == was + [Encode(op, |pool|)]
      {
        dests[destTotal] := mine[d];
        destTotal := destTotal + 1;
        assert mine[..d + 1] == mine[..d] + [mine[d]];
      }
      assert mine[..|mine|] == mine;
    }

    /** Replace the `k`-th jump target of instruction `i`, wherever it is kept. */
    method SetSlot(i: nat, k: nat, t: nat)
      requires Valid() && i < instCount && k < SlotCount(insts[i])
      modifies insts, dests
      ensures Valid() && k < |Targets(old(View())[i])|
      ensures View() == old(View())[i := SetTarget(old(View())[i], k, t)]
      ensures SlotCount(insts[i]) == old(SlotCount(insts[i]))
    {
      hide PackOk, ViewOf, SetTarget;
      ghost var was, pool := insts[..instCount], dests[..destTotal];
      var inst := insts[i];
      PackSetSlot(was, pool, i, k, t);
      SlotFits(was, pool, i, k);
      if inst.op.OpDivMod? {
        dests[inst.destOff + inst.destCount + k] := t;
      } else {
        insts[i] := SetSlotInst(inst, k, t);
      }
      assert insts[..instCount] == was[i := SetSlotInst(inst, k, t)];
      assert dests[..destTotal] == SetSlotPool(inst, pool, k, t);
    }

    method GetSlot(i: nat, k: nat) returns (t: nat)
      requires Valid() && i < instCount && k < SlotCount(insts[i])
      ensures k < |Targets(View()[i])| && t == Targets(View()[i])[k]
    {
      SlotIsTarget(insts[i], dests[..destTotal]);
      SlotFits(insts[..instCount], dests[..destTotal], i, k);
      var inst := insts[i];
      match inst.op
      case OpDeb => t := if k == 0 then inst.argB else inst.argA;
      case OpIsZero => t := if k == 0 then inst.argB else inst.argA;
      case OpDivMod => t := dests[inst.destOff + inst.destCount + k];
      case _ => t := inst.argA;
    }

    lemma SlotsAreTargets(i: nat)
      requires Valid() && i < instCount
      ensures SlotCount(insts[i]) == |Targets(View()[i])|
    {
      SlotIsTarget(insts[i], dests[..destTotal]);
    }

    // -------------------------------------------------------------------------
    // Pass 2: emission
    // -------------------------------------------------------------------------

    /** Emit each fold at its start and each surviving instruction, skipping what the folds
        cover, and record where every source index lands. */
    method EmitAll(p: Program, folds: seq<Fold>) returns (table: array<nat>)
      requires Valid() && instCount == destTotal == 0 && View() == []
      requires insts.Length == |p| <= dests.Length && IsRaw(p) && Laid(p, folds)
      modifies this`instCount, this`destTotal, insts, dests
      ensures Valid() && fresh(table) && table.Length == |p|
      ensures Emitted(FoldedOps(p, folds), VisibleOf(p, folds), table[..], View())
      ensures instCount + Removed(folds) == |p| && destTotal <= |p|
      ensures dests == old(dests) && insts == old(insts)
    {
      hide PackOk, ViewOf, Encodable, PoolOf, GoodFold, FoldedOps, VisibleOf, Emitting, Laid, IsRaw, Span;
      ghost var ops, vis := FoldedOps(p, folds), VisibleOf(p, folds);
      table := new nat[|p|](_ => 0);
      var i, next := 0, 0;
      EmitNone(ops, vis, table[..]);
      assert folds[..0] == [];
      while i < |p|
        invariant Valid() && next <= |folds| && i <= |p| && fresh(table) && table.Length == |p|
        invariant Emitting(ops, vis, table[..], View(), i)
        invariant Boundary(p, folds, i, next)
        invariant instCount + Removed(folds[..next]) == i && destTotal <= i
        decreases |p| - i
      {
        ghost var was := table[..];
        EmitRoom(ops, vis, was, View(), i);
        table[i] := instCount;
        assert table[..] == was[i := instCount];
        if next < |folds| && folds[next].start == i {
          var f := folds[next];
          BoundaryFold(p, folds, i, next);
          EmitOne(ops, vis, was, View(), i, f.end);
          Emit(f.op);
          assert folds[..next + 1][..next] == folds[..next];
          next := next + 1;
          i := f.end;
        } else {
          BoundaryPlain(p, folds, i, next);
          EmitOne(ops, vis, was, View(), i, i + 1);
          Emit(p[i]);
          i := i + 1;
        }
      }
      BoundaryDone(p, folds, next);
      assert folds[..|folds|] == folds;
      EmitDone(ops, vis, table[..], View());
    }

    // -------------------------------------------------------------------------
    // Pass 3: remap every target through a table of new positions
    // -------------------------------------------------------------------------

    method RemapInst(i: nat, table: array<nat>)
      requires Valid() && i < instCount
      requires table != dests
      modifies insts, dests
      ensures Valid()
      ensures View() == old(View())[i := RetargetBy(old(View())[i], table[..])]
    {
      hide PackOk, ViewOf, Slot, SetSlotInst, WithTargets, Targets, Decode, SliceOk;
      SlotsAreTargets(i);
      ghost var op := View()[i];
      ghost var ts := Targets(op);
      ghost var n := |ts|;
      var count := SlotCount(insts[i]);
      RemapStart(op, table[..]);
      for k := 0 to count
        invariant Valid() && SlotCount(insts[i]) == count
        invariant View() == old(View())[i := WithTargets(op, Mixed(ts, table[..], k))]
      {
        RemapRead(op, table[..], k);
        var t := GetSlot(i, k);
        RemapWrite(op, table[..], k, Lookup(table[..], t));
        SetSlot(i, k, if t < table.Length then table[t] else t);
      }
      RemapEnd(op, table[..]);
    }

    /** Every jump target is looked up in `table`; one at or past its end stays. */
    method RemapTargets(table: array<nat>)
      requires Valid() && table != dests
      modifies insts, dests
      ensures Valid()
      ensures View() == RemapAll(old(View()), table[..])
    {
      hide PackOk, ViewOf, RetargetBy;
      for i := 0 to instCount
        invariant Valid()
        invariant |View()| == |old(View())|
        invariant forall j :: 0 <= j < i ==> View()[j] == RetargetBy(old(View())[j], table[..])
        invariant forall j :: i <= j < instCount ==> View()[j] == old(View())[j]
      {
        RemapInst(i, table);
      }
    }

    // -------------------------------------------------------------------------
    // Pass 4: thread jumps through no-ops
    // -------------------------------------------------------------------------

    method IsPureJump(nil: nat, i: nat) returns (b: bool, target: nat)
      requires Valid() && i < instCount
      ensures b <==> PureJump(View()[i], nil)
      ensures b ==> target == View()[i].onZero
    {
      var inst := insts[i];
      b := inst.op.OpDeb? && inst.argA == inst.argB && inst.reg == nil;
      target := inst.argA;
    }

    method Thread(nil: nat, t0: nat) returns (t: nat)
      requires Valid()
      ensures t == ThreadTarget(View(), nil, t0, instCount)
    {
      hide PackOk, ViewOf;
      t := t0;
      for hops := 0 to instCount
        invariant ThreadTarget(View(), nil, t0, instCount) == ThreadTarget(View(), nil, t, instCount - hops)
      {
        if t >= instCount {
          return;
        }
        var jump, next := IsPureJump(nil, t);
        if !jump || next == t {
          return;
        }
        t := next;
      }
    }

    method ThreadInst(nil: nat, i: nat)
      requires Valid() && i < instCount
      modifies insts, dests
      ensures Valid() && View() == ThreadSlots(old(View()), nil, i, 0)
    {
      hide PackOk, ViewOf, Slot, SetSlotInst, WithTargets, Targets, Decode, SliceOk, ThreadTarget;
      var count := SlotCount(insts[i]);
      for k := 0 to count
        invariant Valid() && SlotCount(insts[i]) == count
        invariant ThreadSlots(View(), nil, i, k) == ThreadSlots(old(View()), nil, i, 0)
      {
        SlotsAreTargets(i);
        var t := GetSlot(i, k);
        t := Thread(nil, t);
        SetSlot(i, k, t);
      }
      SlotsAreTargets(i);
    }

    /** Thread every jump, in place, past chains of no-op takes of `nil`. */
    method ThreadJumps(nil: nat)
      requires Valid()
      modifies insts, dests
      ensures Valid() && View() == ThreadFrom(old(View()), nil, 0)
    {
      hide PackOk, ViewOf, ThreadSlots;
      for i := 0 to instCount
        invariant Valid()
        invariant ThreadFrom(View(), nil, i) == ThreadFrom(old(View()), nil, 0)
      {
        ThreadInst(nil, i);
      }
    }

    // -------------------------------------------------------------------------
    // Pass 5: drop unreachable code and renumber
    // -------------------------------------------------------------------------

    /** Mark the in-range targets of instruction `i`. */
    method MarkTargets(i: nat, reachable: array<bool>) returns (changed: bool)
      requires Valid() && i < instCount && reachable.Length == instCount
      requires SlotCount(insts[i]) <= MAX_DESTS
      requires reachable[i] && OnlyReachable(View(), reachable[..])
      modifies reachable
      ensures OnlyReachable(View(), reachable[..])
      ensures forall j :: 0 <= j < instCount && old(reachable[j]) ==> reachable[j]
      ensures StaysIn(Targets(View()[i]), reachable[..])
      ensures !changed ==> reachable[..] == old(reachable[..])
      ensures changed ==> Rank(reachable[..], instCount) > Rank(old(reachable[..]), instCount)
    {
      hide PackOk, ViewOf, Slot, Targets, Decode, SliceOk, Reachable;
      changed := false;
      SlotsAreTargets(i);
      var count := SlotCount(insts[i]);
      for k := 0 to count
        invariant OnlyReachable(View(), reachable[..]) && reachable[i]
        invariant forall j :: 0 <= j < instCount && old(reachable[j]) ==> reachable[j]
        invariant forall j :: 0 <= j < k && Targets(View()[i])[j] < instCount ==> reachable[Targets(View()[i])[j]]
        invariant !changed ==> reachable[..] == old(reachable[..])
        invariant changed ==> Rank(reachable[..], instCount) > Rank(old(reachable[..]), instCount)
      {
        var t := GetSlot(i, k);
        if t < instCount && !reachable[t] {
          ReachNext(View(), i, k);
          RankSet(reachable[..], t, instCount);
          ghost var was := reachable[..];
          reachable[t] := true;
          assert reachable[..] == was[t := true];
          changed := true;
        }
      }
    }

    method MarkReachable() returns (reachable: array<bool>)
      requires Valid() && instCount > 0
      requires forall i :: 0 <= i < instCount ==> SlotCount(insts[i]) <= MAX_DESTS
      ensures fresh(reachable) && reachable[..] == ReachSet(View())
    {
      hide PackOk, ViewOf, Targets, Decode, SliceOk, Reachable, SlotCount;
      reachable := new bool[instCount](_ => false);
      reachable[0] := true;
      ReachZero(View());
      var changed := true;
      while changed
        invariant reachable[0] && OnlyReachable(View(), reachable[..])
        invariant !changed ==> Closed(View(), reachable[..])
        decreases instCount - Rank(reachable[..], instCount), if changed then 1 else 0
      {
        changed := false;
        ghost var before := reachable[..];
        for i := 0 to instCount
          invariant reachable[0] && OnlyReachable(View(), reachable[..])
          invariant !changed ==> reachable[..] == before
          invariant changed ==> Rank(reachable[..], instCount) > Rank(before, instCount)
          invariant !changed ==> forall j :: 0 <= j < i && reachable[j] ==> StaysIn(Targets(View()[j]), reachable[..])
        {
          if reachable[i] {
            var more := MarkTargets(i, reachable);
            changed := changed || more;
          }
        }
      }
      AllReachable(View(), reachable[..]);
    }

    /** Where each index goes once the unmarked ones are gone. */
    static method Tabulate(reachable: array<bool>) returns (table: array<nat>, newCount: nat)
      ensures fresh(table) && table.Length == reachable.Length
      ensures newCount == Rank(reachable[..], reachable.Length) <= reachable.Length
      ensures forall j :: 0 <= j < table.Length ==> table[j] == Rank(reachable[..], j)
    {
      hide Rank;
      table := new nat[reachable.Length];
      newCount := 0;
      ghost var vis := reachable[..];
      RankZero(vis);
      for i := 0 to reachable.Length
        invariant newCount == Rank(vis, i) <= i
        invariant forall j :: 0 <= j < i ==> table[j] == Rank(vis, j)
      {
        RankNext(vis, i);
        table[i] := newCount;
        if reachable[i] {
          newCount := newCount + 1;
        }
      }
    }

    /** The marked instructions, in order. */
    method Select(reachable: array<bool>) returns (kept: array<IrOptInst>, newCount: nat, ghost from: seq<nat>)
      requires reachable.Length == instCount <= insts.Length
      ensures fresh(kept) && newCount <= kept.Length == instCount
      ensures newCount == |from| == Rank(reachable[..], instCount)
      ensures KeptFrom(insts[..instCount], reachable[..], from, kept[..newCount])
    {
      kept := new IrOptInst[instCount](_ => IrOptInst(OpEnd, 0, 0, 0, 0, 0));
      hide Rank, Sources, KeptFrom, Copied;
      newCount, from := 0, [];
      ghost var vis, all := reachable[..], insts[..instCount];
      SourcesNone(all, vis);
      for i: nat := 0 to instCount
        invariant newCount == |from| <= i && Sources(vis, from, i)
        invariant Copied(all, from, kept[..newCount])
      {
        SourcesAdd(vis, from, i);
        if reachable[i] {
          ghost var was := kept[..newCount];
          CopiedAdd(all, from, was, i);
          from := from + [i];
          kept[newCount] := insts[i];
          newCount := newCount + 1;
          assert kept[..newCount] == was + [all[i]];
        }
      }
      SourcesKept(all, vis, from, kept[..newCount]);
    }

    /** Keep what instruction 0 can reach, renumbered; the rest of the pool is left as is. */
    method RemoveDead()
      requires Valid()
      requires forall i :: 0 <= i < instCount ==> SlotCount(insts[i]) <= MAX_DESTS
      modifies this`insts, this`instCount, this`instructionsRemoved, insts, dests
      ensures Valid() && Pruned(old(View()), View())
      ensures instructionsRemoved + instCount == old(instructionsRemoved + instCount)
      ensures dests == old(dests) && destTotal == old(destTotal)
    {
      hide PackOk, ViewOf, Targets, Decode, SliceOk, Reachable, ReachableFrom, SlotCount, RetargetBy, Rank, ReachSet;
      ghost var ops := View();
      if instCount == 0 {
        PrunedNothing(ops);
        return;
      }
      var reachable := MarkReachable();
      ghost var vis := reachable[..];
      var table, newCount := Tabulate(reachable);
      var kept, _, from := Select(reachable);
      if newCount == instCount {
        AllKept(ops, vis);
        return;
      }
      instructionsRemoved := instructionsRemoved + (instCount - newCount);
      KeptView(insts[..instCount], dests[..destTotal], vis, from, kept[..newCount]);
      insts := kept;
      instCount := newCount;
      ghost var mid := View();
      RemapTargets(table);
      KeptRenumbered(ops, vis, table[..], from, mid, View());
    }
  }

  // ---------------------------------------------------------------------------
  // Emission
  // ---------------------------------------------------------------------------

  ghost function FoldedOps(p: Program, folds: seq<Fold>): (ops: Program)
    ensures |ops| == |p|
  {
    seq(|p|, i requires 0 <= i < |p| => FoldedOp(p, folds, i))
  }

  ghost function FoldedOp(p: Program, folds: seq<Fold>, i: nat): Op
    requires i < |p|
  {
    if Starts(folds, i) then
      var j :| 0 <= j < |folds| && folds[j].start == i; folds[j].op
    else p[i]
  }

  ghost function VisibleOf(p: Program, folds: seq<Fold>): (vis: seq<bool>)
    ensures |vis| == |p|
  {
    seq(|p|, i requires 0 <= i < |p| => !Inside(folds, i))
  }

  lemma FoldedOpsFold(p: Program, folds: seq<Fold>)
    requires Laid(p, folds)
    ensures FoldsTo(p, folds, FoldedOps(p, folds), VisibleOf(p, folds))
  {
    hide GoodFold;
    forall j | 0 <= j < |folds| && folds[j].start < |p| ensures FoldedOps(p, folds)[folds[j].start] == folds[j].op {
      FoldedAt(p, folds, j);
    }
  }

  lemma FoldedAt(p: Program, folds: seq<Fold>, j: nat)
    requires Laid(p, folds) && j < |folds| && folds[j].start < |p|
    ensures FoldedOp(p, folds, folds[j].start) == folds[j].op
  {
    hide GoodFold;
    var i := folds[j].start;
    assert Starts(folds, i);
    forall k | 0 <= k < |folds| && folds[k].start == i ensures k == j {
      assert GoodFold(p, folds[j]) && GoodFold(p, folds[k]);
      GoodRange(p, folds[j]);
      GoodRange(p, folds[k]);
    }
  }

  /** What has been emitted once source indices below `i` are dealt with. */
  ghost predicate Emitting(ops: Program, vis: seq<bool>, table: seq<nat>, out: Program, i: nat) {
    && |ops| == |vis| == |table| && i <= |ops|
    && |out| == Rank(vis, i)
    && forall j :: 0 <= j < i && vis[j] ==> table[j] == Rank(vis, j) < |out| && out[table[j]] == ops[j]
  }

  /** The visible operations in order, their targets not yet remapped. */
  ghost predicate Emitted(ops: Program, vis: seq<bool>, table: seq<nat>, out: Program) {
    Emitting(ops, vis, table, out, |ops|)
  }

  lemma EmitNone(ops: Program, vis: seq<bool>, table: seq<nat>)
    requires |ops| == |vis| == |table|
    ensures Emitting(ops, vis, table, [], 0)
  {
  }

  lemma EmitRoom(ops: Program, vis: seq<bool>, table: seq<nat>, out: Program, i: nat)
    requires Emitting(ops, vis, table, out, i)
    ensures |out| <= i
  {
  }

  lemma EmitDone(ops: Program, vis: seq<bool>, table: seq<nat>, out: Program)
    requires Emitting(ops, vis, table, out, |ops|)
    ensures Emitted(ops, vis, table, out)
  {
  }

  lemma {:induction false} RankSkip(vis: seq<bool>, i: nat, e: nat)
    requires i < e <= |vis| && vis[i] && forall k :: i < k < e ==> !vis[k]
    ensures Rank(vis, e) == Rank(vis, i) + 1
    decreases e
  {
    if e > i + 1 {
      RankSkip(vis, i, e - 1);
    }
  }

  /** One operation for the indices from `i` up to `e`. */
  lemma EmitOne(ops: Program, vis: seq<bool>, table: seq<nat>, out: Program, i: nat, e: nat)
    requires Emitting(ops, vis, table, out, i) && i < e <= |ops|
    requires vis[i] && forall k :: i < k < e ==> !vis[k]
    ensures Emitting(ops, vis, table[i := |out|], out + [ops[i]], e)
  {
    hide Rank;
    RankSkip(vis, i, e);
  }

  /** `i` is not inside any fold; the folds before `next` lie below it, the others not. */
  ghost predicate Boundary(p: Program, folds: seq<Fold>, i: nat, next: nat) {
    && next <= |folds|
    && (forall j :: 0 <= j < next ==> folds[j].end <= i)
    && (forall j :: next <= j < |folds| ==> i <= folds[j].start)
  }

  lemma BoundaryFold(p: Program, folds: seq<Fold>, i: nat, next: nat)
    requires Laid(p, folds) && Boundary(p, folds, i, next) && next < |folds| && folds[next].start == i < |p|
    ensures var f := folds[next];
            && i < f.end <= |p| && Encodable(f.op) && |PoolOf(f.op)| <= f.end - i
            && Boundary(p, folds, f.end, next + 1)
            && VisibleOf(p, folds)[i] && (forall k :: i < k < f.end ==> !VisibleOf(p, folds)[k])
            && FoldedOps(p, folds)[i] == f.op
  {
    hide GoodFold, Encodable, PoolOf;
    var f := folds[next];
    assert GoodFold(p, f);
    GoodRange(p, f);
    PoolFits(p, f);
    FoldedAt(p, folds, next);
    forall k | i < k < f.end ensures !VisibleOf(p, folds)[k] {
      assert Interior(folds[next], k);
    }
  }

  lemma BoundaryPlain(p: Program, folds: seq<Fold>, i: nat, next: nat)
    requires IsRaw(p) && Laid(p, folds) && Boundary(p, folds, i, next) && i < |p|
    requires !(next < |folds| && folds[next].start == i)
    ensures Boundary(p, folds, i + 1, next) && Encodable(p[i]) && PoolOf(p[i]) == []
    ensures VisibleOf(p, folds)[i] && FoldedOps(p, folds)[i] == p[i]
  {
    hide GoodFold;
    assert IsRawOp(p[i]);
    forall j | 0 <= j < |folds| ensures folds[j].start != i && !Interior(folds[j], i) {
      assert GoodFold(p, folds[j]);
      GoodRange(p, folds[j]);
      if next < j {
        assert GoodFold(p, folds[next]);
        GoodRange(p, folds[next]);
        assert folds[next].end <= folds[j].start;
      }
    }
    assert !Starts(folds, i);
  }

  lemma BoundaryDone(p: Program, folds: seq<Fold>, next: nat)
    requires Laid(p, folds) && Boundary(p, folds, |p|, next)
    ensures next == |folds|
  {
    hide GoodFold;
    if next < |folds| {
      assert GoodFold(p, folds[next]);
      GoodRange(p, folds[next]);
    }
  }

  /** A fold's operands take no more pool entries than its loop has instructions. */
  lemma PoolFits(p: Program, f: Fold)
    requires GoodFold(p, f)
    ensures Encodable(f.op) && |PoolOf(f.op)| <= f.end - f.start
    ensures |Targets(f.op)| <= MAX_DESTS
  {
    hide Times, Without, Distinct, RunRegs, PrivateRange, TakeChain;
  }

  /** Targets below `k` looked up, the others not yet. */
  function Mixed(ts: seq<nat>, m: seq<nat>, k: nat): (r: seq<nat>)
    requires k <= |ts|
    ensures |r| == |ts|
  {
    Remap(m, ts[..k]) + ts[k..]
  }

  function RemapAll(ops: Program, m: seq<nat>): (r: Program)
    ensures |r| == |ops|
  {
    seq(|ops|, i requires 0 <= i < |ops| => RetargetBy(ops[i], m))
  }

  lemma WithSame(op: Op)
    ensures WithTargets(op, Targets(op)) == op
  {
  }

  lemma TargetsOfWith(op: Op, ts: seq<nat>)
    requires |ts| == |Targets(op)|
    ensures Targets(WithTargets(op, ts)) == ts
  {
  }

  lemma WithTwice(op: Op, ts: seq<nat>, us: seq<nat>)
    requires |ts| == |us| == |Targets(op)|
    ensures |Targets(WithTargets(op, ts))| == |us|
    ensures WithTargets(WithTargets(op, ts), us) == WithTargets(op, us)
  {
    TargetsOfWith(op, ts);
  }

  lemma RemapStart(op: Op, m: seq<nat>)
    ensures WithTargets(op, Mixed(Targets(op), m, 0)) == op
  {
    WithSame(op);
    assert Mixed(Targets(op), m, 0) == Targets(op);
  }

  lemma RemapRead(op: Op, m: seq<nat>, k: nat)
    requires k < |Targets(op)|
    ensures var now := WithTargets(op, Mixed(Targets(op), m, k));
            |Targets(now)| == |Targets(op)| && Targets(now)[k] == Targets(op)[k]
  {
    hide Targets, WithTargets;
    TargetsOfWith(op, Mixed(Targets(op), m, k));
  }

  lemma RemapWrite(op: Op, m: seq<nat>, k: nat, t: nat)
    requires k < |Targets(op)| && t == Lookup(m, Targets(op)[k])
    ensures var now := WithTargets(op, Mixed(Targets(op), m, k));
            k < |Targets(now)| && SetTarget(now, k, t) == WithTargets(op, Mixed(Targets(op), m, k + 1))
  {
    hide Targets, WithTargets;
    var ts := Targets(op);
    var us := Mixed(ts, m, k);
    TargetsOfWith(op, us);
    WithTwice(op, us, us[k := t]);
    assert us[k := t] == Mixed(ts, m, k + 1);
  }

  lemma RemapEnd(op: Op, m: seq<nat>)
    ensures WithTargets(op, Mixed(Targets(op), m, |Targets(op)|)) == RetargetBy(op, m)
  {
    hide Targets, WithTargets;
    assert Mixed(Targets(op), m, |Targets(op)|) == Remap(m, Targets(op));
  }

  /** Only reachable instructions are marked. */
  ghost predicate OnlyReachable(ops: Program, marked: seq<bool>) {
    |marked| == |ops| && forall i :: 0 <= i < |ops| && marked[i] ==> Reachable(ops, i)
  }

  lemma AllReachable(ops: Program, marked: seq<bool>)
    requires OnlyReachable(ops, marked) && Closed(ops, marked)
    ensures marked == ReachSet(ops)
  {
    hide Targets, StaysIn;
    forall i | 0 <= i < |ops| ensures marked[i] == ReachSet(ops)[i] {
      if Reachable(ops, i) {
        var k: nat :| ReachedIn(ops, 0, i, k);
        ReachedWithin(ops, marked, 0, i, k);
      }
    }
  }

  /** `kept` is the marked part of `insts`; `from` says where each came from. */
  ghost predicate KeptFrom(insts: seq<IrOptInst>, vis: seq<bool>, from: seq<nat>, kept: seq<IrOptInst>) {
    && |insts| == |vis| && |from| == |kept|
    && (forall j :: 0 <= j < |from| ==>
          from[j] < |insts| && vis[from[j]] && Rank(vis, from[j]) == j && kept[j] == insts[from[j]])
    && (forall j, k :: 0 <= j < k < |from| ==> from[j] < from[k])
  }

  /** `from` lists the marked indices below `i` in order. */
  ghost predicate Sources(vis: seq<bool>, from: seq<nat>, i: nat) {
    && i <= |vis| && |from| == Rank(vis, i)
    && (forall j :: 0 <= j < |from| ==> from[j] < i && vis[from[j]] && Rank(vis, from[j]) == j)
    && (forall j, k :: 0 <= j < k < |from| ==> from[j] < from[k])
  }

  ghost predicate Copied(insts: seq<IrOptInst>, from: seq<nat>, kept: seq<IrOptInst>) {
    |kept| == |from| && forall j :: 0 <= j < |from| ==> from[j] < |insts| && kept[j] == insts[from[j]]
  }

  lemma CopiedAdd(insts: seq<IrOptInst>, from: seq<nat>, kept: seq<IrOptInst>, i: nat)
    requires Copied(insts, from, kept) && i < |insts|
    ensures Copied(insts, from + [i], kept + [insts[i]])
  {
  }

  lemma SourcesNone(insts: seq<IrOptInst>, vis: seq<bool>)
    ensures Sources(vis, [], 0) && Copied(insts, [], [])
  {
  }

  lemma SourcesAdd(vis: seq<bool>, from: seq<nat>, i: nat)
    requires Sources(vis, from, i) && i < |vis|
    ensures |from| == Rank(vis, i)
    ensures vis[i] ==> Sources(vis, from + [i], i + 1)
    ensures !vis[i] ==> Sources(vis, from, i + 1)
  {
  }

  lemma SourcesKept(insts: seq<IrOptInst>, vis: seq<bool>, from: seq<nat>, kept: seq<IrOptInst>)
    requires |insts| == |vis| && Sources(vis, from, |vis|) && Copied(insts, from, kept)
    ensures |from| == Rank(vis, |vis|) && KeptFrom(insts, vis, from, kept)
  {
  }

  lemma AllKept(ops: Program, vis: seq<bool>)
    requires vis == ReachSet(ops) && Rank(vis, |vis|) == |ops|
    ensures Pruned(ops, ops)
  {
    hide Reachable;
    RankFull(vis, |vis|);
    forall i | 0 <= i < |ops| ensures Reachable(ops, i) {
      assert vis[i];
    }
    PrunedNothing(ops);
  }

  lemma KeptView(insts: seq<IrOptInst>, pool: seq<nat>, vis: seq<bool>, from: seq<nat>, kept: seq<IrOptInst>)
    requires PackOk(insts, pool) && KeptFrom(insts, vis, from, kept)
    ensures PackOk(kept, pool) && KeptOps(ViewOf(insts, pool), vis, from, ViewOf(kept, pool))
  {
    hide ViewOf, PackOk;
    PackKeep(insts, pool, kept, from);
  }

  ghost predicate KeptOps(ops: Program, vis: seq<bool>, from: seq<nat>, kept: Program) {
    && |ops| == |vis| && |from| == |kept|
    && forall j :: 0 <= j < |from| ==>
         from[j] < |ops| && vis[from[j]] && Rank(vis, from[j]) == j && kept[j] == ops[from[j]]
  }

  /** The instructions kept, remapped, are the renumbered program. */
  lemma KeptRenumbered(ops: Program, vis: seq<bool>, m: seq<nat>, from: seq<nat>, kept: Program, q: Program)
    requires vis == ReachSet(ops) && |m| == |ops| && KeptOps(ops, vis, from, kept)
    requires |from| == Rank(vis, |vis|)
    requires forall i :: 0 <= i < |ops| ==> m[i] == Rank(vis, i)
    requires q == RemapAll(kept, m)
    ensures Pruned(ops, q)
  {
    hide RetargetBy, ReachSet;
    forall i | 0 <= i < |ops| && vis[i] ensures m[i] < |q| && q[m[i]] == RetargetBy(ops[i], m) {
      RankBelow(vis, i, |vis|);
      var j := m[i];
      if from[j] < i {
        RankBelow(vis, from[j], i);
      } else if i < from[j] {
        RankBelow(vis, i, from[j]);
      }
    }
    assert Renumbered(ops, vis, m, q);
  }

  lemma SlotFits(insts: seq<IrOptInst>, pool: seq<nat>, i: nat, k: nat)
    requires PackOk(insts, pool) && i < |insts| && k < SlotCount(insts[i])
    ensures SliceOk(insts[i], |pool|)
    ensures insts[i].op.OpDivMod? ==> insts[i].destOff + insts[i].destCount + k < |pool|
  {
  }

  // ---------------------------------------------------------------------------
  // All passes
  // ---------------------------------------------------------------------------

  datatype OptLevel = OptNone | OptLoops

  /** `q` is what the five passes make of `p`. */
  ghost predicate Optimized(p: Program, isDev: seq<bool>, nil: nat, q: Program) {
    exists folds: seq<Fold>, m: seq<nat>, remapped: Program ::
      && Greedy(p, isDev, folds, |p|)
      && Renumbered(FoldedOps(p, folds), VisibleOf(p, folds), m, remapped)
      && Pruned(ThreadFrom(remapped, nil, 0), q)
  }

  lemma RemappedIs(ops: Program, vis: seq<bool>, m: seq<nat>, out: Program)
    requires Emitted(ops, vis, m, out)
    ensures Renumbered(ops, vis, m, RemapAll(out, m))
  {
    hide RetargetBy, Rank;
  }

  /** No operation has more exits than a detector allows. */
  ghost predicate FewTargets(ops: Program) {
    forall i :: 0 <= i < |ops| ==> |Targets(ops[i])| <= MAX_DESTS
  }

  lemma EmittedFew(p: Program, folds: seq<Fold>, m: seq<nat>, out: Program)
    requires IsRaw(p) && Laid(p, folds) && Emitted(FoldedOps(p, folds), VisibleOf(p, folds), m, out)
    ensures FewTargets(RemapAll(out, m))
  {
    hide GoodFold, RetargetBy, FoldedOps;
    var ops, vis := FoldedOps(p, folds), VisibleOf(p, folds);
    forall k | 0 <= k < |out| ensures |Targets(RetargetBy(out[k], m))| <= MAX_DESTS {
      var i := Unrank(vis, |vis|, k);
      assert out[k] == ops[i];
      FoldedFew(p, folds, i);
      RetargetCount(out[k], m);
    }
  }

  lemma RetargetCount(op: Op, m: seq<nat>)
    ensures |Targets(RetargetBy(op, m))| == |Targets(op)|
  {
    TargetsOfWith(op, Remap(m, Targets(op)));
  }

  lemma FoldedFew(p: Program, folds: seq<Fold>, i: nat)
    requires IsRaw(p) && Laid(p, folds) && i < |p|
    ensures |Targets(FoldedOps(p, folds)[i])| <= MAX_DESTS
  {
    hide GoodFold;
    if Starts(folds, i) {
      var j :| 0 <= j < |folds| && folds[j].start == i;
      FoldedAt(p, folds, j);
      assert GoodFold(p, folds[j]);
      PoolFits(p, folds[j]);
    } else {
      assert IsRawOp(p[i]);
    }
  }

  lemma ThreadedFew(p: Program, nil: nat)
    requires FewTargets(p)
    ensures FewTargets(ThreadFrom(p, nil, 0))
  {
    hide Targets, WithTargets, Follows;
    ThreadedSelf(p, nil);
    ThreadFromThreaded(p, p, nil, 0);
    var q := ThreadFrom(p, nil, 0);
    forall i | 0 <= i < |q| ensures |Targets(q[i])| <= MAX_DESTS {
      assert ThreadedOp(p, nil, p[i], q[i]);
    }
  }

  /** Lower a raw program, folding, threading and pruning it unless that is switched off. */
  method IrOptimize(p: Program, isDev: seq<bool>, nil: nat, level: OptLevel) returns (opt: IrOptProgram)
    requires IsRaw(p)
    ensures fresh(opt) && opt.Valid()
    ensures level.OptNone? ==> opt.View() == p
    ensures level.OptLoops? ==> Optimized(p, isDev, nil, opt.View())
    ensures opt.instCount + opt.instructionsRemoved == |p|
    ensures opt.destTotal <= |p|
    ensures level.OptNone? ==> opt.patternsFound == 0
    ensures level.OptLoops? ==> exists folds :: Greedy(p, isDev, folds, |p|) && opt.patternsFound == |folds|
  {
    hide PackOk, ViewOf, Greedy, Laid, Renumbered, Pruned, Emitted, FoldedOps, VisibleOf,
      Targets, SlotCount, FewTargets;
    opt := new IrOptProgram(|p|);
    if level.OptNone? {
      for i := 0 to |p|
        invariant fresh(opt) && opt.Valid() && opt.instCount == i && opt.destTotal == 0 && opt.View() == p[..i]
        invariant opt.patternsFound == opt.instructionsRemoved == 0
        invariant opt.insts.Length == |p| && fresh(opt.insts) && fresh(opt.dests)
      {
        RawNoPool(p, i);
        opt.Emit(p[i]);
        assert p[..i + 1] == p[..i] + [p[i]];
      }
      return;
    }
    var folds, removed := DetectAll(p, isDev);
    GreedyLaid(p, isDev, folds);
    opt.patternsFound := |folds|;
    opt.instructionsRemoved := removed;
    var table := opt.EmitAll(p, folds);
    ghost var m, out := table[..], opt.View();
    opt.RemapTargets(table);
    ghost var remapped := opt.View();
    RemappedIs(FoldedOps(p, folds), VisibleOf(p, folds), m, out);
    EmittedFew(p, folds, m, out);
    opt.ThreadJumps(nil);
    ThreadedFew(remapped, nil);
    forall i | 0 <= i < opt.instCount ensures SlotCount(opt.insts[i]) <= MAX_DESTS {
      opt.SlotsAreTargets(i);
      FewAt(opt.View(), i);
    }
    opt.RemoveDead();
  }

  lemma FewAt(ops: Program, i: nat)
    requires FewTargets(ops) && i < |ops|
    ensures |Targets(ops[i])| <= MAX_DESTS
  {
  }

  lemma GreedyLaid(p: Program, isDev: seq<bool>, folds: seq<Fold>)
    requires Greedy(p, isDev, folds, |p|)
    ensures Laid(p, folds)
  {
  }

  lemma RawNoPool(p: Program, i: nat)
    requires IsRaw(p) && i < |p|
    ensures Encodable(p[i]) && PoolOf(p[i]) == []
  {
    assert IsRawOp(p[i]);
  }

  // ---------------------------------------------------------------------------
  // Correctness of the whole
  // ---------------------------------------------------------------------------

  lemma RunFeeds(p: Program, i: nat, n: nat, back: nat, exclude: nat, nil: nat)
    requires IncRun(p, i, n, back, exclude) && NeverFed(p, nil)
    ensures nil !in RunRegs(p, i, n)
  {
    forall j | 0 <= j < n ensures RunRegs(p, i, n)[j] != nil {
      assert p[i + j].Inc?;
      assert !Feeds(p[i + j], nil);
    }
  }

  lemma {:induction false} WithoutIn(rs: seq<nat>, t: nat, r: nat)
    requires r in Without(rs, t)
    ensures r in rs
  {
    if rs[0] == t || r != rs[0] {
      WithoutIn(rs[1..], t, r);
    }
  }

  lemma DivBinFeeds(p: Program, f: Fold, nil: nat)
    requires DivBinLoop(p, f) && NeverFed(p, nil)
    ensures !Feeds(f.op, nil)
  {
    hide Distinct, RunRegs, NeverFed, Without, Times;
    var s, rem, n := f.start, f.op.rem, |f.op.xs| + 1;
    var run := RunRegs(p, s + 3, n);
    RunFeeds(p, s + 3, n, s + 1, f.op.reg, nil);
    GiveFeeds(p, s + 3 + n + 1, nil);
    GiveFeeds(p, s + 3 + n + 2, nil);
    TimesIn(run, rem);
    if nil in f.op.xs {
      WithoutIn(run, rem, nil);
    }
  }

  lemma MulAddFeeds(p: Program, f: Fold, nil: nat)
    requires MulAddLoop(p, f) && NeverFed(p, nil)
    ensures !Feeds(f.op, nil)
  {
    hide Distinct, RunRegs, NeverFed;
    var head, n := if f.op.preclear then f.start + 2 else f.start + 1, |f.op.dsts| + 1;
    RunFeeds(p, head + 1, n, head, f.op.s, nil);
    GiveFeeds(p, head + 1 + n + 1, nil);
    assert nil !in f.op.dsts + [f.op.t];
  }

  lemma CopyFeeds(p: Program, f: Fold, nil: nat)
    requires CopyLoop(p, f) && NeverFed(p, nil)
    ensures !Feeds(f.op, nil)
  {
    hide RunRegs, NeverFed, Without, Times;
    var s, n := f.start, |f.op.dsts| + 1;
    RunFeeds(p, s + 1, n, s, f.op.reg, nil);
    GiveFeeds(p, s + 1 + n + 1, nil);
    if nil in f.op.dsts {
      WithoutIn(RunRegs(p, s + 1, n), f.op.t, nil);
    }
  }

  /** A fold puts beans only where its raw loop does. */
  lemma FoldFeeds(p: Program, f: Fold, nil: nat)
    requires LoopShape(p, f) && NeverFed(p, nil)
    ensures !Feeds(f.op, nil)
  {
    hide RunRegs, TakeChain, NeverFed, DivBinLoop, MulAddLoop, CopyLoop;
    match f.op
    case DivBin(_, _, _, _, _, _) => DivBinFeeds(p, f, nil);
    case MulAdd(_, _, _, _, _, _) => MulAddFeeds(p, f, nil);
    case Copy(_, _, _, _) => CopyFeeds(p, f, nil);
    case Transfer(r, ds, _) => RunFeeds(p, f.start + 1, |ds|, f.start, r, nil);
    case DivMod(r, ds, es) =>
      if ds != [] {
        RunFeeds(p, f.start + |es|, |ds|, f.start, r, nil);
      }
    case _ =>
  }

  lemma TimesIn(rs: seq<nat>, r: nat)
    ensures Times(rs, r) > 0 ==> r in rs
  {
  }

  lemma GiveFeeds(p: Program, i: nat, nil: nat)
    requires NeverFed(p, nil) && i < |p|
    ensures !Feeds(p[i], nil)
  {
  }

  lemma RetargetFeeds(op: Op, m: seq<nat>, nil: nat)
    ensures Feeds(RetargetBy(op, m), nil) <==> Feeds(op, nil)
  {
  }

  lemma RemappedNeverFed(p: Program, folds: seq<Fold>, m: seq<nat>, q: Program, nil: nat)
    requires Laid(p, folds) && NeverFed(p, nil)
    requires Renumbered(FoldedOps(p, folds), VisibleOf(p, folds), m, q)
    ensures NeverFed(q, nil)
  {
    hide GoodFold, Feeds, RetargetBy, FoldedOps;
    var ops, vis := FoldedOps(p, folds), VisibleOf(p, folds);
    forall k | 0 <= k < |q| ensures !Feeds(q[k], nil) {
      var i := Unrank(vis, |vis|, k);
      RetargetFeeds(ops[i], m, nil);
      FoldedFeeds(p, folds, i, nil);
    }
  }

  lemma FoldedFeeds(p: Program, folds: seq<Fold>, i: nat, nil: nat)
    requires Laid(p, folds) && NeverFed(p, nil) && i < |p|
    ensures !Feeds(FoldedOps(p, folds)[i], nil)
  {
    hide LoopShape, PrivateRange, Feeds;
    if Starts(folds, i) {
      var j :| 0 <= j < |folds| && folds[j].start == i;
      FoldedAt(p, folds, j);
      assert GoodFold(p, folds[j]);
      FoldFeeds(p, folds[j], nil);
    }
  }

  /** The optimizer is correct: for every raw program in which nothing gives `nil`, and every
      bank with `nil` empty, the optimized program halts exactly when the source does, with
      the same bank, and after no more moves. */
  lemma OptimizerCorrect(p: Program, isDev: seq<bool>, nil: nat, q: Program, n: nat)
    requires IsRaw(p) && ProgOk(p, n) && NeverFed(p, nil) && Optimized(p, isDev, nil, q)
    ensures Refines(p, q, n, nil)
  {
    hide Greedy, Renumbered, Pruned, ProgOk, NeverFed, Refines, FoldedOps, VisibleOf, Closed, Threaded, Laid, OpOk;
    var folds: seq<Fold>, m: seq<nat>, remapped: Program :|
      && Greedy(p, isDev, folds, |p|)
      && Renumbered(FoldedOps(p, folds), VisibleOf(p, folds), m, remapped)
      && Pruned(ThreadFrom(remapped, nil, 0), q);
    var ops, vis := FoldedOps(p, folds), VisibleOf(p, folds);
    GreedyLaid(p, isDev, folds);
    FoldedOpsFold(p, folds);
    FoldRefines(p, folds, ops, vis, n, nil);
    forall i | 0 <= i < |ops| && vis[i] ensures OpOk(ops[i], n) {
      FoldedProgOk(p, folds, ops, vis, n, i);
    }
    RenumberRefines(ops, vis, m, remapped, n, nil);
    RenumberedOk(ops, vis, m, remapped, n);
    RemappedNeverFed(p, folds, m, remapped, nil);
    ThreadedSelf(remapped, nil);
    ThreadFromThreaded(remapped, remapped, nil, 0);
    var threaded := ThreadFrom(remapped, nil, 0);
    ThreadRefines(remapped, threaded, n, nil);
    ThreadedOk(remapped, threaded, nil, n);
    PrunedRefines(threaded, q, n, nil);
    RefinesTrans(p, ops, remapped, n, nil);
    RefinesTrans(p, remapped, threaded, n, nil);
    RefinesTrans(p, threaded, q, n, nil);
  }

  lemma ThreadedOk(p: Program, q: Program, nil: nat, n: nat)
    requires Threaded(p, q, nil) && ProgOk(p, n)
    ensures ProgOk(q, n)
  {
    hide Targets, WithTargets, Follows, OpOk;
    forall i | 0 <= i < |q| ensures OpOk(q[i], n) {
      assert ThreadedOp(p, nil, p[i], q[i]);
      WithTargetsOk(p[i], Targets(q[i]), n);
    }
  }

  lemma WithTargetsOk(op: Op, ts: seq<nat>, n: nat)
    requires OpOk(op, n) && |ts| == |Targets(op)|
    ensures OpOk(WithTargets(op, ts), n)
  {
  }

  // ---------------------------------------------------------------------------
  // The result is determined
  // ---------------------------------------------------------------------------

  /** What is chosen is not passed over. */
  lemma ChosenNotPassed(p: Program, isDev: seq<bool>, f: Fold)
    requires Chosen(p, isDev, f)
    ensures !PassedOver(p, isDev, f.start)
  {
    hide FirstOf, TouchesDevice;
    forall r: Option<Fold> | FirstOf(p, f.start, r) ensures r == Some(f) {
      FirstUnique(p, f.start, r, Some(f));
    }
  }

  /** Two greedy choices that agree so far: the next fold of one starts no later than the
      next fold of the other. */
  lemma NextNoLater(p: Program, isDev: seq<bool>, a: seq<Fold>, b: seq<Fold>, k: nat)
    requires Greedy(p, isDev, a, |p|) && Greedy(p, isDev, b, |p|)
    requires k < |a| && k <= |b| && a[..k] == b[..k]
    ensures k < |b| && b[k].start <= a[k].start
  {
    hide GoodFold, Chosen, PassedOver;
    var s := a[k].start;
    assert Chosen(p, isDev, a[k]);
    ChosenNotPassed(p, isDev, a[k]);
    assert GoodFold(p, a[k]);
    GoodRange(p, a[k]);
    assert Covered(b, s);
    forall i | 0 <= i < k ensures !Covers(b[i], s) {
      assert a[..k][i] == b[..k][i];
    }
    var j :| 0 <= j < |b| && Covers(b[j], s);
    if k < j {
      assert GoodFold(p, b[k]);
      GoodRange(p, b[k]);
    }
  }

  lemma SameNext(p: Program, isDev: seq<bool>, f: Fold, g: Fold)
    requires Chosen(p, isDev, f) && Chosen(p, isDev, g) && f.start == g.start
    ensures f == g
  {
    hide FirstOf, TouchesDevice;
    FirstUnique(p, f.start, Some(f), Some(g));
  }

  lemma {:induction false} GreedySame(p: Program, isDev: seq<bool>, a: seq<Fold>, b: seq<Fold>, k: nat)
    requires Greedy(p, isDev, a, |p|) && Greedy(p, isDev, b, |p|)
    requires k <= |a| && k <= |b| && a[..k] == b[..k]
    ensures a == b
    decreases |a| - k
  {
    hide Laid, PassedOver, Covered, Chosen;
    if k < |a| {
      NextNoLater(p, isDev, a, b, k);
      NextNoLater(p, isDev, b, a, k);
      assert Chosen(p, isDev, a[k]) && Chosen(p, isDev, b[k]);
      SameNext(p, isDev, a[k], b[k]);
      assert a[..k + 1] == a[..k] + [a[k]] && b[..k + 1] == b[..k] + [b[k]];
      GreedySame(p, isDev, a, b, k + 1);
    } else if k < |b| {
      NextNoLater(p, isDev, b, a, k);
    } else {
      assert a[..k] == a && b[..k] == b;
    }
  }

  /** The passes leave nothing open: a program has one optimized form. */
  lemma OptimizedUnique(p: Program, isDev: seq<bool>, nil: nat, q: Program, q': Program)
    requires Optimized(p, isDev, nil, q) && Optimized(p, isDev, nil, q')
    ensures q == q'
  {
    hide Greedy, Renumbered, FoldedOps, VisibleOf, ReachSet, Closed, FoldsTo, Laid;
    var a: seq<Fold>, m: seq<nat>, r: Program :|
      && Greedy(p, isDev, a, |p|)
      && Renumbered(FoldedOps(p, a), VisibleOf(p, a), m, r)
      && Pruned(ThreadFrom(r, nil, 0), q);
    var b: seq<Fold>, m': seq<nat>, r': Program :|
      && Greedy(p, isDev, b, |p|)
      && Renumbered(FoldedOps(p, b), VisibleOf(p, b), m', r')
      && Pruned(ThreadFrom(r', nil, 0), q');
    GreedySame(p, isDev, a, b, 0);
    GreedyLaid(p, isDev, a);
    FoldedOpsFold(p, a);
    FoldedClosed(p, a, FoldedOps(p, a), VisibleOf(p, a));
    RenumberedUnique(FoldedOps(p, a), VisibleOf(p, a), m, r, m', r');
    var t := ThreadFrom(r, nil, 0);
    var n: seq<nat> :| Renumbered(t, ReachSet(t), n, q);
    var n': seq<nat> :| Renumbered(t, ReachSet(t), n', q');
    ReachClosed(t);
    RenumberedUnique(t, ReachSet(t), n, q, n', q');
  }
}
