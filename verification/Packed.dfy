/** The packed form of an optimized program: fixed-size instruction records whose operand
    lists live in one shared pool. */
module Packed {
  import opened Machine
  import opened Passes

  datatype OpCode =
    | OpInc | OpDeb | OpEnd | OpZero | OpTransfer | OpDivMod | OpMulAdd | OpIsZero | OpCopy | OpDivBin

  datatype IrOptInst =
    IrOptInst(op: OpCode, reg: nat, destOff: nat, destCount: nat, argA: nat, argB: nat)

  /** How many pool entries an instruction owns, from `destOff` on. */
  function Span(inst: IrOptInst): nat {
    match inst.op
    case OpTransfer => inst.destCount
    case OpMulAdd => inst.destCount
    case OpCopy => inst.destCount
    case OpDivBin => inst.destCount
    case OpDivMod => inst.destCount + inst.argB
    case _ => 0
  }

  /** The instruction's slice lies in a pool of `total` entries and is long enough. */
  predicate SliceOk(inst: IrOptInst, total: nat) {
    && (Span(inst) > 0 ==> inst.destOff + Span(inst) <= total)
    && (inst.op.OpTransfer? ==> inst.destCount > 0)
    && (inst.op.OpMulAdd? ==> inst.destCount >= 2)
    && (inst.op.OpCopy? ==> inst.destCount >= 1)
    && (inst.op.OpDivBin? ==> inst.destCount >= 3)
    && (inst.op.OpDivMod? ==> inst.argB > 0)
  }

  function Decode(inst: IrOptInst, pool: seq<nat>): Op
    requires SliceOk(inst, |pool|)
  {
    var IrOptInst(op, reg, off, count, a, b) := inst;
    match op
    case OpInc => Inc(reg, a)
    case OpDeb => Deb(reg, a, b)
    case OpEnd => End
    case OpZero => Zero(reg, a)
    case OpIsZero => IsZero(reg, a, b)
    case OpTransfer => Transfer(reg, pool[off..off + count], a)
    case OpDivMod => DivMod(reg, pool[off..off + count], pool[off + count..off + count + b])
    case OpMulAdd => MulAdd(reg, pool[off], pool[off + 1], pool[off + 2..off + count], b != 0, a)
    case OpCopy => Copy(reg, pool[off], pool[off + 1..off + count], a)
    case OpDivBin => DivBin(reg, pool[off], pool[off + 1], pool[off + 2], pool[off + 3..off + count], a)
  }

  predicate Before(a: IrOptInst, b: IrOptInst) {
    Span(a) > 0 && Span(b) > 0 ==> a.destOff + Span(a) <= b.destOff
  }

  /** Slices are in range and follow one another in program order, so no two overlap. */
  ghost predicate PackOk(insts: seq<IrOptInst>, pool: seq<nat>) {
    && (forall i :: 0 <= i < |insts| ==> SliceOk(insts[i], |pool|))
    && (forall i, j :: 0 <= i < j < |insts| ==> Before(insts[i], insts[j]))
  }

  ghost function ViewOf(insts: seq<IrOptInst>, pool: seq<nat>): (v: Program)
    requires PackOk(insts, pool)
    ensures |v| == |insts|
  {
    seq(|insts|, i requires 0 <= i < |insts| => Decode(insts[i], pool))
  }

  /** The operands a folded instruction puts into the pool. */
  function PoolOf(op: Op): seq<nat> {
    match op
    case Transfer(_, ds, _) => ds
    case DivMod(_, ds, es) => ds + es
    case MulAdd(_, s, t, ds, _, _) => [s, t] + ds
    case Copy(_, t, ds, _) => [t] + ds
    case DivBin(_, p, rem, q, xs, _) => [p, rem, q] + xs
    case _ => []
  }

  /** The record for `op` with its operands at `off`. */
  function Encode(op: Op, off: nat): IrOptInst {
    match op
    case Inc(r, n) => IrOptInst(OpInc, r, 0, 0, n, 0)
    case Deb(r, a, b) => IrOptInst(OpDeb, r, 0, 0, a, b)
    case End => IrOptInst(OpEnd, 0, 0, 0, 0, 0)
    case Zero(r, e) => IrOptInst(OpZero, r, 0, 0, e, 0)
    case IsZero(r, a, b) => IrOptInst(OpIsZero, r, 0, 0, a, b)
    case Transfer(r, ds, e) => IrOptInst(OpTransfer, r, off, |ds|, e, 0)
    case DivMod(r, ds, es) => IrOptInst(OpDivMod, r, off, |ds|, 0, |es|)
    case MulAdd(c, s, t, ds, pre, e) => IrOptInst(OpMulAdd, c, off, |ds| + 2, e, if pre then 1 else 0)
    case Copy(s, t, ds, e) => IrOptInst(OpCopy, s, off, |ds| + 1, e, 0)
    case DivBin(r, p, rem, q, xs, e) => IrOptInst(OpDivBin, r, off, |xs| + 3, e, 0)
  }

  predicate Encodable(op: Op) {
    (op.Transfer? ==> |op.dsts| > 0) && (op.DivMod? ==> |op.exits| > 0)
  }

  lemma TailSlice(pool: seq<nat>, mine: seq<nat>, a: nat, b: nat)
    requires a <= b <= |mine|
    ensures (pool + mine)[|pool| + a..|pool| + b] == mine[a..b]
  {
  }

  lemma TailEntry(pool: seq<nat>, mine: seq<nat>, a: nat)
    requires a < |mine|
    ensures (pool + mine)[|pool| + a] == mine[a]
  {
  }

  /** Reading the record for `op` back, its operands at the end of the pool, gives `op`. */
  ghost predicate ReadsBack(op: Op, pool: seq<nat>) {
    var inst, all := Encode(op, |pool|), pool + PoolOf(op);
    SliceOk(inst, |all|) && Decode(inst, all) == op && Span(inst) == |PoolOf(op)|
  }

  lemma ReadTransfer(r: nat, ds: seq<nat>, e: nat, pool: seq<nat>)
    requires |ds| > 0
    ensures ReadsBack(Transfer(r, ds, e), pool)
  {
    TailSlice(pool, ds, 0, |ds|);
  }

  lemma ReadDivMod(r: nat, ds: seq<nat>, es: seq<nat>, pool: seq<nat>)
    requires |es| > 0
    ensures ReadsBack(DivMod(r, ds, es), pool)
  {
    hide Decode;
    var mine := ds + es;
    TailSlice(pool, mine, 0, |ds|);
    TailSlice(pool, mine, |ds|, |ds| + |es|);
    assert mine[0..|ds|] == ds && mine[|ds|..|ds| + |es|] == es;
    DecodeDivMod(Encode(DivMod(r, ds, es), |pool|), pool + mine);
  }

  lemma DecodeDivMod(inst: IrOptInst, pool: seq<nat>)
    requires inst.op.OpDivMod? && SliceOk(inst, |pool|)
    ensures var mid := inst.destOff + inst.destCount;
            Decode(inst, pool) == DivMod(inst.reg, pool[inst.destOff..mid], pool[mid..mid + inst.argB])
  {
  }

  lemma ReadMulAdd(c: nat, s: nat, t: nat, ds: seq<nat>, pre: bool, e: nat, pool: seq<nat>)
    ensures ReadsBack(MulAdd(c, s, t, ds, pre, e), pool)
  {
    var mine := [s, t] + ds;
    TailEntry(pool, mine, 0);
    TailEntry(pool, mine, 1);
    TailSlice(pool, mine, 2, |ds| + 2);
    assert mine[2..|ds| + 2] == ds;
  }

  lemma ReadCopy(s: nat, t: nat, ds: seq<nat>, e: nat, pool: seq<nat>)
    ensures ReadsBack(Copy(s, t, ds, e), pool)
  {
    var mine := [t] + ds;
    TailEntry(pool, mine, 0);
    TailSlice(pool, mine, 1, |ds| + 1);
    assert mine[1..|ds| + 1] == ds;
  }

  lemma ReadDivBin(r: nat, p: nat, rem: nat, q: nat, xs: seq<nat>, e: nat, pool: seq<nat>)
    ensures ReadsBack(DivBin(r, p, rem, q, xs, e), pool)
  {
    var mine := [p, rem, q] + xs;
    TailEntry(pool, mine, 0);
    TailEntry(pool, mine, 1);
    TailEntry(pool, mine, 2);
    TailSlice(pool, mine, 3, |xs| + 3);
    assert mine[3..|xs| + 3] == xs;
  }

  lemma DecodeEncode(op: Op, pool: seq<nat>)
    requires Encodable(op)
    ensures ReadsBack(op, pool)
  {
    match op
    case Transfer(r, ds, e) => ReadTransfer(r, ds, e, pool);
    case DivMod(r, ds, es) => ReadDivMod(r, ds, es, pool);
    case MulAdd(c, s, t, ds, pre, e) => ReadMulAdd(c, s, t, ds, pre, e, pool);
    case Copy(s, t, ds, e) => ReadCopy(s, t, ds, e, pool);
    case DivBin(r, p, rem, q, xs, e) => ReadDivBin(r, p, rem, q, xs, e, pool);
    case _ =>
  }

  lemma DecodeExtends(inst: IrOptInst, pool: seq<nat>, more: seq<nat>)
    requires SliceOk(inst, |pool|)
    ensures SliceOk(inst, |pool + more|) && Decode(inst, pool + more) == Decode(inst, pool)
  {
    var all := pool + more;
    assert forall lo, hi :: 0 <= lo <= hi <= |pool| ==> all[lo..hi] == pool[lo..hi];
  }

  /** Emitting one more operation at the end of the pool. */
  lemma PackAppend(insts: seq<IrOptInst>, pool: seq<nat>, op: Op)
    requires PackOk(insts, pool) && Encodable(op)
    ensures PackOk(insts + [Encode(op, |pool|)], pool + PoolOf(op))
    ensures ViewOf(insts + [Encode(op, |pool|)], pool + PoolOf(op)) == ViewOf(insts, pool) + [op]
  {
    hide Decode, Encode, SliceOk;
    var inst, more := Encode(op, |pool|), PoolOf(op);
    var insts', pool' := insts + [inst], pool + more;
    DecodeEncode(op, pool);
    forall i | 0 <= i < |insts|
      ensures SliceOk(insts[i], |pool'|) && Decode(insts[i], pool') == Decode(insts[i], pool)
    {
      DecodeExtends(insts[i], pool, more);
    }
    forall i | 0 <= i < |insts| ensures Before(insts[i], inst) {
      SpanBelow(insts[i], |pool|);
      EncodeOff(op, |pool|);
    }
  }

  lemma SpanBelow(inst: IrOptInst, total: nat)
    requires SliceOk(inst, total)
    ensures Span(inst) > 0 ==> inst.destOff + Span(inst) <= total
  {
  }

  lemma EncodeOff(op: Op, off: nat)
    ensures Span(Encode(op, off)) > 0 ==> Encode(op, off).destOff == off
  {
  }

  // ---------------------------------------------------------------------------
  // Rewriting one jump target in place
  // ---------------------------------------------------------------------------

  function SlotCount(inst: IrOptInst): nat {
    match inst.op
    case OpEnd => 0
    case OpDeb => 2
    case OpIsZero => 2
    case OpDivMod => inst.argB
    case _ => 1
  }

  /** The `k`-th jump target of a record, the non-zero branch first. */
  function Slot(inst: IrOptInst, pool: seq<nat>, k: nat): nat
    requires SliceOk(inst, |pool|) && k < SlotCount(inst)
  {
    match inst.op
    case OpDeb => if k == 0 then inst.argB else inst.argA
    case OpIsZero => if k == 0 then inst.argB else inst.argA
    case OpDivMod => pool[inst.destOff + inst.destCount + k]
    case _ => inst.argA
  }

  lemma SlotIsTarget(inst: IrOptInst, pool: seq<nat>)
    requires SliceOk(inst, |pool|)
    ensures SlotCount(inst) == |Targets(Decode(inst, pool))|
    ensures forall k :: 0 <= k < SlotCount(inst) ==> Slot(inst, pool, k) == Targets(Decode(inst, pool))[k]
  {
  }

  /** `op` with its `k`-th target replaced. */
  function SetTarget(op: Op, k: nat, t: nat): Op
    requires k < |Targets(op)|
  {
    WithTargets(op, Targets(op)[k := t])
  }

  function SetSlotInst(inst: IrOptInst, k: nat, t: nat): IrOptInst
    requires k < SlotCount(inst)
  {
    match inst.op
    case OpDeb => if k == 0 then inst.(argB := t) else inst.(argA := t)
    case OpIsZero => if k == 0 then inst.(argB := t) else inst.(argA := t)
    case OpDivMod => inst
    case _ => inst.(argA := t)
  }

  /** Where in the pool the target lives, for the one record that keeps it there. */
  function SetSlotPool(inst: IrOptInst, pool: seq<nat>, k: nat, t: nat): (r: seq<nat>)
    requires SliceOk(inst, |pool|) && k < SlotCount(inst)
    ensures |r| == |pool|
  {
    if inst.op.OpDivMod? then pool[inst.destOff + inst.destCount + k := t] else pool
  }

  /** An exit of a division lives in the pool, behind the destinations. */
  lemma SetDivModExit(inst: IrOptInst, pool: seq<nat>, k: nat, t: nat)
    requires SliceOk(inst, |pool|) && inst.op.OpDivMod? && k < inst.argB
    ensures var pool' := pool[inst.destOff + inst.destCount + k := t];
            && k < |Targets(Decode(inst, pool))|
            && Decode(inst, pool') == SetTarget(Decode(inst, pool), k, t)
  {
    var lo, mid := inst.destOff, inst.destOff + inst.destCount;
    EntrySet(pool, lo, mid, mid + inst.argB, k, t);
  }

  lemma EntrySet(pool: seq<nat>, lo: nat, mid: nat, hi: nat, k: nat, t: nat)
    requires lo <= mid <= mid + k < hi <= |pool|
    ensures var pool' := pool[mid + k := t];
            pool'[lo..mid] == pool[lo..mid] && pool'[mid..hi] == pool[mid..hi][k := t]
  {
  }

  /** A two-way jump keeps both targets in the record. */
  lemma SetBranch(inst: IrOptInst, pool: seq<nat>, k: nat, t: nat)
    requires SliceOk(inst, |pool|) && (inst.op.OpDeb? || inst.op.OpIsZero?) && k < 2
    ensures SliceOk(SetSlotInst(inst, k, t), |pool|) && k < |Targets(Decode(inst, pool))|
    ensures Decode(SetSlotInst(inst, k, t), pool) == SetTarget(Decode(inst, pool), k, t)
  {
  }

  /** Every other record keeps its one exit in the record; its operands are untouched. */
  lemma SetExit(inst: IrOptInst, pool: seq<nat>, t: nat)
    requires SliceOk(inst, |pool|) && !inst.op.OpDivMod? && SlotCount(inst) == 1
    ensures SliceOk(SetSlotInst(inst, 0, t), |pool|) && 0 < |Targets(Decode(inst, pool))|
    ensures Decode(SetSlotInst(inst, 0, t), pool) == SetTarget(Decode(inst, pool), 0, t)
  {
  }

  lemma SetSlotDecode(inst: IrOptInst, pool: seq<nat>, k: nat, t: nat)
    requires SliceOk(inst, |pool|) && k < SlotCount(inst)
    ensures var inst', pool' := SetSlotInst(inst, k, t), SetSlotPool(inst, pool, k, t);
            && SliceOk(inst', |pool'|) && Span(inst') == Span(inst) && inst'.destOff == inst.destOff
            && k < |Targets(Decode(inst, pool))|
            && Decode(inst', pool') == SetTarget(Decode(inst, pool), k, t)
  {
    match inst.op
    case OpDivMod => SetDivModExit(inst, pool, k, t);
    case OpDeb => SetBranch(inst, pool, k, t);
    case OpIsZero => SetBranch(inst, pool, k, t);
    case _ => SetExit(inst, pool, t);
  }

  /** A pool entry outside a record's slice does not matter to it. */
  lemma DecodeElsewhere(inst: IrOptInst, pool: seq<nat>, x: nat, v: nat)
    requires SliceOk(inst, |pool|) && x < |pool|
    requires Span(inst) > 0 ==> x < inst.destOff || x >= inst.destOff + Span(inst)
    ensures Decode(inst, pool[x := v]) == Decode(inst, pool)
  {
    var pool' := pool[x := v];
    var lo, hi := inst.destOff, inst.destOff + Span(inst);
    if Span(inst) > 0 {
      assert forall a, b :: lo <= a <= b <= hi ==> pool'[a..b] == pool[a..b];
    }
  }

  /** Rewriting a target in place changes that one operation and no other, although the
      exits of all divisions share one pool. */
  lemma PackSetSlot(insts: seq<IrOptInst>, pool: seq<nat>, i: nat, k: nat, t: nat)
    requires PackOk(insts, pool) && i < |insts| && k < SlotCount(insts[i])
    ensures var insts', pool' := insts[i := SetSlotInst(insts[i], k, t)], SetSlotPool(insts[i], pool, k, t);
            && PackOk(insts', pool')
            && k < |Targets(ViewOf(insts, pool)[i])|
            && ViewOf(insts', pool') == ViewOf(insts, pool)[i := SetTarget(ViewOf(insts, pool)[i], k, t)]
  {
    hide Decode, SetSlotInst, SetTarget;
    var insts', pool' := insts[i := SetSlotInst(insts[i], k, t)], SetSlotPool(insts[i], pool, k, t);
    SetSlotDecode(insts[i], pool, k, t);
    forall j | 0 <= j < |insts| && j != i
      ensures SliceOk(insts'[j], |pool'|) && Decode(insts'[j], pool') == Decode(insts[j], pool)
    {
      if insts[i].op.OpDivMod? {
        assert if j < i then Before(insts[j], insts[i]) else Before(insts[i], insts[j]);
        DecodeElsewhere(insts[j], pool, insts[i].destOff + insts[i].destCount + k, t);
      }
    }
    forall a, b | 0 <= a < b < |insts'| ensures Before(insts'[a], insts'[b]) {
      assert Before(insts[a], insts[b]);
    }
  }

  /** Dropping records keeps the rest in order. */
  lemma PackKeep(insts: seq<IrOptInst>, pool: seq<nat>, kept: seq<IrOptInst>, from: seq<nat>)
    requires PackOk(insts, pool) && |kept| == |from|
    requires forall j :: 0 <= j < |from| ==> from[j] < |insts| && kept[j] == insts[from[j]]
    requires forall j, k :: 0 <= j < k < |from| ==> from[j] < from[k]
    ensures PackOk(kept, pool)
    ensures forall j :: 0 <= j < |kept| ==> ViewOf(kept, pool)[j] == ViewOf(insts, pool)[from[j]]
  {
    hide Decode, SliceOk;
    forall j, k | 0 <= j < k < |kept| ensures Before(kept[j], kept[k]) {
      assert Before(insts[from[j]], insts[from[k]]);
    }
  }
}
