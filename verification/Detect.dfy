/** The pattern detectors: each scans raw code from a starting instruction and reports the
    loop found there, if its shape is exactly right and its body is private. */
module Detect {
  import opened Machine
  import opened Loops
  import opened Passes
  import opened Folding

  datatype Option<+T> = None | Some(value: T)

  /** The order in which the detectors are tried. */
  function Kind(op: Op): nat {
    match op
    case DivBin(_, _, _, _, _, _) => 0
    case MulAdd(_, _, _, _, _, _) => 1
    case Copy(_, _, _, _) => 2
    case Transfer(_, _, _) => 3
    case DivMod(_, _, _) => 4
    case IsZero(_, _, _) => 5
    case Zero(_, _) => 6
    case _ => 7
  }

  /** There is a foldable loop of this kind at `start`. */
  ghost predicate Has(p: Program, start: nat, kind: nat) {
    exists f: Fold :: f.start == start && Kind(f.op) == kind && GoodFold(p, f)
  }

  /** `r` is a foldable loop of this kind at `start`, and is absent only if there is none. */
  ghost predicate Answers(p: Program, start: nat, kind: nat, r: Option<Fold>) {
    match r
    case Some(f) => f.start == start && Kind(f.op) == kind && GoodFold(p, f)
    case None => !Has(p, start, kind)
  }

  // ---------------------------------------------------------------------------
  // Helpers
  // ---------------------------------------------------------------------------

  predicate IsDeb(p: Program, i: nat) {
    i < |p| && p[i].Deb?
  }

  predicate IsInc(p: Program, i: nat) {
    i < |p| && p[i].Inc?
  }

  ghost predicate Targeted(p: Program, i: nat, idx: nat, lo: nat, hi: nat) {
    i < |p| && !(lo <= i < hi) && idx in Targets(p[i])
  }

  ghost predicate FromOutside(p: Program, idx: nat, lo: nat, hi: nat) {
    exists i: nat :: Targeted(p, i, idx, lo, hi)
  }

  method TargetedFromOutside(p: Program, idx: nat, lo: nat, hi: nat) returns (r: bool)
    requires IsRaw(p)
    ensures r <==> idx == 0 || FromOutside(p, idx, lo, hi)
  {
    if idx == 0 {
      return true;
    }
    for i := 0 to |p|
      invariant forall j :: 0 <= j < i ==> !Targeted(p, j, idx, lo, hi)
    {
      if !(lo <= i < hi) {
        var op := p[i];
        if op.Inc? && op.next == idx {
          assert Targets(op)[0] == idx;
          assert Targeted(p, i, idx, lo, hi);
          return true;
        }
        if op.Deb? && (op.onZero == idx || op.onTake == idx) {
          assert Targets(op)[0] == idx || Targets(op)[1] == idx;
          assert Targeted(p, i, idx, lo, hi);
          return true;
        }
      }
    }
    return false;
  }

  method BodyIsPrivate(p: Program, start: nat, end: nat, exits: seq<nat>) returns (r: bool)
    requires IsRaw(p)
    ensures r <==> PrivateRange(p, start, end, exits)
  {
    hide Targets;
    var j := start + 1;
    while j < end
      invariant forall j' :: start < j' < j ==> !FromOutside(p, j', start, end)
    {
      var hit := TargetedFromOutside(p, j, start, end);
      if hit {
        ghost var i: nat :| Targeted(p, i, j, start, end);
        ghost var k :| 0 <= k < |Targets(p[i])| && Targets(p[i])[k] == j;
        assert !Misses(Targets(p[i]), start, end);
        return false;
      }
      j := j + 1;
    }
    forall i | 0 <= i < |p| && !(start <= i < end) ensures Misses(Targets(p[i]), start, end) {
      forall k | 0 <= k < |Targets(p[i])| ensures !(start < Targets(p[i])[k] < end) {
        assert Targeted(p, i, Targets(p[i])[k], start, end);
        assert FromOutside(p, Targets(p[i])[k], start, end);
      }
    }
    for e := 0 to |exits|
      invariant forall e' :: 0 <= e' < e ==> !(start < exits[e'] < end)
    {
      if exits[e] > start && exits[e] < end {
        return false;
      }
    }
    return true;
  }

  ghost predicate NoRun(p: Program, i: nat, back: nat, exclude: nat) {
    forall m :: !IncRun(p, i, m, back, exclude)
  }

  method CollectIncRun(p: Program, idx0: nat, back: nat, exclude: nat) returns (n: nat, regs: seq<nat>)
    ensures n == |regs|
    ensures n > 0 ==> IncRunOf(p, idx0, back, exclude, regs)
    ensures n == 0 ==> NoRun(p, idx0, back, exclude)
  {
    n, regs := 0, [];
    var idx := idx0;
    while true
      invariant n == |regs| == idx - idx0 && idx0 <= idx && n <= MAX_DESTS
      invariant idx <= |p| || idx == idx0
      invariant forall j :: idx0 <= j < idx ==>
                  j < |p| && p[j].Inc? && p[j].reg == regs[j - idx0] && p[j].reg != exclude
                  && p[j].next == j + 1 && p[j].next != back
      decreases MAX_DESTS - n
    {
      if !IsInc(p, idx) || p[idx].reg == exclude || n >= MAX_DESTS {
        n, regs := 0, [];
        return;
      }
      var inc := p[idx];
      regs := regs + [inc.reg];
      n := n + 1;
      if inc.next == back {
        assert RunRegs(p, idx0, n) == regs;
        return;
      }
      if inc.next != idx + 1 {
        n, regs := 0, [];
        return;
      }
      idx := idx + 1;
    }
  }

  /** A run of gives is as long as its first jump back. */
  lemma RunUnique(p: Program, i: nat, n: nat, m: nat, back: nat, exclude: nat)
    requires IncRun(p, i, n, back, exclude) && IncRun(p, i, m, back, exclude)
    ensures n == m
  {
  }

  /** Every foldable loop begins with a take. */
  lemma StartsWithTake(p: Program, f: Fold)
    requires LoopShape(p, f)
    ensures IsDeb(p, f.start)
  {
    hide Times, Without, Distinct, RunRegs;
    if f.op.DivMod? {
      DivModForm(p, f);
    }
  }

  lemma NoLoopHere(p: Program, start: nat, kind: nat)
    requires !IsDeb(p, start)
    ensures !Has(p, start, kind)
  {
    hide LoopShape;
    forall f: Fold | f.start == start && LoopShape(p, f) ensures false {
      StartsWithTake(p, f);
    }
  }

  // ---------------------------------------------------------------------------
  // One detector per loop
  // ---------------------------------------------------------------------------

  method DetectZero(p: Program, start: nat) returns (r: Option<Fold>)
    requires IsRaw(p)
    ensures Answers(p, start, 6, r)
  {
    if !IsDeb(p, start) || p[start].onTake != start {
      return None;
    }
    var f := Fold(start, start + 1, Zero(p[start].reg, p[start].onZero));
    return Some(f);
  }

  method DetectIsZero(p: Program, start: nat) returns (r: Option<Fold>)
    requires IsRaw(p)
    ensures Answers(p, start, 5, r)
  {
    if !IsDeb(p, start) || !IsInc(p, start + 1) {
      return None;
    }
    var deb, inc := p[start], p[start + 1];
    if deb.reg != inc.reg || deb.onTake != start + 1 {
      return None;
    }
    var priv := BodyIsPrivate(p, start, start + 2, [inc.next, deb.onZero]);
    if !priv {
      return None;
    }
    return Some(Fold(start, start + 2, IsZero(deb.reg, deb.onZero, inc.next)));
  }

  method DetectTransfer(p: Program, start: nat) returns (r: Option<Fold>)
    requires IsRaw(p)
    ensures Answers(p, start, 3, r)
  {
    hide PrivateRange, IncRun, RunRegs;
    if !IsDeb(p, start) {
      return None;
    }
    var deb := p[start];
    if deb.onTake != start + 1 {
      return None;
    }
    var n, dsts := CollectIncRun(p, start + 1, start, deb.reg);
    if n == 0 {
      return None;
    }
    var end := start + 1 + n;
    forall f: Fold | f.start == start && TransferLoop(p, f)
      ensures f.op == Transfer(deb.reg, dsts, deb.onZero) && f.end == end
    {
      RunUnique(p, start + 1, n, |f.op.dsts|, start, deb.reg);
    }
    var priv := BodyIsPrivate(p, start, end, [deb.onZero]);
    if !priv {
      return None;
    }
    return Some(Fold(start, end, Transfer(deb.reg, dsts, deb.onZero)));
  }

  ghost predicate Block(p: Program, s: nat, r: nat, k: nat) {
    s + k <= |p| && forall j :: s <= j < s + k ==> p[j].Deb? && p[j].reg == r
  }

  ghost predicate BlockEnds(p: Program, s: nat, r: nat, k: nat) {
    Block(p, s, r, k) && !(s + k < |p| && p[s + k].Deb? && p[s + k].reg == r)
  }

  lemma BlockUnique(p: Program, s: nat, r: nat, k: nat, l: nat)
    requires BlockEnds(p, s, r, k) && Block(p, s, r, l)
    ensures l <= k
  {
  }

  /** What the detector checks about the block of `k` takes at `s`. */
  ghost predicate Divides(p: Program, s: nat, r: nat, k: nat, dsts: seq<nat>) {
    && 2 <= k <= MAX_DESTS
    && BlockEnds(p, s, r, k)
    && (forall j :: s <= j < s + k - 1 ==> p[j].onTake == j + 1)
    && p[s + k - 1].onTake == (if dsts == [] then s else s + k)
    && (dsts == [] || IncRunOf(p, s + k, s, r, dsts))
  }

  function ZeroBranches(p: Program, s: nat, k: nat): (es: seq<nat>)
    requires s + k <= |p| && forall j :: s <= j < s + k ==> p[j].Deb?
  {
    seq(k, j requires 0 <= j < k => p[s + j].onZero)
  }

  lemma ChainAt(p: Program, s: nat, r: nat, exits: seq<nat>, last: nat, i: nat)
    requires TakeChain(p, s, r, exits, last) && s <= i < s + |exits|
    ensures i < |p| && p[i] == Deb(r, exits[i - s], if i + 1 < s + |exits| then i + 1 else last)
  {
    var j := i - s;
    assert p[s + j] == Deb(r, exits[j], if j + 1 < |exits| then s + j + 1 else last);
  }

  lemma DivModForm(p: Program, f: Fold)
    requires DivModLoop(p, f)
    ensures Divides(p, f.start, f.op.reg, |f.op.exits|, f.op.dsts)
    ensures f.op.exits == ZeroBranches(p, f.start, |f.op.exits|)
    ensures f.end == f.start + |f.op.exits| + |f.op.dsts|
  {
    hide IncRunOf, TakeChain;
    var k, s, es := |f.op.exits|, f.start, f.op.exits;
    var last := if f.op.dsts == [] then s else s + k;
    assert s + k <= |p| by {
      ChainAt(p, s, f.op.reg, es, last, s + k - 1);
    }
    forall j | s <= j < s + k
      ensures p[j] == Deb(f.op.reg, es[j - s], if j + 1 < s + k then j + 1 else last)
    {
      ChainAt(p, s, f.op.reg, es, last, j);
    }
    forall j | 0 <= j < k ensures es[j] == p[s + j].onZero {
      ChainAt(p, s, f.op.reg, es, last, s + j);
    }
  }

  lemma DivModMake(p: Program, s: nat, r: nat, k: nat, dsts: seq<nat>)
    requires Divides(p, s, r, k, dsts)
    ensures DivModLoop(p, Fold(s, s + k + |dsts|, DivMod(r, dsts, ZeroBranches(p, s, k))))
  {
    hide IncRunOf;
  }

  /** With the block of takes measured, there is a division loop only if it divides. */
  lemma NoDivMod(p: Program, s: nat, k: nat)
    requires IsDeb(p, s) && BlockEnds(p, s, p[s].reg, k)
    requires forall dsts :: !Divides(p, s, p[s].reg, k, dsts)
    ensures !Has(p, s, 4)
  {
    hide DivModLoop;
    forall f: Fold | f.start == s && f.op.DivMod? && DivModLoop(p, f) ensures false {
      DivModForm(p, f);
      assert p[s].reg == f.op.reg;
      BlockUnique(p, s, f.op.reg, |f.op.exits|, k);
      BlockUnique(p, s, f.op.reg, k, |f.op.exits|);
    }
  }

  lemma NoLongDivMod(p: Program, s: nat, k: nat)
    requires IsDeb(p, s) && Block(p, s, p[s].reg, k) && k > MAX_DESTS
    ensures !Has(p, s, 4)
  {
    hide DivModLoop;
    forall f: Fold | f.start == s && f.op.DivMod? && DivModLoop(p, f) ensures false {
      DivModForm(p, f);
      assert p[s].reg == f.op.reg;
      BlockUnique(p, s, f.op.reg, |f.op.exits|, k);
    }
  }

  lemma DivModUnique(p: Program, f: Fold, g: Fold)
    requires DivModLoop(p, f) && DivModLoop(p, g) && f.start == g.start
    ensures f == g
  {
    hide IncRun;
    DivModForm(p, f);
    DivModForm(p, g);
    assert p[f.start].reg == f.op.reg == g.op.reg;
    BlockUnique(p, f.start, f.op.reg, |f.op.exits|, |g.op.exits|);
    BlockUnique(p, f.start, f.op.reg, |g.op.exits|, |f.op.exits|);
    if f.op.dsts != [] {
      RunUnique(p, f.start + |f.op.exits|, |f.op.dsts|, |g.op.dsts|, f.start, f.op.reg);
    }
  }

  lemma NotPrivate(p: Program, f: Fold)
    requires LoopShape(p, f) && !Private(p, f)
    requires forall g: Fold :: g.start == f.start && Kind(g.op) == Kind(f.op) && LoopShape(p, g) ==> g == f
    ensures !Has(p, f.start, Kind(f.op))
  {
    hide LoopShape, Private;
  }

  /** How many takes of `r` stand in a row at `start`; `None` if too many. */
  method CountTakes(p: Program, start: nat, r: nat) returns (k: Option<nat>)
    ensures k.Some? ==> k.value <= MAX_DESTS && BlockEnds(p, start, r, k.value)
    ensures k.None? ==> Block(p, start, r, MAX_DESTS + 1)
    requires start <= |p|
  {
    var n := 0;
    while IsDeb(p, start + n) && p[start + n].reg == r
      invariant n <= MAX_DESTS && Block(p, start, r, n)
      decreases MAX_DESTS - n
    {
      if n >= MAX_DESTS {
        return None;
      }
      n := n + 1;
    }
    return Some(n);
  }

  /** Each take of the block but the last flows to its successor. */
  method IsChain(p: Program, start: nat, k: nat) returns (b: bool)
    requires start + k <= |p| && forall i :: start <= i < start + k ==> p[i].Deb?
    ensures b <==> forall i :: start <= i < start + k - 1 ==> p[i].onTake == i + 1
  {
    for j := 0 to k
      invariant forall i :: start <= i < start + j && i < start + k - 1 ==> p[i].onTake == i + 1
    {
      if j + 1 < k && p[start + j].onTake != start + j + 1 {
        return false;
      }
    }
    return true;
  }

  method DetectDivMod(p: Program, start: nat) returns (r: Option<Fold>)
    requires IsRaw(p)
    ensures Answers(p, start, 4, r)
  {
    hide PrivateRange, IncRunOf, DivModLoop, Has, LoopShape;
    if !IsDeb(p, start) {
      NoLoopHere(p, start, 4);
      return None;
    }
    var R := p[start].reg;
    var count := CountTakes(p, start, R);
    if count.None? {
      NoLongDivMod(p, start, MAX_DESTS + 1);
      return None;
    }
    var k := count.value;
    var chain := IsChain(p, start, k);
    if k < 2 || !chain {
      NoDivMod(p, start, k);
      return None;
    }
    var exits := ZeroBranches(p, start, k);
    var last := p[start + k - 1].onTake;
    var dsts: seq<nat>, end := [], start + k;
    if last == start {
    } else if last == start + k {
      var n;
      n, dsts := CollectIncRun(p, start + k, start, R);
      if n == 0 {
        NoRunNone(p, start + k, start, R);
        NoDivMod(p, start, k);
        return None;
      }
      end := start + k + n;
    } else {
      NoDivMod(p, start, k);
      return None;
    }
    var f := Fold(start, end, DivMod(R, dsts, exits));
    DivModMake(p, start, R, k, dsts);
    var priv := BodyIsPrivate(p, start, end, exits);
    DivModShape(p, f);
    if !priv {
      forall g: Fold | g.start == start && Kind(g.op) == 4 && LoopShape(p, g) ensures g == f {
        DivModShape(p, g);
        DivModUnique(p, f, g);
      }
      NotPrivate(p, f);
      return None;
    }
    return Some(f);
  }

  lemma DivModShape(p: Program, f: Fold)
    requires f.op.DivMod?
    ensures LoopShape(p, f) <==> DivModLoop(p, f)
  {
    hide DivModLoop;
  }

  lemma NoRunNone(p: Program, i: nat, back: nat, exclude: nat)
    requires NoRun(p, i, back, exclude)
    ensures forall rs :: !IncRunOf(p, i, back, exclude, rs)
  {
  }

  lemma RunOfUnique(p: Program, i: nat, back: nat, exclude: nat, rs: seq<nat>, rs': seq<nat>)
    requires IncRunOf(p, i, back, exclude, rs) && IncRunOf(p, i, back, exclude, rs')
    ensures rs == rs'
  {
    RunUnique(p, i, |rs|, |rs'|, back, exclude);
  }

  /** Pairwise distinctness by comparing every pair. */
  method AllDistinct(rs: seq<nat>) returns (b: bool)
    ensures b <==> Distinct(rs)
  {
    for a := 0 to |rs|
      invariant forall i, j :: 0 <= i < a && i < j < |rs| ==> rs[i] != rs[j]
    {
      for c := a + 1 to |rs|
        invariant forall j :: a < j < c ==> rs[a] != rs[j]
      {
        if rs[a] == rs[c] {
          return false;
        }
      }
    }
    return true;
  }

  // ---- multiplication -------------------------------------------------------

  function MulAddPre(p: Program, s: nat): bool
    requires IsDeb(p, s + 1)
  {
    p[s + 1].onTake == s + 1
  }

  function MulAddHead(p: Program, s: nat): nat
    requires IsDeb(p, s + 1)
  {
    if MulAddPre(p, s) then s + 2 else s + 1
  }

  /** The counter, the optional clear and the take that opens the inner transfer. */
  predicate MulAddOpens(p: Program, s: nat) {
    && IsDeb(p, s) && p[s].onTake == s + 1 && IsDeb(p, s + 1)
    && var head := MulAddHead(p, s);
    && (MulAddPre(p, s) ==> p[s + 1].onZero == head)
    && IsDeb(p, head) && p[head].onTake == head + 1
  }

  /** The rest of the multiply loop, given the registers of its run. */
  predicate MulAddCloses(p: Program, s: nat, regs: seq<nat>)
    requires MulAddOpens(p, s)
  {
    var head := MulAddHead(p, s);
    var tx := head + 1 + |regs|;
    && |regs| > 0
    && var t := regs[|regs| - 1];
    && p[head].onZero == tx
    && (MulAddPre(p, s) ==> p[s + 1].reg == t)
    && InstAt(p, tx, Deb(t, s, tx + 1))
    && InstAt(p, tx + 1, Inc(p[head].reg, tx))
    && Distinct([p[s].reg, p[head].reg] + regs)
    && |regs| + 1 <= MAX_DESTS
  }

  function MulAddFold(p: Program, s: nat, regs: seq<nat>): Fold
    requires MulAddOpens(p, s) && |regs| > 0
  {
    var head := MulAddHead(p, s);
    Fold(s, head + 1 + |regs| + 2,
         MulAdd(p[s].reg, p[head].reg, regs[|regs| - 1], regs[..|regs| - 1], MulAddPre(p, s), p[s].onZero))
  }

  lemma MulAddForm(p: Program, f: Fold)
    requires MulAddLoop(p, f)
    ensures MulAddOpens(p, f.start)
    ensures var regs := f.op.dsts + [f.op.t];
            && IncRunOf(p, MulAddHead(p, f.start) + 1, MulAddHead(p, f.start), p[MulAddHead(p, f.start)].reg, regs)
            && MulAddCloses(p, f.start, regs) && f == MulAddFold(p, f.start, regs)
  {
    hide IncRunOf, Distinct;
    var regs := f.op.dsts + [f.op.t];
    assert [f.op.reg, f.op.s] + f.op.dsts + [f.op.t] == [f.op.reg, f.op.s] + regs;
    assert regs[..|regs| - 1] == f.op.dsts;
  }

  lemma MulAddMake(p: Program, s: nat, regs: seq<nat>)
    requires MulAddOpens(p, s) && MulAddCloses(p, s, regs)
    requires IncRunOf(p, MulAddHead(p, s) + 1, MulAddHead(p, s), p[MulAddHead(p, s)].reg, regs)
    ensures MulAddLoop(p, MulAddFold(p, s, regs))
  {
    hide IncRunOf, Distinct;
    var ds, t := regs[..|regs| - 1], regs[|regs| - 1];
    assert ds + [t] == regs;
    var c, r := p[s].reg, p[MulAddHead(p, s)].reg;
    assert [c, r] + ds + [t] == [c, r] + regs;
  }

  lemma NoMulAddOpening(p: Program, s: nat)
    requires !MulAddOpens(p, s)
    ensures !Has(p, s, 1)
  {
    hide MulAddOpens, MulAddLoop, MulAddCloses, IncRunOf;
    forall f: Fold | f.start == s && f.op.MulAdd? && MulAddLoop(p, f) ensures false {
      MulAddForm(p, f);
    }
  }

  lemma NoMulAddRun(p: Program, s: nat)
    requires MulAddOpens(p, s)
    requires NoRun(p, MulAddHead(p, s) + 1, MulAddHead(p, s), p[MulAddHead(p, s)].reg)
    ensures !Has(p, s, 1)
  {
    hide MulAddLoop, MulAddCloses;
    forall f: Fold | f.start == s && f.op.MulAdd? && MulAddLoop(p, f) ensures false {
      MulAddForm(p, f);
    }
  }

  /** The run of gives fixes everything else, so failing the rest means there is no loop. */
  lemma MulAddDecided(p: Program, s: nat, regs: seq<nat>)
    requires MulAddOpens(p, s)
    requires IncRunOf(p, MulAddHead(p, s) + 1, MulAddHead(p, s), p[MulAddHead(p, s)].reg, regs)
    ensures |regs| > 0
    ensures forall f: Fold :: f.start == s && f.op.MulAdd? && MulAddLoop(p, f) ==>
              MulAddCloses(p, s, regs) && f == MulAddFold(p, s, regs)
  {
    hide MulAddLoop, IncRunOf, MulAddCloses, MulAddFold;
    var head := MulAddHead(p, s);
    assert |regs| > 0 by { RunNonEmpty(p, head + 1, head, p[head].reg, regs); }
    forall f: Fold | f.start == s && f.op.MulAdd? && MulAddLoop(p, f)
      ensures MulAddCloses(p, s, regs) && f == MulAddFold(p, s, regs)
    {
      MulAddForm(p, f);
      RunOfUnique(p, head + 1, head, p[head].reg, regs, f.op.dsts + [f.op.t]);
    }
  }

  /** A run consists of one give of `s` exactly when that give is there. */
  lemma SingleGive(p: Program, i: nat, back: nat, t: nat, s: nat, regs: seq<nat>)
    requires s != t
    requires if |regs| > 0 then IncRunOf(p, i, back, t, regs) else NoRun(p, i, back, t)
    ensures InstAt(p, i, Inc(s, back)) <==> regs == [s]
  {
    if regs == [s] {
      assert RunRegs(p, i, |regs|)[0] == p[i + 0].reg;
    } else if InstAt(p, i, Inc(s, back)) {
      SingleRun(p, i, back, t, s);
      if |regs| > 0 {
        RunOfUnique(p, i, back, t, [s], regs);
      }
    }
  }

  lemma RunNonEmpty(p: Program, i: nat, back: nat, exclude: nat, rs: seq<nat>)
    requires IncRunOf(p, i, back, exclude, rs)
    ensures |rs| > 0 && exclude !in rs
  {
  }

  lemma ShapeIsMulAdd(p: Program, f: Fold)
    requires Kind(f.op) == 1
    ensures LoopShape(p, f) <==> f.op.MulAdd? && MulAddLoop(p, f)
  {
    hide MulAddLoop;
  }

  method DetectMulAdd(p: Program, start: nat) returns (r: Option<Fold>)
    requires IsRaw(p)
    ensures Answers(p, start, 1, r)
  {
    hide PrivateRange, IncRunOf, Distinct, LoopShape, Has, MulAddLoop, NoRun;
    if !IsDeb(p, start) || p[start].onTake != start + 1 || !IsDeb(p, start + 1) {
      NoMulAddOpening(p, start);
      return None;
    }
    var C, exit := p[start].reg, p[start].onZero;
    var pre := p[start + 1].onTake == start + 1;
    var s0 := if pre then start + 2 else start + 1;
    if (pre && p[start + 1].onZero != s0) || !IsDeb(p, s0) || p[s0].onTake != s0 + 1 {
      NoMulAddOpening(p, start);
      return None;
    }
    var S, tx := p[s0].reg, p[s0].onZero;
    var n, regs := CollectIncRun(p, s0 + 1, s0, S);
    if n == 0 {
      NoMulAddRun(p, start);
      return None;
    }
    MulAddDecided(p, start, regs);
    var closes := MulAddTail(p, start, s0, regs);
    if !closes {
      NoMulAddTail(p, start, regs);
      return None;
    }
    var f := Fold(start, tx + 2, MulAdd(C, S, regs[n - 1], regs[..n - 1], pre, exit));
    MulAddMake(p, start, regs);
    var priv := BodyIsPrivate(p, start, tx + 2, [exit]);
    ShapeIsMulAdd(p, f);
    if !priv {
      forall g: Fold | g.start == start && Kind(g.op) == 1 && LoopShape(p, g) ensures g == f {
        ShapeIsMulAdd(p, g);
      }
      NotPrivate(p, f);
      return None;
    }
    return Some(f);
  }

  lemma NoMulAddTail(p: Program, s: nat, regs: seq<nat>)
    requires MulAddOpens(p, s)
    requires IncRunOf(p, MulAddHead(p, s) + 1, MulAddHead(p, s), p[MulAddHead(p, s)].reg, regs)
    requires !MulAddCloses(p, s, regs)
    ensures !Has(p, s, 1)
  {
    hide MulAddOpens, MulAddCloses, MulAddLoop, IncRunOf;
    MulAddDecided(p, s, regs);
  }

  /** The checks after the run of gives: the restoring transfer, distinctness, fan-out. */
  method MulAddTail(p: Program, start: nat, s0: nat, regs: seq<nat>) returns (b: bool)
    requires MulAddOpens(p, start) && s0 == MulAddHead(p, start)
    requires IncRunOf(p, s0 + 1, s0, p[s0].reg, regs)
    ensures b <==> MulAddCloses(p, start, regs)
  {
    hide Distinct;
    RunNonEmpty(p, s0 + 1, s0, p[s0].reg, regs);
    var n := |regs|;
    var S, T, tx := p[s0].reg, regs[n - 1], p[s0].onZero;
    if tx != s0 + 1 + n || (p[start + 1].onTake == start + 1 && p[start + 1].reg != T) || !IsDeb(p, tx) {
      return false;
    }
    if p[tx].reg != T || p[tx].onZero != start || p[tx].onTake != tx + 1 {
      return false;
    }
    var n2, regs2 := CollectIncRun(p, tx + 1, tx, T);
    assert S != T;
    SingleGive(p, tx + 1, tx, T, S, regs2);
    if n2 != 1 || regs2[0] != S {
      return false;
    }
    var distinct := AllDistinct([p[start].reg, S] + regs);
    return distinct && n + 1 <= MAX_DESTS;
  }

  // ---- division by a bin ----------------------------------------------------

  /** The clear of the remainder and the two lockstep takes. */
  predicate DivBinOpens(p: Program, s: nat) {
    && IsDeb(p, s) && p[s].onTake == s && p[s].onZero == s + 1
    && IsDeb(p, s + 1) && p[s + 1].onTake == s + 2
    && IsDeb(p, s + 2) && p[s + 2].onTake == s + 3
  }

  /** The refill and the quotient behind the lockstep run. */
  predicate DivBinRefills(p: Program, s: nat, regs: seq<nat>)
    requires DivBinOpens(p, s)
  {
    var full := s + 3 + |regs|;
    && p[s + 1].onZero == full
    && Times(regs, p[s].reg) == 1
    && InstAt(p, full, Deb(p[s].reg, full + 2, full + 1))
    && InstAt(p, full + 1, Inc(p[s + 1].reg, full))
    && IsInc(p, full + 2) && p[full + 2].next == s + 1
  }

  /** The registers compared for distinctness: dividend, divisor, quotient, and the run. */
  function DivBinRegs(p: Program, s: nat, regs: seq<nat>): seq<nat>
    requires DivBinOpens(p, s) && DivBinRefills(p, s, regs)
  {
    [p[s + 2].reg, p[s + 1].reg, p[s + 3 + |regs| + 2].reg] + regs
  }

  predicate DivBinCloses(p: Program, s: nat, regs: seq<nat>)
    requires DivBinOpens(p, s)
  {
    && DivBinRefills(p, s, regs)
    && Distinct(DivBinRegs(p, s, regs))
    && |regs| + 2 <= MAX_DESTS
  }

  /** How many registers the source's scratch array for them holds. */
  const SCRATCH: nat := MAX_DESTS + 1

  /** The fan-out check comes after the array is filled, and is exactly the check that the
      registers fitted in it. */
  lemma FanOutIsRoom(p: Program, s: nat, regs: seq<nat>)
    requires DivBinOpens(p, s) && DivBinRefills(p, s, regs)
    ensures DivBinCloses(p, s, regs) <==>
              Distinct(DivBinRegs(p, s, regs)) && |DivBinRegs(p, s, regs)| <= SCRATCH
  {
    hide Distinct, Times;
  }

  /** A nest whose lockstep run gives `n` times. */
  function WideNest(n: nat): Program
    requires n >= 1
  {
    [Deb(3, 1, 0), Deb(1, n + 3, 2), Deb(0, n + 6, 3)]
    + seq(n, i requires 0 <= i < n => Inc(3 + i, if i == n - 1 then 1 else 4 + i))
    + [Deb(3, n + 5, n + 4), Inc(1, n + 3), Inc(2, 1), End]
  }

  function WideRun(n: nat): seq<nat> {
    seq(n, i requires 0 <= i < n => 3 + i)
  }

  lemma WideCode(n: nat)
    requires n >= 1
    ensures var p := WideNest(n);
            && |p| == n + 7 && DivBinOpens(p, 0) && p[0] == Deb(3, 1, 0) && p[2] == Deb(0, n + 6, 3)
            && (forall j :: 3 <= j < n + 3 ==> p[j] == Inc(j, if j == n + 2 then 1 else j + 1))
            && p[1] == Deb(1, n + 3, 2) && p[n + 3] == Deb(3, n + 5, n + 4)
            && p[n + 4] == Inc(1, n + 3) && p[n + 5] == Inc(2, 1)
  {
  }

  lemma WideRuns(n: nat)
    requires 1 <= n <= MAX_DESTS
    ensures IncRunOf(WideNest(n), 3, 1, 0, WideRun(n))
  {
    hide WideNest;
    WideCode(n);
    assert RunRegs(WideNest(n), 3, n) == WideRun(n);
  }

  lemma WideRefills(n: nat)
    requires n >= 1
    ensures DivBinOpens(WideNest(n), 0) && DivBinRefills(WideNest(n), 0, WideRun(n))
    ensures DivBinRegs(WideNest(n), 0, WideRun(n)) == [0, 1, 2] + WideRun(n)
  {
    hide WideNest, Times;
    WideCode(n);
    FirstOnly(WideRun(n));
  }

  lemma FirstOnly(regs: seq<nat>)
    requires regs != [] && regs[0] == 3 && forall i :: 0 < i < |regs| ==> regs[i] != 3
    ensures Times(regs, 3) == 1
  {
    assert regs == [3] + regs[1..];
    assert 3 !in regs[1..];
  }

  function DivBinFold(p: Program, s: nat, regs: seq<nat>): Fold
    requires DivBinOpens(p, s) && IsInc(p, s + 3 + |regs| + 2)
  {
    var full := s + 3 + |regs|;
    Fold(s, full + 3, DivBin(p[s + 2].reg, p[s + 1].reg, p[s].reg, p[full + 2].reg,
                             Without(regs, p[s].reg), p[s + 2].onZero))
  }

  lemma DivBinForm(p: Program, f: Fold)
    requires DivBinLoop(p, f)
    ensures DivBinOpens(p, f.start)
    ensures IncRun(p, f.start + 3, |f.op.xs| + 1, f.start + 1, p[f.start + 2].reg)
    ensures var regs := RunRegs(p, f.start + 3, |f.op.xs| + 1);
            && IncRunOf(p, f.start + 3, f.start + 1, p[f.start + 2].reg, regs)
            && DivBinCloses(p, f.start, regs) && f == DivBinFold(p, f.start, regs)
  {
    hide Distinct, Times, Without;
  }

  lemma {:induction false} WithoutLength(rs: seq<nat>, t: nat)
    ensures |Without(rs, t)| + Times(rs, t) == |rs|
  {
    if rs != [] {
      WithoutLength(rs[1..], t);
      assert rs == [rs[0]] + rs[1..];
      assert Times(rs, t) == Times(rs[1..], t) + (if rs[0] == t then 1 else 0);
    }
  }

  lemma DivBinMake(p: Program, s: nat, regs: seq<nat>)
    requires DivBinOpens(p, s) && DivBinCloses(p, s, regs)
    requires IncRunOf(p, s + 3, s + 1, p[s + 2].reg, regs)
    ensures DivBinLoop(p, DivBinFold(p, s, regs))
  {
    hide Distinct, Times, Without, RunRegs;
    WithoutLength(regs, p[s].reg);
    assert |Without(regs, p[s].reg)| + 1 == |regs|;
    assert RunRegs(p, s + 3, |regs|) == regs;
  }

  lemma NoDivBinOpening(p: Program, s: nat)
    requires !DivBinOpens(p, s)
    ensures !Has(p, s, 0)
  {
    hide DivBinOpens, DivBinLoop, DivBinCloses, IncRunOf;
    forall f: Fold | f.start == s && f.op.DivBin? && DivBinLoop(p, f) ensures false {
      DivBinForm(p, f);
    }
  }

  lemma NoDivBinRun(p: Program, s: nat)
    requires DivBinOpens(p, s) && NoRun(p, s + 3, s + 1, p[s + 2].reg)
    ensures !Has(p, s, 0)
  {
    hide DivBinLoop, DivBinCloses;
    forall f: Fold | f.start == s && f.op.DivBin? && DivBinLoop(p, f) ensures false {
      DivBinForm(p, f);
    }
  }

  /** As for multiplication, the run of gives decides the rest. */
  lemma DivBinDecided(p: Program, s: nat, regs: seq<nat>)
    requires DivBinOpens(p, s) && IncRunOf(p, s + 3, s + 1, p[s + 2].reg, regs)
    ensures forall f: Fold :: f.start == s && f.op.DivBin? && DivBinLoop(p, f) ==>
              DivBinCloses(p, s, regs) && f == DivBinFold(p, s, regs)
  {
    hide DivBinLoop, IncRunOf, DivBinFold, Times, Distinct;
    forall f: Fold | f.start == s && f.op.DivBin? && DivBinLoop(p, f)
      ensures DivBinCloses(p, s, regs) && f == DivBinFold(p, s, regs)
    {
      DivBinForm(p, f);
      RunOfUnique(p, s + 3, s + 1, p[s + 2].reg, regs, RunRegs(p, s + 3, |f.op.xs| + 1));
    }
  }

  lemma NoDivBinTail(p: Program, s: nat, regs: seq<nat>)
    requires DivBinOpens(p, s) && IncRunOf(p, s + 3, s + 1, p[s + 2].reg, regs)
    requires !DivBinCloses(p, s, regs)
    ensures !Has(p, s, 0)
  {
    hide DivBinOpens, DivBinCloses, DivBinLoop, IncRunOf;
    DivBinDecided(p, s, regs);
  }

  lemma ShapeIsDivBin(p: Program, f: Fold)
    requires Kind(f.op) == 0
    ensures LoopShape(p, f) <==> f.op.DivBin? && DivBinLoop(p, f)
  {
    hide DivBinLoop;
  }

  /** How many entries of `regs` are `r`. */
  method CountHits(regs: seq<nat>, r: nat) returns (hits: nat)
    ensures hits == Times(regs, r)
  {
    hits := 0;
    for i := 0 to |regs|
      invariant hits == Times(regs[..i], r)
    {
      assert regs[..i + 1] == regs[..i] + [regs[i]];
      if regs[i] == r {
        hits := hits + 1;
      }
    }
    assert regs[..|regs|] == regs;
  }

  /** The entries of `regs` other than `r`, in order. */
  method DropHits(regs: seq<nat>, r: nat) returns (rest: seq<nat>)
    ensures rest == Without(regs, r)
  {
    rest := [];
    for i := 0 to |regs|
      invariant Without(regs, r) == rest + Without(regs[i..], r)
    {
      if regs[i] != r {
        rest := rest + [regs[i]];
      }
      assert regs[i..][1..] == regs[i + 1..];
    }
  }

  /** The checks after the lockstep run: the refill, the quotient, distinctness, fan-out. */
  method DivBinTail(p: Program, start: nat, regs: seq<nat>) returns (b: bool, filled: nat)
    requires DivBinOpens(p, start) && IncRunOf(p, start + 3, start + 1, p[start + 2].reg, regs)
    ensures b <==> DivBinCloses(p, start, regs)
    ensures filled == if DivBinRefills(p, start, regs) then |DivBinRegs(p, start, regs)| else 0
  {
    hide Distinct, Times;
    var n := |regs|;
    var REM, P, full, R := p[start].reg, p[start + 1].reg, p[start + 1].onZero, p[start + 2].reg;
    if full != start + 3 + n {
      return false, 0;
    }
    var remHits := CountHits(regs, REM);
    if remHits != 1 || !IsDeb(p, full) || !IsInc(p, full + 1) || !IsInc(p, full + 2) {
      return false, 0;
    }
    var refill := p[full];
    if refill.reg != REM || refill.onTake != full + 1 || refill.onZero != full + 2 {
      return false, 0;
    }
    if p[full + 1].reg != P || p[full + 1].next != full || p[full + 2].next != start + 1 {
      return false, 0;
    }
    var all := [R, P, p[full + 2].reg] + regs;
    var distinct := AllDistinct(all);
    return distinct && n + 2 <= MAX_DESTS, |all|;
  }

  /** The nest at `s`, its lockstep run giving to `regs`, gets as far as having its registers put
      into the scratch array. */
  predicate Fills(p: Program, s: nat, regs: seq<nat>) {
    DivBinOpens(p, s) && IncRunOf(p, s + 3, s + 1, p[s + 2].reg, regs) && DivBinRefills(p, s, regs)
  }

  /** `filled` slots of the array are written; none if no nest here gets that far. */
  ghost predicate Filled(p: Program, s: nat, filled: nat) {
    if filled == 0 then forall regs :: !Fills(p, s, regs)
    else exists regs :: Fills(p, s, regs) && filled == |DivBinRegs(p, s, regs)|
  }

  lemma FilledBy(p: Program, s: nat, regs: seq<nat>, filled: nat)
    requires DivBinOpens(p, s) && IncRunOf(p, s + 3, s + 1, p[s + 2].reg, regs)
    requires filled == if DivBinRefills(p, s, regs) then |DivBinRegs(p, s, regs)| else 0
    ensures Filled(p, s, filled)
  {
    hide IncRunOf, DivBinRefills;
    if filled == 0 {
      forall other | Fills(p, s, other) ensures false {
        RunOfUnique(p, s + 3, s + 1, p[s + 2].reg, regs, other);
      }
    } else {
      assert Fills(p, s, regs);
    }
  }

  lemma FilledNot(p: Program, s: nat)
    requires DivBinOpens(p, s) ==> NoRun(p, s + 3, s + 1, p[s + 2].reg)
    ensures Filled(p, s, 0)
  {
    hide DivBinOpens, DivBinRefills;
    forall regs ensures !Fills(p, s, regs) {
    }
  }

  /** Runs of 31 and 32 gives pass every check before the array is filled and are too many for
      it: with all roles apart, only the check that comes after turns them down. */
  lemma RunTooWide(n: nat)
    requires 1 <= n <= MAX_DESTS
    ensures var p, regs := WideNest(n), WideRun(n);
            && DivBinOpens(p, 0) && IncRunOf(p, 3, 1, p[2].reg, regs) && DivBinRefills(p, 0, regs)
            && Distinct(DivBinRegs(p, 0, regs)) && Filled(p, 0, n + 3)
            && (n + 3 > SCRATCH <==> n >= 31)
  {
    hide WideNest, IncRunOf, DivBinRefills, Filled;
    WideCode(n);
    WideRuns(n);
    WideRefills(n);
    FilledBy(WideNest(n), 0, WideRun(n), n + 3);
  }

  /** `filled` is how many slots of the scratch array the source writes on the way: a nest that is
      accepted never wrote past its end. */
  method DetectDivBin(p: Program, start: nat) returns (r: Option<Fold>, filled: nat)
    requires IsRaw(p)
    ensures Answers(p, start, 0, r)
    ensures Filled(p, start, filled) && (r.Some? ==> 0 < filled <= SCRATCH)
  {
    hide PrivateRange, IncRunOf, Distinct, LoopShape, Has, DivBinLoop, NoRun, Times, Without, Filled;
    if !IsDeb(p, start) || p[start].onTake != start || p[start].onZero != start + 1
      || !IsDeb(p, start + 1) || p[start + 1].onTake != start + 2
      || !IsDeb(p, start + 2) || p[start + 2].onTake != start + 3
    {
      NoDivBinOpening(p, start);
      FilledNot(p, start);
      return None, 0;
    }
    var REM, P, R, exit := p[start].reg, p[start + 1].reg, p[start + 2].reg, p[start + 2].onZero;
    var n, regs := CollectIncRun(p, start + 3, start + 1, R);
    if n == 0 {
      NoDivBinRun(p, start);
      FilledNot(p, start);
      return None, 0;
    }
    DivBinDecided(p, start, regs);
    var closes;
    closes, filled := DivBinTail(p, start, regs);
    FilledBy(p, start, regs, filled);
    if !closes {
      NoDivBinTail(p, start, regs);
      return None, filled;
    }
    var full := start + 3 + n;
    var xs := DropHits(regs, REM);
    var f := Fold(start, full + 3, DivBin(R, P, REM, p[full + 2].reg, xs, exit));
    DivBinMake(p, start, regs);
    var priv := BodyIsPrivate(p, start, full + 3, [exit]);
    ShapeIsDivBin(p, f);
    if !priv {
      forall g: Fold | g.start == start && Kind(g.op) == 0 && LoopShape(p, g) ensures g == f {
        ShapeIsDivBin(p, g);
      }
      NotPrivate(p, f);
      return None, filled;
    }
    return Some(f), filled;
  }

  // ---- copy -----------------------------------------------------------------

  /** Two adjacent transfers make a copy: out through a temporary, and the temporary back. */
  predicate Fuses(first: Fold, second: Fold) {
    && first.op.Transfer? && second.op.Transfer?
    && first.op.exit == first.end == second.start
    && Times(first.op.dsts, second.op.reg) == 1
    && second.op.dsts == [first.op.reg]
  }

  function CopyOf(first: Fold, second: Fold): Fold
    requires Fuses(first, second)
  {
    Fold(first.start, second.end,
         Copy(first.op.reg, second.op.reg, Without(first.op.dsts, second.op.reg), second.op.exit))
  }

  /** The two transfers inside a copy. */
  function CopyFirst(p: Program, f: Fold): Fold
    requires CopyLoop(p, f)
  {
    Fold(f.start, f.end - 2, Transfer(f.op.reg, RunRegs(p, f.start + 1, |f.op.dsts| + 1), f.end - 2))
  }

  function CopySecond(p: Program, f: Fold): Fold
    requires CopyLoop(p, f)
  {
    Fold(f.end - 2, f.end, Transfer(f.op.t, [f.op.reg], f.op.exit))
  }

  lemma CopySplit(p: Program, f: Fold)
    requires CopyLoop(p, f)
    ensures TransferLoop(p, CopyFirst(p, f)) && TransferLoop(p, CopySecond(p, f))
    ensures Fuses(CopyFirst(p, f), CopySecond(p, f)) && f == CopyOf(CopyFirst(p, f), CopySecond(p, f))
  {
    hide Without, Times;
    var mid := f.end - 2;
    CopyTemp(p, f);
    SingleRun(p, mid + 1, mid, f.op.t, f.op.reg);
  }

  lemma CopyTemp(p: Program, f: Fold)
    requires CopyLoop(p, f)
    ensures f.op.t != f.op.reg
  {
    hide Without, Times;
    NotInRun(p, f.start + 1, |f.op.dsts| + 1, f.start, f.op.reg);
  }

  /** The two halves of a private copy are private. */
  lemma CopyHalvesPrivate(p: Program, f: Fold)
    requires CopyLoop(p, f) && Private(p, f)
    ensures Private(p, CopyFirst(p, f)) && Private(p, CopySecond(p, f))
  {
    hide Without, Times;
    var mid := f.end - 2;
    assert Targets(f.op)[0] == f.op.exit;
    forall i | 0 <= i < |p| && !(f.start <= i < mid) ensures Misses(Targets(p[i]), f.start, mid) {
      if Covers(f, i) {
        assert i == mid || i == mid + 1;
      } else {
        assert Misses(Targets(p[i]), f.start, f.end);
      }
    }
    forall i | 0 <= i < |p| && !(mid <= i < f.end) ensures Misses(Targets(p[i]), mid, f.end) {
      if Covers(f, i) {
        assert i == f.start || (p[i].Inc? && (p[i].next == i + 1 || p[i].next == f.start));
      } else {
        assert Misses(Targets(p[i]), f.start, f.end);
      }
    }
  }

  lemma TransferUnique(p: Program, f: Fold, g: Fold)
    requires TransferLoop(p, f) && TransferLoop(p, g) && f.start == g.start
    ensures f == g
  {
    RunOfUnique(p, f.start + 1, f.start, f.op.reg, f.op.dsts, g.op.dsts);
  }

  lemma ShapeIsTransfer(p: Program, f: Fold)
    requires Kind(f.op) == 3
    ensures LoopShape(p, f) <==> f.op.Transfer? && TransferLoop(p, f)
  {
    hide TransferLoop;
  }

  lemma ShapeIsCopy(p: Program, f: Fold)
    requires Kind(f.op) == 2
    ensures LoopShape(p, f) <==> f.op.Copy? && CopyLoop(p, f)
  {
    hide CopyLoop;
  }

  lemma CopyParts(p: Program, s: nat) returns (f: Fold)
    requires Has(p, s, 2)
    ensures f.op.Copy? && CopyLoop(p, f) && Private(p, f) && f.start == s
    ensures GoodFold(p, CopyFirst(p, f)) && GoodFold(p, CopySecond(p, f))
    ensures Fuses(CopyFirst(p, f), CopySecond(p, f)) && f == CopyOf(CopyFirst(p, f), CopySecond(p, f))
  {
    hide CopyLoop, TransferLoop, PrivateRange;
    f :| f.start == s && Kind(f.op) == 2 && GoodFold(p, f);
    CopySplit(p, f);
    CopyHalvesPrivate(p, f);
  }

  /** A copy needs a foldable transfer at its start. */
  lemma CopyNeedsTransfer(p: Program, s: nat)
    requires Has(p, s, 2)
    ensures Has(p, s, 3)
  {
    hide LoopShape, CopyLoop, PrivateRange;
    var f := CopyParts(p, s);
    assert Kind(CopyFirst(p, f).op) == 3;
  }

  lemma FusedIsCopy(p: Program, first: Fold, second: Fold)
    requires TransferLoop(p, first) && TransferLoop(p, second) && Fuses(first, second)
    ensures CopyLoop(p, CopyOf(first, second))
  {
    hide Without, Times;
    WithoutLength(first.op.dsts, second.op.reg);
    var mid := first.end;
    assert RunRegs(p, mid + 1, 1)[0] == p[mid + 1 + 0].reg;
  }

  /** Any copy at the first transfer's start is its fusion with the next transfer. */
  lemma CopyDecided(p: Program, first: Fold)
    requires TransferLoop(p, first) && Has(p, first.start, 2)
    ensures first.op.exit == first.end && Has(p, first.end, 3)
    ensures forall second: Fold :: second.start == first.end && second.op.Transfer? && TransferLoop(p, second) ==>
              Fuses(first, second) && Private(p, CopyOf(first, second))
  {
    hide CopyLoop, TransferLoop, PrivateRange, LoopShape;
    var f := CopyParts(p, first.start);
    var g := CopySecond(p, f);
    CopySplit(p, f);
    TransferUnique(p, first, CopyFirst(p, f));
    assert Kind(g.op) == 3 && g.start == first.end && GoodFold(p, g);
    forall second: Fold | second.start == first.end && second.op.Transfer? && TransferLoop(p, second)
      ensures Fuses(first, second) && Private(p, CopyOf(first, second))
    {
      TransferUnique(p, g, second);
    }
  }

  /** Fuse a detected transfer with the next one when together they are a copy. */
  method TryUpgradeToCopy(p: Program, first: Fold) returns (r: Fold)
    requires IsRaw(p) && first.op.Transfer? && GoodFold(p, first)
    ensures if Has(p, first.start, 2) then Answers(p, first.start, 2, Some(r)) else r == first
  {
    hide LoopShape, PrivateRange, TransferLoop, CopyLoop, Times, Without, Has;
    ShapeIsTransfer(p, first);
    if Has(p, first.start, 2) {
      CopyDecided(p, first);
    }
    if first.op.exit != first.end {
      return first;
    }
    var found := DetectTransfer(p, first.end);
    if found.None? {
      return first;
    }
    var second := found.value;
    ShapeIsTransfer(p, second);
    var T := second.op.reg;
    var hits := CountHits(first.op.dsts, T);
    if hits != 1 || |second.op.dsts| != 1 || second.op.dsts[0] != first.op.reg {
      return first;
    }
    assert second.op.dsts == [first.op.reg];
    FusedIsCopy(p, first, second);
    var ds := DropHits(first.op.dsts, T);
    r := Fold(first.start, second.end, Copy(first.op.reg, T, ds, second.op.exit));
    ShapeIsCopy(p, r);
    var priv := BodyIsPrivate(p, first.start, second.end, [second.op.exit]);
    if !priv {
      return first;
    }
    HasOne(p, r);
  }

  lemma HasOne(p: Program, f: Fold)
    requires GoodFold(p, f)
    ensures Has(p, f.start, Kind(f.op))
  {
    hide LoopShape, PrivateRange;
  }

  // ---------------------------------------------------------------------------
  // All detectors
  // ---------------------------------------------------------------------------

  /** The detector's answer: the foldable loop of the first kind, in the order the kinds are
      tried, that there is at `start`; nothing only if there is none of any kind. */
  ghost predicate FirstOf(p: Program, start: nat, r: Option<Fold>) {
    match r
    case Some(f) =>
      && f.start == start && Kind(f.op) < 7 && GoodFold(p, f)
      && forall k: nat :: k < Kind(f.op) ==> !Has(p, start, k)
    case None => forall k: nat :: k < 7 ==> !Has(p, start, k)
  }

  method DetectPattern(p: Program, start: nat) returns (r: Option<Fold>)
    requires IsRaw(p)
    ensures FirstOf(p, start, r)
  {
    hide LoopShape, PrivateRange, Has;
    var filled;
    r, filled := DetectDivBin(p, start);
    if r.Some? {
      return;
    }
    r := DetectMulAdd(p, start);
    if r.Some? {
      return;
    }
    r := DetectTransfer(p, start);
    if r.Some? {
      var f := TryUpgradeToCopy(p, r.value);
      return Some(f);
    }
    if Has(p, start, 2) {
      CopyNeedsTransfer(p, start);
    }
    r := DetectDivMod(p, start);
    if r.Some? {
      return;
    }
    r := DetectIsZero(p, start);
    if r.Some? {
      return;
    }
    r := DetectZero(p, start);
  }

  lemma DivBinUnique(p: Program, f: Fold, g: Fold)
    requires DivBinLoop(p, f) && DivBinLoop(p, g) && f.start == g.start
    ensures f == g
  {
    hide DivBinCloses, DivBinFold, IncRunOf, Times, Without, Distinct;
    DivBinForm(p, f);
    DivBinDecided(p, f.start, RunRegs(p, f.start + 3, |f.op.xs| + 1));
  }

  lemma MulAddUnique(p: Program, f: Fold, g: Fold)
    requires MulAddLoop(p, f) && MulAddLoop(p, g) && f.start == g.start
    ensures f == g
  {
    hide MulAddCloses, MulAddFold, IncRunOf, Distinct;
    MulAddForm(p, f);
    MulAddDecided(p, f.start, f.op.dsts + [f.op.t]);
  }

  lemma CopyUnique(p: Program, f: Fold, g: Fold)
    requires CopyLoop(p, f) && CopyLoop(p, g) && f.start == g.start
    ensures f == g
  {
    hide TransferLoop, CopyLoop, Without, Times;
    CopySplit(p, f);
    CopySplit(p, g);
    TransferUnique(p, CopyFirst(p, f), CopyFirst(p, g));
    TransferUnique(p, CopySecond(p, f), CopySecond(p, g));
  }

  /** One start and one kind admit one fold, so the answer is determined. */
  lemma KindUnique(p: Program, f: Fold, g: Fold)
    requires LoopShape(p, f) && LoopShape(p, g) && f.start == g.start && Kind(f.op) == Kind(g.op)
    ensures f == g
  {
    hide TransferLoop, CopyLoop, MulAddLoop, DivBinLoop, DivModLoop;
    match f.op
    case DivBin(_, _, _, _, _, _) => DivBinUnique(p, f, g);
    case MulAdd(_, _, _, _, _, _) => MulAddUnique(p, f, g);
    case Copy(_, _, _, _) => CopyUnique(p, f, g);
    case Transfer(_, _, _) => TransferUnique(p, f, g);
    case DivMod(_, _, _) => DivModUnique(p, f, g);
    case _ =>
  }

  lemma FirstUnique(p: Program, start: nat, r: Option<Fold>, r': Option<Fold>)
    requires FirstOf(p, start, r) && FirstOf(p, start, r')
    ensures r == r'
  {
    hide LoopShape, PrivateRange, Has;
    if r.Some? {
      HasOne(p, r.value);
    }
    if r'.Some? {
      HasOne(p, r'.value);
    }
    if r.Some? && r'.Some? {
      KindUnique(p, r.value, r'.value);
    }
  }
}
