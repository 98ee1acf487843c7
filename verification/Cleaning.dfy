/** What the tally encoder does to a program before encoding it: no-op takes are threaded
    away, what the entry cannot reach is dropped, the rest is renumbered, and stops at the
    very end are left to the empty tallies past it. */
module Cleaning {
  import opened Machine
  import opened Passes
  import opened Folding
  import opened Renumbering
  import opened Threading

  function Entry(p: Program, nil: nat): nat {
    ThreadTarget(p, nil, 0, |p|)
  }

  function ThreadEach(p: Program, nil: nat, ts: seq<nat>): (r: seq<nat>)
    ensures |r| == |ts|
  {
    seq(|ts|, k requires 0 <= k < |ts| => ThreadTarget(p, nil, ts[k], |p|))
  }

  /** Every target threaded, always through the original program. */
  function ThreadAll(p: Program, nil: nat): (ops: Program)
    ensures |ops| == |p|
  {
    seq(|p|, i requires 0 <= i < |p| => WithTargets(p[i], ThreadEach(p, nil, Targets(p[i]))))
  }

  /** The instructions the entry reaches through threaded targets. */
  ghost function LiveSet(p: Program, nil: nat): (live: seq<bool>)
    ensures |live| == |p|
  {
    seq(|p|, i requires 0 <= i < |p| => ReachableFrom(ThreadAll(p, nil), Entry(p, nil), i))
  }

  /** New positions, with one more entry for the position past the end. */
  function RankTable(vis: seq<bool>): (m: seq<nat>)
    ensures |m| == |vis| + 1
  {
    seq(|vis| + 1, i requires 0 <= i <= |vis| => Rank(vis, i))
  }

  ghost predicate Kept(p: Program, nil: nat, live: seq<bool>, full: Program) {
    && |live| == |p| && |full| == Rank(live, |live|)
    && forall i :: 0 <= i < |p| && live[i] ==>
         && Rank(live, i) < |full|
         && full[Rank(live, i)] == RetargetBy(ThreadAll(p, nil)[i], RankTable(live))
  }

  /** Without the stops at the very end. */
  function Trimmed(full: Program): (q: Program)
    ensures |q| <= |full| && q == full[..|q|]
    ensures forall i :: |q| <= i < |full| ==> full[i].End?
    ensures q == [] || !q[|q| - 1].End?
  {
    if full != [] && full[|full| - 1].End? then Trimmed(full[..|full| - 1]) else full
  }

  /** `q` is the cleaned form of `p`. */
  ghost predicate Cleaned(p: Program, nil: nat, q: Program) {
    exists full :: Kept(p, nil, LiveSet(p, nil), full) && q == Trimmed(full)
  }

  /** Nothing the entry reaches comes before it. */
  ghost predicate EntryLowest(p: Program, nil: nat) {
    forall i :: 0 <= i < |p| && i < Entry(p, nil) ==> !LiveSet(p, nil)[i]
  }

  /** Every jump lands on an instruction, or just past the last one. */
  predicate TargetsWithin(p: Program) {
    forall i :: 0 <= i < |p| ==> AllBelow(Targets(p[i]), |p| + 1)
  }

  lemma {:induction false} ThreadWithin(p: Program, nil: nat, t: nat, hops: nat)
    requires TargetsWithin(p) && t <= |p|
    ensures ThreadTarget(p, nil, t, hops) <= |p|
    decreases hops
  {
    if !(hops == 0 || t >= |p| || !PureJump(p[t], nil) || p[t].onZero == t) {
      assert AllBelow(Targets(p[t]), |p| + 1);
      assert Targets(p[t])[1] == p[t].onZero;
      ThreadWithin(p, nil, p[t].onZero, hops - 1);
    }
  }

  /** Threading all targets moves each along empty takes. */
  lemma ThreadAllThreaded(p: Program, nil: nat)
    ensures Threaded(p, ThreadAll(p, nil), nil)
  {
    hide ThreadTarget, Follows, Targets, WithTargets;
    ThreadedSelf(p, nil);
    var ops := ThreadAll(p, nil);
    forall i | 0 <= i < |p| ensures ThreadedOp(p, nil, p[i], ops[i]) {
      var ts := Targets(p[i]);
      TargetsKept(p[i], ThreadEach(p, nil, ts));
      forall k | 0 <= k < |ts| ensures Follows(p, nil, ts[k], ThreadEach(p, nil, ts)[k]) {
        ThreadTargetFollows(p, p, nil, ts[k], |p|);
      }
    }
  }

  lemma LiveEntry(p: Program, nil: nat)
    ensures Entry(p, nil) < |p| ==> LiveSet(p, nil)[Entry(p, nil)]
    ensures Entry(p, nil) >= |p| ==> forall i :: 0 <= i < |p| ==> !LiveSet(p, nil)[i]
  {
    hide Targets, ThreadTarget, ThreadAll;
    ReachStart(ThreadAll(p, nil), Entry(p, nil));
    if Entry(p, nil) >= |p| {
      forall i | 0 <= i < |p| ensures !LiveSet(p, nil)[i] {
        if LiveSet(p, nil)[i] {
          var k: nat :| ReachedIn(ThreadAll(p, nil), Entry(p, nil), i, k);
          NothingReached(ThreadAll(p, nil), Entry(p, nil), i, k);
        }
      }
    }
  }

  lemma {:induction false} NothingReached(ops: Program, e: nat, i: nat, k: nat)
    requires e >= |ops| && ReachedIn(ops, e, i, k)
    ensures i >= |ops|
    decreases k
  {
    hide Targets;
    if k > 0 {
      var j :| 0 <= j < |ops| && ReachedIn(ops, e, j, k - 1) && i in Targets(ops[j]);
      NothingReached(ops, e, j, k - 1);
    }
  }

  lemma LiveTarget(p: Program, nil: nat, i: nat, k: nat)
    requires i < |p| && LiveSet(p, nil)[i] && k < |Targets(ThreadAll(p, nil)[i])|
    ensures var t := Targets(ThreadAll(p, nil)[i])[k]; t < |p| ==> LiveSet(p, nil)[t]
  {
    hide Targets, ThreadTarget, ThreadAll, ReachableFrom;
    ReachOn(ThreadAll(p, nil), Entry(p, nil), i, k);
  }

  /** Nothing is kept before the entry, so its new position is the first; and conversely. */
  lemma EntryFirst(p: Program, nil: nat)
    requires Entry(p, nil) < |p|
    ensures EntryLowest(p, nil) <==> RankTable(LiveSet(p, nil))[Entry(p, nil)] == 0
  {
    hide LiveSet, Entry;
    var live, e := LiveSet(p, nil), Entry(p, nil);
    if Rank(live, e) == 0 {
      forall i | 0 <= i < |p| && i < e ensures !live[i] {
        RankBelow(live, i, e);
      }
    }
    if EntryLowest(p, nil) {
      RankNone(live, e);
    }
  }

  lemma {:induction false} RankNone(vis: seq<bool>, e: nat)
    requires e <= |vis| && forall i :: 0 <= i < e ==> !vis[i]
    ensures Rank(vis, e) == 0
  {
    if e > 0 {
      RankNone(vis, e - 1);
    }
  }

  // ---------------------------------------------------------------------------
  // Cleaning changes no outcome
  // ---------------------------------------------------------------------------

  ghost predicate CleanRel(p: Program, nil: nat, n: nat, c: Config, d: Config) {
    var live := LiveSet(p, nil);
    && c.regs == d.regs && |c.regs| == n && NilEmpty(c.regs, nil)
    && (if c.pc < |p| then live[c.pc] && d.pc == Rank(live, c.pc) else d.pc == Rank(live, |p|))
  }

  ghost predicate SameRegs(c: Config, d: Config) {
    c.regs == d.regs
  }

  /** What stands at the new position of a live instruction. */
  lemma KeptAt(p: Program, nil: nat, full: Program, q: Program, i: nat)
    requires IsRaw(p) && Kept(p, nil, LiveSet(p, nil), full) && q == Trimmed(full)
    requires i < |p| && LiveSet(p, nil)[i]
    ensures var j := Rank(LiveSet(p, nil), i);
            if p[i].End? then j >= |q| || q[j].End?
            else j < |q| && q[j] == RetargetBy(ThreadAll(p, nil)[i], RankTable(LiveSet(p, nil)))
  {
    hide LiveSet, ThreadTarget, Rank, RankTable, Trimmed;
    var j := Rank(LiveSet(p, nil), i);
    var op := ThreadAll(p, nil)[i];
    RetargetEnd(p[i], ThreadEach(p, nil, Targets(p[i])));
    RetargetEnd(op, Remap(RankTable(LiveSet(p, nil)), Targets(op)));
  }

  lemma RetargetEnd(op: Op, ts: seq<nat>)
    requires |ts| == |Targets(op)|
    ensures WithTargets(op, ts).End? <==> op.End?
  {
  }

  lemma PastIsPast(full: Program, q: Program, live: seq<bool>)
    requires |full| == Rank(live, |live|) && q == Trimmed(full)
    ensures Rank(live, |live|) >= |q|
  {
  }

  lemma CleanMatches(p: Program, nil: nat, full: Program, q: Program, n: nat, c: Config, d: Config)
    requires IsRaw(p) && ProgOk(p, n) && NeverFed(p, nil) && TargetsWithin(p)
    requires Kept(p, nil, LiveSet(p, nil), full) && q == Trimmed(full)
    requires CleanRel(p, nil, n, c, d)
    ensures Matches(p, q, (c, d) => CleanRel(p, nil, n, c, d), SameRegs, c, d)
  {
    hide LiveSet, ThreadAll, ThreadTarget, Trimmed, Rank, Effect, Target, Targets, WithTargets, OpOk,
      Advances, Finishes, Reaches, Diverges, RetargetBy, NeverFed, TargetsWithin, NilEmpty;
    var rel := (c, d) => CleanRel(p, nil, n, c, d);
    var live := LiveSet(p, nil);
    if c.pc >= |p| {
      PastIsPast(full, q, live);
      StopsHere(p, c, d);
    } else {
      KeptAt(p, nil, full, q, c.pc);
      if p[c.pc].End? {
        StopsHere(p, c, d);
      } else {
        assert OpOk(p[c.pc], n);
        CleanStep(p, nil, full, q, n, c, d);
      }
    }
  }

  lemma StopsHere(p: Program, c: Config, d: Config)
    requires Stopped(p, c) && SameRegs(c, d)
    ensures Finishes(p, c, SameRegs, d)
  {
    assert HaltsIn(p, c, 0, c);
  }

  lemma ThreadedTarget(p: Program, nil: nat, i: nat, k: nat)
    requires i < |p| && TargetsWithin(p) && k < |Targets(p[i])|
    ensures |Targets(ThreadAll(p, nil)[i])| == |Targets(p[i])|
    ensures Targets(ThreadAll(p, nil)[i])[k] <= |p|
    ensures Follows(p, nil, Targets(p[i])[k], Targets(ThreadAll(p, nil)[i])[k])
  {
    hide Follows, Targets, WithTargets, ThreadTarget;
    ThreadAllThreaded(p, nil);
    assert ThreadedOp(p, nil, p[i], ThreadAll(p, nil)[i]);
    TargetsKept(p[i], ThreadEach(p, nil, Targets(p[i])));
    assert AllBelow(Targets(p[i]), |p| + 1);
    ThreadWithin(p, nil, Targets(p[i])[k], |p|);
  }

  lemma CleanStep(p: Program, nil: nat, full: Program, q: Program, n: nat, c: Config, d: Config)
    requires IsRaw(p) && ProgOk(p, n) && NeverFed(p, nil) && TargetsWithin(p)
    requires CleanRel(p, nil, n, c, d) && c.pc < |p| && !p[c.pc].End? && OpOk(p[c.pc], n)
    requires d.pc < |q|
    requires q[d.pc] == RetargetBy(ThreadAll(p, nil)[c.pc], RankTable(LiveSet(p, nil)))
    ensures OpOk(q[d.pc], n) && !q[d.pc].End?
    ensures Advances(p, c, (c, d) => CleanRel(p, nil, n, c, d), Next(q, d))
  {
    hide LiveSet, ThreadAll, ThreadTarget, Trimmed, Rank, Effect, Target, Targets, WithTargets, OpOk,
      NilPath, TargetsWithin, Feeds;
    var op, ops, m := p[c.pc], ThreadAll(p, nil), RankTable(LiveSet(p, nil));
    assert IsRawOp(op);
    ThreadAllThreaded(p, nil);
    assert ThreadedOp(p, nil, op, ops[c.pc]);
    var mid := ops[c.pc];
    TargetPicked(op, c.pc, c.regs);
    Retargeted(op, Targets(mid), c.pc, c.regs);
    Retargeted(mid, Remap(m, Targets(mid)), d.pc, c.regs);
    StaysEmpty(op, nil, c.regs);
    var k := Pick(op, c.regs);
    ThreadedTarget(p, nil, c.pc, k);
    LiveTarget(p, nil, c.pc, k);
    SamePick(op, Targets(mid), c.regs);
    var c1, e := Next(p, c), Next(q, d);
    var t := Targets(mid)[k];
    var h: nat :| NilPath(p, nil, Targets(op)[k], t, h);
    NilPathRuns(p, nil, c1.pc, t, h, c1.regs);
    var c2 := Config(t, c1.regs);
    assert Reaches(p, c, 1, c1) by {
      assert Reaches(p, c1, 0, c1);
    }
    ReachesJoin(p, c, 1, c1, h, c2);
    assert e.pc == m[t];
    assert CleanRel(p, nil, n, c2, e);
  }

  lemma SamePick(op: Op, ts: seq<nat>, regs: Regs)
    requires OpOk(op, |regs|) && IsRawOp(op) && !op.End? && |ts| == |Targets(op)|
    requires OpOk(WithTargets(op, ts), |regs|)
    ensures var op' := WithTargets(op, ts);
            !op'.End? && IsRawOp(op') && !Spins(op', regs) && Pick(op', regs) == Pick(op, regs)
  {
  }

  /** The entry's position in the cleaned program. */
  ghost function NewEntry(p: Program, nil: nat): nat {
    Rank(LiveSet(p, nil), if Entry(p, nil) < |p| then Entry(p, nil) else |p|)
  }

  /** Started at instruction `pc`, `p` stops after `k` moves with the bank `res`. */
  ghost predicate EndsAt(p: Program, pc: nat, regs: Regs, k: nat, res: Regs) {
    exists d :: HaltsIn(p, Config(pc, regs), k, d) && d.regs == res
  }

  /** For every program, from any registers with `nil` empty, the cleaned program started at the
      entry's new position halts exactly when the source does, with the same registers and
      after no more moves. */
  lemma CleaningFromEntry(p: Program, nil: nat, q: Program, v: Regs)
    requires IsRaw(p) && ProgOk(p, |v|) && NeverFed(p, nil) && TargetsWithin(p) && NilEmpty(v, nil)
    requires Cleaned(p, nil, q)
    ensures forall k, res :: Ends(p, v, k, res) ==> exists m: nat :: m <= k && EndsAt(q, NewEntry(p, nil), v, m, res)
    ensures forall m, res :: EndsAt(q, NewEntry(p, nil), v, m, res) ==> exists k: nat :: k >= m && Ends(p, v, k, res)
  {
    hide LiveSet, Kept, Trimmed, Rank, NilPath, ProgOk, NeverFed, TargetsWithin, Simulates, Reaches, HaltsIn, NewEntry;
    var n, at := |v|, NewEntry(p, nil);
    var full :| Kept(p, nil, LiveSet(p, nil), full) && q == Trimmed(full);
    var rel := (c, d) => CleanRel(p, nil, n, c, d);
    assert Simulates(p, q, rel, SameRegs) by { CleanSimulates(p, nil, full, q, n); }
    var c0, c1, d0 := Config(0, v), Config(Entry(p, nil), v), Config(at, v);
    ThreadedSelf(p, nil);
    ThreadTargetFollows(p, p, nil, 0, |p|);
    var h: nat :| NilPath(p, nil, 0, Entry(p, nil), h);
    NilPathRuns(p, nil, 0, Entry(p, nil), h, v);
    StartRelated(p, nil, n, v);
    assert rel(c1, d0);
    forall k: nat, res | Ends(p, v, k, res) ensures exists m: nat :: m <= k && EndsAt(q, at, v, m, res) {
      var c' :| HaltsIn(p, c0, k, c') && c'.regs == res;
      HaltThrough(p, c0, h, c1, k, c');
      var m, d' := SlowHalts(p, q, rel, SameRegs, c1, d0, k - h, c');
      assert EndsAt(q, at, v, m, res);
    }
    forall m: nat, res | EndsAt(q, at, v, m, res) ensures exists k: nat :: k >= m && Ends(p, v, k, res) {
      var d' :| HaltsIn(q, d0, m, d') && d'.regs == res;
      var k, c' := FastHalts(p, q, rel, SameRegs, c1, d0, m, d');
      HaltsBefore(p, c0, h, c1, k, c');
      assert Ends(p, v, h + k, res);
    }
  }

  /** So it does started at its first instruction when the entry is the lowest kept. */
  lemma CleaningCorrect(p: Program, nil: nat, q: Program, v: Regs)
    requires IsRaw(p) && ProgOk(p, |v|) && NeverFed(p, nil) && TargetsWithin(p) && NilEmpty(v, nil)
    requires Cleaned(p, nil, q) && EntryLowest(p, nil)
    ensures forall k, res :: Ends(p, v, k, res) ==> exists m: nat :: m <= k && Ends(q, v, m, res)
    ensures forall m, res :: Ends(q, v, m, res) ==> exists k: nat :: k >= m && Ends(p, v, k, res)
  {
    hide Cleaned, EntryLowest, ProgOk, NeverFed, TargetsWithin, NewEntry, HaltsIn;
    CleaningFromEntry(p, nil, q, v);
    LowestIsFirst(p, nil);
    forall k: nat, res ensures EndsAt(q, 0, v, k, res) <==> Ends(q, v, k, res) {
    }
  }

  lemma LowestIsFirst(p: Program, nil: nat)
    requires EntryLowest(p, nil)
    ensures NewEntry(p, nil) == 0
  {
    hide LiveSet, Entry;
    LiveEntry(p, nil);
    RankNone(LiveSet(p, nil), if Entry(p, nil) < |p| then Entry(p, nil) else |p|);
  }

  lemma HaltsBefore(p: Program, a: Config, h: nat, b: Config, k: nat, d: Config)
    requires Reaches(p, a, h, b) && HaltsIn(p, b, k, d)
    ensures HaltsIn(p, a, h + k, d)
  {
    ReachesJoin(p, a, h, b, k, d);
  }

  lemma StartRelated(p: Program, nil: nat, n: nat, v: Regs)
    requires |v| == n && NilEmpty(v, nil)
    ensures CleanRel(p, nil, n, Config(Entry(p, nil), v), Config(NewEntry(p, nil), v))
  {
    hide LiveSet, Entry;
    LiveEntry(p, nil);
  }

  lemma CleanSimulates(p: Program, nil: nat, full: Program, q: Program, n: nat)
    requires IsRaw(p) && ProgOk(p, n) && NeverFed(p, nil) && TargetsWithin(p)
    requires Kept(p, nil, LiveSet(p, nil), full) && q == Trimmed(full)
    ensures Simulates(p, q, (c, d) => CleanRel(p, nil, n, c, d), SameRegs)
  {
    hide LiveSet, Kept, Trimmed, CleanRel, Matches, ProgOk, NeverFed, TargetsWithin;
    var rel := (c, d) => CleanRel(p, nil, n, c, d);
    forall c, d | rel(c, d) ensures Matches(p, q, rel, SameRegs, c, d) {
      CleanMatches(p, nil, full, q, n, c, d);
    }
  }

  // ---------------------------------------------------------------------------
  // Trailing stops and the table of field offsets
  // ---------------------------------------------------------------------------

  /** Every jump lands on an instruction of `q` or just past its last one: the places a table
      with one offset per instruction and one for the end has entries for. */
  predicate InTable(q: Program) {
    forall i :: 0 <= i < |q| ==> AllBelow(Targets(q[i]), |q| + 1)
  }

  predicate NoneTo(q: Program, t: nat) {
    forall i :: 0 <= i < |q| ==> t !in Targets(q[i])
  }

  /** The stops dropped from the end leave every jump in the table exactly when none was
      dropped, or one was and no jump goes past it. */
  lemma TrailingStops(p: Program, nil: nat, full: Program, q: Program)
    requires IsRaw(p) && TargetsWithin(p) && Kept(p, nil, LiveSet(p, nil), full) && q == Trimmed(full)
    ensures InTable(q) <==> |full| == |q| || (|full| == |q| + 1 && NoneTo(q, |full|))
  {
    hide LiveSet, Kept, Trimmed, Targets, TargetsWithin, InTable;
    TargetsInFull(p, nil, full, q);
    if |full| == |q| || (|full| == |q| + 1 && NoneTo(q, |full|)) {
      InTableWhen(full, q);
    } else {
      assert |full| > |q| by { TrimmedShorter(full, q); }
      if |full| >= |q| + 2 {
        var i := LastStopTarget(p, nil, full, q);
        NotInTable(q, i, |full| - 1);
      } else {
        var i :| 0 <= i < |q| && |full| in Targets(q[i]);
        NotInTable(q, i, |full|);
      }
    }
  }

  lemma TrimmedShorter(full: Program, q: Program)
    requires q == Trimmed(full)
    ensures |q| <= |full|
  {
  }

  lemma InTableWhen(full: Program, q: Program)
    requires |full| == |q| || (|full| == |q| + 1 && NoneTo(q, |full|))
    requires forall i :: 0 <= i < |q| ==> AllBelow(Targets(q[i]), |full| + 1)
    ensures InTable(q)
  {
    hide Targets;
    forall i, k | 0 <= i < |q| && 0 <= k < |Targets(q[i])| ensures Targets(q[i])[k] < |q| + 1 {
      assert Targets(q[i])[k] in Targets(q[i]);
      assert AllBelow(Targets(q[i]), |full| + 1);
    }
  }

  lemma NotInTable(q: Program, i: nat, t: nat)
    requires i < |q| && t in Targets(q[i]) && t > |q|
    ensures !InTable(q)
  {
    hide Targets;
  }

  /** Before trimming every jump lands within the table. */
  lemma TargetsInFull(p: Program, nil: nat, full: Program, q: Program)
    requires IsRaw(p) && TargetsWithin(p) && Kept(p, nil, LiveSet(p, nil), full) && q == Trimmed(full)
    ensures forall i :: 0 <= i < |q| ==> AllBelow(Targets(q[i]), |full| + 1)
  {
    hide LiveSet, Targets, WithTargets, TargetsWithin, ThreadAll, ThreadTarget, Rank, RankTable, Follows;
    var live := LiveSet(p, nil);
    forall j, k | 0 <= j < |q| && 0 <= k < |Targets(q[j])| ensures Targets(q[j])[k] < |full| + 1 {
      var i := Unrank(live, |live|, j);
      var op := ThreadAll(p, nil)[i];
      assert q[j] == RetargetBy(op, RankTable(live));
      TargetsKept(op, Remap(RankTable(live), Targets(op)));
      ThreadAllThreaded(p, nil);
      assert ThreadedOp(p, nil, p[i], op);
      ThreadedTarget(p, nil, i, k);
      assert Targets(q[j])[k] == Lookup(RankTable(live), Targets(op)[k]);
      RankUpTo(live, Targets(op)[k]);
      TableAt(live, Targets(op)[k]);
    }
  }

  lemma {:induction false} RankUpTo(vis: seq<bool>, t: nat)
    requires t <= |vis|
    ensures Rank(vis, t) <= Rank(vis, |vis|)
  {
    if t < |vis| {
      RankBelow(vis, t, |vis|);
    }
  }

  /** Of two or more stops dropped from the end, the last is the target of something kept. */
  lemma LastStopTarget(p: Program, nil: nat, full: Program, q: Program) returns (at: nat)
    requires IsRaw(p) && TargetsWithin(p) && Kept(p, nil, LiveSet(p, nil), full) && q == Trimmed(full)
    requires |full| >= |q| + 2
    ensures at < |q| && |full| - 1 in Targets(q[at])
  {
    hide LiveSet, Targets, WithTargets, TargetsWithin, ThreadAll, ThreadTarget, Rank, Kept, Trimmed, RetargetBy;
    var live, ops, e := LiveSet(p, nil), ThreadAll(p, nil), Entry(p, nil);
    KeptCount(p, nil, live, full);
    var i := Unrank(live, |live|, |full| - 1);
    LastIsStop(p, nil, full, q, i);
    var j := Jumper(p, nil, i, full);
    at := Rank(live, j);
    KeptAt(p, nil, full, q, j);
    var k :| 0 <= k < |Targets(ops[j])| && Targets(ops[j])[k] == i;
    RetargetedAt(ops[j], RankTable(live), k);
    TableAt(live, i);
  }

  lemma TableAt(live: seq<bool>, i: nat)
    requires i <= |live|
    ensures RankTable(live)[i] == Rank(live, i)
  {
  }

  lemma RetargetedAt(op: Op, m: seq<nat>, k: nat)
    requires k < |Targets(op)| && Targets(op)[k] < |m|
    ensures m[Targets(op)[k]] in Targets(RetargetBy(op, m))
  {
    hide Targets, WithTargets;
    TargetsKept(op, Remap(m, Targets(op)));
    assert Remap(m, Targets(op))[k] == m[Targets(op)[k]];
  }

  lemma KeptCount(p: Program, nil: nat, live: seq<bool>, full: Program)
    requires Kept(p, nil, live, full)
    ensures |live| == |p| && |full| == Rank(live, |live|)
  {
  }

  lemma LastIsStop(p: Program, nil: nat, full: Program, q: Program, i: nat)
    requires IsRaw(p) && Kept(p, nil, LiveSet(p, nil), full) && q == Trimmed(full)
    requires |q| < |full| && i < |p| && LiveSet(p, nil)[i] && Rank(LiveSet(p, nil), i) == |full| - 1
    ensures p[i].End?
  {
    hide LiveSet, ThreadTarget, Rank, RankTable, Targets;
    var op := ThreadAll(p, nil)[i];
    RetargetEnd(p[i], ThreadEach(p, nil, Targets(p[i])));
    RetargetEnd(op, Remap(RankTable(LiveSet(p, nil)), Targets(op)));
  }

  /** A live stop among others is jumped to by a live instruction that is not a stop. */
  lemma Jumper(p: Program, nil: nat, i: nat, full: Program) returns (j: nat)
    requires IsRaw(p) && Kept(p, nil, LiveSet(p, nil), full) && |full| >= 2
    requires i < |p| && LiveSet(p, nil)[i] && p[i].End?
    ensures j < |p| && LiveSet(p, nil)[j] && !p[j].End? && i in Targets(ThreadAll(p, nil)[j])
  {
    hide Targets, WithTargets, ThreadTarget, Rank, Kept, RetargetBy;
    var ops, e := ThreadAll(p, nil), Entry(p, nil);
    var k: nat :| ReachedIn(ops, e, i, k);
    if k == 0 {
      OnlyEntry(p, nil, full);
      assert false;
    } else {
      var x :| 0 <= x < |ops| && ReachedIn(ops, e, x, k - 1) && i in Targets(ops[x]);
      j := x;
      assert ReachableFrom(ops, e, j);
      if p[j].End? {
        StopHasNone(p, nil, j);
      }
    }
  }

  lemma StopHasNone(p: Program, nil: nat, j: nat)
    requires j < |p| && p[j].End?
    ensures Targets(ThreadAll(p, nil)[j]) == []
  {
  }

  /** An entry that is a stop reaches nothing else. */
  lemma OnlyEntry(p: Program, nil: nat, full: Program)
    requires Kept(p, nil, LiveSet(p, nil), full) && |full| >= 2
    ensures !(Entry(p, nil) < |p| && p[Entry(p, nil)].End?)
  {
    hide Kept, Targets, ThreadTarget, ThreadAll, Entry;
    var live, ops, e := LiveSet(p, nil), ThreadAll(p, nil), Entry(p, nil);
    KeptCount(p, nil, live, full);
    if e < |p| && p[e].End? {
      var a := Unrank(live, |live|, 0);
      var b := Unrank(live, |live|, 1);
      StopHasNone(p, nil, e);
      var k: nat :| ReachedIn(ops, e, a, k);
      NowhereElse(ops, e, a, k);
      var l: nat :| ReachedIn(ops, e, b, l);
      NowhereElse(ops, e, b, l);
    }
  }

  lemma {:induction false} NowhereElse(ops: Program, e: nat, i: nat, k: nat)
    requires e < |ops| && Targets(ops[e]) == [] && ReachedIn(ops, e, i, k)
    ensures i == e
    decreases k
  {
    hide Targets;
    if k > 0 {
      var j :| 0 <= j < |ops| && ReachedIn(ops, e, j, k - 1) && i in Targets(ops[j]);
      NowhereElse(ops, e, j, k - 1);
    }
  }
}
