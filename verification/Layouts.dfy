/** The tally encoder: clean a program, hand out primes, write it as one number, write a
    register bank as another, and read a bank back. */
module Layouts {
  import opened Machine
  import opened Limbs
  import opened Passes
  import opened Folding
  import opened Renumbering
  import opened Threading
  import opened Cleaning
  import opened Primes
  import opened Banks
  import opened Tallies
  import opened PrimeDensity

  /** The jumps of a raw instruction. */
  function RawTargets(op: Op): seq<nat> {
    match op
    case Inc(_, a) => [a]
    case Deb(_, a, b) => [a, b]
    case _ => []
  }

  /** Follow no-op takes from `t`. */
  method Thread(p: Program, nil: nat, t0: nat) returns (t: nat)
    ensures t == ThreadTarget(p, nil, t0, |p|)
  {
    t := t0;
    var hops := 0;
    while hops < |p| && t < |p| && PureJump(p[t], nil)
      invariant hops <= |p|
      invariant ThreadTarget(p, nil, t0, |p|) == ThreadTarget(p, nil, t, |p| - hops)
    {
      var next := p[t].onZero;
      if next == t {
        break;
      }
      t := next;
      hops := hops + 1;
    }
  }

  // ---------------------------------------------------------------------------
  // Reachability: a worklist on a stack
  // ---------------------------------------------------------------------------

  /** Everything marked is reachable. */
  ghost predicate OnlyLive(ops: Program, e: nat, marked: seq<bool>) {
    |marked| == |ops| && forall i :: 0 <= i < |ops| && marked[i] ==> ReachableFrom(ops, e, i)
  }

  /** Everything marked is on the stack or has its targets marked. */
  ghost predicate Pending(ops: Program, marked: seq<bool>, stack: seq<nat>) {
    && |marked| == |ops|
    && forall i :: 0 <= i < |ops| && marked[i] && i !in stack ==> StaysIn(Targets(ops[i]), marked)
  }

  ghost predicate AllMarked(marked: seq<bool>, stack: seq<nat>) {
    forall k :: 0 <= k < |stack| ==> stack[k] < |marked| && marked[stack[k]]
  }

  /** Marking one more and pushing it. */
  lemma PushOne(ops: Program, e: nat, marked: seq<bool>, stack: seq<nat>, done: seq<nat>, i: nat, x: nat)
    requires OnlyLive(ops, e, marked) && AllMarked(marked, stack) && x < |ops| && !marked[x]
    requires ReachableFrom(ops, e, x)
    requires Pending(ops, marked, stack + [i]) && StaysIn(done, marked)
    ensures var m := marked[x := true];
            && OnlyLive(ops, e, m) && AllMarked(m, stack + [x])
            && Pending(ops, m, stack + [x] + [i]) && StaysIn(done + [x], m)
            && Rank(m, |m|) == Rank(marked, |marked|) + 1
  {
    hide Targets, ReachableFrom;
    RankSet(marked, x, |marked|);
    var m := marked[x := true];
    forall j | 0 <= j < |ops| && m[j] && j !in stack + [x] + [i] ensures StaysIn(Targets(ops[j]), m) {
      assert j !in stack + [i];
      assert StaysIn(Targets(ops[j]), marked);
    }
  }

  lemma PopOne(ops: Program, marked: seq<bool>, stack: seq<nat>, i: nat)
    requires i < |ops| && Pending(ops, marked, stack + [i]) && StaysIn(Targets(ops[i]), marked)
    ensures Pending(ops, marked, stack)
  {
    hide Targets;
    forall j | 0 <= j < |ops| && marked[j] && j !in stack ensures StaysIn(Targets(ops[j]), marked) {
      if j != i {
        assert j !in stack + [i];
      }
    }
  }

  lemma StaysInSame(ts: seq<nat>, us: seq<nat>, vis: seq<bool>)
    requires StaysIn(ts, vis) && forall t :: t in us ==> t in ts
    ensures StaysIn(us, vis)
  {
    forall k | 0 <= k < |us| && us[k] < |vis| ensures vis[us[k]] {
      assert us[k] in ts;
      var j :| 0 <= j < |ts| && ts[j] == us[k];
    }
  }

  /** The threaded targets of instruction `i`. */
  lemma ThreadedTargets(p: Program, nil: nat, i: nat, ts: seq<nat>)
    requires IsRaw(p) && i < |p| && |ts| == |RawTargets(p[i])|
    requires forall k :: 0 <= k < |ts| ==> ts[k] == ThreadTarget(p, nil, RawTargets(p[i])[k], |p|)
    ensures forall t :: t in ts <==> t in Targets(ThreadAll(p, nil)[i])
  {
    hide ThreadTarget;
    assert IsRawOp(p[i]);
    TargetsKept(p[i], ThreadEach(p, nil, Targets(p[i])));
    var us := ThreadEach(p, nil, Targets(p[i]));
    if p[i].Deb? {
      assert ts == [us[1], us[0]] && us == [us[0], us[1]];
    } else if p[i].Inc? {
      assert ts == [us[0]] == us;
    }
  }

  lemma ReachTarget(p: Program, nil: nat, e: nat, i: nat, t: nat)
    requires i < |p| && ReachableFrom(ThreadAll(p, nil), e, i) && t in Targets(ThreadAll(p, nil)[i])
    ensures ReachableFrom(ThreadAll(p, nil), e, t)
  {
    hide Targets, ThreadTarget, ThreadAll, ReachableFrom;
    var ts := Targets(ThreadAll(p, nil)[i]);
    var k :| 0 <= k < |ts| && ts[k] == t;
    ReachOn(ThreadAll(p, nil), e, i, k);
  }

  lemma NothingYet(ops: Program, e: nat, marked: seq<bool>)
    requires |marked| == |ops| && forall i :: 0 <= i < |marked| ==> !marked[i]
    ensures OnlyLive(ops, e, marked) && Pending(ops, marked, []) && AllMarked(marked, [])
    ensures Rank(marked, |marked|) == 0
  {
    RankNone(marked, |marked|);
  }

  lemma PushFirst(ops: Program, e: nat, marked: seq<bool>, x: nat)
    requires |marked| == |ops| && forall i :: 0 <= i < |marked| ==> !marked[i]
    requires x < |ops| && ReachableFrom(ops, e, x)
    ensures var m := marked[x := true];
            OnlyLive(ops, e, m) && AllMarked(m, [x]) && Pending(ops, m, [x]) && Rank(m, |m|) == 1
  {
    hide Targets, ReachableFrom;
    RankNone(marked, |marked|);
    RankSet(marked, x, |marked|);
  }

  lemma OnlyLiveAt(ops: Program, e: nat, marked: seq<bool>, i: nat)
    requires OnlyLive(ops, e, marked) && i < |marked| && marked[i]
    ensures |marked| == |ops| && ReachableFrom(ops, e, i)
  {
    hide ReachableFrom;
  }

  lemma StaysInNone(marked: seq<bool>)
    ensures StaysIn([], marked)
  {
  }

  lemma StaysInMore(done: seq<nat>, x: nat, marked: seq<bool>)
    requires StaysIn(done, marked) && (x < |marked| ==> marked[x])
    ensures StaysIn(done + [x], marked)
  {
  }

  lemma RankRoom(marked: seq<bool>, x: nat)
    requires x < |marked| && !marked[x]
    ensures Rank(marked, |marked|) < |marked|
  {
    RankSet(marked, x, |marked|);
  }

  lemma ReachRaw(p: Program, nil: nat, e: nat, i: nat, k: nat)
    requires IsRaw(p) && i < |p| && ReachableFrom(ThreadAll(p, nil), e, i) && k < |RawTargets(p[i])|
    ensures ReachableFrom(ThreadAll(p, nil), e, ThreadTarget(p, nil, RawTargets(p[i])[k], |p|))
  {
    hide Targets, ThreadTarget, ThreadAll, ReachableFrom, RawTargets;
    var raw := RawTargets(p[i]);
    var ts := seq(|raw|, j requires 0 <= j < |raw| => ThreadTarget(p, nil, raw[j], |p|));
    ThreadedTargets(p, nil, i, ts);
    assert ts[k] in ts;
    ReachTarget(p, nil, e, i, ts[k]);
  }

  /** With nothing pending, exactly what the entry reaches is marked. */
  lemma AllLive(p: Program, nil: nat, marked: seq<bool>)
    requires OnlyLive(ThreadAll(p, nil), Entry(p, nil), marked) && Pending(ThreadAll(p, nil), marked, [])
    requires Entry(p, nil) < |p| ==> marked[Entry(p, nil)]
    ensures marked == LiveSet(p, nil)
  {
    hide Targets, ThreadTarget, ThreadAll, StaysIn;
    var ops, e := ThreadAll(p, nil), Entry(p, nil);
    forall i | 0 <= i < |p| ensures marked[i] == LiveSet(p, nil)[i] {
      if ReachableFrom(ops, e, i) {
        var k: nat :| ReachedIn(ops, e, i, k);
        ReachedWithin(ops, marked, e, i, k);
      }
    }
  }

  /** What the worklist keeps: the marked ones are live, those on the stack are marked, and
      each marked one was pushed once. */
  ghost predicate Work(p: Program, nil: nat, marked: seq<bool>, stack: seq<nat>, popped: nat) {
    && |marked| == |p| && |stack| + popped == Rank(marked, |p|) <= |p|
    && OnlyLive(ThreadAll(p, nil), Entry(p, nil), marked) && AllMarked(marked, stack)
    && (Entry(p, nil) < |p| ==> marked[Entry(p, nil)])
  }

  /** Mark and push the unmarked threaded targets of instruction `i`, just popped. */
  method PushTargets(p: Program, nil: nat, i: nat, reach: array<bool>, stack: array<nat>, sp0: nat, ghost popped: nat)
    returns (sp: nat)
    requires IsRaw(p) && i < |p| && reach.Length == |p| < stack.Length && sp0 <= stack.Length
    requires popped > 0 && Work(p, nil, reach[..], stack[..sp0], popped) && reach[i]
    requires Pending(ThreadAll(p, nil), reach[..], stack[..sp0] + [i])
    modifies reach, stack
    ensures sp <= stack.Length && Work(p, nil, reach[..], stack[..sp], popped)
    ensures Pending(ThreadAll(p, nil), reach[..], stack[..sp])
  {
    hide Targets, ReachableFrom, ThreadTarget, ThreadAll, LiveSet, Rank, RawTargets, Pending, StaysIn, OnlyLive;
    ghost var ops, e := ThreadAll(p, nil), Entry(p, nil);
    sp := sp0;
    OnlyLiveAt(ops, e, reach[..], i);
    var ts := RawTargets(p[i]);
    ghost var done: seq<nat> := [];
    StaysInNone(reach[..]);
    for k: nat := 0 to |ts|
      invariant sp <= stack.Length && Work(p, nil, reach[..], stack[..sp], popped)
      invariant Pending(ops, reach[..], stack[..sp] + [i])
      invariant |done| == k && StaysIn(done, reach[..])
      invariant forall j :: 0 <= j < k ==> done[j] == ThreadTarget(p, nil, ts[j], |p|)
    {
      var x := Thread(p, nil, ts[k]);
      if x < |p| && !reach[x] {
        RankRoom(reach[..], x);
        ReachRaw(p, nil, e, i, k);
        ghost var was, below := reach[..], stack[..sp];
        PushOne(ops, e, was, below, done, i, x);
        reach[x] := true;
        assert reach[..] == was[x := true];
        stack[sp] := x;
        sp := sp + 1;
        assert stack[..sp] == below + [x];
      } else {
        StaysInMore(done, x, reach[..]);
      }
      done := done + [x];
    }
    ThreadedTargets(p, nil, i, done);
    StaysInSame(done, Targets(ops[i]), reach[..]);
    PopOne(ops, reach[..], stack[..sp], i);
  }

  method MarkLive(p: Program, nil: nat) returns (reach: array<bool>)
    requires IsRaw(p)
    ensures fresh(reach) && reach[..] == LiveSet(p, nil)
  {
    hide Targets, ReachableFrom, ThreadTarget, ThreadAll, LiveSet, Rank, RawTargets, Pending, StaysIn, OnlyLive;
    var n := |p|;
    ghost var ops, e := ThreadAll(p, nil), Entry(p, nil);
    reach := new bool[n](_ => false);
    var stack := new nat[n + 1];
    var sp: nat := 0;
    ghost var popped: nat := 0;
    var entry := 0;
    if n > 0 {
      entry := Thread(p, nil, 0);
    }
    NothingYet(ops, e, reach[..]);
    ReachStart(ops, e);
    if entry < n {
      ghost var was := reach[..];
      PushFirst(ops, e, was, entry);
      reach[entry] := true;
      assert reach[..] == was[entry := true];
      stack[sp] := entry;
      sp := sp + 1;
      assert stack[..sp] == [entry];
    }
    while sp > 0
      invariant sp <= stack.Length && Work(p, nil, reach[..], stack[..sp], popped)
      invariant Pending(ops, reach[..], stack[..sp])
      decreases n - popped
    {
      assert stack[..sp] == stack[..sp - 1] + [stack[sp - 1]];
      sp := sp - 1;
      popped := popped + 1;
      sp := PushTargets(p, nil, stack[sp], reach, stack, sp, popped);
    }
    assert stack[..0] == [];
    AllLive(p, nil, reach[..]);
  }

  // ---------------------------------------------------------------------------
  // Renumbering and trimming
  // ---------------------------------------------------------------------------

  /** New positions, the one past the end included. */
  method Renumber(reach: array<bool>) returns (newidx: array<nat>, count: nat)
    ensures fresh(newidx) && newidx[..] == RankTable(reach[..]) && count == Rank(reach[..], reach.Length)
  {
    hide Rank;
    ghost var live := reach[..];
    RankZero(live);
    newidx := new nat[reach.Length + 1];
    count := 0;
    for i := 0 to reach.Length
      invariant count == Rank(live, i)
      invariant forall j :: 0 <= j < i ==> newidx[j] == Rank(live, j)
    {
      RankNext(live, i);
      newidx[i] := count;
      if reach[i] {
        count := count + 1;
      }
    }
    newidx[reach.Length] := count;
  }

  /** A kept instruction with its targets threaded and renumbered. */
  method Retarget(p: Program, nil: nat, op: Op, newidx: array<nat>) returns (r: Op)
    requires IsRawOp(op) && TargetsWithin(p) && op in p && newidx.Length == |p| + 1
    ensures r == RetargetBy(WithTargets(op, ThreadEach(p, nil, Targets(op))), newidx[..])
  {
    hide ThreadTarget, TargetsWithin;
    TargetsOf(p, nil, op);
    match op
    case Inc(x, a) =>
      assert Targets(op)[0] == a;
      var t := Thread(p, nil, a);
      r := Inc(x, newidx[t]);
    case Deb(x, a, b) =>
      assert Targets(op)[1] == a && Targets(op)[0] == b;
      var t := Thread(p, nil, a);
      var u := Thread(p, nil, b);
      r := Deb(x, newidx[t], newidx[u]);
    case _ => r := op;
  }

  lemma TargetsOf(p: Program, nil: nat, op: Op)
    requires TargetsWithin(p) && op in p
    ensures forall k :: 0 <= k < |Targets(op)| ==> ThreadTarget(p, nil, Targets(op)[k], |p|) <= |p|
  {
    hide Targets;
    var i :| 0 <= i < |p| && p[i] == op;
    assert AllBelow(Targets(p[i]), |p| + 1);
    forall k | 0 <= k < |Targets(op)| ensures ThreadTarget(p, nil, Targets(op)[k], |p|) <= |p| {
      ThreadWithin(p, nil, Targets(op)[k], |p|);
    }
  }

  /** The kept instructions collected so far. */
  ghost predicate KeptSoFar(p: Program, nil: nat, live: seq<bool>, full: Program, i: nat) {
    && |live| == |p| && i <= |p| && |full| == Rank(live, i)
    && forall j :: 0 <= j < i && live[j] ==>
         && Rank(live, j) < |full|
         && full[Rank(live, j)] == RetargetBy(ThreadAll(p, nil)[j], RankTable(live))
  }

  lemma KeptNone(p: Program, nil: nat, live: seq<bool>)
    requires |live| == |p|
    ensures KeptSoFar(p, nil, live, [], 0)
  {
  }

  lemma KeptMore(p: Program, nil: nat, live: seq<bool>, full: Program, i: nat)
    requires KeptSoFar(p, nil, live, full, i) && i < |p|
    ensures live[i] ==> KeptSoFar(p, nil, live, full + [RetargetBy(ThreadAll(p, nil)[i], RankTable(live))], i + 1)
    ensures !live[i] ==> KeptSoFar(p, nil, live, full, i + 1)
  {
    hide RetargetBy, ThreadTarget, RankTable;
  }

  lemma KeptAll(p: Program, nil: nat, live: seq<bool>, full: Program)
    requires KeptSoFar(p, nil, live, full, |p|)
    ensures Kept(p, nil, live, full)
  {
    hide RetargetBy, ThreadTarget, RankTable;
  }

  lemma RankLess(vis: seq<bool>, i: nat)
    requires i < |vis| && vis[i]
    ensures Rank(vis, i) < Rank(vis, |vis|)
  {
    RankBelow(vis, i, |vis|);
  }

  method KeepLive(p: Program, nil: nat, reach: array<bool>, newidx: array<nat>, count: nat) returns (insts: array<Op>)
    requires IsRaw(p) && TargetsWithin(p) && reach.Length == |p|
    requires newidx[..] == RankTable(reach[..]) && newidx.Length == |p| + 1 && count == Rank(reach[..], |p|)
    ensures fresh(insts) && insts.Length == count && Kept(p, nil, reach[..], insts[..])
  {
    hide Rank, RankTable, ThreadTarget, RetargetBy, KeptSoFar, Kept, TargetsWithin;
    ghost var live, table := reach[..], newidx[..];
    insts := new Op[count](_ => End);
    var k := 0;
    KeptNone(p, nil, live);
    RankZero(live);
    for i: nat := 0 to |p|
      invariant k == Rank(live, i) <= count && KeptSoFar(p, nil, live, insts[..k], i)
    {
      RankNext(live, i);
      KeptMore(p, nil, live, insts[..k], i);
      if reach[i] {
        RankLess(live, i);
        assert IsRawOp(p[i]);
        var op := Retarget(p, nil, p[i], newidx);
        ghost var was := insts[..k];
        insts[k] := op;
        k := k + 1;
        assert insts[..k] == was + [op];
      }
    }
    KeptAll(p, nil, live, insts[..k]);
    assert insts[..k] == insts[..];
  }

  /** Drop the stops at the very end. */
  method Trim(insts: array<Op>) returns (instCount: nat)
    ensures instCount <= insts.Length && insts[..instCount] == Trimmed(insts[..])
  {
    instCount := insts.Length;
    assert insts[..instCount] == insts[..];
    while instCount > 0 && insts[instCount - 1].End?
      invariant instCount <= insts.Length && Trimmed(insts[..instCount]) == Trimmed(insts[..])
    {
      assert insts[..instCount][..instCount - 1] == insts[..instCount - 1];
      instCount := instCount - 1;
    }
  }

  /** A program without the no-ops, the dead code and the trailing stops. */
  method Clean(p: Program, nil: nat) returns (q: Program)
    requires IsRaw(p) && TargetsWithin(p)
    ensures Cleaned(p, nil, q)
  {
    hide LiveSet, Kept, Trimmed, RankTable, Rank, TargetsWithin;
    var reach := MarkLive(p, nil);
    var newidx, count := Renumber(reach);
    var insts := KeepLive(p, nil, reach, newidx, count);
    var instCount := Trim(insts);
    q := insts[..instCount];
  }

  // ---------------------------------------------------------------------------
  // Field offsets
  // ---------------------------------------------------------------------------

  lemma OffsetZero(q: Program)
    ensures Offset(q, 0) == 0
  {
  }

  lemma OffsetNext(q: Program, i: nat)
    requires i < |q|
    ensures Offset(q, i + 1) == Offset(q, i) + Width(q[i])
  {
  }

  /** Where each instruction's fields begin, and one past the end. */
  method FieldOffsets(q: Program) returns (off: array<nat>)
    ensures fresh(off) && off.Length == |q| + 1
    ensures forall i :: 0 <= i <= |q| ==> off[i] == Offset(q, i)
  {
    hide Offset;
    off := new nat[|q| + 1];
    var next := 0;
    OffsetZero(q);
    for i := 0 to |q|
      invariant next == Offset(q, i) && forall j :: 0 <= j < i ==> off[j] == Offset(q, j)
    {
      OffsetNext(q, i);
      off[i] := next;
      next := next + if q[i].Inc? then 2 else if q[i].Deb? then 3 else 1;
    }
    off[|q|] := next;
  }

  // ---------------------------------------------------------------------------
  // Handing out primes
  // ---------------------------------------------------------------------------

  predicate Names(op: Op, r: nat) {
    match op
    case Inc(x, _) => x == r
    case Deb(x, _, _) => x == r
    case _ => false
  }

  /** How many instructions name register `r`. */
  function Mentions(q: Program, r: nat): nat {
    if q == [] then 0 else Mentions(q[..|q| - 1], r) + if Names(q[|q| - 1], r) then 1 else 0
  }

  lemma {:induction false} NamedIsMentioned(q: Program, r: nat, i: nat)
    requires i < |q| && Names(q[i], r)
    ensures Mentions(q, r) > 0
  {
    if i < |q| - 1 {
      NamedIsMentioned(q[..|q| - 1], r, i);
    }
  }

  lemma {:induction false} MentionedIsNamed(q: Program, r: nat) returns (i: nat)
    requires Mentions(q, r) > 0
    ensures i < |q| && Names(q[i], r)
  {
    if Names(q[|q| - 1], r) {
      i := |q| - 1;
    } else {
      i := MentionedIsNamed(q[..|q| - 1], r);
    }
  }

  method CountMentions(q: Program, rc: nat) returns (mentions: array<nat>)
    requires IsRaw(q) && ProgOk(q, rc)
    ensures fresh(mentions) && mentions.Length == rc
    ensures forall r :: 0 <= r < rc ==> mentions[r] == Mentions(q, r)
  {
    mentions := new nat[rc](_ => 0);
    for i := 0 to |q|
      invariant forall r :: 0 <= r < rc ==> mentions[r] == Mentions(q[..i], r)
    {
      assert q[..i + 1][..i] == q[..i];
      assert IsRawOp(q[i]) && OpOk(q[i], rc);
      if !q[i].End? {
        mentions[q[i].reg] := mentions[q[i].reg] + 1;
      }
    }
    assert q[..|q|] == q;
  }

  /** `a` is served before `b`: named more often, or as often and with the lower index. */
  predicate Before(mentions: seq<nat>, a: nat, b: nat)
    requires a < |mentions| && b < |mentions|
  {
    mentions[a] > mentions[b] || (mentions[a] == mentions[b] && a < b)
  }

  ghost predicate Served(mentions: seq<nat>, order: seq<nat>) {
    && AllBelow(order, |mentions|)
    && forall i, j :: 0 <= i < j < |order| ==> Before(mentions, order[i], order[j])
  }

  /** `order` holds exactly the mentioned registers. */
  ghost predicate Listed(mentions: seq<nat>, order: seq<nat>) {
    && AllBelow(order, |mentions|)
    && forall r :: 0 <= r < |mentions| ==> (r in order <==> mentions[r] > 0)
  }

  ghost predicate Rising(order: seq<nat>) {
    forall i, j :: 0 <= i < j < |order| ==> order[i] < order[j]
  }

  /** The mentioned registers in index order. */
  method ListMentioned(mentions: array<nat>) returns (order: array<nat>, used: nat)
    ensures fresh(order) && used <= order.Length == mentions.Length
    ensures Listed(mentions[..], order[..used]) && Rising(order[..used])
  {
    order := new nat[mentions.Length];
    used := 0;
    for r: nat := 0 to mentions.Length
      invariant used <= r
      invariant forall i :: 0 <= i < used ==> order[i] < r
      invariant forall i, j :: 0 <= i < j < used ==> order[i] < order[j]
      invariant forall s :: 0 <= s < r ==> (s in order[..used] <==> mentions[s] > 0)
    {
      if mentions[r] > 0 {
        ghost var was := order[..used];
        order[used] := r;
        used := used + 1;
        assert order[..used] == was + [r];
      }
    }
  }

  /** Sliding `r`, a later register than any in `was`, in behind those named as often. */
  lemma InsertServed(mentions: seq<nat>, was: seq<nat>, j: nat, r: nat)
    requires Served(mentions, was) && j <= |was| && r < |mentions|
    requires forall k :: 0 <= k < |was| ==> was[k] < r
    requires forall k :: j <= k < |was| ==> mentions[was[k]] < mentions[r]
    requires j > 0 ==> mentions[was[j - 1]] >= mentions[r]
    ensures Served(mentions, was[..j] + [r] + was[j..])
  {
    var now := was[..j] + [r] + was[j..];
    forall k | 0 <= k < j ensures Before(mentions, was[k], r) {
      if k < j - 1 {
        assert Before(mentions, was[k], was[j - 1]);
      }
    }
    forall x, y | 0 <= x < y < |now| ensures Before(mentions, now[x], now[y]) {
      var x', y' := if x < j then x else x - 1, if y < j then y else y - 1;
      if x != j && y != j {
        assert now[x] == was[x'] && now[y] == was[y'];
      }
    }
  }

  lemma InsertSame(was: seq<nat>, j: nat, r: nat)
    requires j <= |was|
    ensures multiset(was[..j] + [r] + was[j..]) == multiset(was) + multiset{r}
  {
    assert was == was[..j] + was[j..];
  }

  lemma EarlierLower(start: seq<nat>, was: seq<nat>, i: nat)
    requires Rising(start) && i < |start| && |was| == i && multiset(was) == multiset(start[..i])
    ensures forall k :: 0 <= k < |was| ==> was[k] < start[i]
  {
    forall k | 0 <= k < |was| ensures was[k] < start[i] {
      assert was[k] in multiset(was);
      assert was[k] in start[..i];
    }
  }

  /** Slide the entry at `i` down past those named less often. */
  method Insert(mentions: array<nat>, order: array<nat>, i: nat, ghost was: seq<nat>) returns (ghost j: nat)
    requires order != mentions && i < |was| <= order.Length && order[..|was|] == was
    requires forall k :: 0 <= k <= i ==> was[k] < mentions.Length
    modifies order
    ensures j <= i
    ensures order[..i + 1] == was[..j] + [was[i]] + was[j..i]
    ensures forall k :: i < k < |was| ==> order[k] == was[k]
    ensures forall k :: j <= k < i ==> mentions[was[k]] < mentions[was[i]]
    ensures j > 0 ==> mentions[was[j - 1]] >= mentions[was[i]]
  {
    assert forall k :: 0 <= k < |was| ==> order[k] == order[..|was|][k] == was[k];
    var r := order[i];
    var at := i;
    while at > 0 && mentions[order[at - 1]] < mentions[r]
      invariant at <= i
      invariant forall k :: 0 <= k < at ==> order[k] == was[k]
      invariant forall k :: at < k <= i ==> order[k] == was[k - 1]
      invariant forall k :: at <= k < i ==> mentions[was[k]] < mentions[r]
      invariant forall k :: i < k < |was| ==> order[k] == was[k]
    {
      order[at] := order[at - 1];
      at := at - 1;
    }
    order[at] := r;
    j := at;
    Slid(was, order[..i + 1], j, i);
  }

  lemma Slid(was: seq<nat>, now: seq<nat>, j: nat, i: nat)
    requires j <= i < |was| && |now| == i + 1 && now[j] == was[i]
    requires forall k :: 0 <= k < j ==> now[k] == was[k]
    requires forall k :: j < k <= i ==> now[k] == was[k - 1]
    ensures now == was[..j] + [was[i]] + was[j..i]
  {
  }

  /** One round of the sort. */
  lemma InsertRound(mentions: seq<nat>, start: seq<nat>, was: seq<nat>, now: seq<nat>, j: nat)
    requires Listed(mentions, start) && Rising(start) && |was| < |start|
    requires Served(mentions, was) && multiset(was) == multiset(start[..|was|])
    requires j <= |was| && now == was[..j] + [start[|was|]] + was[j..]
    requires AllBelow(was, |mentions|)
    requires forall k :: j <= k < |was| ==> mentions[was[k]] < mentions[start[|was|]]
    requires j > 0 ==> mentions[was[j - 1]] >= mentions[start[|was|]]
    ensures Served(mentions, now) && multiset(now) == multiset(start[..|was| + 1])
  {
    hide Served, Before, Rising;
    var i := |was|;
    EarlierLower(start, was, i);
    InsertServed(mentions, was, j, start[i]);
    InsertSame(was, j, start[i]);
    assert start[..i + 1] == start[..i] + [start[i]];
  }

  ghost predicate SortedTo(mentions: seq<nat>, start: seq<nat>, order: seq<nat>, i: nat) {
    && i <= |start| == |order|
    && Served(mentions, order[..i]) && multiset(order[..i]) == multiset(start[..i])
    && order[i..] == start[i..]
  }

  lemma SortedNext(mentions: seq<nat>, start: seq<nat>, was: seq<nat>, now: seq<nat>, i: nat, j: nat)
    requires Listed(mentions, start) && Rising(start) && SortedTo(mentions, start, was, i) && i < |start| == |now|
    requires j <= i && now[..i + 1] == was[..j] + [was[i]] + was[j..i]
    requires forall k :: i < k < |now| ==> now[k] == was[k]
    requires AllBelow(was, |mentions|)
    requires forall k :: j <= k < i ==> mentions[was[k]] < mentions[was[i]]
    requires j > 0 ==> mentions[was[j - 1]] >= mentions[was[i]]
    ensures SortedTo(mentions, start, now, i + 1)
  {
    hide Served, Listed, Rising;
    assert was[i] == was[i..][0] == start[i..][0] == start[i];
    forall k | i < k < |now| ensures now[k] == start[k] {
      assert was[k] == was[i..][k - i] && start[k] == start[i..][k - i];
    }
    assert now[i + 1..] == start[i + 1..];
    var head := was[..i];
    assert head[..j] == was[..j] && head[j..] == was[j..i];
    InsertRound(mentions, start, head, now[..i + 1], j);
  }

  lemma SortedBelow(mentions: seq<nat>, start: seq<nat>, order: seq<nat>, i: nat)
    requires Listed(mentions, start) && SortedTo(mentions, start, order, i)
    ensures AllBelow(order, |mentions|) && |order| == |start|
  {
    hide Served;
    forall k | 0 <= k < |order| ensures order[k] < |mentions| {
      if k < i {
        assert order[k] in multiset(order[..i]) by { assert order[..i][k] == order[k]; }
        assert order[k] in start[..i];
      } else {
        assert order[k] == order[i..][k - i] == start[i..][k - i];
      }
    }
  }

  lemma SortStart(mentions: seq<nat>, start: seq<nat>)
    ensures SortedTo(mentions, start, start, 0)
  {
  }

  lemma SortDone(mentions: seq<nat>, start: seq<nat>, order: seq<nat>)
    requires Listed(mentions, start) && SortedTo(mentions, start, order, |start|)
    ensures Listed(mentions, order) && Served(mentions, order)
  {
    hide Listed, Served;
    assert order[..|start|] == order && start[..|start|] == start;
    SameMembers(mentions, start, order);
  }

  /** Stable insertion sort by falling mention count. */
  method SortByMentions(mentions: array<nat>, order: array<nat>, used: nat)
    requires order != mentions && used <= order.Length
    requires Listed(mentions[..], order[..used]) && Rising(order[..used])
    modifies order
    ensures Listed(mentions[..], order[..used]) && Served(mentions[..], order[..used])
  {
    hide Rising, Served, Listed, SortedTo, AllBelow;
    ghost var start := order[..used];
    SortStart(mentions[..], start);
    for i: nat := 0 to used
      invariant SortedTo(mentions[..], start, order[..used], i)
    {
      ghost var was := order[..used];
      SortedBelow(mentions[..], start, was, i);
      BelowAt(was, mentions.Length);
      ghost var j := Insert(mentions, order, i, was);
      assert order[..used][..i + 1] == order[..i + 1];
      SortedNext(mentions[..], start, was, order[..used], i, j);
    }
    SortDone(mentions[..], start, order[..used]);
  }

  lemma BelowAt(rs: seq<nat>, n: nat)
    requires AllBelow(rs, n)
    ensures forall k :: 0 <= k < |rs| ==> rs[k] < n
  {
  }

  lemma ServedBelow(mentions: seq<nat>, order: seq<nat>)
    requires Served(mentions, order)
    ensures AllBelow(order, |mentions|)
  {
  }

  lemma SameMembers(mentions: seq<nat>, a: seq<nat>, b: seq<nat>)
    requires Listed(mentions, a) && multiset(a) == multiset(b)
    ensures Listed(mentions, b)
  {
    forall r | r in b ensures r in a {
      assert r in multiset(b);
    }
    forall r | r in a ensures r in b {
      assert r in multiset(a);
    }
    assert forall i :: 0 <= i < |b| ==> b[i] in b;
  }

  /** The `i`-th register served has the `i`-th prime; the others have none. */
  ghost predicate Assigned(primes: seq<nat>, order: seq<nat>) {
    && AllBelow(order, |primes|)
    && (forall i :: 0 <= i < |order| ==> IsPrime(primes[order[i]]) && PrimesBelow(primes[order[i]]) == i)
    && (forall r :: 0 <= r < |primes| && r !in order ==> primes[r] == 0)
  }

  lemma AssignMore(primes: seq<nat>, order: seq<nat>, r: nat, c: nat)
    requires Assigned(primes, order) && r < |primes| && r !in order
    requires IsPrime(c) && PrimesBelow(c) == |order|
    ensures Assigned(primes[r := c], order + [r])
  {
    hide IsPrime, PrimesBelow;
    var more := order + [r];
    assert more[|order|] == r;
    forall s | 0 <= s < |primes| && s !in more ensures primes[r := c][s] == 0 {
      assert forall i :: 0 <= i < |order| ==> more[i] == order[i];
    }
  }

  lemma ServedOnce(mentions: seq<nat>, order: seq<nat>, i: nat)
    requires Served(mentions, order) && i < |order|
    ensures order[i] !in order[..i]
  {
    forall j | 0 <= j < i ensures order[j] != order[i] {
      assert Before(mentions, order[j], order[i]);
    }
  }

  method AssignPrimes(order: seq<nat>, rc: nat, ghost mentions: seq<nat>) returns (primeOf: array<nat>)
    requires |mentions| == rc && Served(mentions, order)
    ensures fresh(primeOf) && primeOf.Length == rc && Assigned(primeOf[..], order)
  {
    hide IsPrime, PrimesBelow, Served, Assigned;
    primeOf := new nat[rc](_ => 0);
    AssignNone(primeOf[..]);
    ServedBelow(mentions, order);
    assert order[..0] == [];
    for i := 0 to |order|
      invariant Assigned(primeOf[..], order[..i])
    {
      ServedOnce(mentions, order, i);
      var c := TallyNthPrime(i);
      ghost var was := primeOf[..];
      AssignMore(was, order[..i], order[i], c);
      primeOf[order[i]] := c;
      assert primeOf[..] == was[order[i] := c];
      assert order[..i + 1] == order[..i] + [order[i]];
    }
    assert order[..|order|] == order;
  }

  /** Every prime handed out fits a machine word. */
  predicate WordPrimes(primes: seq<nat>) {
    AllLimbs(primes)
  }

  /** With register indices of 32 bits every prime handed out fits. */
  lemma AssignedFit(primes: seq<nat>, mentions: seq<nat>, order: seq<nat>)
    requires Assigned(primes, order) && Served(mentions, order) && |mentions| == |primes| <= 0x1_0000_0000
    ensures WordPrimes(primes)
  {
    hide IsPrime, PrimesBelow;
    forall i, j | 0 <= i < j < |order| ensures order[i] != order[j] {
      assert Before(mentions, order[i], order[j]);
    }
    Pigeonhole(order, |primes|);
    forall r | 0 <= r < |primes| ensures primes[r] < BASE {
      if r in order {
        var i :| 0 <= i < |order| && order[i] == r;
        NthPrimeFits(primes[r]);
      }
    }
  }

  lemma AssignNone(primes: seq<nat>)
    requires forall r :: 0 <= r < |primes| ==> primes[r] == 0
    ensures Assigned(primes, [])
  {
  }

  /** Registers share no prime, and every register the program names has one. */
  lemma AssignedOk(q: Program, primes: seq<nat>, mentions: seq<nat>, order: seq<nat>)
    requires IsRaw(q) && ProgOk(q, |primes|) && |mentions| == |primes|
    requires Assigned(primes, order) && Listed(mentions, order)
    requires forall r :: 0 <= r < |primes| ==> mentions[r] == Mentions(q, r)
    ensures PrimesOk(primes) && HasPrimes(q, primes)
    ensures forall r :: 0 <= r < |primes| ==> (primes[r] != 0 <==> Mentions(q, r) > 0)
  {
    hide IsPrime, PrimesBelow, Mentions;
    forall r | 0 <= r < |primes| ensures primes[r] != 0 <==> r in order {
      if r in order {
        var i :| 0 <= i < |order| && order[i] == r;
        PrimeAtLeastTwo(primes[r]);
      }
    }
    forall r | 0 <= r < |primes| && primes[r] != 0 ensures IsPrime(primes[r]) {
      var i :| 0 <= i < |order| && order[i] == r;
    }
    forall r, s | 0 <= r < s < |primes| && primes[r] != 0 ensures primes[r] != primes[s] {
      var i :| 0 <= i < |order| && order[i] == r;
      if s in order {
        var j :| 0 <= j < |order| && order[j] == s;
      }
    }
    forall i | 0 <= i < |q|
      ensures match q[i]
        case Inc(r, _) => r < |primes| && primes[r] != 0
        case Deb(r, _, _) => r < |primes| && primes[r] != 0
        case _ => true
    {
      assert IsRawOp(q[i]) && OpOk(q[i], |primes|);
      if !q[i].End? {
        NamedIsMentioned(q, q[i].reg, i);
      }
    }
  }

  lemma PrimeAtLeastTwo(p: nat)
    requires IsPrime(p)
    ensures p >= 2
  {
  }

  // ---------------------------------------------------------------------------
  // The layout
  // ---------------------------------------------------------------------------

  /** The offset a jump to `t` is written as: past the table, the last entry. */
  function ReadOffset(off: seq<nat>, t: nat): nat
    requires |off| > 0
  {
    if t < |off| then off[t] else off[|off| - 1]
  }

  lemma ReadOffsetIs(q: Program, off: seq<nat>, t: nat)
    requires |off| == |q| + 1 && forall i :: 0 <= i <= |q| ==> off[i] == Offset(q, i)
    ensures ReadOffset(off, t) == TargetField(q, t)
  {
  }

  lemma {:induction false} BitsJoin(a: seq<nat>, b: seq<nat>)
    ensures Bits(a + b) == Bits(a) + Bits(b)
  {
    if a == [] {
      assert a + b == b;
    } else {
      assert (a + b)[1..] == a[1..] + b;
      BitsJoin(a[1..], b);
    }
  }

  lemma BitsNext(q: Program, primes: seq<nat>, i: nat)
    requires i < |q| && HasPrimes(q, primes)
    ensures Bits(FieldsFrom(q, primes, i)) == Bits(FieldsOf(q, primes, i)) + Bits(FieldsFrom(q, primes, i + 1))
  {
    BitsJoin(FieldsOf(q, primes, i), FieldsFrom(q, primes, i + 1));
  }

  lemma BitsOne(x: nat, y: nat, z: nat)
    ensures Bits([x]) == x + 1 && Bits([x, y]) == x + 1 + (y + 1) && Bits([x, y, z]) == x + 1 + (y + 1) + (z + 1)
  {
    BitsJoin([x], [y]);
    BitsJoin([x, y], [z]);
    assert [x] + [y] == [x, y] && [x, y] + [z] == [x, y, z];
  }

  /** The length of the program's bit string. */
  method BitCount(q: Program, primes: seq<nat>, off: seq<nat>) returns (bits: nat)
    requires HasPrimes(q, primes)
    requires |off| == |q| + 1 && forall i :: 0 <= i <= |q| ==> off[i] == Offset(q, i)
    ensures bits == Bits(FieldsFrom(q, primes, 0))
  {
    hide Offset, Bits, FieldsFrom, TargetField;
    bits := 0;
    for i: nat := 0 to |q|
      invariant bits + Bits(FieldsFrom(q, primes, i)) == Bits(FieldsFrom(q, primes, 0))
    {
      BitsNext(q, primes, i);
      match q[i] {
        case Inc(r, a) =>
          ReadOffsetIs(q, off, a);
          BitsOne(2 * primes[r], TargetField(q, a), 0);
          bits := bits + 2 * primes[r] + 1 + ReadOffset(off, a) + 1;
        case Deb(r, a, b) =>
          ReadOffsetIs(q, off, a);
          ReadOffsetIs(q, off, b);
          BitsOne(2 * primes[r] + 1, TargetField(q, a), TargetField(q, b));
          bits := bits + 2 * primes[r] + 2 + ReadOffset(off, a) + 1 + ReadOffset(off, b) + 1;
        case _ =>
          BitsOne(0, 0, 0);
          bits := bits + 1;
      }
    }
    NoFields(q, primes);
  }

  lemma NoFields(q: Program, primes: seq<nat>)
    requires HasPrimes(q, primes)
    ensures Bits(FieldsFrom(q, primes, |q|)) == 0
  {
  }

  datatype TallyLayout = TallyLayout(
    insts: Program,          // the cleaned program
    fieldOff: seq<nat>,      // instruction -> its first field's offset; the last entry is the end
    primeOf: seq<nat>,       // register -> prime, 0 if the cleaned program does not name it
    byPrime: seq<nat>,       // registers in prime order
    bitCount: nat)

  /** A layout of `p` over `rc` registers. */
  ghost predicate Lays(p: Program, nil: nat, rc: nat, l: TallyLayout) {
    && Cleaned(p, nil, l.insts) && IsRaw(l.insts) && ProgOk(l.insts, rc)
    && |l.fieldOff| == |l.insts| + 1 && (forall i :: 0 <= i <= |l.insts| ==> l.fieldOff[i] == Offset(l.insts, i))
    && |l.primeOf| == rc && PrimesOk(l.primeOf) && HasPrimes(l.insts, l.primeOf)
    && (forall r :: 0 <= r < rc ==> (l.primeOf[r] != 0 <==> Mentions(l.insts, r) > 0))
    && l.bitCount == Bits(FieldsFrom(l.insts, l.primeOf, 0))
  }

  /** The more often a register is named the smaller its prime, ties to the lower index. */
  ghost predicate PrimesByMentions(l: TallyLayout) {
    && AllBelow(l.byPrime, |l.primeOf|)
    && (forall r :: 0 <= r < |l.primeOf| ==> (r in l.byPrime <==> Mentions(l.insts, r) > 0))
    && (forall i :: 0 <= i < |l.byPrime| ==>
          IsPrime(l.primeOf[l.byPrime[i]]) && PrimesBelow(l.primeOf[l.byPrime[i]]) == i)
    && (forall i, j :: 0 <= i < j < |l.byPrime| ==>
          var a, b := l.byPrime[i], l.byPrime[j];
          Mentions(l.insts, a) > Mentions(l.insts, b)
          || (Mentions(l.insts, a) == Mentions(l.insts, b) && a < b))
  }

  lemma CleanedRaw(p: Program, nil: nat, q: Program, rc: nat)
    requires IsRaw(p) && ProgOk(p, rc) && Cleaned(p, nil, q)
    ensures IsRaw(q) && ProgOk(q, rc)
  {
    hide LiveSet, Targets, WithTargets, ThreadTarget, Rank, RankTable, OpOk, IsRawOp;
    var full :| Kept(p, nil, LiveSet(p, nil), full) && q == Trimmed(full);
    var live := LiveSet(p, nil);
    forall j | 0 <= j < |q| ensures IsRawOp(q[j]) && OpOk(q[j], rc) {
      var i := Unrank(live, |live|, j);
      var op := ThreadAll(p, nil)[i];
      assert IsRawOp(p[i]) && OpOk(p[i], rc);
      WithRaw(p[i], ThreadEach(p, nil, Targets(p[i])), rc);
      WithRaw(op, Remap(RankTable(live), Targets(op)), rc);
      assert q[j] == RetargetBy(op, RankTable(live));
    }
  }

  lemma WithRaw(op: Op, ts: seq<nat>, rc: nat)
    requires IsRawOp(op) && OpOk(op, rc) && |ts| == |Targets(op)|
    ensures IsRawOp(WithTargets(op, ts)) && OpOk(WithTargets(op, ts), rc)
  {
  }

  method LayOut(p: Program, nil: nat, rc: nat) returns (l: TallyLayout)
    requires IsRaw(p) && ProgOk(p, rc) && TargetsWithin(p)
    ensures Lays(p, nil, rc, l) && PrimesByMentions(l)
    ensures rc <= 0x1_0000_0000 ==> WordPrimes(l.primeOf)
  {
    hide Cleaned, TargetsWithin, Listed, Served, Assigned, HasPrimes, PrimesOk, IsPrime,
      PrimesBelow, Mentions, FieldsFrom, Bits, Offset;
    var insts := Clean(p, nil);
    CleanedRaw(p, nil, insts, rc);
    var fieldOff := FieldOffsets(insts);
    var mentions := CountMentions(insts, rc);
    var order, used := ListMentioned(mentions);
    SortByMentions(mentions, order, used);
    var byPrime := order[..used];
    var primeOf := AssignPrimes(byPrime, rc, mentions[..]);
    AssignedOk(insts, primeOf[..], mentions[..], byPrime);
    if rc <= 0x1_0000_0000 {
      AssignedFit(primeOf[..], mentions[..], byPrime);
    }
    var bits := BitCount(insts, primeOf[..], fieldOff[..]);
    l := TallyLayout(insts, fieldOff[..], primeOf[..], byPrime, bits);
    ByMentions(l, mentions[..]);
  }

  lemma ByMentions(l: TallyLayout, mentions: seq<nat>)
    requires |mentions| == |l.primeOf| && forall r :: 0 <= r < |mentions| ==> mentions[r] == Mentions(l.insts, r)
    requires Listed(mentions, l.byPrime) && Served(mentions, l.byPrime) && Assigned(l.primeOf, l.byPrime)
    ensures PrimesByMentions(l)
  {
    hide Mentions, IsPrime, PrimesBelow;
    forall i, j | 0 <= i < j < |l.byPrime|
      ensures var a, b := l.byPrime[i], l.byPrime[j];
        Mentions(l.insts, a) > Mentions(l.insts, b) || (Mentions(l.insts, a) == Mentions(l.insts, b) && a < b)
    {
      assert Before(mentions, l.byPrime[i], l.byPrime[j]);
    }
  }
}
