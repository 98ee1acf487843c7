/** The folded operations written out as the raw loops they stand for, and the proof that the
    detectors find every such loop, whatever its size, and nothing else. */
module Written {
  import opened Machine
  import opened Loops
  import opened Passes
  import opened Folding
  import opened Detect

  // ---------------------------------------------------------------------------
  // The loops
  // ---------------------------------------------------------------------------

  /** Gives to `rs` from `at` on, each flowing to its successor and the last to `back`. */
  function Gives(rs: seq<nat>, at: nat, back: nat): seq<Op> {
    seq(|rs|, i requires 0 <= i < |rs| => Inc(rs[i], if i + 1 == |rs| then back else at + i + 1))
  }

  /** Takes of `r` from `at` on, leaving by `es`, the last flowing to `last`. */
  function Takes(r: nat, es: seq<nat>, at: nat, last: nat): seq<Op> {
    seq(|es|, i requires 0 <= i < |es| => Deb(r, es[i], if i + 1 == |es| then last else at + i + 1))
  }

  /** `rs` with `r` put in before its element `at`. */
  function PutIn(rs: seq<nat>, at: nat, r: nat): seq<nat>
    requires at <= |rs|
  {
    rs[..at] + [r] + rs[at..]
  }

  function RawZero(s: nat, r: nat, exit: nat): seq<Op> {
    [Deb(r, exit, s)]
  }

  function RawIsZero(s: nat, r: nat, onZero: nat, onTake: nat): seq<Op> {
    [Deb(r, onZero, s + 1), Inc(r, onTake)]
  }

  function RawTransfer(s: nat, r: nat, ds: seq<nat>, exit: nat): seq<Op> {
    [Deb(r, exit, s + 1)] + Gives(ds, s + 1, s)
  }

  function RawDivMod(s: nat, r: nat, ds: seq<nat>, es: seq<nat>): seq<Op> {
    Takes(r, es, s, if ds == [] then s else s + |es|) + Gives(ds, s + |es|, s)
  }

  function RawMulAdd(s: nat, c: nat, m: nat, t: nat, ds: seq<nat>, pre: bool, exit: nat): seq<Op> {
    var head := if pre then s + 2 else s + 1;
    var restore := head + |ds| + 2;
    [Deb(c, exit, s + 1)] + (if pre then [Deb(t, head, s + 1)] else []) + [Deb(m, restore, head + 1)]
    + Gives(ds + [t], head + 1, head) + [Deb(t, s, restore + 1), Inc(m, restore)]
  }

  function RawCopy(s: nat, r: nat, run: seq<nat>, t: nat, exit: nat): seq<Op> {
    var mid := s + 1 + |run|;
    [Deb(r, mid, s + 1)] + Gives(run, s + 1, s) + [Deb(t, exit, mid + 1), Inc(r, mid)]
  }

  function RawDivBin(s: nat, r: nat, d: nat, rem: nat, q: nat, run: seq<nat>, exit: nat): seq<Op> {
    var full := s + 3 + |run|;
    [Deb(rem, s + 1, s), Deb(d, full, s + 2), Deb(r, exit, s + 3)] + Gives(run, s + 3, s + 1)
    + [Deb(rem, full + 2, full + 1), Inc(d, full), Inc(q, s + 1)]
  }

  predicate Stands(p: Program, s: nat, code: seq<Op>) {
    s + |code| <= |p| && p[s..s + |code|] == code
  }

  /** No instruction outside `[s, e)` jumps strictly inside it. */
  predicate Unentered(p: Program, s: nat, e: nat) {
    forall i :: 0 <= i < |p| && !(s <= i < e) ==>
      && (p[i].Inc? ==> !(s < p[i].next < e))
      && (p[i].Deb? ==> !(s < p[i].onZero < e) && !(s < p[i].onTake < e))
  }

  // ---------------------------------------------------------------------------
  // Code in place, piece by piece
  // ---------------------------------------------------------------------------

  lemma StandsBoth(p: Program, s: nat, a: seq<Op>, b: seq<Op>)
    ensures Stands(p, s, a + b) <==> Stands(p, s, a) && Stands(p, s + |a|, b)
  {
    var n, m := |a|, |b|;
    if s + n + m <= |p| {
      assert p[s..s + n + m] == p[s..s + n] + p[s + n..s + n + m];
      assert |p[s..s + n]| == n && (a + b)[..n] == a && (a + b)[n..] == b;
      assert p[s..s + n + m][..n] == p[s..s + n] && p[s..s + n + m][n..] == p[s + n..s + n + m];
    }
  }

  lemma StandsOne(p: Program, s: nat, op: Op)
    ensures Stands(p, s, [op]) <==> InstAt(p, s, op)
  {
    if s < |p| {
      assert p[s..s + 1] == [p[s]];
    }
  }

  lemma StandsAt(p: Program, s: nat, code: seq<Op>)
    ensures Stands(p, s, code) <==> s + |code| <= |p| && forall j :: 0 <= j < |code| ==> p[s + j] == code[j]
  {
    if s + |code| <= |p| {
      var at := p[s..s + |code|];
      forall j | 0 <= j < |code| ensures at[j] == p[s + j] {
      }
    }
  }

  /** A run of gives, as the detectors collect it, is the gives written out. */
  lemma RunWritten(p: Program, i: nat, back: nat, exclude: nat, rs: seq<nat>)
    requires back <= i
    ensures IncRunOf(p, i, back, exclude, rs) <==>
              1 <= |rs| <= MAX_DESTS && exclude !in rs && Stands(p, i, Gives(rs, i, back))
  {
    var n, code := |rs|, Gives(rs, i, back);
    StandsAt(p, i, code);
    if IncRunOf(p, i, back, exclude, rs) {
      forall j | 0 <= j < n ensures p[i + j] == code[j] && rs[j] != exclude {
        assert RunRegs(p, i, n)[j] == p[i + j].reg == rs[j];
      }
    }
    if 1 <= n <= MAX_DESTS && exclude !in rs && Stands(p, i, code) {
      forall j | i <= j < i + n ensures p[j] == Inc(rs[j - i], if j + 1 == i + n then back else j + 1) {
        assert p[i + (j - i)] == code[j - i];
      }
      assert RunRegs(p, i, n) == rs;
    }
  }

  lemma ZeroWritten(p: Program, s: nat, e: nat, r: nat, exit: nat)
    ensures ZeroLoop(p, Fold(s, e, Zero(r, exit))) <==> Stands(p, s, RawZero(s, r, exit)) && e == s + 1
  {
    StandsOne(p, s, Deb(r, exit, s));
  }

  lemma IsZeroWritten(p: Program, s: nat, e: nat, r: nat, a: nat, b: nat)
    ensures IsZeroLoop(p, Fold(s, e, IsZero(r, a, b))) <==> Stands(p, s, RawIsZero(s, r, a, b)) && e == s + 2
  {
    assert RawIsZero(s, r, a, b) == [Deb(r, a, s + 1)] + [Inc(r, b)];
    StandsBoth(p, s, [Deb(r, a, s + 1)], [Inc(r, b)]);
    StandsOne(p, s, Deb(r, a, s + 1));
    StandsOne(p, s + 1, Inc(r, b));
  }

  lemma TransferWritten(p: Program, s: nat, e: nat, r: nat, ds: seq<nat>, exit: nat)
    ensures TransferLoop(p, Fold(s, e, Transfer(r, ds, exit))) <==>
              && 1 <= |ds| <= MAX_DESTS && r !in ds
              && Stands(p, s, RawTransfer(s, r, ds, exit)) && e == s + 1 + |ds|
  {
    hide IncRunOf, Stands, InstAt, Gives;
    StandsBoth(p, s, [Deb(r, exit, s + 1)], Gives(ds, s + 1, s));
    StandsOne(p, s, Deb(r, exit, s + 1));
    RunWritten(p, s + 1, s, r, ds);
  }

  lemma ChainWritten(p: Program, s: nat, r: nat, es: seq<nat>, last: nat)
    requires es != []
    ensures TakeChain(p, s, r, es, last) <==> Stands(p, s, Takes(r, es, s, last))
  {
    hide Stands;
    var code := Takes(r, es, s, last);
    StandsAt(p, s, code);
    if TakeChain(p, s, r, es, last) {
      forall j | 0 <= j < |es| ensures p[s + j] == code[j] {
        assert es[j] == es[j];
      }
    }
    if Stands(p, s, code) {
      forall j {:trigger es[j]} | 0 <= j < |es|
        ensures p[s + j] == Deb(r, es[j], if j + 1 < |es| then s + j + 1 else last)
      {
        assert p[s + j] == code[j];
      }
    }
  }

  lemma DivModWritten(p: Program, s: nat, e: nat, r: nat, ds: seq<nat>, es: seq<nat>)
    ensures DivModLoop(p, Fold(s, e, DivMod(r, ds, es))) <==>
              && 2 <= |es| <= MAX_DESTS && |ds| <= MAX_DESTS && r !in ds
              && !(s + |es| < |p| && p[s + |es|].Deb? && p[s + |es|].reg == r)
              && Stands(p, s, RawDivMod(s, r, ds, es)) && e == s + |es| + |ds|
  {
    hide IncRunOf, Stands, Gives, Takes, TakeChain;
    var k := |es|;
    var last := if ds == [] then s else s + k;
    if k >= 2 {
      TakesLength(r, es, s, last);
      StandsBoth(p, s, Takes(r, es, s, last), Gives(ds, s + k, s));
      ChainWritten(p, s, r, es, last);
      if ds == [] {
        NoGives(p, s + k, s);
      } else {
        RunWritten(p, s + k, s, r, ds);
      }
      if Stands(p, s, Takes(r, es, s, last)) {
        StandsRoom(p, s, Takes(r, es, s, last));
      }
    }
  }

  lemma TakesLength(r: nat, es: seq<nat>, at: nat, last: nat)
    ensures |Takes(r, es, at, last)| == |es|
  {
  }

  lemma GivesLength(rs: seq<nat>, at: nat, back: nat)
    ensures |Gives(rs, at, back)| == |rs|
  {
  }

  lemma StandsRoom(p: Program, s: nat, code: seq<Op>)
    requires Stands(p, s, code)
    ensures s + |code| <= |p|
  {
  }

  lemma NoGives(p: Program, i: nat, back: nat)
    ensures Stands(p, i, Gives([], i, back)) <==> i <= |p|
  {
    assert i <= |p| ==> p[i..i] == [];
  }

  // ---------------------------------------------------------------------------
  // A register put into a run
  // ---------------------------------------------------------------------------

  lemma WithoutCons(x: nat, rest: seq<nat>, t: nat)
    ensures Without([x] + rest, t) == (if x == t then [] else [x]) + Without(rest, t)
    ensures Times([x] + rest, t) == (if x == t then 1 else 0) + Times(rest, t)
  {
    assert ([x] + rest)[1..] == rest;
  }

  lemma PutInNext(x: nat, rest: seq<nat>, at: nat, t: nat)
    requires at <= |rest|
    ensures PutIn([x] + rest, at + 1, t) == [x] + PutIn(rest, at, t)
  {
  }

  lemma {:induction false} WithoutPutIn(rs: seq<nat>, at: nat, t: nat)
    requires at <= |rs| && t !in rs
    ensures Without(PutIn(rs, at, t), t) == rs && Times(PutIn(rs, at, t), t) == 1
    decreases at
  {
    hide Without, Times;
    if at == 0 {
      assert PutIn(rs, 0, t) == [t] + rs;
      WithoutCons(t, rs, t);
      WithoutAbsent(rs, t);
    } else {
      var rest := rs[1..];
      assert rs == [rs[0]] + rest;
      WithoutPutIn(rest, at - 1, t);
      PutInNext(rs[0], rest, at - 1, t);
      WithoutCons(rs[0], PutIn(rest, at - 1, t), t);
    }
  }

  lemma {:induction false} WithoutAbsent(rs: seq<nat>, t: nat)
    ensures t !in rs ==> Without(rs, t) == rs && Times(rs, t) == 0
    ensures Times(rs, t) == 0 ==> t !in rs
  {
    if rs != [] {
      hide Without, Times;
      WithoutAbsent(rs[1..], t);
      assert rs == [rs[0]] + rs[1..];
      WithoutCons(rs[0], rs[1..], t);
    }
  }

  /** A register that occurs once was put in somewhere. */
  lemma {:induction false} OncePutIn(run: seq<nat>, t: nat) returns (at: nat)
    requires Times(run, t) == 1
    ensures at <= |Without(run, t)| && t !in Without(run, t) && run == PutIn(Without(run, t), at, t)
  {
    hide Without, Times;
    assert run != [] by { TimesNone(t); }
    var x, rest := run[0], run[1..];
    assert run == [x] + rest;
    WithoutCons(x, rest, t);
    if x == t {
      at := 0;
      WithoutAbsent(rest, t);
    } else {
      at := OncePutIn(rest, t);
      PutInNext(x, Without(rest, t), at, t);
      at := at + 1;
    }
  }

  lemma TimesNone(t: nat)
    ensures Times([], t) == 0
  {
  }

  // ---------------------------------------------------------------------------
  // The longer loops
  // ---------------------------------------------------------------------------

  /** A register put into a run keeps the roles apart exactly if it is apart itself. */
  lemma DistinctPutIn(front: seq<nat>, rs: seq<nat>, at: nat, t: nat)
    requires at <= |rs|
    ensures Distinct(front + PutIn(rs, at, t)) <==> Distinct(front + [t] + rs)
  {
    var a, b := front + PutIn(rs, at, t), front + [t] + rs;
    var n := |front|;
    if Distinct(a) {
      forall i, j | 0 <= i < j < |b| ensures b[i] != b[j] {
        var i' := if i < n then i else if i == n then n + at else if i <= n + at then i - 1 else i;
        var j' := if j < n then j else if j == n then n + at else if j <= n + at then j - 1 else j;
        assert a[i'] == b[i] && a[j'] == b[j] && i' != j';
      }
    }
    if Distinct(b) {
      forall i, j | 0 <= i < j < |a| ensures a[i] != a[j] {
        var i' := if i < n then i else if i == n + at then n else if i < n + at then i + 1 else i;
        var j' := if j < n then j else if j == n + at then n else if j < n + at then j + 1 else j;
        assert b[i'] == a[i] && b[j'] == a[j] && i' != j';
      }
    }
  }

  lemma MulAddPieces(p: Program, s: nat, c: nat, m: nat, t: nat, ds: seq<nat>, pre: bool, exit: nat)
    ensures var head := if pre then s + 2 else s + 1;
            var restore := head + |ds| + 2;
            Stands(p, s, RawMulAdd(s, c, m, t, ds, pre, exit)) <==>
              && InstAt(p, s, Deb(c, exit, s + 1)) && (pre ==> InstAt(p, s + 1, Deb(t, head, s + 1)))
              && InstAt(p, head, Deb(m, restore, head + 1))
              && Stands(p, head + 1, Gives(ds + [t], head + 1, head))
              && InstAt(p, restore, Deb(t, s, restore + 1)) && InstAt(p, restore + 1, Inc(m, restore))
  {
    hide Stands, Gives, InstAt;
    var head := if pre then s + 2 else s + 1;
    var restore := head + |ds| + 2;
    var clear := if pre then [Deb(t, head, s + 1)] else [];
    var open := [Deb(c, exit, s + 1)] + clear + [Deb(m, restore, head + 1)];
    var run := Gives(ds + [t], head + 1, head);
    GivesLength(ds + [t], head + 1, head);
    MulAddOpening(p, s, c, m, t, |ds|, pre, exit);
    StandsBoth(p, s, open, run);
    StandsBoth(p, s, open + run, [Deb(t, s, restore + 1), Inc(m, restore)]);
    StandsTwo(p, restore, Deb(t, s, restore + 1), Inc(m, restore));
  }

  lemma MulAddWritten(p: Program, s: nat, e: nat, c: nat, m: nat, t: nat, ds: seq<nat>, pre: bool, exit: nat)
    ensures MulAddLoop(p, Fold(s, e, MulAdd(c, m, t, ds, pre, exit))) <==>
              && Distinct([c, m] + ds + [t]) && |ds| + 2 <= MAX_DESTS
              && Stands(p, s, RawMulAdd(s, c, m, t, ds, pre, exit))
              && e == s + |ds| + if pre then 6 else 5
  {
    hide IncRunOf, Stands, Gives, Distinct, InstAt, RawMulAdd;
    var head := if pre then s + 2 else s + 1;
    MulAddPieces(p, s, c, m, t, ds, pre, exit);
    RunWritten(p, head + 1, head, m, ds + [t]);
    if Distinct([c, m] + ds + [t]) {
      OtherApart(c, m, ds, t);
    }
  }

  lemma OtherApart(c: nat, m: nat, ds: seq<nat>, t: nat)
    requires Distinct([c, m] + ds + [t])
    ensures m !in ds + [t]
  {
    var all := [c, m] + ds + [t];
    forall i | 0 <= i < |ds| + 1 ensures (ds + [t])[i] != m {
      assert all[1] == m && all[i + 2] == (ds + [t])[i];
    }
  }

  lemma StandsTwo(p: Program, s: nat, a: Op, b: Op)
    ensures Stands(p, s, [a, b]) <==> InstAt(p, s, a) && InstAt(p, s + 1, b)
  {
    assert [a, b] == [a] + [b];
    StandsBoth(p, s, [a], [b]);
    StandsOne(p, s, a);
    StandsOne(p, s + 1, b);
  }

  lemma StandsThree(p: Program, s: nat, a: Op, b: Op, c: Op)
    ensures Stands(p, s, [a, b, c]) <==> InstAt(p, s, a) && InstAt(p, s + 1, b) && InstAt(p, s + 2, c)
  {
    assert [a, b, c] == [a, b] + [c];
    StandsBoth(p, s, [a, b], [c]);
    StandsTwo(p, s, a, b);
    StandsOne(p, s + 2, c);
  }

  lemma MulAddOpening(p: Program, s: nat, c: nat, m: nat, t: nat, n: nat, pre: bool, exit: nat)
    ensures var head := if pre then s + 2 else s + 1;
            Stands(p, s, [Deb(c, exit, s + 1)] + (if pre then [Deb(t, head, s + 1)] else [])
                         + [Deb(m, head + n + 2, head + 1)]) <==>
              && InstAt(p, s, Deb(c, exit, s + 1)) && (pre ==> InstAt(p, s + 1, Deb(t, head, s + 1)))
              && InstAt(p, head, Deb(m, head + n + 2, head + 1))
  {
    hide Stands, InstAt;
    var a := Deb(c, exit, s + 1);
    if pre {
      var b, d := Deb(t, s + 2, s + 1), Deb(m, s + 2 + n + 2, s + 3);
      assert [a] + [b] + [d] == [a, b, d];
      StandsThree(p, s, a, b, d);
    } else {
      var d := Deb(m, s + 1 + n + 2, s + 2);
      assert [a] + [] + [d] == [a, d];
      StandsTwo(p, s, a, d);
    }
  }

  lemma CopyWritten(p: Program, s: nat, e: nat, r: nat, t: nat, ds: seq<nat>, run: seq<nat>, exit: nat)
    requires |run| == |ds| + 1
    ensures CopyLoop(p, Fold(s, e, Copy(r, t, ds, exit))) && RunRegs(p, s + 1, |run|) == run <==>
              && Times(run, t) == 1 && ds == Without(run, t)
              && |run| <= MAX_DESTS && r !in run
              && Stands(p, s, RawCopy(s, r, run, t, exit)) && e == s + |ds| + 4
  {
    hide Stands, Gives, InstAt, Without, Times, RunRegs;
    var mid := s + 1 + |run|;
    var open, gives := [Deb(r, mid, s + 1)], Gives(run, s + 1, s);
    GivesLength(run, s + 1, s);
    StandsOne(p, s, Deb(r, mid, s + 1));
    StandsBoth(p, s, open, gives);
    StandsBoth(p, s, open + gives, [Deb(t, exit, mid + 1), Inc(r, mid)]);
    StandsTwo(p, mid, Deb(t, exit, mid + 1), Inc(r, mid));
    RunWritten(p, s + 1, s, r, run);
  }

  lemma DivBinWritten(p: Program, s: nat, e: nat, r: nat, d: nat, rem: nat, q: nat, xs: seq<nat>, run: seq<nat>,
                      exit: nat)
    requires |run| == |xs| + 1
    ensures DivBinLoop(p, Fold(s, e, DivBin(r, d, rem, q, xs, exit))) && RunRegs(p, s + 3, |run|) == run <==>
              && Times(run, rem) == 1 && xs == Without(run, rem)
              && Distinct([r, d, q] + run) && |run| + 2 <= MAX_DESTS
              && Stands(p, s, RawDivBin(s, r, d, rem, q, run, exit)) && e == s + |xs| + 7
  {
    hide Stands, Gives, InstAt, Without, Times, RunRegs, Distinct;
    var full := s + 3 + |run|;
    var open := [Deb(rem, s + 1, s), Deb(d, full, s + 2), Deb(r, exit, s + 3)];
    var gives := Gives(run, s + 3, s + 1);
    GivesLength(run, s + 3, s + 1);
    StandsThree(p, s, Deb(rem, s + 1, s), Deb(d, full, s + 2), Deb(r, exit, s + 3));
    StandsBoth(p, s, open, gives);
    StandsBoth(p, s, open + gives, [Deb(rem, full + 2, full + 1), Inc(d, full), Inc(q, s + 1)]);
    StandsThree(p, full, Deb(rem, full + 2, full + 1), Inc(d, full), Inc(q, s + 1));
    RunWritten(p, s + 3, s + 1, r, run);
    if Distinct([r, d, q] + run) {
      FirstApart(r, d, q, run);
    }
  }

  lemma FirstApart(r: nat, d: nat, q: nat, run: seq<nat>)
    requires Distinct([r, d, q] + run)
    ensures r !in run
  {
    var all := [r, d, q] + run;
    forall i | 0 <= i < |run| ensures run[i] != r {
      assert all[0] == r && all[i + 3] == run[i];
    }
  }

  // ---------------------------------------------------------------------------
  // What the detectors find
  // ---------------------------------------------------------------------------

  lemma PrivateWritten(p: Program, f: Fold)
    requires IsRaw(p)
    ensures Private(p, f) <==> Unentered(p, f.start, f.end) && Misses(Targets(f.op), f.start, f.end)
  {
    var s, e := f.start, f.end;
    forall i | 0 <= i < |p| && !(s <= i < e)
      ensures Misses(Targets(p[i]), s, e) <==>
                && (p[i].Inc? ==> !(s < p[i].next < e))
                && (p[i].Deb? ==> !(s < p[i].onZero < e) && !(s < p[i].onTake < e))
    {
      var ts := Targets(p[i]);
      if p[i].Inc? {
        assert ts == [p[i].next] && ts[0] == p[i].next;
      } else if p[i].Deb? {
        assert ts == [p[i].onTake, p[i].onZero] && ts[0] == p[i].onTake && ts[1] == p[i].onZero;
      }
    }
  }

  /** What the first two instructions of a loop say about its kind. */
  function Opening(p: Program, s: nat): nat
    requires IsDeb(p, s)
  {
    if p[s].onTake == s then 6
    else if IsDeb(p, s + 1) then if p[s + 1].reg == p[s].reg then 4 else 1
    else if IsInc(p, s + 1) && p[s + 1].reg == p[s].reg then 5 else 3
  }

  /** Two kinds of loop at one place begin alike only if they are a clear and a division by a
      bin, or a transfer and a copy. */
  lemma OpeningOf(p: Program, f: Fold)
    requires LoopShape(p, f)
    ensures IsDeb(p, f.start)
    ensures Opening(p, f.start) == match Kind(f.op)
      case 0 => 6
      case 2 => 3
      case k => k
  {
    hide Times, Without, RunRegs, Distinct;
    StartsWithTake(p, f);
    match f.op
    case MulAdd(c, m, t, ds, _, _) => DistinctTimes(c, m, ds, t);
    case DivMod(_, _, _) => DivModForm(p, f);
    case _ =>
  }

  /** A loop that no other kind begins like, or that is tried before the one that does, is what
      the detector answers. */
  lemma Found(p: Program, f: Fold)
    requires GoodFold(p, f) && Kind(f.op) != 3 && Kind(f.op) != 6
    ensures forall r :: FirstOf(p, f.start, r) <==> r == Some(f)
  {
    hide LoopShape, Private, Has;
    OpeningOf(p, f);
    forall k: nat | k < Kind(f.op) ensures !Has(p, f.start, k) {
      if Has(p, f.start, k) {
        var g := HasFold(p, f.start, k);
        OpeningOf(p, g);
      }
    }
    assert FirstOf(p, f.start, Some(f)) by { OpeningOf(p, f); }
    forall r ensures FirstOf(p, f.start, r) <==> r == Some(f) {
      if FirstOf(p, f.start, r) {
        FirstUnique(p, f.start, r, Some(f));
      }
    }
  }

  lemma HasFold(p: Program, s: nat, k: nat) returns (g: Fold)
    requires Has(p, s, k)
    ensures g.start == s && Kind(g.op) == k && GoodFold(p, g)
  {
    g :| g.start == s && Kind(g.op) == k && GoodFold(p, g);
  }

  /** The kinds tried before a transfer that begin like one: the copy.  Before a clear: the
      division by a bin. */
  lemma FoundBut(p: Program, f: Fold)
    requires GoodFold(p, f) && Kind(f.op) in {3, 6}
    ensures forall r :: FirstOf(p, f.start, r) ==>
              r.Some? && (r.value == f || Kind(r.value.op) == if Kind(f.op) == 3 then 2 else 0)
    ensures !Has(p, f.start, if Kind(f.op) == 3 then 2 else 0) ==> FirstOf(p, f.start, Some(f))
  {
    hide LoopShape, Private, Has;
    OpeningOf(p, f);
    HasOne(p, f);
    var other := if Kind(f.op) == 3 then 2 else 0;
    forall k: nat | k < Kind(f.op) && k != other ensures !Has(p, f.start, k) {
      if Has(p, f.start, k) {
        var g := HasFold(p, f.start, k);
        OpeningOf(p, g);
      }
    }
    forall r | FirstOf(p, f.start, r) ensures r.Some? && (r.value == f || Kind(r.value.op) == other) {
      if r.Some? {
        HasOne(p, r.value);
        if Kind(r.value.op) == Kind(f.op) {
          KindUnique(p, r.value, f);
        }
      }
    }
  }

  /** A take that goes back to itself is a clear, unless a division by a bin starts with it; it
      is none if it leaves for anywhere but its successor. */
  lemma FindsZero(p: Program, s: nat, r: nat, exit: nat)
    requires IsRaw(p) && Stands(p, s, RawZero(s, r, exit))
    ensures forall found :: FirstOf(p, s, found) ==>
              found.Some? && (found.value == Fold(s, s + 1, Zero(r, exit)) || found.value.op.DivBin?)
    ensures exit != s + 1 ==> FirstOf(p, s, Some(Fold(s, s + 1, Zero(r, exit))))
  {
    hide Has, PrivateRange, DivBinCloses, IncRunOf, FirstOf;
    var f := Fold(s, s + 1, Zero(r, exit));
    ZeroWritten(p, s, s + 1, r, exit);
    assert Private(p, f) by { PrivateWritten(p, f); }
    FoundBut(p, f);
    if exit != s + 1 && Has(p, s, 0) {
      var g := HasFold(p, s, 0);
      DivBinForm(p, g);
      StandsOne(p, s, Deb(r, exit, s));
    }
  }

  /** One to 32 destinations, none of them the source.  Where a copy starts with the transfer it
      is found in its place, which takes an exit to the next instruction. */
  lemma FindsTransfer(p: Program, s: nat, r: nat, ds: seq<nat>, exit: nat)
    requires IsRaw(p) && 1 <= |ds| <= 32 && r !in ds
    requires Stands(p, s, RawTransfer(s, r, ds, exit))
    requires Unentered(p, s, s + 1 + |ds|) && !(s < exit < s + 1 + |ds|)
    ensures forall found :: FirstOf(p, s, found) ==>
              found.Some? && (found.value == Fold(s, s + 1 + |ds|, Transfer(r, ds, exit)) || found.value.op.Copy?)
    ensures exit != s + 1 + |ds| ==> FirstOf(p, s, Some(Fold(s, s + 1 + |ds|, Transfer(r, ds, exit))))
  {
    hide Has, PrivateRange, TransferLoop, Stands, Unentered, FirstOf;
    var f := Fold(s, s + 1 + |ds|, Transfer(r, ds, exit));
    TransferWritten(p, s, f.end, r, ds, exit);
    assert Private(p, f) by { PrivateWritten(p, f); }
    FoundBut(p, f);
    if exit != f.end && Has(p, s, 2) {
      CopyDecided(p, f);
    }
  }

  /** Two to 32 exits and no or up to 32 destinations, none of them the register divided; one
      more take of it behind the chain would be part of the chain. */
  lemma FindsDivMod(p: Program, s: nat, r: nat, ds: seq<nat>, es: seq<nat>)
    requires IsRaw(p) && 2 <= |es| <= 32 && |ds| <= 32 && r !in ds
    requires Stands(p, s, RawDivMod(s, r, ds, es))
    requires s + |es| < |p| && p[s + |es|].Deb? ==> p[s + |es|].reg != r
    requires Unentered(p, s, s + |es| + |ds|)
    requires forall k :: 0 <= k < |es| ==> !(s < es[k] < s + |es| + |ds|)
    ensures forall found :: FirstOf(p, s, found) <==> found == Some(Fold(s, s + |es| + |ds|, DivMod(r, ds, es)))
  {
    hide PrivateRange, DivModLoop, Stands, Unentered, FirstOf;
    var f := Fold(s, s + |es| + |ds|, DivMod(r, ds, es));
    DivModWritten(p, s, f.end, r, ds, es);
    assert Private(p, f) by { PrivateWritten(p, f); }
    Found(p, f);
  }

  /** Distinct registers, at most 30 accumulators; with the clear of `t` in every round or
      without. */
  lemma FindsMulAdd(p: Program, s: nat, c: nat, m: nat, t: nat, ds: seq<nat>, pre: bool, exit: nat)
    requires IsRaw(p) && |ds| <= 30
    requires var rs := [c, m] + ds + [t]; forall i, j :: 0 <= i < j < |rs| ==> rs[i] != rs[j]
    requires Stands(p, s, RawMulAdd(s, c, m, t, ds, pre, exit))
    requires var e := s + |ds| + if pre then 6 else 5; Unentered(p, s, e) && !(s < exit < e)
    ensures var e := s + |ds| + if pre then 6 else 5;
            forall found :: FirstOf(p, s, found) <==> found == Some(Fold(s, e, MulAdd(c, m, t, ds, pre, exit)))
  {
    hide PrivateRange, MulAddLoop, RawMulAdd, Stands, Unentered, FirstOf;
    var e := s + |ds| + if pre then 6 else 5;
    var f := Fold(s, e, MulAdd(c, m, t, ds, pre, exit));
    MulAddWritten(p, s, e, c, m, t, ds, pre, exit);
    assert Private(p, f) by { PrivateWritten(p, f); }
    Found(p, f);
  }

  lemma FindsIsZero(p: Program, s: nat, r: nat, onZero: nat, onTake: nat)
    requires IsRaw(p) && Stands(p, s, RawIsZero(s, r, onZero, onTake))
    requires Unentered(p, s, s + 2) && onZero != s + 1 && onTake != s + 1
    ensures forall found :: FirstOf(p, s, found) <==> found == Some(Fold(s, s + 2, IsZero(r, onZero, onTake)))
  {
    hide PrivateRange, Stands, Unentered, FirstOf;
    var f := Fold(s, s + 2, IsZero(r, onZero, onTake));
    IsZeroWritten(p, s, s + 2, r, onZero, onTake);
    assert Private(p, f) by { PrivateWritten(p, f); }
    Found(p, f);
  }

  /** Up to 31 destinations besides the temporary, which may stand anywhere among them. */
  lemma FindsCopy(p: Program, s: nat, r: nat, t: nat, ds: seq<nat>, at: nat, exit: nat)
    requires IsRaw(p) && |ds| <= 31 && at <= |ds| && r != t && r !in ds && t !in ds
    requires Stands(p, s, RawCopy(s, r, PutIn(ds, at, t), t, exit))
    requires Unentered(p, s, s + |ds| + 4) && !(s < exit < s + |ds| + 4)
    ensures forall found :: FirstOf(p, s, found) <==> found == Some(Fold(s, s + |ds| + 4, Copy(r, t, ds, exit)))
  {
    hide PrivateRange, CopyLoop, RawCopy, Stands, Unentered, FirstOf, Without, Times;
    var f := Fold(s, s + |ds| + 4, Copy(r, t, ds, exit));
    WithoutPutIn(ds, at, t);
    CopyWritten(p, s, f.end, r, t, ds, PutIn(ds, at, t), exit);
    assert Private(p, f) by { PrivateWritten(p, f); }
    Found(p, f);
  }

  /** Distinct registers, at most 29 that the dividend goes to besides the remainder, which may
      stand anywhere among them. */
  lemma FindsDivBin(p: Program, s: nat, r: nat, d: nat, rem: nat, q: nat, xs: seq<nat>, at: nat, exit: nat)
    requires IsRaw(p) && |xs| <= 29 && at <= |xs|
    requires var rs := [r, d, q, rem] + xs; forall i, j :: 0 <= i < j < |rs| ==> rs[i] != rs[j]
    requires Stands(p, s, RawDivBin(s, r, d, rem, q, PutIn(xs, at, rem), exit))
    requires Unentered(p, s, s + |xs| + 7) && !(s < exit < s + |xs| + 7)
    ensures forall found ::
              FirstOf(p, s, found) <==> found == Some(Fold(s, s + |xs| + 7, DivBin(r, d, rem, q, xs, exit)))
  {
    hide PrivateRange, DivBinLoop, RawDivBin, Stands, Unentered, FirstOf, Without, Times;
    var f := Fold(s, s + |xs| + 7, DivBin(r, d, rem, q, xs, exit));
    RemainderApart(r, d, q, rem, xs, at);
    WithoutPutIn(xs, at, rem);
    DivBinWritten(p, s, f.end, r, d, rem, q, xs, PutIn(xs, at, rem), exit);
    assert Private(p, f) by { PrivateWritten(p, f); }
    Found(p, f);
  }

  lemma RemainderApart(r: nat, d: nat, q: nat, rem: nat, xs: seq<nat>, at: nat)
    requires at <= |xs|
    ensures Distinct([r, d, q] + PutIn(xs, at, rem)) <==> Distinct([r, d, q, rem] + xs)
    ensures Distinct([r, d, q, rem] + xs) ==> rem !in xs
  {
    DistinctPutIn([r, d, q], xs, at, rem);
    var all := [r, d, q, rem] + xs;
    assert [r, d, q] + [rem] + xs == all;
    if Distinct(all) {
      forall i | 0 <= i < |xs| ensures xs[i] != rem {
        assert all[3] == rem && all[i + 4] == xs[i];
      }
    }
  }

  /** Nothing else is found: what the detector answers is one of those loops, standing there and
      entered only at its first instruction.  `at` is where the register that is not a
      destination stands in the run of a copy or of a division by a bin. */
  lemma FoundStands(p: Program, s: nat, f: Fold) returns (at: nat)
    requires IsRaw(p) && FirstOf(p, s, Some(f))
    ensures f.start == s && Unentered(p, s, f.end)
    ensures forall k :: 0 <= k < |Targets(f.op)| ==> !(s < Targets(f.op)[k] < f.end)
    ensures match f.op
      case Zero(r, exit) => f.end == s + 1 && Stands(p, s, RawZero(s, r, exit))
      case IsZero(r, a, b) => f.end == s + 2 && Stands(p, s, RawIsZero(s, r, a, b))
      case Transfer(r, ds, exit) =>
        1 <= |ds| <= 32 && r !in ds && f.end == s + 1 + |ds| && Stands(p, s, RawTransfer(s, r, ds, exit))
      case DivMod(r, ds, es) =>
        && 2 <= |es| <= 32 && |ds| <= 32 && r !in ds && f.end == s + |es| + |ds|
        && Stands(p, s, RawDivMod(s, r, ds, es))
        && (s + |es| < |p| && p[s + |es|].Deb? ==> p[s + |es|].reg != r)
      case MulAdd(c, m, t, ds, pre, exit) =>
        var rs := [c, m] + ds + [t];
        && |ds| <= 30 && (forall i, j :: 0 <= i < j < |rs| ==> rs[i] != rs[j])
        && f.end == (s + |ds| + if pre then 6 else 5) && Stands(p, s, RawMulAdd(s, c, m, t, ds, pre, exit))
      case Copy(r, t, ds, exit) =>
        && |ds| <= 31 && r != t && r !in ds && t !in ds && f.end == s + |ds| + 4
        && at <= |ds| && Stands(p, s, RawCopy(s, r, PutIn(ds, at, t), t, exit))
      case DivBin(r, d, rem, q, xs, exit) =>
        var rs := [r, d, q, rem] + xs;
        && |xs| <= 29 && (forall i, j :: 0 <= i < j < |rs| ==> rs[i] != rs[j]) && f.end == s + |xs| + 7
        && at <= |xs| && Stands(p, s, RawDivBin(s, r, d, rem, q, PutIn(xs, at, rem), exit))
      case _ => false
  {
    hide Has, PrivateRange, Stands, Unentered, DivModLoop, MulAddLoop, CopyLoop, DivBinLoop, TransferLoop,
      RawZero, RawIsZero, RawTransfer, RawDivMod, RawMulAdd, RawCopy, RawDivBin;
    PrivateWritten(p, f);
    at := 0;
    match f.op
    case Zero(r, exit) => ZeroWritten(p, s, f.end, r, exit);
    case IsZero(r, a, b) => IsZeroWritten(p, s, f.end, r, a, b);
    case Transfer(r, ds, exit) => TransferWritten(p, s, f.end, r, ds, exit);
    case DivMod(r, ds, es) => DivModWritten(p, s, f.end, r, ds, es);
    case MulAdd(c, m, t, ds, pre, exit) => MulAddWritten(p, s, f.end, c, m, t, ds, pre, exit);
    case Copy(_, _, _, _) => at := CopyStands(p, f);
    case DivBin(_, _, _, _, _, _) => at := DivBinStands(p, f);
  }

  lemma CopyStands(p: Program, f: Fold) returns (at: nat)
    requires CopyLoop(p, f)
    ensures var s := f.start;
            var Copy(r, t, ds, exit) := f.op;
            && |ds| <= 31 && r != t && r !in ds && t !in ds && f.end == s + |ds| + 4
            && at <= |ds| && Stands(p, s, RawCopy(s, r, PutIn(ds, at, t), t, exit))
  {
    hide Stands, RawCopy, Without, Times, InstAt;
    var s := f.start;
    var Copy(r, t, ds, exit) := f.op;
    var run := RunRegs(p, s + 1, |ds| + 1);
    CopyWritten(p, s, f.end, r, t, ds, run, exit);
    at := OncePutIn(run, t);
    PutInHolds(ds, at, t);
  }

  lemma PutInHolds(rs: seq<nat>, at: nat, t: nat)
    requires at <= |rs|
    ensures forall r :: r in PutIn(rs, at, t) <==> r == t || r in rs
  {
    var run := PutIn(rs, at, t);
    assert run[at] == t;
    forall r | r in rs ensures r in run {
      var i :| 0 <= i < |rs| && rs[i] == r;
      assert run[if i < at then i else i + 1] == r;
    }
  }

  lemma DivBinStands(p: Program, f: Fold) returns (at: nat)
    requires DivBinLoop(p, f)
    ensures var s := f.start;
            var DivBin(r, d, rem, q, xs, exit) := f.op;
            && |xs| <= 29 && Distinct([r, d, q, rem] + xs) && f.end == s + |xs| + 7
            && at <= |xs| && Stands(p, s, RawDivBin(s, r, d, rem, q, PutIn(xs, at, rem), exit))
  {
    hide Stands, RawDivBin, Without, Times, InstAt, Distinct;
    var s := f.start;
    var DivBin(r, d, rem, q, xs, exit) := f.op;
    var run := RunRegs(p, s + 3, |xs| + 1);
    DivBinWritten(p, s, f.end, r, d, rem, q, xs, run, exit);
    at := OncePutIn(run, rem);
    RemainderApart(r, d, q, rem, xs, at);
  }
}
