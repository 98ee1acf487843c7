/** Lowered programs outside the hypotheses: two outside the tally encoder's, one whose entry is
    not the lowest instruction kept and one with a jump past the table of field offsets, and
    the one whose no-op register matters when it does not start empty. */
module Outliers {
  import opened Machine
  import opened Passes
  import opened Renumbering
  import opened Threading
  import opened NilRegister
  import opened NilValue
  import opened Lowering
  import opened Cleaning

  const NOOP := ":nil"

  function NoDevices(name: string): seq<string> {
    []
  }

  lemma NotReached(ops: Program, vis: seq<bool>, e: nat, i: nat)
    requires Trap(ops, vis) && (e < |vis| ==> vis[e]) && i < |vis| && !vis[i]
    ensures !ReachableFrom(ops, e, i)
  {
    hide Targets, ReachedIn, Trap;
    forall k: nat ensures !ReachedIn(ops, e, i, k) {
      if ReachedIn(ops, e, i, k) {
        TrapSize(ops, vis);
        ReachedWithin(ops, vis, e, i, k);
      }
    }
  }

  lemma TrapSize(ops: Program, vis: seq<bool>)
    requires Trap(ops, vis)
    ensures |ops| == |vis|
  {
  }

  // ---------------------------------------------------------------------------
  // An entry behind what it jumps back to
  // ---------------------------------------------------------------------------

  /** A used file whose body stops at once and then holds a give, and behind it a take that
      jumps back to the give: a no-op for the file's entry, its stop as a jump to its return,
      the give, a no-op for its return, and the program's one take.  The labels are the two
      that inlining makes; the jump back is a relative offset, which inlining leaves as it is. */
  function BackwardsText(): seq<Statement<string>> {
    [Take(Labelled("in"), NOOP, NextOne, NextOne),
     Take(NoLabel, NOOP, ToLabel("out"), ToLabel("out")),
     Give(NoLabel, "x", Implicit),
     Take(Labelled("out"), NOOP, NextOne, NextOne),
     Take(NoLabel, "y", Done, Offset(-2))]
  }

  function Backwards(): Program {
    [Deb(0, 1, 1), Deb(0, 3, 3), Inc(1, 3), Deb(0, 4, 4), Deb(2, 5, 2), End]
  }

  lemma BackwardsLowers()
    ensures Lowers(BackwardsText(), NoDevices, NOOP, Lowered(Backwards(), [NOOP, "x", "y"], 0))
    ensures GivesNoNil(BackwardsText(), NOOP) && NoOpsPlain(BackwardsText(), NOOP)
  {
    hide WithDeps;
    var nodes, names := BackwardsText(), [NOOP, "x", "y"];
    BackwardsNames();
    forall i | 0 <= i < 5 ensures Lowering.Matches(nodes, i, Backwards()[i], names) {
      BackwardsLine(i);
    }
  }

  lemma BackwardsLine(i: nat)
    requires i < 5
    ensures Lowering.Matches(BackwardsText(), i, Backwards()[i], [NOOP, "x", "y"])
  {
    hide Address;
    BackwardsLabels();
  }

  lemma BackwardsNames()
    ensures NamesOf(BackwardsText(), 5) == [NOOP, "x", "y"]
    ensures WithDeps([NOOP, "x", "y"], NoDevices, 3) == [NOOP, "x", "y"]
  {
    var nodes, names := BackwardsText(), [NOOP, "x", "y"];
    assert NamesOf(nodes, 1) == [NOOP] && NamesOf(nodes, 2) == [NOOP];
    assert NamesOf(nodes, 3) == [NOOP, "x"] && NamesOf(nodes, 4) == [NOOP, "x"];
    NoneNeeded(names, NoDevices, 3);
  }

  lemma BackwardsLabels()
    ensures Address(BackwardsText(), "out") == 3
  {
    var nodes := BackwardsText();
    var a := Address(nodes, "out");
    assert Declares(nodes, 3, "out");
  }

  /** The cleaned form started at its first instruction misses the entry: the source gives one
      bean, the cleaned program two.  Started at the entry's new position it gives one. */
  lemma EntryMatters()
    ensures Lowers(BackwardsText(), NoDevices, NOOP, Lowered(Backwards(), [NOOP, "x", "y"], 0))
    ensures GivesNoNil(BackwardsText(), NOOP)
    ensures Cleaned(Backwards(), 0, [Inc(1, 1), Deb(2, 2, 0)])
    ensures !EntryLowest(Backwards(), 0) && NewEntry(Backwards(), 0) == 1
    ensures Ends(Backwards(), [0, 0, 1], 7, [0, 1, 0])
    ensures Ends([Inc(1, 1), Deb(2, 2, 0)], [0, 0, 1], 4, [0, 2, 0])
  {
    hide Cleaned, EntryLowest, Ends, Lowers, NewEntry;
    BackwardsLowers();
    BackwardsCleaned();
    BackwardsRuns();
  }

  lemma BackwardsRuns()
    ensures Ends(Backwards(), [0, 0, 1], 7, [0, 1, 0])
    ensures Ends([Inc(1, 1), Deb(2, 2, 0)], [0, 0, 1], 4, [0, 2, 0])
  {
    SourceRuns();
    CleanedRuns();
  }

  lemma SourceRuns()
    ensures Ends(Backwards(), [0, 0, 1], 7, [0, 1, 0])
  {
    hide Reaches;
    var p, d := Backwards(), Config(5, [0, 1, 0]);
    var a, b, c := [0, 0, 1], [0, 0, 0], [0, 1, 0];
    LastMove(p, Config(4, c), d);
    Move(p, Config(3, c), Config(4, c), 1, d);
    Move(p, Config(2, b), Config(3, c), 2, d);
    Move(p, Config(4, a), Config(2, b), 3, d);
    Move(p, Config(3, a), Config(4, a), 4, d);
    Move(p, Config(1, a), Config(3, a), 5, d);
    Move(p, Config(0, a), Config(1, a), 6, d);
    assert HaltsIn(p, Config(0, a), 7, d);
  }

  lemma CleanedRuns()
    ensures Ends([Inc(1, 1), Deb(2, 2, 0)], [0, 0, 1], 4, [0, 2, 0])
  {
    hide Reaches;
    var q, d := [Inc(1, 1), Deb(2, 2, 0)], Config(2, [0, 2, 0]);
    LastMove(q, Config(1, [0, 2, 0]), d);
    Move(q, Config(0, [0, 1, 0]), Config(1, [0, 2, 0]), 1, d);
    Move(q, Config(1, [0, 1, 1]), Config(0, [0, 1, 0]), 2, d);
    Move(q, Config(0, [0, 0, 1]), Config(1, [0, 1, 1]), 3, d);
    assert HaltsIn(q, Config(0, [0, 0, 1]), 4, d);
  }

  /** One move in front of a run. */
  lemma Move(p: Program, c: Config, e: Config, k: nat, d: Config)
    requires !Stopped(p, c) && OpOk(p[c.pc], |c.regs|) && Next(p, c) == e && Reaches(p, e, k, d)
    ensures Reaches(p, c, k + 1, d)
  {
  }

  lemma LastMove(p: Program, c: Config, d: Config)
    requires !Stopped(p, c) && OpOk(p[c.pc], |c.regs|) && Next(p, c) == d
    ensures Reaches(p, c, 1, d)
  {
    assert Reaches(p, d, 0, d);
  }

  lemma BackwardsCleaned()
    ensures Cleaned(Backwards(), 0, [Inc(1, 1), Deb(2, 2, 0)])
    ensures !EntryLowest(Backwards(), 0) && NewEntry(Backwards(), 0) == 1
  {
    hide LiveSet, ThreadAll, Entry, ThreadTarget, RetargetBy, RankTable;
    var p, q := Backwards(), [Inc(1, 1), Deb(2, 2, 0)];
    var full := q + [End];
    BackwardsThreads();
    BackwardsLive();
    var live := LiveSet(p, 0);
    BackwardsRanks(live);
    RetargetLive(live);
    assert Kept(p, 0, live, full);
    assert full[..2] == q;
    assert Trimmed(full) == Trimmed(q) == q;
    assert live[2];
  }

  lemma BackwardsRanks(live: seq<bool>)
    requires live == [false, false, true, false, true, true]
    ensures Rank(live, 2) == 0 && Rank(live, 4) == 1 && Rank(live, 5) == 2 && Rank(live, 6) == 3
  {
    assert Rank(live, 1) == 0 && Rank(live, 3) == 1;
  }

  lemma RetargetLive(live: seq<bool>)
    requires live == [false, false, true, false, true, true]
    ensures RetargetBy(End, RankTable(live)) == End
    ensures RetargetBy(Inc(1, 4), RankTable(live)) == Inc(1, 1)
    ensures RetargetBy(Deb(2, 5, 2), RankTable(live)) == Deb(2, 2, 0)
  {
    hide Rank;
    BackwardsRanks(live);
  }

  function BackwardsThreaded(): Program {
    [Deb(0, 4, 4), Deb(0, 4, 4), Inc(1, 4), Deb(0, 4, 4), Deb(2, 5, 2), End]
  }

  lemma BackwardsThreads()
    ensures Entry(Backwards(), 0) == 4 && ThreadAll(Backwards(), 0) == BackwardsThreaded()
  {
    var p := Backwards();
    assert ThreadTarget(p, 0, 4, 3) == 4 && ThreadTarget(p, 0, 4, 4) == 4 && ThreadTarget(p, 0, 4, 5) == 4;
    assert ThreadTarget(p, 0, 4, 6) == 4 && ThreadTarget(p, 0, 5, 6) == 5 && ThreadTarget(p, 0, 2, 6) == 2;
    assert ThreadTarget(p, 0, 3, 4) == 4 && ThreadTarget(p, 0, 3, 5) == 4 && ThreadTarget(p, 0, 3, 6) == 4;
    assert ThreadTarget(p, 0, 1, 5) == 4 && ThreadTarget(p, 0, 1, 6) == 4;
    assert ThreadTarget(p, 0, 0, 6) == 4;
    forall i | 0 <= i < 6 ensures ThreadAll(p, 0)[i] == BackwardsThreaded()[i] {
      assert ThreadEach(p, 0, Targets(p[i])) == Targets(BackwardsThreaded()[i]);
    }
  }

  lemma BackwardsLive()
    ensures LiveSet(Backwards(), 0) == [false, false, true, false, true, true]
  {
    hide ThreadAll, Entry, ReachedIn, ReachableFrom;
    var t, vis := BackwardsThreaded(), [false, false, true, false, true, true];
    BackwardsThreads();
    ReachStart(t, 4);
    ReachOn(t, 4, 4, 0);
    ReachOn(t, 4, 4, 1);
    NotReached(t, vis, 4, 0);
    NotReached(t, vis, 4, 1);
    NotReached(t, vis, 4, 3);
  }

  // ---------------------------------------------------------------------------
  // A jump past the table
  // ---------------------------------------------------------------------------

  /** A take that leaves to either of two stops. */
  function TwoStopsText(): seq<Statement<string>> {
    [Take(NoLabel, "x", NextOne, Offset(2)), Stop(NoLabel)]
  }

  function TwoStops(): Program {
    [Deb(0, 1, 2), End, End]
  }

  lemma TwoStopsLowers()
    ensures Lowers(TwoStopsText(), NoDevices, NOOP, Lowered(TwoStops(), ["x", NOOP], 1))
  {
    var nodes := TwoStopsText();
    assert NamesOf(nodes, 1) == ["x"] && NamesOf(nodes, 2) == ["x"];
    NoneNeeded(["x"], NoDevices, 1);
    forall i | 0 <= i < 2 ensures Lowering.Matches(nodes, i, TwoStops()[i], ["x", NOOP]) {
    }
  }

  /** Both stops are dropped, and one jump then goes past the table of offsets. */
  lemma StopsMatter()
    ensures Lowers(TwoStopsText(), NoDevices, NOOP, Lowered(TwoStops(), ["x", NOOP], 1))
    ensures TargetsWithin(TwoStops()) && EntryLowest(TwoStops(), 1)
    ensures Cleaned(TwoStops(), 1, [Deb(0, 1, 2)]) && !InTable([Deb(0, 1, 2)])
  {
    hide LiveSet, ThreadAll, ThreadTarget, RetargetBy, RankTable, TargetsWithin, Lowers;
    var p := TwoStops();
    TwoStopsLowers();
    TwoStopsThreads();
    TwoStopsLive();
    var live := LiveSet(p, 1);
    assert Rank(live, 1) == 1 && Rank(live, 2) == 2 && Rank(live, 3) == 3;
    RetargetThree(live);
    assert Kept(p, 1, live, p);
    TwoStopsTrimmed();
    NotInTable([Deb(0, 1, 2)], 0, 2);
  }

  lemma TwoStopsTrimmed()
    ensures Trimmed(TwoStops()) == [Deb(0, 1, 2)]
  {
    var p := TwoStops();
    assert p[..2] == [Deb(0, 1, 2), End] && p[..2][..1] == [Deb(0, 1, 2)];
    assert Trimmed(p) == Trimmed(p[..2]) == Trimmed(p[..2][..1]) == [Deb(0, 1, 2)];
  }

  lemma RetargetThree(live: seq<bool>)
    requires live == [true, true, true]
    ensures RetargetBy(End, RankTable(live)) == End && RetargetBy(Deb(0, 1, 2), RankTable(live)) == Deb(0, 1, 2)
  {
    assert Rank(live, 1) == 1 && Rank(live, 2) == 2;
  }

  lemma TwoStopsThreads()
    ensures Entry(TwoStops(), 1) == 0 && ThreadAll(TwoStops(), 1) == TwoStops() && TargetsWithin(TwoStops())
  {
    var p := TwoStops();
    assert ThreadTarget(p, 1, 0, 3) == 0 && ThreadTarget(p, 1, 1, 3) == 1 && ThreadTarget(p, 1, 2, 3) == 2;
    forall i | 0 <= i < 3 ensures ThreadAll(p, 1)[i] == p[i] {
      assert ThreadEach(p, 1, Targets(p[i])) == Targets(p[i]);
    }
  }

  lemma TwoStopsLive()
    ensures LiveSet(TwoStops(), 1) == [true, true, true]
  {
    hide ThreadAll, Entry, ReachedIn, ReachableFrom;
    var p := TwoStops();
    TwoStopsThreads();
    ReachStart(p, 0);
    ReachOn(p, 0, 0, 0);
    ReachOn(p, 0, 0, 1);
  }

  // ---------------------------------------------------------------------------
  // A bean in the no-op register
  // ---------------------------------------------------------------------------

  /** A give, and a label on a line of its own. */
  function GiveThenNoOpText(): seq<Statement<string>> {
    [Give(NoLabel, "x", Implicit), Take(Labelled("done"), NOOP, NextOne, NextOne)]
  }

  lemma GiveThenNoOpLines()
    ensures forall i :: 0 <= i < 2 ==> Lowering.Matches(GiveThenNoOpText(), i, GiveThenNoOp()[i], ["x", NOOP])
  {
    hide Address;
  }

  /** What `NilMatters` is about is a lowered program. */
  lemma NilMattersLowers()
    ensures Lowers(GiveThenNoOpText(), NoDevices, NOOP, Lowered(GiveThenNoOp(), ["x", NOOP], 1))
    ensures GivesNoNil(GiveThenNoOpText(), NOOP) && NoOpsPlain(GiveThenNoOpText(), NOOP)
  {
    hide Lowering.Matches, WithDeps;
    var nodes, names := GiveThenNoOpText(), ["x", NOOP];
    assert NamesOf(nodes, 1) == ["x"] && NamesOf(nodes, 2) == names;
    NoneNeeded(names, NoDevices, 2);
    GiveThenNoOpLines();
  }
}
