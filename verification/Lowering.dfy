/** From statements to a raw program: labels become addresses, register names become indices,
    and a final halt is appended, so that every jump of the result lands.  Names are interned
    strings, of which only identity matters. */
module Lowering {
  import opened Machine
  import opened Passes
  import opened Threading
  import opened Roles
  import opened NilRegister
  import opened PtrMaps

  datatype JumpTo<N> = Implicit | ToLabel(name: N) | Self | NextOne | PrevOne | Init | Done | Offset(delta: int)

  datatype Tag<N> = NoLabel | Labelled(name: N)

  datatype Statement<N> =
    | Give(tag: Tag<N>, reg: N, next: JumpTo<N>)
    | Take(tag: Tag<N>, reg: N, onZero: JumpTo<N>, onTake: JumpTo<N>)
    | Stop(tag: Tag<N>)

  datatype LowerError<N> = DuplicateLabel(name: N) | UndefinedLabel(name: N)

  datatype Lowered<N> = Lowered(insts: Program, names: seq<N>, nil: nat)

  datatype Result<N> = Ok(prog: Lowered<N>) | Err(error: LowerError<N>)

  // ---------------------------------------------------------------------------
  // Labels
  // ---------------------------------------------------------------------------

  predicate Declares<N(==)>(nodes: seq<Statement<N>>, i: nat, name: N) {
    i < |nodes| && nodes[i].tag == Labelled(name)
  }

  /** The first statement with the label, or the number of statements if there is none. */
  function Address<N(==)>(nodes: seq<Statement<N>>, name: N): (i: nat)
    ensures i <= |nodes| && (i < |nodes| ==> Declares(nodes, i, name))
    ensures forall j :: 0 <= j < i ==> !Declares(nodes, j, name)
  {
    if nodes == [] then 0
    else if nodes[0].tag == Labelled(name) then 0
    else
      var k := Address(nodes[1..], name);
      assert forall j :: 1 <= j < k + 1 ==> !Declares(nodes[1..], j - 1, name) && nodes[j] == nodes[1..][j - 1];
      k + 1
  }

  predicate Defined<N(==)>(nodes: seq<Statement<N>>, name: N) {
    Address(nodes, name) < |nodes|
  }

  ghost predicate LabelsOnce<N(!new)>(nodes: seq<Statement<N>>) {
    forall i, j, name :: 0 <= i < j < |nodes| && Declares(nodes, i, name) ==> !Declares(nodes, j, name)
  }

  predicate JumpDefined<N(==)>(nodes: seq<Statement<N>>, j: JumpTo<N>) {
    j.ToLabel? ==> Defined(nodes, j.name)
  }

  predicate JumpsTo<N(==)>(node: Statement<N>, j: JumpTo<N>) {
    (node.Give? && node.next == j) || (node.Take? && (node.onZero == j || node.onTake == j))
  }

  ghost predicate JumpsDefined<N(!new)>(nodes: seq<Statement<N>>, n: nat) {
    forall i :: 0 <= i < n && i < |nodes| ==>
      match nodes[i]
      case Give(_, _, next) => JumpDefined(nodes, next)
      case Take(_, _, a, b) => JumpDefined(nodes, a) && JumpDefined(nodes, b)
      case Stop(_) => true
  }

  /** Where a jump from statement `i` goes; offsets are clamped to the program, whose last
      instruction is the appended halt. */
  function Resolve<N(==)>(nodes: seq<Statement<N>>, j: JumpTo<N>, i: nat): (t: nat)
    requires i < |nodes| && JumpDefined(nodes, j)
    ensures t <= |nodes|
  {
    match j
    case Implicit => i + 1
    case ToLabel(name) => Address(nodes, name)
    case Self => i
    case NextOne => i + 1
    case PrevOne => if i > 0 then i - 1 else 0
    case Init => 0
    case Done => |nodes|
    case Offset(delta) =>
      var t := i + delta;
      if t < 0 then 0 else if t >= |nodes| + 1 then |nodes| else t
  }

  function Distance(a: int, b: int): nat {
    if a < b then b - a else a - b
  }

  /** Every jump but one to a label, to the start or to the end has an aim relative to its own
      statement, and goes to the place nearest to it. */
  lemma ResolvedGoes<N>(nodes: seq<Statement<N>>, j: JumpTo<N>, i: nat, t: nat)
    requires i < |nodes| && JumpDefined(nodes, j) && t == Resolve(nodes, j, i)
    ensures t <= |nodes|
    ensures match j
      case ToLabel(name) => t < |nodes| && nodes[t].tag == Labelled(name)
      case Init => t == 0
      case Done => t == |nodes|
      case _ =>
        var aim := i + match j { case Self => 0 case PrevOne => -1 case Offset(delta) => delta case _ => 1 };
        forall u :: 0 <= u <= |nodes| ==> Distance(t, aim) <= Distance(u, aim)
  {
  }

  lemma DefinedMeans<N(!new)>(nodes: seq<Statement<N>>, name: N)
    ensures Defined(nodes, name) <==> exists k :: 0 <= k < |nodes| && nodes[k].tag == Labelled(name)
  {
    var a := Address(nodes, name);
    if k :| 0 <= k < |nodes| && nodes[k].tag == Labelled(name) {
      assert Declares(nodes, k, name);
    }
  }

  // ---------------------------------------------------------------------------
  // What a lowered program is
  // ---------------------------------------------------------------------------

  ghost predicate NamesOnce<N(!new)>(names: seq<N>) {
    forall i, j :: 0 <= i < j < |names| ==> names[i] != names[j]
  }

  function AddName<N(==)>(names: seq<N>, name: N): seq<N> {
    if name in names then names else names + [name]
  }

  /** The registers the first `n` statements name, in order of first mention. */
  function NamesOf<N(==)>(nodes: seq<Statement<N>>, n: nat): seq<N>
    requires n <= |nodes|
  {
    if n == 0 then []
    else
      match nodes[n - 1]
      case Give(_, reg, _) => AddName(NamesOf(nodes, n - 1), reg)
      case Take(_, reg, _, _) => AddName(NamesOf(nodes, n - 1), reg)
      case Stop(_) => NamesOf(nodes, n - 1)
  }

  function AddNames<N(==)>(names: seq<N>, more: seq<N>): seq<N>
    decreases |more|
  {
    if more == [] then names else AddName(AddNames(names, more[..|more| - 1]), more[|more| - 1])
  }

  /** The registers behind those named: what the devices among the first `n` of them keep
      their data in. */
  function WithDeps<N(==)>(names: seq<N>, deps: N -> seq<N>, n: nat): seq<N>
    requires n <= |names|
  {
    if n == 0 then names else AddNames(WithDeps(names, deps, n - 1), deps(names[n - 1]))
  }

  lemma AddNameIn<N>(names: seq<N>, name: N)
    ensures names <= AddName(names, name) && name in AddName(names, name)
    ensures |AddName(names, name)| == |names| + if name in names then 0 else 1
    ensures name !in names ==> AddName(names, name)[|names|] == name
  {
  }

  /** `at` says which of the first `n` statements is the first to name each register. */
  ghost predicate Mentioned<N(!new)>(nodes: seq<Statement<N>>, n: nat, names: seq<N>, at: seq<nat>) {
    && n <= |nodes| && |at| == |names|
    && (forall k :: 0 <= k < |at| ==> at[k] < n && !nodes[at[k]].Stop? && nodes[at[k]].reg == names[k])
    && (forall k, i :: 0 <= k < |at| && 0 <= i < at[k] && !nodes[i].Stop? ==> nodes[i].reg != names[k])
    && (forall k, l :: 0 <= k < l < |at| ==> at[k] < at[l])
    && (forall i :: 0 <= i < n && !nodes[i].Stop? ==> nodes[i].reg in names)
  }

  lemma MentionedNext<N(!new)>(nodes: seq<Statement<N>>, n: nat, names: seq<N>, at: seq<nat>)
    requires n < |nodes| && Mentioned(nodes, n, names, at)
    ensures nodes[n].Stop? || nodes[n].reg in names ==> Mentioned(nodes, n + 1, names, at)
    ensures !nodes[n].Stop? && nodes[n].reg !in names ==>
              Mentioned(nodes, n + 1, names + [nodes[n].reg], at + [n])
  {
    if !nodes[n].Stop? && nodes[n].reg !in names {
      var now, at' := names + [nodes[n].reg], at + [n];
      forall k, i | 0 <= k < |at'| && 0 <= i < at'[k] && !nodes[i].Stop? ensures nodes[i].reg != now[k] {
        if k == |at| {
          assert nodes[i].reg in names;
        }
      }
    }
  }

  lemma {:induction false} MentionedAll<N(!new)>(nodes: seq<Statement<N>>, n: nat) returns (at: seq<nat>)
    requires n <= |nodes|
    ensures Mentioned(nodes, n, NamesOf(nodes, n), at)
    decreases n
  {
    if n == 0 {
      at := [];
    } else {
      hide Mentioned;
      at := MentionedAll(nodes, n - 1);
      MentionedNext(nodes, n - 1, NamesOf(nodes, n - 1), at);
      if !nodes[n - 1].Stop? && nodes[n - 1].reg !in NamesOf(nodes, n - 1) {
        at := at + [n - 1];
      }
    }
  }

  /** Registers are numbered in order of first mention: `at[k]` is the first statement to name
      register `k`. */
  lemma FirstMentions<N(!new)>(nodes: seq<Statement<N>>) returns (at: seq<nat>)
    ensures var names := NamesOf(nodes, |nodes|);
            && |at| == |names|
            && (forall k :: 0 <= k < |at| ==>
                  at[k] < |nodes| && !nodes[at[k]].Stop? && nodes[at[k]].reg == names[k])
            && (forall k, i :: 0 <= k < |at| && 0 <= i < at[k] && !nodes[i].Stop? ==> nodes[i].reg != names[k])
            && (forall k, l :: 0 <= k < l < |at| ==> at[k] < at[l])
            && (forall i :: 0 <= i < |nodes| && !nodes[i].Stop? ==> nodes[i].reg in names)
  {
    at := MentionedAll(nodes, |nodes|);
  }

  /** Register first, then position in what its device depends on. */
  predicate Before(a: (nat, nat), b: (nat, nat)) {
    a.0 < b.0 || (a.0 == b.0 && a.1 < b.1)
  }

  predicate DepAt<N(==)>(names: seq<N>, deps: N -> seq<N>, a: (nat, nat), name: N) {
    a.0 < |names| && a.1 < |deps(names[a.0])| && deps(names[a.0])[a.1] == name
  }

  /** `at` says where each name of `more` behind `names` is first depended on, before `b`. */
  ghost predicate Brought<N(!new)>(names: seq<N>, deps: N -> seq<N>, more: seq<N>, at: seq<(nat, nat)>, b: (nat, nat)) {
    && names <= more && |more| == |names| + |at|
    && (forall k :: 0 <= k < |at| ==> Before(at[k], b) && DepAt(names, deps, at[k], more[|names| + k]))
    && (forall k, a :: 0 <= k < |at| && Before(a, at[k]) ==> !DepAt(names, deps, a, more[|names| + k]))
    && (forall k, l :: 0 <= k < l < |at| ==> Before(at[k], at[l]))
    && (forall k :: |names| <= k < |more| ==> more[k] !in names)
    && (forall a, name :: Before(a, b) && DepAt(names, deps, a, name) ==> name in more)
  }

  lemma BroughtOne<N(!new)>(names: seq<N>, deps: N -> seq<N>, more: seq<N>, at: seq<(nat, nat)>, i: nat, d: nat)
    returns (at': seq<(nat, nat)>)
    requires Brought(names, deps, more, at, (i, d)) && i < |names| && d < |deps(names[i])|
    ensures Brought(names, deps, AddName(more, deps(names[i])[d]), at', (i, d + 1))
  {
    hide AddName, Brought;
    var name := deps(names[i])[d];
    AddNameIn(more, name);
    if name in more {
      at' := at;
      BroughtAgain(names, deps, more, at, i, d);
      AddNameOld(more, name);
    } else {
      at' := at + [(i, d)];
      BroughtNew(names, deps, more, at, i, d);
      AddNameNew(more, name);
    }
  }

  lemma AddNameOld<N>(names: seq<N>, name: N)
    requires name in names
    ensures AddName(names, name) == names
  {
  }

  lemma AddNameNew<N>(names: seq<N>, name: N)
    requires name !in names
    ensures AddName(names, name) == names + [name]
  {
  }

  lemma BroughtAgain<N(!new)>(names: seq<N>, deps: N -> seq<N>, more: seq<N>, at: seq<(nat, nat)>, i: nat, d: nat)
    requires Brought(names, deps, more, at, (i, d)) && i < |names| && d < |deps(names[i])|
    requires deps(names[i])[d] in more
    ensures Brought(names, deps, more, at, (i, d + 1))
  {
    hide DepAt;
    forall a, name | Before(a, (i, d + 1)) && DepAt(names, deps, a, name) ensures name in more {
      if a == (i, d) {
        DepIs(names, deps, a, name);
      } else {
        assert Before(a, (i, d));
      }
    }
    forall k | 0 <= k < |at| ensures Before(at[k], (i, d + 1)) {
      assert Before(at[k], (i, d));
    }
  }

  lemma DepIs<N>(names: seq<N>, deps: N -> seq<N>, a: (nat, nat), name: N)
    requires a.0 < |names| && a.1 < |deps(names[a.0])|
    ensures DepAt(names, deps, a, name) <==> deps(names[a.0])[a.1] == name
  {
  }

  lemma BroughtNew<N(!new)>(names: seq<N>, deps: N -> seq<N>, more: seq<N>, at: seq<(nat, nat)>, i: nat, d: nat)
    requires Brought(names, deps, more, at, (i, d)) && i < |names| && d < |deps(names[i])|
    requires deps(names[i])[d] !in more
    ensures Brought(names, deps, more + [deps(names[i])[d]], at + [(i, d)], (i, d + 1))
  {
    hide DepAt;
    var name := deps(names[i])[d];
    var now, at' := more + [name], at + [(i, d)];
    forall k, a | 0 <= k < |at'| && Before(a, at'[k]) ensures !DepAt(names, deps, a, now[|names| + k]) {
      if k < |at| {
        assert !DepAt(names, deps, a, more[|names| + k]);
      }
    }
    forall a, other | Before(a, (i, d + 1)) && DepAt(names, deps, a, other) ensures other in now {
      if a == (i, d) {
        DepIs(names, deps, a, other);
      } else {
        assert Before(a, (i, d));
      }
    }
    DepIs(names, deps, (i, d), name);
    forall k | 0 <= k < |at'| ensures Before(at'[k], (i, d + 1)) && DepAt(names, deps, at'[k], now[|names| + k]) {
      if k < |at| {
        assert Before(at[k], (i, d)) && DepAt(names, deps, at[k], more[|names| + k]);
      }
    }
    forall k, l | 0 <= k < l < |at'| ensures Before(at'[k], at'[l]) {
      assert Before(at[k], (i, d));
    }
  }

  lemma {:induction false} BroughtEach<N(!new)>(names: seq<N>, deps: N -> seq<N>, more: seq<N>, at: seq<(nat, nat)>,
                                                i: nat, d: nat)
    returns (at': seq<(nat, nat)>)
    requires Brought(names, deps, more, at, (i, 0)) && i < |names| && d <= |deps(names[i])|
    ensures Brought(names, deps, AddNames(more, deps(names[i])[..d]), at', (i, d))
    decreases d
  {
    hide Brought, AddName;
    if d == 0 {
      at' := at;
    } else {
      var wanted := deps(names[i]);
      at' := BroughtEach(names, deps, more, at, i, d - 1);
      at' := BroughtOne(names, deps, AddNames(more, wanted[..d - 1]), at', i, d - 1);
      assert wanted[..d][..d - 1] == wanted[..d - 1];
    }
  }

  lemma BroughtAll<N(!new)>(names: seq<N>, deps: N -> seq<N>, more: seq<N>, at: seq<(nat, nat)>, i: nat)
    requires i < |names| && Brought(names, deps, more, at, (i, |deps(names[i])|))
    ensures Brought(names, deps, more, at, (i + 1, 0))
  {
    forall a, name | Before(a, (i + 1, 0)) && DepAt(names, deps, a, name) ensures name in more {
      assert Before(a, (i, |deps(names[i])|));
    }
  }

  lemma {:induction false} BroughtFrom<N(!new)>(names: seq<N>, deps: N -> seq<N>, n: nat) returns (at: seq<(nat, nat)>)
    requires n <= |names|
    ensures Brought(names, deps, WithDeps(names, deps, n), at, (n, 0))
    decreases n
  {
    if n == 0 {
      at := [];
    } else {
      hide Brought, AddNames;
      var was, wanted := WithDeps(names, deps, n - 1), deps(names[n - 1]);
      at := BroughtFrom(names, deps, n - 1);
      at := BroughtEach(names, deps, was, at, n - 1, |wanted|);
      assert wanted[..|wanted|] == wanted;
      BroughtAll(names, deps, WithDeps(names, deps, n), at, n - 1);
    }
  }

  /** What the devices among `names` depend on comes behind them, every one of those names and no
      other, in the order in which they are first depended on: the name at `k` behind them is the
      one at position `at[k].1` of what `names[at[k].0]` depends on. */
  lemma DepsInOrder<N(!new)>(names: seq<N>, deps: N -> seq<N>) returns (at: seq<(nat, nat)>)
    ensures var more := WithDeps(names, deps, |names|);
            && names <= more && |more| == |names| + |at|
            && (forall i, d :: 0 <= i < |names| && 0 <= d < |deps(names[i])| ==> deps(names[i])[d] in more)
            && (forall k :: 0 <= k < |at| ==>
                  && at[k].0 < |names| && at[k].1 < |deps(names[at[k].0])|
                  && more[|names| + k] == deps(names[at[k].0])[at[k].1] && more[|names| + k] !in names)
            && (forall k, l :: 0 <= k < l < |at| ==>
                  at[k].0 < at[l].0 || (at[k].0 == at[l].0 && at[k].1 < at[l].1))
            && (forall k: nat, i: nat, d: nat ::
                  k < |at| && i <= at[k].0 && d < (if i == at[k].0 then at[k].1 else |deps(names[i])|) ==>
                    deps(names[i])[d] != more[|names| + k])
  {
    at := BroughtFrom(names, deps, |names|);
    var more := WithDeps(names, deps, |names|);
    forall i, d | 0 <= i < |names| && 0 <= d < |deps(names[i])| ensures deps(names[i])[d] in more {
      assert Before((i, d), (|names|, 0)) && DepAt(names, deps, (i, d), deps(names[i])[d]);
    }
    forall k: nat, i: nat, d: nat |
      k < |at| && i <= at[k].0 && d < (if i == at[k].0 then at[k].1 else |deps(names[i])|)
      ensures deps(names[i])[d] != more[|names| + k]
    {
      assert Before((i, d), at[k]);
      assert !DepAt(names, deps, (i, d), more[|names| + k]);
    }
  }

  lemma {:induction false} NoneNeeded<N>(names: seq<N>, deps: N -> seq<N>, n: nat)
    requires n <= |names| && forall name :: name in names ==> deps(name) == []
    ensures WithDeps(names, deps, n) == names
  {
    if n > 0 {
      NoneNeeded(names, deps, n - 1);
    }
  }

  ghost predicate Matches<N(!new)>(nodes: seq<Statement<N>>, i: nat, op: Op, names: seq<N>)
    requires i < |nodes|
  {
    match nodes[i]
    case Give(_, reg, next) =>
      && JumpDefined(nodes, next)
      && op.Inc? && op.reg < |names| && names[op.reg] == reg && op.next == Resolve(nodes, next, i)
    case Take(_, reg, a, b) =>
      && JumpDefined(nodes, a) && JumpDefined(nodes, b)
      && op.Deb? && op.reg < |names| && names[op.reg] == reg
      && op.onZero == Resolve(nodes, a, i) && op.onTake == Resolve(nodes, b, i)
    case Stop(_) => op.End?
  }

  /** One instruction per statement and a halt behind them, over the names in order of first
      mention, then the registers their devices need, then the no-op register if it is not
      among them. */
  ghost predicate Lowers<N(!new)>(nodes: seq<Statement<N>>, deps: N -> seq<N>, nilName: N, l: Lowered<N>) {
    var named := NamesOf(nodes, |nodes|);
    && |l.insts| == |nodes| + 1 && l.insts[|nodes|].End?
    && NamesOnce(l.names) && l.names == AddName(WithDeps(named, deps, |named|), nilName)
    && l.nil < |l.names| && l.names[l.nil] == nilName
    && forall i :: 0 <= i < |nodes| ==> Matches(nodes, i, l.insts[i], l.names)
  }

  /** Where the jumps of a lowered program go: to the instruction with the label, to the first, to
      the last, or to the one nearest to where they aim. */
  lemma LoweredJump<N(!new)>(nodes: seq<Statement<N>>, deps: N -> seq<N>, nilName: N, l: Lowered<N>,
                             i: nat, j: JumpTo<N>, t: nat)
    requires Lowers(nodes, deps, nilName, l) && i < |nodes|
    requires
      || (l.insts[i].Inc? && nodes[i].Give? && j == nodes[i].next && t == l.insts[i].next)
      || (l.insts[i].Deb? && nodes[i].Take? && j == nodes[i].onZero && t == l.insts[i].onZero)
      || (l.insts[i].Deb? && nodes[i].Take? && j == nodes[i].onTake && t == l.insts[i].onTake)
    ensures t < |l.insts|
    ensures match j
      case ToLabel(name) => t < |nodes| && nodes[t].tag == Labelled(name)
      case Init => t == 0
      case Done => t == |l.insts| - 1
      case _ =>
        var aim := i + match j { case Self => 0 case PrevOne => -1 case Offset(delta) => delta case _ => 1 };
        forall u :: 0 <= u < |l.insts| ==> Distance(t, aim) <= Distance(u, aim)
  {
    hide Resolve, NamesOf, WithDeps, Distance;
    assert Matches(nodes, i, l.insts[i], l.names);
    ResolvedGoes(nodes, j, i, t);
  }

  /** Each statement becomes the instruction of its kind, on its register; behind the last stands
      a halt.  No two registers share a name. */
  lemma LoweredKinds<N(!new)>(nodes: seq<Statement<N>>, deps: N -> seq<N>, nilName: N, l: Lowered<N>, i: nat)
    requires Lowers(nodes, deps, nilName, l) && i < |l.insts|
    ensures |l.insts| == |nodes| + 1 && (l.insts[i].End? <==> i == |nodes| || nodes[i].Stop?)
    ensures l.insts[i].Inc? <==> i < |nodes| && nodes[i].Give?
    ensures !l.insts[i].End? ==> l.insts[i].reg < |l.names| && l.names[l.insts[i].reg] == nodes[i].reg
    ensures l.nil < |l.names| && l.names[l.nil] == nilName
    ensures forall a, b :: 0 <= a < b < |l.names| ==> l.names[a] != l.names[b]
  {
    hide Resolve, NamesOf, WithDeps;
    if i < |nodes| {
      assert Matches(nodes, i, l.insts[i], l.names);
    }
  }

  /** No statement gives the no-op register, which source text cannot name. */
  predicate GivesNoNil<N(==)>(nodes: seq<Statement<N>>, nilName: N) {
    forall i :: 0 <= i < |nodes| && nodes[i].Give? ==> nodes[i].reg != nilName
  }

  /** A lowered program meets what the optimizer, the backend and the encoder ask for. */
  lemma LoweredIsGood<N(!new)>(nodes: seq<Statement<N>>, deps: N -> seq<N>, nilName: N, l: Lowered<N>)
    requires Lowers(nodes, deps, nilName, l)
    ensures IsRaw(l.insts) && ProgOk(l.insts, |l.names|) && Landed(l.insts)
    ensures GivesNoNil(nodes, nilName) ==> NeverFed(l.insts, l.nil)
  {
    hide Resolve;
    forall i | 0 <= i < |l.insts|
      ensures IsRawOp(l.insts[i]) && OpOk(l.insts[i], |l.names|) && AllBelow(Targets(l.insts[i]), |l.insts|)
    {
      if i < |nodes| {
        assert Matches(nodes, i, l.insts[i], l.names);
      }
    }
    if GivesNoNil(nodes, nilName) {
      forall i | 0 <= i < |l.insts| ensures !Feeds(l.insts[i], l.nil) {
        if i < |nodes| {
          assert Matches(nodes, i, l.insts[i], l.names);
        }
      }
    }
  }

  /** Every take of the no-op register goes to one place: the takes the parser and the loader
      make of it, source text being unable to name it. */
  predicate NoOpsPlain<N(==)>(nodes: seq<Statement<N>>, nilName: N) {
    forall i :: 0 <= i < |nodes| && nodes[i].Take? && nodes[i].reg == nilName ==> nodes[i].onZero == nodes[i].onTake
  }

  lemma LoweredPlain<N(!new)>(nodes: seq<Statement<N>>, deps: N -> seq<N>, nilName: N, l: Lowered<N>)
    requires Lowers(nodes, deps, nilName, l) && NoOpsPlain(nodes, nilName)
    ensures Plain(l.insts, l.nil)
  {
    hide Resolve, NamesOf, WithDeps;
    forall i | 0 <= i < |l.insts| && l.insts[i].Deb? && l.insts[i].reg == l.nil
      ensures l.insts[i].onZero == l.insts[i].onTake
    {
      assert Matches(nodes, i, l.insts[i], l.names);
    }
  }

  /** The lowering of a program is determined. */
  lemma LowersUnique<N(!new)>(nodes: seq<Statement<N>>, deps: N -> seq<N>, nilName: N,
                              l: Lowered<N>, l': Lowered<N>)
    requires Lowers(nodes, deps, nilName, l) && Lowers(nodes, deps, nilName, l')
    ensures l == l'
  {
    hide Resolve, NamesOf, WithDeps;
    assert l.nil == l'.nil;
    forall i | 0 <= i < |l.insts| ensures l.insts[i] == l'.insts[i] {
      if i < |nodes| {
        assert Matches(nodes, i, l.insts[i], l.names) && Matches(nodes, i, l'.insts[i], l.names);
      }
    }
  }

  // ---------------------------------------------------------------------------
  // The labels, collected
  // ---------------------------------------------------------------------------

  /** The table holds the labels of the first `n` statements, each with its address. */
  ghost predicate LabelTable<N(!new)>(nodes: seq<Statement<N>>, n: nat, m: map<N, nat>) {
    && n <= |nodes|
    && (forall name :: name in m ==> m[name] < n && Declares(nodes, m[name], name))
    && (forall i, name :: 0 <= i < n && Declares(nodes, i, name) ==> name in m)
  }

  ghost predicate DeclaredTwice<N(!new)>(nodes: seq<Statement<N>>, name: N) {
    exists i, j :: 0 <= i < j < |nodes| && Declares(nodes, i, name) && Declares(nodes, j, name)
  }

  method CollectLabels<N(==, !new)>(nodes: seq<Statement<N>>, hash: N -> nat) returns (labels: PtrMap<N>, dup: Tag<N>)
    ensures fresh(labels) && labels.Valid() && fresh(labels.keys) && fresh(labels.vals)
    ensures dup.NoLabel? <==> LabelsOnce(nodes)
    ensures dup.Labelled? ==> DeclaredTwice(nodes, dup.name)
    ensures dup.NoLabel? ==> LabelTable(nodes, |nodes|, labels.contents)
  {
    hide LabelTable, LabelsOnce, DeclaredTwice, TableOk, Agrees, CountUsed;
    labels := new PtrMap(hash, 64);
    NoneCollected(nodes);
    for i: nat := 0 to |nodes|
      invariant labels.Valid() && fresh(labels.keys) && fresh(labels.vals)
      invariant LabelTable(nodes, i, labels.contents) && LabelsOnce(nodes[..i])
    {
      CollectOne(nodes, i, labels.contents);
      if nodes[i].tag.Labelled? {
        var found, _ := labels.Get(nodes[i].tag.name);
        if found {
          return labels, nodes[i].tag;
        }
        labels.Put(nodes[i].tag.name, i);
      }
    }
    assert nodes[..|nodes|] == nodes;
    dup := NoLabel;
  }

  lemma NoneCollected<N(!new)>(nodes: seq<Statement<N>>)
    ensures LabelTable(nodes, 0, map[]) && LabelsOnce(nodes[..0])
  {
  }

  /** The next statement's label: none, a new one, or one already in the table. */
  lemma CollectOne<N(!new)>(nodes: seq<Statement<N>>, i: nat, m: map<N, nat>)
    requires i < |nodes| && LabelTable(nodes, i, m) && LabelsOnce(nodes[..i])
    ensures match nodes[i].tag
      case NoLabel => LabelTable(nodes, i + 1, m) && LabelsOnce(nodes[..i + 1])
      case Labelled(name) =>
        if name in m then DeclaredTwice(nodes, name) && !LabelsOnce(nodes)
        else LabelTable(nodes, i + 1, m[name := i]) && LabelsOnce(nodes[..i + 1])
  {
    var tag := nodes[i].tag;
    if tag.Labelled? && tag.name in m {
      assert Declares(nodes, m[tag.name], tag.name) && Declares(nodes, i, tag.name);
    } else {
      OnceMore(nodes, i, m);
    }
  }

  lemma OnceMore<N(!new)>(nodes: seq<Statement<N>>, i: nat, m: map<N, nat>)
    requires i < |nodes| && LabelTable(nodes, i, m) && LabelsOnce(nodes[..i])
    requires nodes[i].tag.Labelled? ==> nodes[i].tag.name !in m
    ensures LabelsOnce(nodes[..i + 1])
  {
    var now, was := nodes[..i + 1], nodes[..i];
    forall a, b, name | 0 <= a < b < i + 1
      ensures Declares(now, a, name) ==> !Declares(now, b, name)
    {
      assert Declares(now, a, name) == Declares(nodes, a, name) == Declares(was, a, name);
      assert Declares(now, b, name) == Declares(nodes, b, name);
      if b < i {
        assert Declares(was, b, name) == Declares(nodes, b, name);
      }
    }
  }

  /** The table gives each label's address. */
  lemma TableAddress<N(!new)>(nodes: seq<Statement<N>>, m: map<N, nat>, name: N)
    requires LabelTable(nodes, |nodes|, m) && LabelsOnce(nodes)
    ensures name in m <==> Defined(nodes, name)
    ensures name in m ==> m[name] == Address(nodes, name)
  {
    var a := Address(nodes, name);
    if name in m {
      assert Declares(nodes, m[name], name);
      assert a <= m[name];
    }
  }

  method ResolveJump<N(==, !new)>(nodes: seq<Statement<N>>, j: JumpTo<N>, i: nat, labels: PtrMap<N>)
    returns (ok: bool, addr: nat)
    requires i < |nodes| && labels.Valid() && LabelTable(nodes, |nodes|, labels.contents) && LabelsOnce(nodes)
    ensures ok <==> JumpDefined(nodes, j)
    ensures ok ==> addr == Resolve(nodes, j, i)
    ensures ok <==> (j.ToLabel? ==> exists k :: 0 <= k < |nodes| && nodes[k].tag == Labelled(j.name))
    ensures ok ==> addr <= |nodes|
    ensures ok ==> match j
      case ToLabel(name) => addr < |nodes| && nodes[addr].tag == Labelled(name)
      case Init => addr == 0
      case Done => addr == |nodes|
      case _ =>
        var aim := i + match j { case Self => 0 case PrevOne => -1 case Offset(delta) => delta case _ => 1 };
        forall t :: 0 <= t <= |nodes| ==> Distance(addr, aim) <= Distance(t, aim)
  {
    var total := |nodes| + 1;
    if j.ToLabel? {
      DefinedMeans(nodes, j.name);
    }
    if JumpDefined(nodes, j) {
      ResolvedGoes(nodes, j, i, Resolve(nodes, j, i));
    }
    match j
    case Implicit => return true, i + 1;
    case ToLabel(name) =>
      TableAddress(nodes, labels.contents, name);
      ok, addr := labels.Get(name);
    case Self => return true, i;
    case NextOne => return true, i + 1;
    case PrevOne => return true, if i > 0 then i - 1 else 0;
    case Init => return true, 0;
    case Done => return true, total - 1;
    case Offset(delta) =>
      var target := i + delta;
      if target < 0 {
        target := 0;
      }
      if target >= total {
        target := total - 1;
      }
      return true, target;
  }

  // ---------------------------------------------------------------------------
  // The registers, numbered as they are met
  // ---------------------------------------------------------------------------

  ghost predicate NameTable<N(!new)>(names: seq<N>, m: map<N, nat>) {
    && NamesOnce(names)
    && (forall k :: 0 <= k < |names| ==> names[k] in m && m[names[k]] == k)
    && (forall name :: name in m ==> m[name] < |names| && names[m[name]] == name)
  }

  method FindOrAdd<N(==, !new)>(names: seq<N>, regs: PtrMap<N>, name: N) returns (more: seq<N>, k: nat)
    requires regs.Valid() && NameTable(names, regs.contents)
    modifies regs, regs.keys, regs.vals
    ensures regs.Valid() && NameTable(more, regs.contents)
    ensures (regs.keys == old(regs.keys) || fresh(regs.keys)) && (regs.vals == old(regs.vals) || fresh(regs.vals))
    ensures names <= more == AddName(names, name) && k < |more| && more[k] == name
  {
    var found, idx := regs.Get(name);
    if found {
      return names, idx;
    }
    more, k := names + [name], |names|;
    regs.Put(name, k);
  }

  method AddEach<N(==, !new)>(names: seq<N>, regs: PtrMap<N>, wanted: seq<N>) returns (more: seq<N>)
    requires regs.Valid() && NameTable(names, regs.contents)
    modifies regs, regs.keys, regs.vals
    ensures regs.Valid() && NameTable(more, regs.contents)
    ensures (regs.keys == old(regs.keys) || fresh(regs.keys)) && (regs.vals == old(regs.vals) || fresh(regs.vals))
    ensures names <= more == AddNames(names, wanted)
  {
    hide NameTable, TableOk, Agrees, CountUsed;
    more := names;
    for d := 0 to |wanted|
      invariant regs.Valid() && NameTable(more, regs.contents)
      invariant (regs.keys == old(regs.keys) || fresh(regs.keys)) && (regs.vals == old(regs.vals) || fresh(regs.vals))
      invariant names <= more == AddNames(names, wanted[..d])
    {
      assert wanted[..d + 1][..d] == wanted[..d];
      var k;
      more, k := FindOrAdd(more, regs, wanted[d]);
    }
    assert wanted[..|wanted|] == wanted;
  }

  /** For each register named, the registers its device keeps data in. */
  method AddDevices<N(==, !new)>(names: seq<N>, regs: PtrMap<N>, deps: N -> seq<N>) returns (more: seq<N>)
    requires regs.Valid() && NameTable(names, regs.contents)
    modifies regs, regs.keys, regs.vals
    ensures regs.Valid() && NameTable(more, regs.contents)
    ensures (regs.keys == old(regs.keys) || fresh(regs.keys)) && (regs.vals == old(regs.vals) || fresh(regs.vals))
    ensures names <= more == WithDeps(names, deps, |names|)
    ensures forall i :: 0 <= i < |names| ==> forall name :: name in deps(names[i]) ==> name in more
    ensures forall name :: name in more ==> name in names || exists i :: 0 <= i < |names| && name in deps(names[i])
  {
    hide NameTable, TableOk, Agrees, CountUsed;
    more := names;
    for i := 0 to |names|
      invariant regs.Valid() && NameTable(more, regs.contents)
      invariant (regs.keys == old(regs.keys) || fresh(regs.keys)) && (regs.vals == old(regs.vals) || fresh(regs.vals))
      invariant names <= more == WithDeps(names, deps, i)
    {
      assert more[i] == names[i];
      more := AddEach(more, regs, deps(more[i]));
    }
    DepsOnly(names, deps);
  }

  lemma DepsOnly<N(!new)>(names: seq<N>, deps: N -> seq<N>)
    ensures var more := WithDeps(names, deps, |names|);
            && (forall i :: 0 <= i < |names| ==> forall name :: name in deps(names[i]) ==> name in more)
            && (forall name :: name in more ==> name in names || exists i :: 0 <= i < |names| && name in deps(names[i]))
  {
    var more := WithDeps(names, deps, |names|);
    var at := DepsInOrder(names, deps);
    forall i, name | 0 <= i < |names| && name in deps(names[i]) ensures name in more {
      var d :| 0 <= d < |deps(names[i])| && deps(names[i])[d] == name;
    }
    forall name | name in more && name !in names ensures exists i :: 0 <= i < |names| && name in deps(names[i]) {
      var j :| 0 <= j < |more| && more[j] == name;
      var k := j - |names|;
      assert more[|names| + k] == name && name in deps(names[at[k].0]);
    }
  }

  lemma MatchesMore<N(!new)>(nodes: seq<Statement<N>>, i: nat, op: Op, names: seq<N>, more: seq<N>)
    requires i < |nodes| && Matches(nodes, i, op, names) && names <= more
    ensures Matches(nodes, i, op, more)
  {
    hide Resolve;
  }

  /** The first `n` statements lowered. */
  ghost predicate LowersTo<N(!new)>(nodes: seq<Statement<N>>, insts: Program, names: seq<N>, n: nat) {
    && |insts| == n <= |nodes|
    && forall i :: 0 <= i < n ==> Matches(nodes, i, insts[i], names)
  }

  lemma LowersMore<N(!new)>(nodes: seq<Statement<N>>, insts: Program, names: seq<N>, n: nat, op: Op, more: seq<N>)
    requires LowersTo(nodes, insts, names, n) && n < |nodes| && names <= more && Matches(nodes, n, op, more)
    ensures LowersTo(nodes, insts + [op], more, n + 1)
  {
    hide Matches;
    forall i | 0 <= i < n ensures Matches(nodes, i, (insts + [op])[i], more) {
      MatchesMore(nodes, i, insts[i], names, more);
    }
  }

  lemma DefinedMore<N(!new)>(nodes: seq<Statement<N>>, n: nat)
    requires n < |nodes| && JumpsDefined(nodes, n)
    requires match nodes[n]
      case Give(_, _, next) => JumpDefined(nodes, next)
      case Take(_, _, a, b) => JumpDefined(nodes, a) && JumpDefined(nodes, b)
      case Stop(_) => true
    ensures JumpsDefined(nodes, n + 1)
  {
  }

  lemma NotDefined<N(!new)>(nodes: seq<Statement<N>>, n: nat)
    requires n < |nodes|
    requires match nodes[n]
      case Give(_, _, next) => !JumpDefined(nodes, next)
      case Take(_, _, a, b) => !(JumpDefined(nodes, a) && JumpDefined(nodes, b))
      case Stop(_) => false
    ensures !JumpsDefined(nodes, |nodes|)
  {
  }

  /** One statement; a jump to a label nobody declares is reported by name. */
  method LowerOne<N(==, !new)>(nodes: seq<Statement<N>>, i: nat, labels: PtrMap<N>, regs: PtrMap<N>, names: seq<N>)
    returns (op: Op, more: seq<N>, bad: Tag<N>)
    requires i < |nodes| && labels.Valid() && LabelTable(nodes, |nodes|, labels.contents) && LabelsOnce(nodes)
    requires regs.Valid() && NameTable(names, regs.contents)
    requires labels != regs && labels.keys != regs.keys && labels.vals != regs.vals
    modifies regs, regs.keys, regs.vals
    ensures labels.Valid() && labels.contents == old(labels.contents)
    ensures regs.Valid() && NameTable(more, regs.contents) && names <= more
    ensures names == NamesOf(nodes, i) ==> more == NamesOf(nodes, i + 1)
    ensures (regs.keys == old(regs.keys) || fresh(regs.keys)) && (regs.vals == old(regs.vals) || fresh(regs.vals))
    ensures bad.NoLabel? ==> Matches(nodes, i, op, more)
    ensures bad.Labelled? ==> !Defined(nodes, bad.name) && JumpsTo(nodes[i], ToLabel(bad.name))
    ensures bad.Labelled? <==> match nodes[i]
      case Give(_, _, next) => !JumpDefined(nodes, next)
      case Take(_, _, a, b) => !(JumpDefined(nodes, a) && JumpDefined(nodes, b))
      case Stop(_) => false
  {
    hide Resolve, LabelTable, LabelsOnce, NameTable, TableOk, Agrees, CountUsed;
    op, more, bad := End, names, NoLabel;
    match nodes[i]
    case Give(_, reg, next) =>
      var k;
      more, k := FindOrAdd(names, regs, reg);
      var ok, t := ResolveJump(nodes, next, i, labels);
      if !ok {
        bad := Labelled(next.name);
        return;
      }
      op := Inc(k, t);
    case Take(_, reg, a, b) =>
      var k;
      more, k := FindOrAdd(names, regs, reg);
      var ok, t := ResolveJump(nodes, a, i, labels);
      if !ok {
        bad := Labelled(a.name);
        return;
      }
      var ok', u := ResolveJump(nodes, b, i, labels);
      if !ok' {
        bad := Labelled(b.name);
        return;
      }
      op := Deb(k, t, u);
    case Stop(_) =>
  }

  /** Lower a program.  It fails exactly when a label is declared twice or jumped to without
      being declared. */
  method Lower<N(==, !new)>(nodes: seq<Statement<N>>, deps: N -> seq<N>, nilName: N, hash: N -> nat)
    returns (r: Result<N>)
    ensures r.Ok? <==> LabelsOnce(nodes) && JumpsDefined(nodes, |nodes|)
    ensures r.Ok? ==> Lowers(nodes, deps, nilName, r.prog)
    ensures r.Err? && r.error.DuplicateLabel? ==>
              exists i, j :: 0 <= i < j < |nodes| && nodes[i].tag == nodes[j].tag == Labelled(r.error.name)
    ensures r.Err? && r.error.DuplicateLabel? <==>
              exists i, j :: 0 <= i < j < |nodes| && nodes[i].tag == nodes[j].tag && nodes[i].tag.Labelled?
    ensures r.Err? && r.error.UndefinedLabel? ==>
              && (forall k :: 0 <= k < |nodes| ==> nodes[k].tag != Labelled(r.error.name))
              && (exists i :: 0 <= i < |nodes| && JumpsTo(nodes[i], ToLabel(r.error.name)))
  {
    hide Resolve, LabelTable, LabelsOnce, NameTable, Matches, JumpsDefined, LowersTo, NamesOnce,
      DeclaredTwice, TableOk, Agrees, CountUsed;
    var labels, dup := CollectLabels(nodes, hash);
    TwiceMeans(nodes);
    if dup.Labelled? {
      return Err(DuplicateLabel(dup.name));
    }
    var regs := new PtrMap<N>(hash, 64);
    var insts, names := [], [];
    NothingNamed(regs.contents);
    NothingLowered(nodes);
    for i: nat := 0 to |nodes|
      invariant labels.Valid() && LabelTable(nodes, |nodes|, labels.contents)
      invariant regs.Valid() && NameTable(names, regs.contents) && names == NamesOf(nodes, i)
      invariant labels != regs && labels.keys != regs.keys && labels.vals != regs.vals
      invariant fresh(labels) && fresh(labels.keys) && fresh(labels.vals)
      invariant fresh(regs) && fresh(regs.keys) && fresh(regs.vals)
      invariant LowersTo(nodes, insts, names, i) && JumpsDefined(nodes, i)
    {
      var op, more, bad := LowerOne(nodes, i, labels, regs, names);
      if bad.Labelled? {
        NotDefined(nodes, i);
        DefinedMeans(nodes, bad.name);
        return Err(UndefinedLabel(bad.name));
      }
      DefinedMore(nodes, i);
      LowersMore(nodes, insts, names, i, op, more);
      insts, names := insts + [op], more;
    }
    var all := AddDevices(names, regs, deps);
    var more, nil := FindOrAdd(all, regs, nilName);
    var l := Lowered(insts + [End], more, nil);
    Finished(nodes, deps, nilName, insts, names, l, regs.contents);
    return Ok(l);
  }

  lemma TwiceMeans<N(!new)>(nodes: seq<Statement<N>>)
    ensures LabelsOnce(nodes) <==>
              !exists i, j :: 0 <= i < j < |nodes| && nodes[i].tag == nodes[j].tag && nodes[i].tag.Labelled?
    ensures forall name :: DeclaredTwice(nodes, name) ==>
              exists i, j :: 0 <= i < j < |nodes| && nodes[i].tag == nodes[j].tag == Labelled(name)
  {
    if i, j :| 0 <= i < j < |nodes| && nodes[i].tag == nodes[j].tag && nodes[i].tag.Labelled? {
      assert Declares(nodes, i, nodes[i].tag.name) && Declares(nodes, j, nodes[i].tag.name);
    }
    forall name | DeclaredTwice(nodes, name)
      ensures exists i, j :: 0 <= i < j < |nodes| && nodes[i].tag == nodes[j].tag == Labelled(name)
    {
      var i, j :| 0 <= i < j < |nodes| && Declares(nodes, i, name) && Declares(nodes, j, name);
      assert nodes[i].tag == nodes[j].tag == Labelled(name);
    }
  }

  lemma NothingNamed<N(!new)>(m: map<N, nat>)
    requires m == map[]
    ensures NameTable([], m)
  {
  }

  lemma NothingLowered<N(!new)>(nodes: seq<Statement<N>>)
    ensures LowersTo(nodes, [], [], 0) && JumpsDefined(nodes, 0)
  {
  }

  lemma Finished<N(!new)>(nodes: seq<Statement<N>>, deps: N -> seq<N>, nilName: N, insts: Program, names: seq<N>,
                          l: Lowered<N>, m: map<N, nat>)
    requires LowersTo(nodes, insts, names, |nodes|) && names <= l.names && NameTable(l.names, m)
    requires names == NamesOf(nodes, |nodes|) && l.names == AddName(WithDeps(names, deps, |names|), nilName)
    requires l.insts == insts + [End] && l.nil < |l.names| && l.names[l.nil] == nilName
    ensures Lowers(nodes, deps, nilName, l)
  {
    hide Matches;
    forall i | 0 <= i < |nodes| ensures Matches(nodes, i, l.insts[i], l.names) {
      MatchesMore(nodes, i, insts[i], names, l.names);
    }
  }
}
