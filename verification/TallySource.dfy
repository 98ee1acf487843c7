/** The text of the universal machine, and the proof that lowering it gives the 62 instructions
    `Universal.U`. */
module TallySource {
  import opened Machine
  import opened Lowering
  import opened Universal

  /** Interned names: a label by the line it stands on, a register by its first mention. */
  datatype Word = Lab(line: nat) | Reg(index: nat)

  const StepL := Lab(0)
  const CpL := Lab(1)
  const Cp2L := Lab(4)
  const RdL := Lab(6)
  const OL := Lab(9)
  const BumpL := Lab(11)
  const ZL := Lab(12)
  const RealL := Lab(14)
  const IsTakeBL := Lab(17)
  const DvL := Lab(18)
  const FullL := Lab(22)
  const IncqL := Lab(24)
  const PartL := Lab(25)
  const ClrpL := Lab(26)
  const NotdivL := Lab(27)
  const Nd2L := Lab(29)
  const Nd3L := Lab(30)
  const IsdivL := Lab(31)
  const Dv2L := Lab(33)
  const Dv3L := Lab(34)
  const Dv4L := Lab(35)
  const IsPL := Lab(37)
  const IsP2L := Lab(39)
  const GiveKL := Lab(42)
  const M0L := Lab(43)
  const M1L := Lab(44)
  const M2L := Lab(47)
  const MdoneL := Lab(49)
  const SetS1L := Lab(51)
  const IsGiveAL := Lab(52)
  const TakeKL := Lab(54)
  const IsTakeAL := Lab(56)
  const S3L := Lab(58)

  const RegPw := Reg(PW)
  const RegP := Reg(PP)
  const RegT := Reg(TT)
  const RegP2 := Reg(P2)
  const RegX := Reg(XX)
  const RegS := Reg(SS)
  const RegRem := Reg(REM)
  const RegPrime := Reg(PR)
  const RegR := Reg(RR)
  const RegRs := Reg(RS)
  const RegQ := Reg(QQ)
  const RegPC := Reg(PC)
  const RegM := Reg(MM)
  const RegTM := Reg(TM)
  const RegNil := Reg(NIL)

  function LineFetch(k: nat): Statement<Word> {
    match k
    case 0 => Take(Labelled(StepL), RegPw, ToLabel(CpL), Self)
    case 1 => Take(Labelled(CpL), RegP, ToLabel(Cp2L), Implicit)
    case 2 => Give(NoLabel, RegPw, Implicit)
    case 3 => Give(NoLabel, RegT, ToLabel(CpL))
    case 4 => Take(Labelled(Cp2L), RegT, ToLabel(RdL), Implicit)
    case 5 => Give(NoLabel, RegP, ToLabel(Cp2L))
    case 6 => Take(Labelled(RdL), RegPw, ToLabel(ZL), Implicit)
    case 7 => Take(NoLabel, RegPw, ToLabel(OL), Implicit)
    case 8 => Give(NoLabel, RegP2, ToLabel(RdL))
    case 9 => Take(Labelled(OL), RegP2, ToLabel(BumpL), Implicit)
    case 10 => Give(NoLabel, RegPw, ToLabel(OL))
    case 11 => Give(Labelled(BumpL), RegX, ToLabel(RdL))
    case 12 => Take(Labelled(ZL), RegP2, ToLabel(RealL), Implicit)
    case 13 => Give(NoLabel, RegPw, ToLabel(ZL))
    case _ => Stop(NoLabel)
  }

  function LineDivide(k: nat): Statement<Word> {
    match k
    case 0 => Take(Labelled(RealL), RegS, ToLabel(IsPL), Implicit)
    case 1 => Take(NoLabel, RegS, ToLabel(IsGiveAL), Implicit)
    case 2 => Take(NoLabel, RegS, ToLabel(IsTakeAL), Implicit)
    case 3 => Take(Labelled(IsTakeBL), RegRem, ToLabel(DvL), Self)
    case 4 => Take(Labelled(DvL), RegPrime, ToLabel(FullL), Implicit)
    case 5 => Take(NoLabel, RegR, ToLabel(PartL), Implicit)
    case 6 => Give(NoLabel, RegRem, Implicit)
    case 7 => Give(NoLabel, RegRs, ToLabel(DvL))
    case 8 => Take(Labelled(FullL), RegRem, ToLabel(IncqL), Implicit)
    case 9 => Give(NoLabel, RegPrime, ToLabel(FullL))
    case 10 => Give(Labelled(IncqL), RegQ, ToLabel(DvL))
    case 11 => Take(Labelled(PartL), RegPrime, ToLabel(ClrpL), Self)
    case _ => Stop(NoLabel)
  }

  function LineTake(k: nat): Statement<Word> {
    match k
    case 0 => Take(Labelled(ClrpL), RegRem, ToLabel(IsdivL), Implicit)
    case 1 => Take(Labelled(NotdivL), RegRs, ToLabel(Nd2L), Implicit)
    case 2 => Give(NoLabel, RegR, ToLabel(NotdivL))
    case 3 => Take(Labelled(Nd2L), RegQ, ToLabel(Nd3L), Self)
    case 4 => Take(Labelled(Nd3L), RegX, ToLabel(StepL), Self)
    case 5 => Take(Labelled(IsdivL), RegQ, ToLabel(Dv2L), Implicit)
    case 6 => Give(NoLabel, RegR, ToLabel(IsdivL))
    case 7 => Take(Labelled(Dv2L), RegRs, ToLabel(Dv3L), Self)
    case 8 => Take(Labelled(Dv3L), RegPC, ToLabel(Dv4L), Self)
    case 9 => Take(Labelled(Dv4L), RegX, ToLabel(StepL), Implicit)
    case 10 => Give(NoLabel, RegPC, ToLabel(Dv4L))
    case _ => Stop(NoLabel)
  }

  function LineDecode(k: nat): Statement<Word> {
    match k
    case 0 => Take(Labelled(IsPL), RegPC, ToLabel(IsP2L), Implicit)
    case 1 => Take(NoLabel, RegX, ToLabel(RdL), Self)
    case 2 => Take(Labelled(IsP2L), RegX, ToLabel(GiveKL), Implicit)
    case 3 => Take(NoLabel, RegX, ToLabel(TakeKL), Implicit)
    case 4 => Give(NoLabel, RegPrime, ToLabel(IsP2L))
    case 5 => Take(Labelled(GiveKL), RegPrime, Done, Implicit)
    case 6 => Take(Labelled(M0L), RegPrime, ToLabel(MdoneL), Implicit)
    case 7 => Take(Labelled(M1L), RegR, ToLabel(M2L), Implicit)
    case 8 => Give(NoLabel, RegM, Implicit)
    case 9 => Give(NoLabel, RegTM, ToLabel(M1L))
    case 10 => Take(Labelled(M2L), RegTM, ToLabel(M0L), Implicit)
    case 11 => Give(NoLabel, RegR, ToLabel(M2L))
    case _ => Stop(NoLabel)
  }

  function LineTargets(k: nat): Statement<Word> {
    match k
    case 0 => Take(Labelled(MdoneL), RegM, ToLabel(SetS1L), Implicit)
    case 1 => Give(NoLabel, RegR, ToLabel(MdoneL))
    case 2 => Give(Labelled(SetS1L), RegS, ToLabel(RdL))
    case 3 => Take(Labelled(IsGiveAL), RegX, ToLabel(StepL), Implicit)
    case 4 => Give(NoLabel, RegPC, ToLabel(IsGiveAL))
    case 5 => Give(Labelled(TakeKL), RegS, Implicit)
    case 6 => Give(NoLabel, RegS, ToLabel(RdL))
    case 7 => Take(Labelled(IsTakeAL), RegX, ToLabel(S3L), Implicit)
    case 8 => Give(NoLabel, RegPC, ToLabel(IsTakeAL))
    case 9 => Give(Labelled(S3L), RegS, Implicit)
    case 10 => Give(NoLabel, RegS, Implicit)
    case 11 => Give(NoLabel, RegS, ToLabel(RdL))
    case _ => Stop(NoLabel)
  }

  /** The text, in the sections of the listing. */
  function Line(i: nat): Statement<Word> {
    if i < 14 then LineFetch(i)
    else if i < 26 then LineDivide(i - 14)
    else if i < 37 then LineTake(i - 26)
    else if i < 49 then LineDecode(i - 37)
    else LineTargets(i - 49)
  }

  function Text(): (nodes: seq<Statement<Word>>)
    ensures |nodes| == 61
  {
    seq(61, i requires 0 <= i < 61 => Line(i))
  }

  /** How many registers the first `n` lines name. */
  function Met(n: nat): nat {
    if n < 1 then 0 else if n < 2 then 1 else if n < 4 then 2 else if n < 9 then 3
    else if n < 12 then 4 else if n < 15 then 5 else if n < 18 then 6 else if n < 19 then 7
    else if n < 20 then 8 else if n < 22 then 9 else if n < 25 then 10 else if n < 35 then 11
    else if n < 46 then 12 else if n < 47 then 13 else 14
  }

  function JumpIndex(j: JumpTo<Word>, i: nat): nat {
    match j
    case Implicit => i + 1
    case ToLabel(Lab(k)) => k
    case Self => i
    case Done => 61
    case _ => 0
  }

  predicate TargetOk(j: JumpTo<Word>) {
    j.Implicit? || j.Self? || j.Done? || (j.ToLabel? && j.name.Lab? && Line(j.name.line).tag == Labelled(j.name))
  }

  predicate NamedOk(r: Word, i: nat) {
    r.Reg? && r.index <= Met(i) && Met(i + 1) == if r.index < Met(i) then Met(i) else Met(i) + 1
  }

  /** Line `i` and instruction `i` say the same, and what the line names stands where its name
      says. */
  predicate LineOk(i: nat) {
    && (Line(i).tag.Labelled? ==> Line(i).tag.name == Lab(i))
    && match Line(i)
       case Give(_, r, n) => NamedOk(r, i) && TargetOk(n) && Listing(i) == Inc(r.index, JumpIndex(n, i))
       case Take(_, r, a, b) =>
         && NamedOk(r, i) && TargetOk(a) && TargetOk(b)
         && Listing(i) == Deb(r.index, JumpIndex(a, i), JumpIndex(b, i))
       case Stop(_) => false
  }

  lemma FetchLines(i: nat)
    requires 0 <= i < 14
    ensures LineOk(i)
  {
  }

  lemma DivideLines(i: nat)
    requires 14 <= i < 26
    ensures LineOk(i)
  {
  }

  lemma TakeLines(i: nat)
    requires 26 <= i < 37
    ensures LineOk(i)
  {
  }

  lemma DecodeLines(i: nat)
    requires 37 <= i < 49
    ensures LineOk(i)
  {
  }

  lemma TargetLines(i: nat)
    requires 49 <= i < 61
    ensures LineOk(i)
  {
  }

  lemma AllLines(i: nat)
    requires i < 61
    ensures LineOk(i)
  {
    hide LineOk;
    if i < 14 {
      FetchLines(i);
    } else if i < 26 {
      DivideLines(i);
    } else if i < 37 {
      TakeLines(i);
    } else if i < 49 {
      DecodeLines(i);
    } else {
      TargetLines(i);
    }
  }

  /** A label is declared on its own line and nowhere else. */
  lemma LabelStands(n: Word)
    requires n.Lab? && n.line < 61 && Line(n.line).tag == Labelled(n)
    ensures Address(Text(), n) == n.line
  {
    hide Line;
    var a := Address(Text(), n);
    assert Declares(Text(), n.line, n);
    assert Declares(Text(), a, n);
    AllLines(a);
  }

  lemma TextLabels()
    ensures LabelsOnce(Text())
  {
    hide Line;
    forall i, j, name | 0 <= i < j < |Text()| && Declares(Text(), i, name) ensures !Declares(Text(), j, name) {
      AllLines(i);
      AllLines(j);
    }
  }

  lemma TargetsDefined(j: JumpTo<Word>, i: nat)
    requires i < 61 && TargetOk(j) && (j.ToLabel? ==> j.name.line < 61)
    ensures JumpDefined(Text(), j) && Resolve(Text(), j, i) == JumpIndex(j, i)
  {
    hide Line;
    if j.ToLabel? {
      LabelStands(j.name);
    }
  }

  /** Line 61 and later hold no label. */
  lemma LabelledEarly(k: nat)
    requires Line(k).tag.Labelled?
    ensures k < 61
  {
  }

  lemma LineMatches(i: nat, names: seq<Word>)
    requires i < 61 && names == seq(15, k requires 0 <= k < 15 => Reg(k))
    ensures Lowering.Matches(Text(), i, Listing(i), names)
  {
    hide Line, Listing, Resolve;
    AllLines(i);
    MetBelow(i + 1);
    match Line(i)
    case Give(_, r, n) =>
      if n.ToLabel? {
        LabelledEarly(n.name.line);
      }
      TargetsDefined(n, i);
    case Take(_, r, a, b) =>
      if a.ToLabel? {
        LabelledEarly(a.name.line);
      }
      if b.ToLabel? {
        LabelledEarly(b.name.line);
      }
      TargetsDefined(a, i);
      TargetsDefined(b, i);
    case Stop(_) =>
  }

  lemma MetBelow(n: nat)
    ensures Met(n) <= 14 && (n >= 47 ==> Met(n) == 14)
  {
  }

  /** The registers named by the first `n` lines, in order. */
  lemma {:induction false} NamesMet(n: nat)
    requires n <= 61
    ensures NamesOf(Text(), n) == seq(Met(n), k requires 0 <= k < Met(n) => Reg(k))
  {
    hide Line, Listing;
    if n > 0 {
      NamesMet(n - 1);
      AllLines(n - 1);
      var was, r := NamesOf(Text(), n - 1), Text()[n - 1].reg;
      assert r.index < |was| ==> was[r.index] == r;
    }
  }

  /** None of its registers belongs to a device. */
  function NoDeps(w: Word): seq<Word> {
    []
  }

  /** The text lowers to the listing. */
  lemma TextLowers()
    ensures Lowers(Text(), NoDeps, RegNil, Lowered(U(), seq(15, k requires 0 <= k < 15 => Reg(k)), NIL))
  {
    hide Line, Listing, NamesOf, WithDeps, Lowering.Matches;
    var names := seq(15, k requires 0 <= k < 15 => Reg(k));
    NamesMet(61);
    MetBelow(61);
    NoneNeeded(NamesOf(Text(), 61), NoDeps, 14);
    var was := seq(14, k requires 0 <= k < 14 => Reg(k));
    assert AddName(was, RegNil) == names;
    Fetch(61);
    ListingEnds();
    forall i | 0 <= i < 61 ensures Lowering.Matches(Text(), i, U()[i], names) {
      Fetch(i);
      LineMatches(i, names);
    }
  }

  lemma ListingEnds()
    ensures Listing(61) == End
  {
  }

  lemma TextJumps()
    ensures JumpsDefined(Text(), |Text()|)
  {
    hide Line, Listing, Resolve;
    var names := seq(15, k requires 0 <= k < 15 => Reg(k));
    forall i | 0 <= i < 61
      ensures match Text()[i]
        case Give(_, _, next) => JumpDefined(Text(), next)
        case Take(_, _, a, b) => JumpDefined(Text(), a) && JumpDefined(Text(), b)
        case Stop(_) => true
    {
      LineMatches(i, names);
    }
  }

  /** Lowering the text, whatever the hash, succeeds and gives the universal machine. */
  method LowerText(hash: Word -> nat) returns (p: Program)
    ensures p == U()
  {
    hide Line, Listing, U, Lowers;
    TextLabels();
    TextJumps();
    TextLowers();
    var r := Lower(Text(), NoDeps, RegNil, hash);
    LowersUnique(Text(), NoDeps, RegNil, r.prog, Lowered(U(), seq(15, k requires 0 <= k < 15 => Reg(k)), NIL));
    p := r.prog.insts;
  }
}
