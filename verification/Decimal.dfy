/** Decimal text: writing a number by repeated division by ten, reading it by repeated
    multiplication, and the round trips between the two. */
module Decimal {
  import opened Arith
  import opened Limbs
  import opened Banks
  import opened Bignums
  import opened RegFiles

  predicate IsDigit(c: char) {
    '0' <= c <= '9'
  }

  predicate IsDigits(s: string) {
    forall i :: 0 <= i < |s| ==> IsDigit(s[i])
  }

  function DigitOf(d: nat): (c: char)
    requires d < 10
    ensures IsDigit(c)
  {
    '0' + d as char
  }

  function ValueOfDigit(c: char): (d: nat)
    requires IsDigit(c)
    ensures d < 10
  {
    (c - '0') as nat
  }

  /** The number a string of digits denotes. */
  function DecValue(s: string): nat
    requires IsDigits(s)
  {
    if s == "" then 0 else DecValue(s[..|s| - 1]) * 10 + ValueOfDigit(s[|s| - 1])
  }

  /** The digits of a number, most significant first, and none at all for zero. */
  function Stem(n: nat): (s: string)
    ensures IsDigits(s)
  {
    if n == 0 then "" else Stem(n / 10) + [DigitOf(n % 10)]
  }

  /** The decimal representation of a number. */
  function Digits(n: nat): (s: string)
    ensures IsDigits(s)
  {
    if n == 0 then "0" else Stem(n)
  }

  // ---------------------------------------------------------------------------
  // Round trips
  // ---------------------------------------------------------------------------

  lemma {:induction false} StemValue(n: nat)
    ensures DecValue(Stem(n)) == n
  {
    if n > 0 {
      StemValue(n / 10);
      assert Stem(n)[..|Stem(n)| - 1] == Stem(n / 10);
    }
  }

  /** Reading back what was written gives the number. */
  lemma ReadWritten(n: nat)
    ensures DecValue(Digits(n)) == n
  {
    if n == 0 {
      assert "0"[..0] == "";
    } else {
      StemValue(n);
    }
  }

  lemma {:induction false} ValueStem(s: string)
    requires IsDigits(s) && s != "" && s[0] != '0'
    ensures DecValue(s) > 0 && Stem(DecValue(s)) == s
  {
    var init, last := s[..|s| - 1], s[|s| - 1];
    if init != "" {
      ValueStem(init);
    }
    var v, d := DecValue(init), ValueOfDigit(last);
    assert DecValue(s) == v * 10 + d;
    DivModUnique(v * 10 + d, 10, v, d);
    assert s == init + [last];
  }

  /** Writing what was read gives the string, when it has no superfluous leading zero. */
  lemma WrittenRead(s: string)
    requires IsDigits(s) && s != "" && (s[0] != '0' || s == "0")
    ensures Digits(DecValue(s)) == s
  {
    if s == "0" {
      assert "0"[..0] == "";
    } else {
      ValueStem(s);
    }
  }

  lemma {:induction false} LeadingZero(s: string)
    requires IsDigits(s) && s != "" && s[0] == '0'
    ensures DecValue(s[1..]) == DecValue(s)
  {
    if |s| == 1 {
      assert s[..0] == "";
    } else {
      var init := s[..|s| - 1];
      LeadingZero(init);
      assert s[1..][..|s| - 2] == init[1..];
    }
  }

  // ---------------------------------------------------------------------------
  // Characters and places
  // ---------------------------------------------------------------------------

  /** What the last `n` characters of a string add up to, each counting its code above that of
      zero, 48, times the power of ten of its place. */
  function PlaceSum(s: string, n: nat): int
    requires n <= |s|
  {
    if n == 0 then 0 else PlaceSum(s, n - 1) + (s[|s| - n] as int - 48) * Pow(10, n - 1)
  }

  predicate CodesOk(s: string) {
    forall i :: 0 <= i < |s| ==> 48 <= s[i] as int <= 57
  }

  lemma DigitCodes(s: string)
    ensures IsDigits(s) <==> CodesOk(s)
  {
    if CodesOk(s) {
      forall i | 0 <= i < |s| ensures IsDigit(s[i]) {
        assert 48 <= s[i] as int <= 57;
      }
    }
  }

  lemma PowTen(k: nat)
    ensures Pow(10, 0) == 1 && Pow(10, k) > 0 && Pow(10, k + 1) == Pow(10, k) * 10
  {
  }

  /** Dividing by ten and then by a power of ten. */
  lemma NextPlace(n: nat, i: nat)
    ensures n / Pow(10, i + 1) == (n / 10) / Pow(10, i)
  {
    hide Pow;
    PowTen(i);
    var pw := Pow(10, i);
    var q, r := (n / 10) / pw, (n / 10) % pw;
    assert n / 10 == q * pw + r;
    MulAssoc(q, pw, 10);
    assert n == q * Pow(10, i + 1) + (r * 10 + n % 10);
    DivModUnique(n, Pow(10, i + 1), q, r * 10 + n % 10);
  }

  /** The character at each place of the digits of a number. */
  lemma {:induction false} StemPlaces(n: nat, i: nat)
    requires i < |Stem(n)|
    ensures Stem(n)[|Stem(n)| - 1 - i] as int == 48 + n / Pow(10, i) % 10
    decreases i
  {
    hide Pow;
    PowTen(i);
    if i > 0 {
      StemPlaces(n / 10, i - 1);
      NextPlace(n, i - 1);
    }
  }

  /** How many digits a number has. */
  lemma {:induction false} StemSize(n: nat)
    requires n > 0
    ensures Stem(n) != "" && Pow(10, |Stem(n)| - 1) <= n < Pow(10, |Stem(n)|)
  {
    hide Pow;
    PowTen(0);
    if n >= 10 {
      StemSize(n / 10);
      PowTen(|Stem(n / 10)| - 1);
      PowTen(|Stem(n / 10)|);
    } else {
      assert Stem(n / 10) == "";
    }
  }

  /** The representation of a number is the fewest characters, at least one, with room for it,
      and each is the digit of its place. */
  lemma DigitsPlaces(n: nat)
    ensures var s := Digits(n);
            && |s| >= 1 && n < Pow(10, |s|) && (|s| == 1 || Pow(10, |s| - 1) <= n)
            && forall i :: 0 <= i < |s| ==> s[|s| - 1 - i] as int == 48 + n / Pow(10, i) % 10
  {
    hide Pow, Stem;
    var s := Digits(n);
    PowTen(0);
    if n > 0 {
      StemSize(n);
      forall i | 0 <= i < |s| ensures s[|s| - 1 - i] as int == 48 + n / Pow(10, i) % 10 {
        StemPlaces(n, i);
      }
    }
  }

  lemma DecLast(s: string)
    requires IsDigits(s) && s != ""
    ensures var init := s[..|s| - 1];
            && IsDigits(init) && DecValue(s) == DecValue(init) * 10 + (s[|s| - 1] as int - 48)
            && 48 <= s[|s| - 1] as int <= 57
            && DecValue(s) / 10 == DecValue(init) && DecValue(s) % 10 == s[|s| - 1] as int - 48
  {
    var v, d := DecValue(s[..|s| - 1]), ValueOfDigit(s[|s| - 1]);
    DivModUnique(v * 10 + d, 10, v, d);
  }

  lemma {:induction false} DecPlaces(s: string, i: nat)
    requires IsDigits(s) && i < |s|
    ensures s[|s| - 1 - i] as int == 48 + DecValue(s) / Pow(10, i) % 10
    decreases i
  {
    hide Pow, DecValue, IsDigits;
    PowTen(i);
    DecLast(s);
    if i > 0 {
      var init := s[..|s| - 1];
      DecPlaces(init, i - 1);
      NextPlace(DecValue(s), i - 1);
      assert init[|init| - 1 - (i - 1)] == s[|s| - 1 - i];
    }
  }

  lemma {:induction false} PlaceSumNext(s: string, n: nat)
    requires n < |s|
    ensures PlaceSum(s, n + 1) == PlaceSum(s[..|s| - 1], n) * 10 + (s[|s| - 1] as int - 48)
  {
    hide Pow;
    PowTen(0);
    if n > 0 {
      PowTen(n - 1);
      PlaceSumNext(s, n - 1);
      MulAssoc(s[|s| - 1 - n] as int - 48, Pow(10, n - 1), 10);
    }
  }

  /** The number a string of digits denotes, added up place by place. */
  lemma {:induction false} DecSum(s: string)
    requires IsDigits(s)
    ensures DecValue(s) == PlaceSum(s, |s|)
  {
    if s != "" {
      hide PlaceSum;
      DecSum(s[..|s| - 1]);
      PlaceSumNext(s, |s| - 1);
    }
  }

  // ---------------------------------------------------------------------------
  // How long the representation is
  // ---------------------------------------------------------------------------

  lemma {:induction false} StemLength(n: nat, k: nat)
    requires n < Pow(10, k)
    ensures |Stem(n)| <= k
    decreases k
  {
    if n > 0 {
      if k == 0 {
        PowZero(10);
      } else {
        assert Pow(10, k) == Pow(10, k - 1) * 10;
        StemLength(n / 10, k - 1);
      }
    }
  }

  /** Twenty digits cover a limb. */
  lemma TwentyDigits()
    ensures Pow(10, 20) > BASE
  {
    assert Pow(10, 5) == 100000 by {
      assert Pow(10, 2) == 100 && Pow(10, 3) == 1000 && Pow(10, 4) == 10000;
    }
    PowAdd(10, 5, 5);
    PowAdd(10, 10, 10);
  }

  lemma WiderBase(w: nat, p: nat, t: nat)
    requires w <= p && BASE < t
    ensures BASE * w <= p * t
  {
    MulMono(w, p, BASE);
    MulMono(BASE, t, p);
    assert p * BASE == BASE * p && w * BASE == BASE * w && t * p == p * t;
  }

  lemma {:induction false} LimbsInDigits(n: nat)
    ensures Weight(n) <= Pow(10, 20 * n)
  {
    hide Pow;
    if n == 0 {
      PowZero(10);
    } else {
      LimbsInDigits(n - 1);
      TwentyDigits();
      PowAdd(10, 20 * (n - 1), 20);
      WiderBase(Weight(n - 1), Pow(10, 20 * (n - 1)), Pow(10, 20));
    }
  }

  /** A number of `n` limbs has at most 20 * n digits. */
  lemma DigitsFit(ls: seq<nat>)
    requires AllLimbs(ls)
    ensures |Stem(Val(ls))| <= 20 * |ls|
  {
    ValBound(ls);
    LimbsInDigits(|ls|);
    StemLength(Val(ls), 20 * |ls|);
  }

  // ---------------------------------------------------------------------------
  // Writing
  // ---------------------------------------------------------------------------

  function Reversed(s: string): (r: string)
    ensures |r| == |s|
  {
    if s == "" then "" else Reversed(s[1..]) + [s[0]]
  }

  lemma {:induction false} ReversedSnoc(s: string, c: char)
    ensures Reversed(s + [c]) == [c] + Reversed(s)
  {
    if s == "" {
      assert (s + [c])[1..] == "";
    } else {
      assert (s + [c])[1..] == s[1..] + [c];
      ReversedSnoc(s[1..], c);
    }
  }

  lemma {:induction false} ReversedAt(s: string, i: nat)
    requires i < |s|
    ensures Reversed(s)[i] == s[|s| - 1 - i]
  {
    if i < |s| - 1 {
      ReversedAt(s[1..], i);
    }
  }

  /** Zero limbs at the top are dropped, all of them. */
  method TrimZeros(l: BigLimbs)
    requires l.len <= l.limbs.Length && AllLimbs(l.limbs[..l.len])
    modifies l
    ensures l.len <= old(l.len) && AllLimbs(l.limbs[..l.len]) && l.Number() == old(l.Number())
    ensures l.len > 0 <==> l.Number() > 0
  {
    hide Val;
    while l.len > 0 && l.limbs[l.len - 1] == 0
      invariant l.len <= old(l.len) && AllLimbs(l.limbs[..l.len]) && l.Number() == old(l.Number())
      decreases l.len
    {
      ValDropZero(l.limbs[..l.len]);
      assert l.limbs[..l.len][..l.len - 1] == l.limbs[..l.len - 1];
      l.len := l.len - 1;
    }
    if l.len > 0 {
      TopPositive(l.limbs[..l.len]);
    } else {
      ValAll(l.limbs[..0]);
      assert l.limbs[..0][..0] == l.limbs[..0];
    }
  }

  lemma TopPositive(ls: seq<nat>)
    requires ls != [] && ls[|ls| - 1] != 0
    ensures Val(ls) > 0
  {
    ValTop(ls);
  }

  lemma StemNext(v: nat, q: nat, d: nat)
    requires v > 0 && v == q * 10 + d && d < 10
    ensures Stem(v) == Stem(q) + [DigitOf(d)]
  {
    DivModUnique(v, 10, q, d);
  }

  /** The next digit from the right. */
  lemma PeelDigit(total: nat, v: nat, q: nat, d: nat, written: string)
    requires v > 0 && v == q * 10 + d && d < 10
    requires Stem(total) == Stem(v) + Reversed(written)
    ensures Stem(total) == Stem(q) + Reversed(written + [DigitOf(d)])
    ensures |written| < |Stem(total)|
  {
    hide Stem, Reversed;
    StemNext(v, q, d);
    ReversedSnoc(written, DigitOf(d));
    Regroup(Stem(q), [DigitOf(d)], Reversed(written));
  }

  lemma Regroup(a: string, b: string, c: string)
    ensures (a + b) + c == a + (b + c)
  {
  }

  /** The digits of a limb array, divided away, least significant first: never more than the
      buffer of twenty per limb holds. */
  method CollectDigits(tmp: BigLimbs) returns (digits: array<char>, pos: nat)
    requires tmp.Formed() && tmp.limbs[tmp.len - 1] != 0
    modifies tmp, tmp.limbs
    ensures fresh(digits) && pos <= digits.Length
    ensures Reversed(digits[..pos]) == Stem(old(tmp.Number()))
  {
    hide Val, Weight, Stem, Reversed, AllLimbs;
    ghost var total := tmp.Number();
    DigitsFit(tmp.limbs[..tmp.len]);
    TopPositive(tmp.limbs[..tmp.len]);
    digits := new char[tmp.len * 20 + 1];
    pos := 0;
    ReversedNothing(total);
    assert digits[..0] == "";
    while tmp.len > 0
      invariant tmp.len <= tmp.limbs.Length && AllLimbs(tmp.limbs[..tmp.len])
      invariant tmp.len > 0 <==> tmp.Number() > 0
      invariant pos <= |Stem(total)| < digits.Length
      invariant Stem(total) == Stem(tmp.Number()) + Reversed(digits[..pos])
      decreases tmp.Number()
    {
      ghost var v, written := tmp.Number(), digits[..pos];
      var remainder := DivideLimbs(tmp, 10);
      PeelDigit(total, v, tmp.Number(), remainder, written);
      digits[pos] := DigitOf(remainder);
      pos := pos + 1;
      assert digits[..pos] == written + [DigitOf(remainder)];
      TrimZeros(tmp);
    }
    StemNothing();
  }

  lemma ReversedNothing(total: nat)
    ensures Reversed("") == "" && Stem(total) == Stem(total) + Reversed("")
  {
  }

  lemma StemNothing()
    ensures Stem(0) == ""
  {
  }

  /** The decimal text of a number. */
  method ToString(x: Bignum) returns (s: string)
    requires Ok(x)
    ensures s == Digits(Value(x))
    ensures |s| >= 1 && Value(x) < Pow(10, |s|) && (|s| == 1 || Pow(10, |s| - 1) <= Value(x))
    ensures forall i :: 0 <= i < |s| ==> s[|s| - 1 - i] as int == 48 + Value(x) / Pow(10, i) % 10
  {
    hide Val, Weight, Stem, Reversed, AllLimbs, Pow, Digits;
    FootprintAllocated(x);
    DigitsPlaces(Value(x));
    if x.Imm? {
      return Digits(x.val);
    }
    ghost var v := Value(x);
    HeapIsLarge(x.ref);
    var tmp := Clone(x);
    HeapStays(x, tmp);
    assert tmp.ref.Number() == v;
    var digits, pos := CollectDigits(tmp.ref);
    ghost var written := digits[..pos];
    var result := new char[pos];
    for i := 0 to pos
      invariant digits[..pos] == written
      invariant forall k :: 0 <= k < i ==> result[k] == digits[pos - 1 - k]
    {
      result[i] := digits[pos - 1 - i];
    }
    forall i | 0 <= i < pos ensures result[..][i] == Reversed(digits[..pos])[i] {
      ReversedAt(digits[..pos], i);
    }
    s := result[..];
    assert s == Reversed(digits[..pos]) == Stem(v);
    LargeDigits(v);
  }

  lemma LargeDigits(n: nat)
    requires n > 0
    ensures Digits(n) == Stem(n)
  {
  }

  lemma HeapStays(x: Bignum, y: Bignum)
    requires Ok(x) && Ok(y) && Value(x) == Value(y) && x.Heap?
    ensures y.Heap?
  {
    HeapIsLarge(x.ref);
  }

  // ---------------------------------------------------------------------------
  // Reading
  // ---------------------------------------------------------------------------

  /** What a string reads as: its number, or zero if anything in it is not a digit. */
  function Reads(s: string): nat {
    if IsDigits(s) then DecValue(s) else 0
  }

  lemma ReadsSkip(s: string)
    requires s != "" && s[0] == '0'
    ensures Reads(s[1..]) == Reads(s)
  {
    if IsDigits(s[1..]) {
      forall i | 0 <= i < |s| ensures IsDigit(s[i]) {
        if i > 0 {
          assert s[1..][i - 1] == s[i];
        }
      }
      LeadingZero(s);
    }
  }

  lemma DecSnoc(s: string, i: nat)
    requires i < |s| && IsDigits(s[..i]) && IsDigit(s[i])
    ensures IsDigits(s[..i + 1]) && DecValue(s[..i + 1]) == DecValue(s[..i]) * 10 + ValueOfDigit(s[i])
  {
    assert s[..i + 1][..i] == s[..i];
    assert s[..i + 1] == s[..i] + [s[i]];
  }

  lemma {:induction false} DecBound(s: string)
    requires IsDigits(s)
    ensures DecValue(s) < Pow(10, |s|)
  {
    if s != "" {
      DecBound(s[..|s| - 1]);
    }
  }

  lemma ShortFits(s: string)
    requires IsDigits(s) && |s| <= 18
    ensures DecValue(s) < BASE
  {
    hide Pow, DecValue;
    DecBound(s);
    PowAdd(10, |s|, 18 - |s|);
    MulGrows(Pow(10, 18 - |s|), Pow(10, |s|));
    TenCubed();
    PowAdd(10, 3, 3);
    PowAdd(10, 6, 6);
    PowAdd(10, 12, 6);
  }

  lemma TenCubed()
    ensures Pow(10, 3) == 1000
  {
    assert Pow(10, 2) == 100;
  }

  /** Up to eighteen digits: a machine word is enough. */
  method ReadShort(s: string) returns (r: Bignum)
    requires |s| <= 18
    ensures Ok(r) && Value(r) == Reads(s) && fresh(Footprint(r))
  {
    hide Ok, Value, DecValue;
    var val := 0;
    DecNothing(s);
    for i := 0 to |s|
      invariant IsDigits(s[..i]) && val == DecValue(s[..i])
    {
      if !IsDigit(s[i]) {
        ZeroOk();
        return Imm(0);
      }
      DecSnoc(s, i);
      val := val * 10 + ValueOfDigit(s[i]);
    }
    assert s[..|s|] == s;
    ShortFits(s);
    r := FromU64(val);
  }

  lemma DecNothing(s: string)
    ensures s[..0] == "" && DecValue(s[..0]) == 0
  {
  }

  /** One more digit on the right. */
  method AppendDigit(x: Bignum, d: nat) returns (r: Bignum)
    requires Ok(x) && d < 10
    ensures Ok(r) && Value(r) == Value(x) * 10 + d && fresh(Footprint(r))
  {
    hide Ok, Value;
    FootprintAllocated(x);
    var ten := FromU64(10);
    FootprintAllocated(ten);
    var scaled := Mul(x, ten);
    FootprintAllocated(scaled);
    var digit := FromU64(d);
    FootprintAllocated(digit);
    r := Bignums.Add(scaled, digit);
  }

  method ReadLong(s: string) returns (r: Bignum)
    ensures Ok(r) && Value(r) == Reads(s) && fresh(Footprint(r))
  {
    hide Ok, Value, DecValue;
    ZeroOk();
    r := Imm(0);
    DecNothing(s);
    for i := 0 to |s|
      invariant IsDigits(s[..i]) && Ok(r) && Value(r) == DecValue(s[..i]) && fresh(Footprint(r))
    {
      if !IsDigit(s[i]) {
        ZeroOk();
        return Imm(0);
      }
      DecSnoc(s, i);
      FootprintAllocated(r);
      r := AppendDigit(r, ValueOfDigit(s[i]));
    }
    assert s[..|s|] == s;
  }

  /** The number a string denotes; zero if it is empty or holds anything but digits. */
  method FromString(s0: string) returns (r: Bignum)
    ensures Ok(r) && Value(r) == Reads(s0) && fresh(Footprint(r))
    ensures (forall i :: 0 <= i < |s0| ==> 48 <= s0[i] as int <= 57) ==>
              && Value(r) == PlaceSum(s0, |s0|) && Value(r) < Pow(10, |s0|)
              && forall i :: 0 <= i < |s0| ==> s0[|s0| - 1 - i] as int == 48 + Value(r) / Pow(10, i) % 10
    ensures !(forall i :: 0 <= i < |s0| ==> 48 <= s0[i] as int <= 57) ==> Value(r) == 0
  {
    hide Ok, Value, Reads, Pow, PlaceSum;
    ReadsPlaces(s0);
    if s0 == "" {
      EmptyReads();
      ZeroOk();
      return Imm(0);
    }
    var s := s0;
    while |s| > 1 && s[0] == '0'
      invariant s != "" && Reads(s) == Reads(s0)
      decreases |s|
    {
      ReadsSkip(s);
      s := s[1..];
    }
    if |s| <= 18 {
      r := ReadShort(s);
    } else {
      r := ReadLong(s);
    }
  }

  /** What a string reads as, by the codes of its characters. */
  lemma ReadsPlaces(s: string)
    ensures CodesOk(s) ==>
              && Reads(s) == PlaceSum(s, |s|) && Reads(s) < Pow(10, |s|)
              && forall i :: 0 <= i < |s| ==> s[|s| - 1 - i] as int == 48 + Reads(s) / Pow(10, i) % 10
    ensures !CodesOk(s) ==> Reads(s) == 0
  {
    hide DecValue, PlaceSum, Pow;
    DigitCodes(s);
    if IsDigits(s) {
      DecSum(s);
      DecBound(s);
      forall i | 0 <= i < |s| ensures s[|s| - 1 - i] as int == 48 + Reads(s) / Pow(10, i) % 10 {
        DecPlaces(s, i);
      }
    }
  }

  lemma EmptyReads()
    ensures Reads("") == 0
  {
  }

  /** Writing a number and reading it back gives the number. */
  method WriteThenRead(x: Bignum) returns (r: Bignum)
    requires Ok(x)
    ensures Ok(r) && Value(r) == old(Value(x))
  {
    hide Ok, Value;
    FootprintAllocated(x);
    var s := ToString(x);
    ReadWritten(Value(x));
    r := FromString(s);
  }

  /** Reading a string and writing the number gives the string, unless it was empty, had a
      superfluous leading zero, or held something other than digits. */
  method ReadThenWrite(s: string) returns (t: string)
    ensures IsDigits(s) && s != "" && (s[0] != '0' || s == "0") ==> t == s
  {
    hide Ok, Value, Digits;
    var x := FromString(s);
    t := ToString(x);
    if IsDigits(s) && s != "" && (s[0] != '0' || s == "0") {
      WrittenRead(s);
    }
  }
}
