// What the adaptive statistics are for: a bin learns the symbol it is told, and a symbol it has
// learned costs next to nothing. All of it is about runs of the exact coder.
module Adaptation {
  import opened Powers
  import opened Bytes
  import opened ProbabilityTable
  import opened ExactCoder
  import opened Termination

  // ----- The places of the table -----

  // How many less probable symbols it takes until the sense of the MPS is exchanged.
  function LpsAhead(index: nat): nat {
    if index < 36 then FirstAhead(index) else if index < 64 then SecondAhead(index)
    else if index < 88 then ThirdAhead(index) else LastAhead(index)
  }

  function FirstAhead(index: nat): nat {
    match index
    case 0 => 1
    case 1 => 2
    case 2 => 5
    case 3 => 9
    case 4 => 14
    case 5 => 18
    case 6 => 20
    case 7 => 22
    case 8 => 24
    case 9 => 26
    case 10 => 27
    case 11 => 27
    case 12 => 28
    case 13 => 29
    case 14 => 1
    case 15 => 2
    case 16 => 4
    case 17 => 6
    case 18 => 8
    case 19 => 12
    case 20 => 13
    case 21 => 14
    case 22 => 15
    case 23 => 17
    case 24 => 17
    case 25 => 19
    case 26 => 19
    case 27 => 20
    case 28 => 21
    case 29 => 22
    case 30 => 23
    case 31 => 23
    case 32 => 25
    case 33 => 25
    case 34 => 26
    case _ => 26
  }

  function SecondAhead(index: nat): nat {
    match index
    case 36 => 1
    case 37 => 2
    case 38 => 3
    case 39 => 5
    case 40 => 7
    case 41 => 9
    case 42 => 11
    case 43 => 12
    case 44 => 13
    case 45 => 13
    case 46 => 14
    case 47 => 15
    case 48 => 16
    case 49 => 16
    case 50 => 17
    case 51 => 18
    case 52 => 18
    case 53 => 19
    case 54 => 19
    case 55 => 20
    case 56 => 20
    case 57 => 21
    case 58 => 21
    case 59 => 22
    case 60 => 22
    case 61 => 23
    case 62 => 24
    case _ => 24
  }

  function ThirdAhead(index: nat): nat {
    match index
    case 64 => 1
    case 65 => 2
    case 66 => 3
    case 67 => 4
    case 68 => 6
    case 69 => 8
    case 70 => 10
    case 71 => 11
    case 72 => 11
    case 73 => 12
    case 74 => 12
    case 75 => 13
    case 76 => 13
    case 77 => 14
    case 78 => 15
    case 79 => 15
    case 80 => 1
    case 81 => 2
    case 82 => 3
    case 83 => 5
    case 84 => 7
    case 85 => 9
    case 86 => 9
    case _ => 10
  }

  function LastAhead(index: nat): nat {
    match index
    case 88 => 1
    case 89 => 2
    case 90 => 4
    case 91 => 6
    case 92 => 8
    case 93 => 8
    case 94 => 9
    case 95 => 1
    case 96 => 3
    case 97 => 5
    case 98 => 6
    case 99 => 7
    case 100 => 8
    case 101 => 2
    case 102 => 4
    case 103 => 5
    case 104 => 6
    case 105 => 1
    case 106 => 3
    case 107 => 4
    case 108 => 2
    case 109 => 3
    case 110 => 1
    case 111 => 2
    case _ => 1
  }

  // How many renormalizations by the MPS it takes to the smallest estimate, 0x0001.
  function MpsAhead(index: nat): nat {
    if index <= 13 then 13 - index
    else if index <= 35 then 40 - index
    else if index <= 63 then 72 - index
    else if index <= 79 then 104 - index
    else if index <= 87 then 121 - index
    else if index <= 94 then 130 - index
    else if index <= 100 then 138 - index
    else if index <= 104 then 144 - index
    else if index <= 107 then 149 - index
    else if index <= 109 then 152 - index
    else if index <= 111 then 155 - index
    else 45
  }

  lemma LpsStep(index: nat)
    requires index < FIXED_STATE
    ensures 0 < LpsAhead(index) <= 29 && Aritab(index).nextLps < FIXED_STATE
    ensures if Aritab(index).switchMps == 1 then LpsAhead(index) == 1
            else LpsAhead(Aritab(index).nextLps) == LpsAhead(index) - 1 > 0
  {
    if index < 36 {
      EarlyLpsStep(index);
    } else {
      LateLpsStep(index);
    }
  }

  lemma EarlyLpsStep(index: nat)
    requires index < 36
    ensures 0 < LpsAhead(index) <= 29 && Aritab(index).nextLps < FIXED_STATE
    ensures if Aritab(index).switchMps == 1 then LpsAhead(index) == 1
            else LpsAhead(Aritab(index).nextLps) == LpsAhead(index) - 1 > 0
  {
  }

  lemma LateLpsStep(index: nat)
    requires 36 <= index < FIXED_STATE
    ensures 0 < LpsAhead(index) <= 29 && Aritab(index).nextLps < FIXED_STATE
    ensures if Aritab(index).switchMps == 1 then LpsAhead(index) == 1
            else LpsAhead(Aritab(index).nextLps) == LpsAhead(index) - 1 > 0
  {
  }

  lemma MpsStep(index: nat)
    requires index < FIXED_STATE
    ensures MpsAhead(index) <= 45 && Aritab(index).nextMps < FIXED_STATE
    ensures if index == 13 then Aritab(index).qe == 1 && Aritab(index).nextMps == 13
            else MpsAhead(Aritab(index).nextMps) == MpsAhead(index) - 1 >= 0
  {
    if index < 36 {
      EarlyMpsStep(index);
    } else {
      LateMpsStep(index);
    }
  }

  lemma EarlyMpsStep(index: nat)
    requires index < 36
    ensures MpsAhead(index) <= 45 && Aritab(index).nextMps < FIXED_STATE
    ensures if index == 13 then Aritab(index).qe == 1 && Aritab(index).nextMps == 13
            else MpsAhead(Aritab(index).nextMps) == MpsAhead(index) - 1 >= 0
  {
  }

  lemma LateMpsStep(index: nat)
    requires 36 <= index < FIXED_STATE
    ensures MpsAhead(index) <= 45 && Aritab(index).nextMps < FIXED_STATE
    ensures MpsAhead(Aritab(index).nextMps) == MpsAhead(index) - 1 >= 0
  {
  }

  // The estimate for the LPS grows with an LPS that leaves the sense, and shrinks otherwise.
  lemma QeStep(index: nat)
    requires index < FIXED_STATE
    ensures Aritab(index).switchMps == 0 ==> Aritab(index).qe < Aritab(Aritab(index).nextLps).qe
    ensures index != 13 ==> Aritab(Aritab(index).nextMps).qe < Aritab(index).qe
  {
    if index < 20 {
      FirstQeStep(index);
    } else if index < 36 {
      EarlyQeStep(index);
    } else if index < 64 {
      MiddleQeStep(index);
    } else if index < 88 {
      LateQeStep(index);
    } else {
      LastQeStep(index);
    }
  }

  lemma FirstQeStep(index: nat)
    requires index < 20
    ensures Aritab(index).switchMps == 0 ==> Aritab(index).qe < Aritab(Aritab(index).nextLps).qe
    ensures index != 13 ==> Aritab(Aritab(index).nextMps).qe < Aritab(index).qe
  {
  }

  lemma EarlyQeStep(index: nat)
    requires 20 <= index < 36
    ensures Aritab(index).switchMps == 0 ==> Aritab(index).qe < Aritab(Aritab(index).nextLps).qe
    ensures Aritab(Aritab(index).nextMps).qe < Aritab(index).qe
  {
  }

  lemma MiddleQeStep(index: nat)
    requires 36 <= index < 64
    ensures Aritab(index).switchMps == 0 ==> Aritab(index).qe < Aritab(Aritab(index).nextLps).qe
    ensures Aritab(Aritab(index).nextMps).qe < Aritab(index).qe
  {
  }

  lemma LateQeStep(index: nat)
    requires 64 <= index < 88
    ensures Aritab(index).switchMps == 0 ==> Aritab(index).qe < Aritab(Aritab(index).nextLps).qe
    ensures Aritab(Aritab(index).nextMps).qe < Aritab(index).qe
  {
  }

  lemma LastQeStep(index: nat)
    requires 88 <= index < FIXED_STATE
    ensures Aritab(index).switchMps == 0 ==> Aritab(index).qe < Aritab(Aritab(index).nextLps).qe
    ensures Aritab(Aritab(index).nextMps).qe < Aritab(index).qe
  {
  }

  // ----- Learning -----

  // How many of the decisions a bin is used for.
  function Uses(ds: seq<Decision>, bin: nat): nat {
    if ds == [] then 0 else (if ds[0].bin == bin then 1 else 0) + Uses(ds[1..], bin)
  }

  ghost predicate AlwaysTells(ds: seq<Decision>, bin: nat, b: bool) {
    forall d :: d in ds && d.bin == bin ==> d.bit == b
  }

  // What being told a bit makes of the state of a bin.
  predicate Taught(st: Stat, bit: bool, r: Stat) {
    && r % 128 < FIXED_STATE
    && (if Mps(st) == bit || LpsAhead(st % 128) == 1 then Mps(r) == bit
        else Mps(r) != bit && LpsAhead(r % 128) == LpsAhead(st % 128) - 1)
  }

  lemma OneUse(s: State, d: Decision)
    requires Normalized(s.i) && d.bin < |s.stats| && s.stats[d.bin] % 128 < FIXED_STATE
    ensures Taught(s.stats[d.bin], d.bit, Step(s, d).stats[d.bin])
  {
    hide Aritab, LpsAhead, MpsAhead, Renorm, Split, Normalized;
    var index := s.stats[d.bin] % 128;
    LpsStep(index);
    MpsStep(index);
  }

  lemma OtherUse(s: State, d: Decision, bin: nat)
    requires Normalized(s.i) && d.bin < |s.stats| && bin < |s.stats| && bin != d.bin
    ensures Step(s, d).stats[bin] == s.stats[bin]
  {
    hide Aritab, Renorm, Split, Normalized;
  }

  // A bin that is always told the same bit, whatever is decided in other bins in between, takes
  // it for the more probable one after exactly so many uses, at most 29, and never doubts it again.
  lemma {:induction false} BinLearns(s: State, ds: seq<Decision>, bin: nat, b: bool)
    requires Normalized(s.i) && InBins(ds, |s.stats|) && bin < |s.stats|
    requires s.stats[bin] % 128 < FIXED_STATE && AlwaysTells(ds, bin, b)
    ensures Run(s, ds).stats[bin] % 128 < FIXED_STATE
    ensures Mps(Run(s, ds).stats[bin]) == b <==>
      Mps(s.stats[bin]) == b || Uses(ds, bin) >= LpsAhead(s.stats[bin] % 128)
    ensures Uses(ds, bin) >= 29 ==> Mps(Run(s, ds).stats[bin]) == b
    decreases ds
  {
    hide Step, LpsAhead, Normalized;
    LpsStep(s.stats[bin] % 128);
    if ds != [] {
      var d := ds[0];
      assert d in ds;
      BinLearns(Step(s, d), ds[1..], bin, b) by {
        if d.bin == bin {
          OneUse(s, d);
        } else {
          OtherUse(s, d, bin);
        }
      }
      if d.bin == bin {
        OneUse(s, d);
      } else {
        OtherUse(s, d, bin);
      }
    }
  }

  // A symbol that came is held for more probable than before, and no other decision tells a bin
  // anything.
  lemma EstimateMoves(s: State, d: Decision, bin: nat)
    requires Normalized(s.i) && d.bin < |s.stats| && bin < |s.stats| && s.stats[d.bin] % 128 < FIXED_STATE
    ensures var st, r := s.stats[bin], Step(s, d).stats[bin];
      && (bin != d.bin ==> r == st)
      && (bin == d.bin && Mps(st) == d.bit ==> Mps(r) == d.bit && (r == st || Lookup(r).qe < Lookup(st).qe))
      && (bin == d.bin && Mps(st) != d.bit ==> Mps(r) == d.bit || Lookup(r).qe > Lookup(st).qe)
  {
    hide Aritab, Renorm, Split, Normalized, LpsAhead, MpsAhead;
    QeStep(s.stats[d.bin] % 128);
    MpsStep(s.stats[d.bin] % 128);
    LpsStep(s.stats[d.bin] % 128);
  }

  // ----- What it costs -----

  // The larger part of the interval, which the more probable symbol gets, is doubled once at most.
  lemma RenormOnce(i: Interval)
    requires 0x4000 <= i.a
    ensures Renorm(i) == if i.a < 0x8000 then Double(i) else i
  {
  }

  lemma {:induction false} RenormShifts(i: Interval, k: nat)
    requires i.a > 0 && i.a * Pow2(k) >= 0x8000
    ensures Renorm(i).n <= i.n + k
    decreases k
  {
    if i.a < 0x8000 && k > 0 {
      assert 2 * i.a * Pow2(k - 1) == i.a * Pow2(k);
      RenormShifts(Double(i), k - 1);
    }
  }

  // How often the interval may have to be doubled until bit b costs least.
  function Lesson(st: Stat, b: bool): nat {
    if Mps(st) == b then MpsAhead(st % 128) else 15 * LpsAhead(st % 128) + 45
  }

  // An MPS that is told the bin again leaves the interval as it is, or doubles it once.
  predicate DoubledOnce(s: State, st: Stat, r: State, st': Stat)
  {
    var a, e := s.i.a - Lookup(st).qe, Lookup(st);
    if a >= 0x8000 then r.i.n == s.i.n && r.i.a == a && st' == st
    else r.i.n == s.i.n + 1 && Mps(st') == Mps(st) && st' % 128 == e.nextMps && (e.qe == 1 ==> r.i.a == 2 * a)
  }

  lemma MpsCost(s: State, bin: nat, b: bool)
    requires Normalized(s.i) && bin < |s.stats| && s.stats[bin] % 128 < FIXED_STATE && Mps(s.stats[bin]) == b
    ensures var r := Step(s, Decision(bin, b)); DoubledOnce(s, s.stats[bin], r, r.stats[bin])
  {
    hide Aritab;
    var st := s.stats[bin];
    var qe := Lookup(st).qe;
    RenormOnce(Split(s.i, qe, TakesUpper(s.i.a, qe, true)));
  }

  lemma LpsCost(s: State, bin: nat, b: bool)
    requires Normalized(s.i) && bin < |s.stats| && s.stats[bin] % 128 < FIXED_STATE && Mps(s.stats[bin]) != b
    ensures Step(s, Decision(bin, b)).i.n <= s.i.n + 15
  {
    hide Aritab, Pow2;
    var qe := Lookup(s.stats[bin]).qe;
    Pow2Values();
    RenormShifts(Split(s.i, qe, TakesUpper(s.i.a, qe, false)), 15);
  }

  // A bit the bin has learned well: one doubling for 0x7FFF of them.
  lemma {:induction false} LearnedCost(s: State, bin: nat, b: bool, count: nat)
    requires Normalized(s.i) && bin < |s.stats| && s.stats[bin] % 128 == 13 && Mps(s.stats[bin]) == b
    ensures InBins(Same(bin, b, count), |s.stats|)
    ensures 0x7FFF * (Run(s, Same(bin, b, count)).i.n - s.i.n) <= count + 0x10000 - s.i.a
    decreases count
  {
    hide Step, Aritab, Pow2;
    if count > 0 {
      MpsStep(13);
      MpsCost(s, bin, b);
      SameNext(s, bin, b, count);
      LearnedCost(Step(s, Decision(bin, b)), bin, b, count - 1);
    } else {
      assert Same(bin, b, 0) == [];
    }
  }

  // The same decision again and again.
  function Same(bin: nat, b: bool, count: nat): (ds: seq<Decision>)
    ensures |ds| == count && forall d :: d in ds ==> d == Decision(bin, b)
  {
    seq(count, _ => Decision(bin, b))
  }

  lemma SameNext(s: State, bin: nat, b: bool, count: nat)
    requires Normalized(s.i) && bin < |s.stats| && count > 0
    ensures InBins(Same(bin, b, count), |s.stats|)
    ensures InBins(Same(bin, b, count - 1), |s.stats|)
    ensures Run(s, Same(bin, b, count)) == Run(Step(s, Decision(bin, b)), Same(bin, b, count - 1))
  {
    hide Step;
    assert Same(bin, b, count)[1..] == Same(bin, b, count - 1);
  }

  lemma {:induction false} LessonCost(s: State, bin: nat, b: bool, count: nat)
    requires Normalized(s.i) && bin < |s.stats| && s.stats[bin] % 128 < FIXED_STATE
    ensures InBins(Same(bin, b, count), |s.stats|)
    ensures 0x7FFF * (Run(s, Same(bin, b, count)).i.n - s.i.n) <= count + 0x8000 + 0x7FFF * Lesson(s.stats[bin], b)
    decreases count
  {
    hide Step, Aritab, LpsAhead, MpsAhead;
    var d := Decision(bin, b);
    if count == 0 {
      assert Same(bin, b, 0) == [];
    } else if Mps(s.stats[bin]) == b && s.stats[bin] % 128 == 13 {
      LearnedCost(s, bin, b, count);
    } else {
      SameNext(s, bin, b, count);
      OneUse(s, d);
      LessonCost(Step(s, d), bin, b, count - 1);
      LpsStep(s.stats[bin] % 128);
      MpsStep(s.stats[bin] % 128);
      MpsStep(Step(s, d).stats[bin] % 128);
      if Mps(s.stats[bin]) == b {
        MpsCost(s, bin, b);
      } else {
        LpsCost(s, bin, b);
      }
    }
  }

  // However the statistics are to begin with, any number of equal bits takes at most 481 bits of
  // code and one for every 32767 of them.
  lemma SameBitsAreCheap(s: State, bin: nat, b: bool, count: nat)
    requires Normalized(s.i) && bin < |s.stats| && s.stats[bin] % 128 < FIXED_STATE
    ensures InBins(Same(bin, b, count), |s.stats|)
    ensures Run(s, Same(bin, b, count)).i.n <= s.i.n + 481 + (count + 1) / 0x7FFF
  {
    hide Run, LpsAhead, MpsAhead;
    LessonCost(s, bin, b, count);
    LpsStep(s.stats[bin] % 128);
    MpsStep(s.stats[bin] % 128);
    var shifts := Run(s, Same(bin, b, count)).i.n - s.i.n;
    assert 0x7FFF * (shifts - 481) <= count + 1;
  }

  // ----- Bytes -----

  // The low k bytes of v.
  function LowBytes(v: nat, k: nat): (data: seq<byte>)
    ensures |data| == k
  {
    if k == 0 then [] else LowBytes(v / 256, k - 1) + [v % 256]
  }

  lemma {:induction false} LowBytesAre(v: nat, k: nat)
    requires v < Pow2(8 * k)
    ensures Value(LowBytes(v, k)) == v
  {
    if k > 0 {
      Pow2Add(8, 8 * (k - 1));
      Pow2Values();
      LowBytesAre(v / 256, k - 1);
      ValueSnoc(LowBytes(v / 256, k - 1), v % 256);
    }
  }

  // No interval needs more bytes than its doublings ask for.
  lemma CodeIsShort(i: Interval, sent: seq<byte>)
    requires Normalized(i) && IsShortestCode(i, sent)
    ensures |sent| <= (i.n + 8) / 8
  {
    hide Pow2, Prefix, Value, LowBytes;
    var k := (i.n + 8) / 8;
    FinalCodeIsRoundest(i.low, i.a);
    var code := FinalCode(i.low, i.a);
    var q, e := code / 0x8000, 8 * k - i.n - 1;
    var v := q * Pow2(e);
    Pow2Values();
    Pow2Add(15, i.n + 1);
    Pow2Add(i.n + 1, e);
    assert q < Pow2(i.n + 1);
    MulLess(q, Pow2(i.n + 1), Pow2(e));
    var data := LowBytes(v, k);
    LowBytesAre(v, k);
    PrefixFactor(data, k + 2);
    Pow2Add(e, 15);
    Pow2Add(1, e + 15);
    Pow2Add(16, e);
    calc {
      Prefix(data, k + 2);
      v * 0x10000;
      q * Pow2(e) * 0x10000;
      { MulAssoc(q, Pow2(e), 0x10000); }
      q * (Pow2(e) * 0x10000);
      q * (0x8000 * Pow2(e + 1));
      { MulAssoc(q, 0x8000, Pow2(e + 1)); }
      code * Pow2(e + 1);
    }
    FinalContains(i, code, data, k + 2);
  }

  lemma MulLess(x: nat, y: nat, z: nat)
    requires x < y && z > 0
    ensures x * z < y * z
  {
  }

  // So a segment of equal bits, stuffed zeros apart, is shorter than 63 bytes and one more for
  // every 262136 bits.
  lemma SameBitsAreShort(start: seq<Stat>, bin: nat, b: bool, count: nat, sent: seq<byte>)
    requires bin < |start| && start[bin] % 128 < FIXED_STATE
    requires InBins(Same(bin, b, count), |start|)
    requires IsShortestCode(Run(Initial(start), Same(bin, b, count)).i, sent)
    ensures |sent| <= 62 + (count + 1) / 262136
  {
    hide Run, IsShortestCode;
    SameBitsAreCheap(Initial(start), bin, b, count);
    CodeIsShort(Run(Initial(start), Same(bin, b, count)).i, sent);
  }
}
