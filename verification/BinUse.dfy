// Which statistics bin is told what about a block, bin by bin: Tables F.4 and F.5 of ITU-T T.81
// and Figures F.4, F.5 and G.10 read the other way round.
module BinUse {
  import opened Powers
  import opened ExactCoder
  import opened DecisionModel
  import opened CodingLimits

  // The bits a bin is told by a sequence of decisions.
  function Told(ds: seq<Decision>, bin: nat): seq<bool> {
    if ds == [] then [] else Only(bin == ds[0].bin, [ds[0].bit]) + Told(ds[1..], bin)
  }

  function Only(c: bool, bits: seq<bool>): seq<bool> {
    if c then bits else []
  }

  lemma {:induction false} ToldJoin(a: seq<Decision>, b: seq<Decision>, bin: nat)
    ensures Told(a + b, bin) == Told(a, bin) + Told(b, bin)
  {
    if a == [] {
      assert a + b == b;
    } else {
      assert (a + b)[1..] == a[1..] + b;
      ToldJoin(a[1..], b, bin);
      Regroup(Only(bin == a[0].bin, [a[0].bit]), Told(a[1..], bin), Told(b, bin));
    }
  }

  lemma Regroup(x: seq<bool>, y: seq<bool>, z: seq<bool>)
    ensures x + (y + z) == x + y + z
  {
  }

  lemma ToldNothing(bin: nat)
    ensures Told([], bin) == []
  {
  }

  lemma ToldOne(d: Decision, bin: nat)
    ensures Told([d], bin) == Only(bin == d.bin, [d.bit])
  {
  }

  lemma ToldFirst(d: Decision, ds: seq<Decision>, bin: nat)
    ensures Told([d] + ds, bin) == Only(bin == d.bin, [d.bit]) + Told(ds, bin)
  {
    assert ([d] + ds)[1..] == ds;
  }

  lemma {:induction false} ToldSome(ds: seq<Decision>, bin: nat)
    ensures Told(ds, bin) != [] <==> exists d :: d in ds && d.bin == bin
  {
    if ds != [] {
      ToldSome(ds[1..], bin);
      assert ds == [ds[0]] + ds[1..];
    }
  }

  // ----- Magnitudes -----

  // Bin c of the category is asked only if w is at least 2^c, and then whether it is 2^(c+1).
  function CategoryTold(x: nat, w: nat, bin: nat): seq<bool> {
    if x <= bin && w >= Pow2(bin - x) then [w >= Pow2(bin - x + 1)] else []
  }

  // The bits below the leading one, in the bin 14 behind that of the category.
  function LowTold(x: nat, w: nat, u: nat, bin: nat): seq<bool> {
    if x + 14 <= bin && Pow2(bin - x - 14) <= w < Pow2(bin - x - 13) then LowBitsOf(u, Log2Of(u)) else []
  }

  function Log2Of(u: nat): nat {
    if u < 2 then 0 else 1 + Log2Of(u / 2)
  }

  function LowBitsOf(u: nat, n: nat): (bits: seq<bool>)
    ensures |bits| == n
  {
    seq(n, i requires 0 <= i < n => Bit(u, n - 1 - i))
  }

  lemma {:induction false} Log2Same(u: nat)
    requires u > 0
    ensures Log2Of(u) == Log2(u)
  {
    if u > 1 {
      Log2Same(u / 2);
    }
  }

  lemma {:induction false} ToldCategory(x: nat, w: nat, bin: nat)
    requires w > 0
    ensures Told(Category(x, w), bin) == CategoryTold(x, w, bin)
    decreases w
  {
    if w > 1 {
      ToldFirst(Decision(x, true), Category(x + 1, w / 2), bin);
      ToldCategory(x + 1, w / 2, bin);
      if x < bin {
        assert Pow2(bin - x) == 2 * Pow2(bin - x - 1) && Pow2(bin - x + 1) == 2 * Pow2(bin - x);
      }
    } else if x < bin {
      assert Pow2(bin - x) == 2 * Pow2(bin - x - 1);
    }
  }

  lemma {:induction false} ToldLowBits(st: nat, u: nat, n: nat, bin: nat)
    ensures Told(LowBits(st, u, n), bin) == Only(bin == st, LowBitsOf(u, n))
  {
    hide Bit, Told;
    ToldNothing(bin);
    if n > 0 {
      ToldFirst(Decision(st, Bit(u, n - 1)), LowBits(st, u, n - 1), bin);
      ToldLowBits(st, u, n - 1, bin);
      assert LowBitsOf(u, n) == [Bit(u, n - 1)] + LowBitsOf(u, n - 1);
    }
  }

  lemma LowBitsPlace(x: nat, w: nat, u: nat, bin: nat)
    requires w > 0 && u > 0
    ensures Only(bin == x + Log2(w) + 14, LowBitsOf(u, Log2(u))) == LowTold(x, w, u, bin)
  {
    hide Log2, Pow2, LowBitsOf;
    Log2Same(u);
    Log2Bounds(w);
    if x + 14 <= bin {
      var c := bin - x - 14;
      if c < Log2(w) {
        Pow2Monotonic(c + 1, Log2(w));
      } else if c > Log2(w) {
        Pow2Monotonic(Log2(w) + 1, c);
        Doubled(Log2(w));
      }
      Doubled(c);
    }
  }

  lemma ToldBoth(x: nat, w: nat, u: nat, bin: nat)
    requires w > 0 && u > 0
    ensures Told(Category(x, w) + LowBits(x + Log2(w) + 14, u, Log2(u)), bin) == CategoryTold(x, w, bin) + LowTold(x, w, u, bin)
  {
    hide Category, LowBits, Log2, CategoryTold, LowTold, Told, LowBitsOf;
    ToldJoin(Category(x, w), LowBits(x + Log2(w) + 14, u, Log2(u)), bin);
    ToldCategory(x, w, bin);
    ToldLowBits(x + Log2(w) + 14, u, Log2(u), bin);
    LowBitsPlace(x, w, u, bin);
  }

  lemma Doubled(n: nat)
    ensures Pow2(n + 1) == 2 * Pow2(n)
  {
  }

  // ----- DC differences -----

  function DcTold(area: nat, context: nat, v: int, bin: nat): seq<bool> {
    var u := if v == 0 then 0 else Abs(v) - 1;
    Only(bin == area + context, [v != 0])
    + (Only(v != 0 && bin == area + context + 1, [v < 0])
       + (Only(v != 0 && bin == area + context + (if v < 0 then 3 else 2), [Abs(v) > 1])
          + Only(u > 0, CategoryTold(area + 20, u, bin) + LowTold(area + 20, u, u, bin))))
  }

  lemma DcBins(area: nat, context: nat, v: int, bin: nat)
    ensures Told(DcDecisions(area, context, v), bin) == DcTold(area, context, v, bin)
  {
    hide Told, DcMagnitude, CategoryTold, LowTold;
    ToldOne(Decision(area + context, false), bin);
    if v != 0 {
      var sign := Decision(area + context + 1, v < 0);
      var magnitude := DcMagnitude(area, area + context + (if v < 0 then 3 else 2), Abs(v) - 1);
      assert DcDecisions(area, context, v) == [Decision(area + context, true)] + ([sign] + magnitude);
      ToldFirst(Decision(area + context, true), [sign] + magnitude, bin);
      ToldFirst(sign, magnitude, bin);
      DcMagnitudeTold(area, area + context + (if v < 0 then 3 else 2), Abs(v) - 1, bin);
    }
  }

  lemma DcMagnitudeTold(area: nat, st: nat, u: nat, bin: nat)
    ensures Told(DcMagnitude(area, st, u), bin) ==
      Only(bin == st, [u > 0]) + Only(u > 0, CategoryTold(area + 20, u, bin) + LowTold(area + 20, u, u, bin))
  {
    hide Category, LowBits, Log2, CategoryTold, LowTold, Told, DcMagnitude;
    DcMagnitudeIs(area, st, u);
    var more := if u > 0 then Category(area + 20, u) + LowBits(area + 20 + Log2(u) + 14, u, Log2(u)) else [];
    ToldFirst(Decision(st, u > 0), more, bin);
    if u > 0 {
      ToldBoth(area + 20, u, u, bin);
    } else {
      ToldNothing(bin);
    }
  }

  lemma DcMagnitudeIs(area: nat, st: nat, u: nat)
    ensures DcMagnitude(area, st, u) == [Decision(st, u > 0)]
      + (if u > 0 then Category(area + 20, u) + LowBits(area + 20 + Log2(u) + 14, u, Log2(u)) else [])
  {
    hide Category, LowBits, Log2;
  }

  // The conditioning category of a difference (section F.1.4.4.1.2): zero up to the lower bound, small
  // up to the upper one, and large beyond.
  lemma ContextIs(v: int, l: nat, u: nat)
    ensures DcContext(v, l, u) ==
      if Abs(v) <= (if l == 0 then 0 else Pow2(l - 1)) then 0
      else (if v > 0 then 4 else 8) + (if Abs(v) > Pow2(u) then 8 else 0)
  {
    if Abs(v) > 1 {
      hide Log2, Pow2;
      var e := Log2(Abs(v) - 1);
      Log2Bounds(Abs(v) - 1);
      PowersApart(e, Abs(v) - 1, u);
      if l > 0 {
        PowersApart(e, Abs(v) - 1, l - 1);
        Doubled(l - 1);
      } else {
        Pow2Values();
      }
      if u > 0 {
        Doubled(u - 1);
        PowersApart(e, Abs(v) - 1, u - 1);
      } else {
        Pow2Values();
      }
    } else if l > 0 {
      Doubled(l - 1);
    }
  }

  // The power of two below w passes the powers that w passes.
  lemma PowersApart(e: nat, w: nat, n: nat)
    requires Pow2(e) <= w < 2 * Pow2(e)
    ensures Pow2(e) >= Pow2(n) <==> w >= Pow2(n)
    ensures Pow2(e) > Pow2(n) <==> w >= 2 * Pow2(n)
  {
    hide Pow2;
    if e > n {
      Pow2Monotonic(n + 1, e);
      Doubled(n);
    } else if e < n {
      Pow2Monotonic(e + 1, n);
      Doubled(e);
    }
  }

  // ----- AC bands -----

  // Whether an end-of-block decision is due at k: at the start of the band and after each nonzero
  // coefficient.
  predicate EobDue(t: seq<int>, ss: nat, k: nat)
    requires 0 < ss <= k < |t|
  {
    k == ss || t[k - 1] != 0
  }

  // How a magnitude is told: larger ones in bins from 189 on up to the conditioning index, and in
  // bins from 217 on beyond it.
  function SizeTold(area: nat, k: nat, kx: nat, m: nat, bin: nat): seq<bool>
    requires 0 < k
  {
    var x := area + if k <= kx then 189 else 217;
    var u := if m > 2 then m - 1 else 2;
    Only(m > 0 && bin == area + 3 * (k - 1) + 2, [m > 1])
    + (Only(m > 1 && bin == area + 3 * (k - 1) + 2, [m > 2])
       + Only(m > 2, CategoryTold(x, u / 2, bin) + LowTold(x, u / 2, u, bin)))
  }

  // What coefficient k tells, the end-of-block decision apart.
  function CoefTold(area: nat, kx: nat, t: seq<int>, k: nat, ke: nat, bin: nat): seq<bool>
    requires 0 < k < |t|
  {
    var m := Abs(t[k]);
    Only(k <= ke && bin == area + 3 * (k - 1) + 1, [m > 0])
    + (Only(m > 0 && bin == FIXED_BIN, [t[k] < 0]) + SizeTold(area, k, kx, m, bin))
  }

  // The band from k on.
  function BandTold(area: nat, kx: nat, t: seq<int>, ss: nat, k: nat, ke: nat, se: nat, bin: nat): seq<bool>
    requires 0 < ss <= k && se < |t|
    decreases se + 1 - k
  {
    if k > se then []
    else
      Only(EobDue(t, ss, k) && bin == area + 3 * (k - 1), [k > ke])
      + (CoefTold(area, kx, t, k, ke, bin) + BandTold(area, kx, t, ss, k + 1, ke, se, bin))
  }

  lemma ToldMagnitude(area: nat, k: nat, kx: nat, m: nat, bin: nat)
    requires 0 < k && 0 < m
    ensures Told(AcMagnitude(AcBin(area, k) + 2, AcX(area, k, kx), m - 1), bin) == SizeTold(area, k, kx, m, bin)
  {
    hide Category, LowBits, Log2, CategoryTold, LowTold, Told;
    var st, x, u := AcBin(area, k) + 2, AcX(area, k, kx), m - 1;
    AcMagnitudeIs(st, x, u);
    ToldOne(Decision(st, false), bin);
    if u > 0 {
      var more := if u > 1 then Category(x, u / 2) + LowBits(x + Log2(u / 2) + 14, u, Log2(u)) else [];
      ToldFirst(Decision(st, true), [Decision(st, u > 1)] + more, bin);
      ToldFirst(Decision(st, u > 1), more, bin);
      if u > 1 {
        ToldBoth(x, u / 2, u, bin);
      } else {
        ToldNothing(bin);
      }
    }
  }

  lemma AcMagnitudeIs(st: nat, x: nat, u: nat)
    ensures var more := if u > 1 then Category(x, u / 2) + LowBits(x + Log2(u / 2) + 14, u, Log2(u)) else [];
      AcMagnitude(st, x, u) == if u == 0 then [Decision(st, false)] else [Decision(st, true)] + ([Decision(st, u > 1)] + more)
  {
    hide Category, LowBits, Log2;
  }

  lemma NoCoef(area: nat, kx: nat, t: seq<int>, k: nat, ke: nat, bin: nat)
    requires ke < k < |t| && t[k] == 0
    ensures CoefTold(area, kx, t, k, ke, bin) == []
  {
  }

  // Nothing is said about the zeros behind the last decision.
  lemma {:induction false} NothingTold(area: nat, kx: nat, t: seq<int>, ss: nat, k: nat, ke: nat, se: nat, bin: nat)
    requires 0 < ss < k && ke < k - 1 && se < |t| && forall i :: ke < i <= se ==> t[i] == 0
    ensures BandTold(area, kx, t, ss, k, ke, se, bin) == []
    decreases se + 1 - k
  {
    hide CoefTold;
    if k <= se {
      NoCoef(area, kx, t, k, ke, bin);
      NothingTold(area, kx, t, ss, k + 1, ke, se, bin);
    }
  }

  lemma {:induction false} BlockTold(area: nat, kx: nat, t: seq<int>, ss: nat, k: nat, ke: nat, se: nat, bin: nat)
    requires 0 < ss <= k && ke <= se < |t| && (ke > 0 ==> t[ke] != 0) && forall i :: ke < i <= se ==> t[i] == 0
    requires k <= se ==> EobDue(t, ss, k)
    ensures Told(AcBlock(area, kx, t, k, ke, se), bin) == BandTold(area, kx, t, ss, k, ke, se, bin)
    decreases se + 1 - k, 1
  {
    hide Told, CoefTold, BandTold, AcRun;
    if k <= se {
      Due(area, kx, t, ss, k, ke, se, bin);
    } else {
      NoBand(area, kx, t, ss, k, ke, se, bin);
    }
    if k <= ke {
      ToldFirst(Decision(AcBin(area, k), false), AcRun(area, kx, t, k, ke, se), bin);
      RunTold(area, kx, t, ss, k, ke, se, bin);
    } else if k <= se {
      ToldOne(Decision(AcBin(area, k), true), bin);
      NoCoef(area, kx, t, k, ke, bin);
      NothingTold(area, kx, t, ss, k + 1, ke, se, bin);
    } else {
      ToldNothing(bin);
    }
  }

  lemma {:induction false} RunTold(area: nat, kx: nat, t: seq<int>, ss: nat, k: nat, ke: nat, se: nat, bin: nat)
    requires 0 < ss <= k <= ke <= se < |t| && t[ke] != 0 && forall i :: ke < i <= se ==> t[i] == 0
    ensures Told(AcRun(area, kx, t, k, ke, se), bin)
         == CoefTold(area, kx, t, k, ke, bin) + BandTold(area, kx, t, ss, k + 1, ke, se, bin)
    decreases se + 1 - k, 0
  {
    hide Told, SizeTold, AcMagnitude, AcBlock, BandTold, AcX, AcRun;
    var place := AcBin(area, k) + 1;
    RunParts(area, kx, t, k, ke, se);
    if t[k] == 0 {
      ToldFirst(Decision(place, false), AcRun(area, kx, t, k + 1, ke, se), bin);
      RunTold(area, kx, t, ss, k + 1, ke, se, bin);
      NotDue(area, kx, t, ss, k + 1, ke, se, bin);
      NoSize(area, k, kx, bin);
    } else {
      var sign := Decision(FIXED_BIN, t[k] < 0);
      var size, more := AcMagnitude(AcBin(area, k) + 2, AcX(area, k, kx), Abs(t[k]) - 1), AcBlock(area, kx, t, k + 1, ke, se);
      ToldFirst(Decision(place, true), [sign] + (size + more), bin);
      ToldFirst(sign, size + more, bin);
      ToldJoin(size, more, bin);
      ToldMagnitude(area, k, kx, Abs(t[k]), bin);
      BlockTold(area, kx, t, ss, k + 1, ke, se, bin);
      Regroup(Only(bin == FIXED_BIN, [t[k] < 0]), Told(size, bin), Told(more, bin));
      Regroup(Only(bin == place, [true]), Only(bin == FIXED_BIN, [t[k] < 0]) + Told(size, bin), Told(more, bin));
    }
  }

  lemma RunParts(area: nat, kx: nat, t: seq<int>, k: nat, ke: nat, se: nat)
    requires 0 < k <= ke <= se < |t| && t[ke] != 0
    ensures AcRun(area, kx, t, k, ke, se) == [Decision(AcBin(area, k) + 1, t[k] != 0)] +
      if t[k] == 0 then AcRun(area, kx, t, k + 1, ke, se)
      else [Decision(FIXED_BIN, t[k] < 0)] + (AcMagnitude(AcBin(area, k) + 2, AcX(area, k, kx), Abs(t[k]) - 1)
                                              + AcBlock(area, kx, t, k + 1, ke, se))
  {
    hide AcMagnitude, AcBlock;
  }

  lemma Due(area: nat, kx: nat, t: seq<int>, ss: nat, k: nat, ke: nat, se: nat, bin: nat)
    requires 0 < ss <= k <= se < |t| && EobDue(t, ss, k)
    ensures BandTold(area, kx, t, ss, k, ke, se, bin) == Only(bin == area + 3 * (k - 1), [k > ke])
         + (CoefTold(area, kx, t, k, ke, bin) + BandTold(area, kx, t, ss, k + 1, ke, se, bin))
  {
    hide CoefTold;
  }

  lemma NoBand(area: nat, kx: nat, t: seq<int>, ss: nat, k: nat, ke: nat, se: nat, bin: nat)
    requires 0 < ss <= k && se < |t| && k > se
    ensures BandTold(area, kx, t, ss, k, ke, se, bin) == []
  {
  }

  lemma NotDue(area: nat, kx: nat, t: seq<int>, ss: nat, k: nat, ke: nat, se: nat, bin: nat)
    requires 0 < ss < k <= se < |t| && t[k - 1] == 0
    ensures BandTold(area, kx, t, ss, k, ke, se, bin)
         == CoefTold(area, kx, t, k, ke, bin) + BandTold(area, kx, t, ss, k + 1, ke, se, bin)
  {
    hide CoefTold;
  }

  lemma NoSize(area: nat, k: nat, kx: nat, bin: nat)
    requires 0 < k
    ensures SizeTold(area, k, kx, 0, bin) == []
  {
  }

  // What each bin is told about a band.
  lemma AcBins(area: nat, kx: nat, t: seq<int>, ss: nat, se: nat, bin: nat)
    requires 0 < ss && se < |t|
    ensures Told(AcDecisions(area, kx, t, ss, se), bin) == BandTold(area, kx, t, ss, ss, LastNonzero(t, se), se, bin)
  {
    BlockTold(area, kx, t, ss, ss, LastNonzero(t, se), se, bin);
  }

  // ----- The two sets of magnitude bins -----

  // A bin beyond those for single coefficients that one of them tells something.
  ghost predicate Reaches(area: nat, kx: nat, t: seq<int>, k: nat, bin: nat)
    requires 0 < k < |t|
  {
    if bin < area + 217 then k <= kx && Abs(t[k]) > 2 else k > kx && Abs(t[k]) > 2
  }

  lemma CoefReaches(area: nat, kx: nat, t: seq<int>, k: nat, ke: nat, bin: nat)
    requires 0 < k < |t| <= 64 && Abs(t[k]) <= 0x8000 && area + 189 <= bin <= area + 244 < FIXED_BIN
    ensures CoefTold(area, kx, t, k, ke, bin) != [] ==> Reaches(area, kx, t, k, bin)
    ensures Reaches(area, kx, t, k, bin) && (bin == area + 189 || bin == area + 217) ==>
      CoefTold(area, kx, t, k, ke, bin) != []
  {
    hide LowBitsOf, Log2Of;
    if Abs(t[k]) > 2 {
      var x := area + if k <= kx then 189 else 217;
      var w := (Abs(t[k]) - 1) / 2;
      Pow2Values();
      assert Pow2(14) == 0x4000;
      if bin >= x + 14 {
        Pow2Monotonic(14, bin - x);
      }
      if bin >= x + 28 {
        Pow2Monotonic(14, bin - x - 14);
      }
    }
  }

  lemma {:induction false} BandReaches(area: nat, kx: nat, t: seq<int>, ss: nat, k: nat, ke: nat, se: nat, bin: nat)
    requires 0 < ss <= k && se < |t| <= 64 && Codable(t) && area + 189 <= bin <= area + 244 < FIXED_BIN
    ensures BandTold(area, kx, t, ss, k, ke, se, bin) != [] ==> exists i :: k <= i <= se && Reaches(area, kx, t, i, bin)
    ensures (bin == area + 189 || bin == area + 217) && (exists i :: k <= i <= se && Reaches(area, kx, t, i, bin)) ==>
      BandTold(area, kx, t, ss, k, ke, se, bin) != []
    decreases se + 1 - k
  {
    hide CoefTold, Reaches;
    if k <= se {
      CoefReaches(area, kx, t, k, ke, bin);
      BandReaches(area, kx, t, ss, k + 1, ke, se, bin);
    }
  }

  // The bins from 189 to 216 of a table are for magnitudes above 2 up to the conditioning index,
  // those from 217 to 244 for the ones beyond.
  lemma MagnitudeBins(area: nat, kx: nat, t: seq<int>, ss: nat, se: nat)
    requires 0 < ss && se < |t| <= 64 && Codable(t) && area + 244 < FIXED_BIN
    ensures (exists d :: d in AcDecisions(area, kx, t, ss, se) && area + 189 <= d.bin <= area + 216) <==>
      (exists k :: ss <= k <= se && k <= kx && Abs(t[k]) > 2)
    ensures (exists d :: d in AcDecisions(area, kx, t, ss, se) && area + 217 <= d.bin <= area + 244) <==>
      (exists k :: ss <= k <= se && k > kx && Abs(t[k]) > 2)
  {
    hide AcDecisions, BandTold;
    SetReached(area, kx, t, ss, se, area + 189, area + 216);
    SetReached(area, kx, t, ss, se, area + 217, area + 244);
    assert forall k :: ss <= k <= se ==> (Reaches(area, kx, t, k, area + 189) <==> k <= kx && Abs(t[k]) > 2);
    assert forall k :: ss <= k <= se ==> (Reaches(area, kx, t, k, area + 217) <==> k > kx && Abs(t[k]) > 2);
  }

  lemma SetReached(area: nat, kx: nat, t: seq<int>, ss: nat, se: nat, from: nat, to: nat)
    requires 0 < ss && se < |t| <= 64 && Codable(t) && area + 244 < FIXED_BIN
    requires (from == area + 189 || from == area + 217) && to == from + 27
    ensures (exists d :: d in AcDecisions(area, kx, t, ss, se) && from <= d.bin <= to) <==>
      (exists k :: ss <= k <= se && Reaches(area, kx, t, k, from))
  {
    hide AcDecisions, BandTold, Told, Codable;
    var ds, ke := AcDecisions(area, kx, t, ss, se), LastNonzero(t, se);
    if d :| d in ds && from <= d.bin <= to {
      ToldSome(ds, d.bin);
      AcBins(area, kx, t, ss, se, d.bin);
      BandReaches(area, kx, t, ss, ss, ke, se, d.bin);
      var k :| ss <= k <= se && Reaches(area, kx, t, k, d.bin);
      assert Reaches(area, kx, t, k, from);
    }
    if exists k :: ss <= k <= se && Reaches(area, kx, t, k, from) {
      ToldSome(ds, from);
      AcBins(area, kx, t, ss, se, from);
      BandReaches(area, kx, t, ss, ss, ke, se, from);
    }
  }

  // The last AC bin is reached.
  lemma AcBinIsReached(area: nat, kx: nat, t: seq<int>, ss: nat, se: nat, k: nat)
    requires 0 < ss <= k <= se < |t| && kx < k && t[k] == -0x8000
    ensures exists d :: d in AcDecisions(area, kx, t, ss, se) && d.bin == area + LAST_AC_BIN
  {
    hide AcDecisions, BandTold, Told;
    AcBins(area, kx, t, ss, se, area + 244);
    BandHas(area, kx, t, ss, ss, LastNonzero(t, se), se, area + 244, k);
    LastBinTold(area, kx, t, k, LastNonzero(t, se));
    ToldSome(AcDecisions(area, kx, t, ss, se), area + 244);
  }

  lemma {:induction false} BandHas(area: nat, kx: nat, t: seq<int>, ss: nat, i: nat, ke: nat, se: nat, bin: nat, k: nat)
    requires 0 < ss <= i <= k <= se < |t|
    ensures CoefTold(area, kx, t, k, ke, bin) != [] ==> BandTold(area, kx, t, ss, i, ke, se, bin) != []
    decreases k - i
  {
    hide CoefTold;
    if i < k {
      BandHas(area, kx, t, ss, i + 1, ke, se, bin, k);
    }
  }

  lemma LastBinTold(area: nat, kx: nat, t: seq<int>, k: nat, ke: nat)
    requires 0 < k < |t| && kx < k && t[k] == -0x8000
    ensures CoefTold(area, kx, t, k, ke, area + 244) != []
  {
    hide CategoryTold, LowBitsOf;
    assert Log2Of(0x7F) == 6;
    assert Log2Of(0x3FFF) > 0 && Log2Of(0x7FFF) > 0;
    assert Pow2(13) == 0x2000 && Pow2(14) == 0x4000;
    assert LowBitsOf(0x7FFF, Log2Of(0x7FFF)) != [];
  }

  // ----- Refinement -----

  // What coefficient k tells when its band is refined, the end-of-block decision apart: new ones up
  // to the last nonzero coefficient are placed, old ones get their correction bit.
  function CorrectionTold(area: nat, t: seq<int>, k: nat, ke: nat, bin: nat): seq<bool>
    requires 0 < k < |t|
  {
    var m := Abs(t[k]);
    Only(k <= ke && m < 2 && bin == area + 3 * (k - 1) + 1, [m > 0])
    + (Only(m == 1 && bin == FIXED_BIN, [t[k] < 0]) + Only(m > 1 && bin == area + 3 * (k - 1) + 2, [m % 2 == 1]))
  }

  // No end-of-block decision is made up to coefficient kex, the last one known from the scan before.
  function RefinedTold(area: nat, t: seq<int>, ss: nat, k: nat, ke: nat, kex: nat, se: nat, bin: nat): seq<bool>
    requires 0 < ss <= k && se < |t|
    decreases se + 1 - k
  {
    if k > se then []
    else
      Only(k > kex && EobDue(t, ss, k) && bin == area + 3 * (k - 1), [k > ke])
      + (CorrectionTold(area, t, k, ke, bin) + RefinedTold(area, t, ss, k + 1, ke, kex, se, bin))
  }

  lemma NoCorrection(area: nat, t: seq<int>, k: nat, ke: nat, bin: nat)
    requires ke < k < |t| && t[k] == 0
    ensures CorrectionTold(area, t, k, ke, bin) == []
  {
  }

  lemma {:induction false} NothingRefined(area: nat, t: seq<int>, ss: nat, k: nat, ke: nat, kex: nat, se: nat, bin: nat)
    requires 0 < ss < k && ke < k - 1 && se < |t| && forall i :: ke < i <= se ==> t[i] == 0
    ensures RefinedTold(area, t, ss, k, ke, kex, se, bin) == []
    decreases se + 1 - k
  {
    hide CorrectionTold;
    if k <= se {
      NoCorrection(area, t, k, ke, bin);
      NothingRefined(area, t, ss, k + 1, ke, kex, se, bin);
    }
  }

  // An end-of-block decision that is due, or none.
  function RefineEob(area: nat, k: nat, ke: nat, kex: nat): seq<Decision>
    requires k > 0
  {
    if k > kex then [Decision(AcBin(area, k), k > ke)] else []
  }

  lemma RefineBlockIs(area: nat, t: seq<int>, k: nat, ke: nat, kex: nat, se: nat)
    requires 0 < k <= se && kex <= ke <= se < |t| && (ke > 0 ==> t[ke] != 0)
    ensures RefineBlock(area, t, k, ke, kex, se)
         == RefineEob(area, k, ke, kex) + if k <= ke then RefineRun(area, t, k, ke, kex, se) else []
  {
    hide RefineRun;
  }

  // The decisions about coefficient k itself.
  function RefineOne(area: nat, t: seq<int>, k: nat): seq<Decision>
    requires 0 < k < |t|
  {
    if Abs(t[k]) > 1 then [Decision(AcBin(area, k) + 2, Abs(t[k]) % 2 == 1)]
    else if t[k] == 0 then [Decision(AcBin(area, k) + 1, false)]
    else [Decision(AcBin(area, k) + 1, true), Decision(FIXED_BIN, t[k] < 0)]
  }

  lemma RefineRunIs(area: nat, t: seq<int>, k: nat, ke: nat, kex: nat, se: nat)
    requires 0 < k <= ke <= se < |t| && kex <= ke && t[ke] != 0
    ensures RefineRun(area, t, k, ke, kex, se) == RefineOne(area, t, k)
      + if t[k] == 0 then RefineRun(area, t, k + 1, ke, kex, se) else RefineBlock(area, t, k + 1, ke, kex, se)
  {
    hide RefineBlock;
  }

  lemma ToldRefineOne(area: nat, t: seq<int>, k: nat, ke: nat, bin: nat)
    requires 0 < k <= ke && k < |t|
    ensures Told(RefineOne(area, t, k), bin) == CorrectionTold(area, t, k, ke, bin)
  {
    hide Told;
    var place, sign := Decision(AcBin(area, k) + 1, t[k] != 0), Decision(FIXED_BIN, t[k] < 0);
    ToldOne(Decision(AcBin(area, k) + 2, Abs(t[k]) % 2 == 1), bin);
    ToldOne(place, bin);
    ToldOne(sign, bin);
    assert [place, sign] == [place] + [sign];
    ToldFirst(place, [sign], bin);
  }

  lemma RefinedNext(area: nat, t: seq<int>, ss: nat, k: nat, ke: nat, kex: nat, se: nat, bin: nat)
    requires 0 < ss <= k <= se < |t|
    ensures RefinedTold(area, t, ss, k, ke, kex, se, bin)
         == (if EobDue(t, ss, k) then Told(RefineEob(area, k, ke, kex), bin) else [])
            + (CorrectionTold(area, t, k, ke, bin) + RefinedTold(area, t, ss, k + 1, ke, kex, se, bin))
  {
    hide CorrectionTold, Told;
    ToldNothing(bin);
    ToldOne(Decision(AcBin(area, k), k > ke), bin);
  }

  lemma {:induction false} RefineBlockTold(area: nat, t: seq<int>, ss: nat, k: nat, ke: nat, kex: nat, se: nat, bin: nat)
    requires 0 < ss <= k && kex <= ke <= se < |t| && (ke > 0 ==> t[ke] != 0) && forall i :: ke < i <= se ==> t[i] == 0
    requires k <= se ==> EobDue(t, ss, k)
    ensures Told(RefineBlock(area, t, k, ke, kex, se), bin) == RefinedTold(area, t, ss, k, ke, kex, se, bin)
    decreases se + 1 - k, 1
  {
    hide Told, CorrectionTold, RefineRun, RefineEob;
    ToldNothing(bin);
    if k <= se {
      hide RefinedTold, RefineBlock;
      RefineBlockIs(area, t, k, ke, kex, se);
      RefinedNext(area, t, ss, k, ke, kex, se, bin);
      var run := if k <= ke then RefineRun(area, t, k, ke, kex, se) else [];
      ToldJoin(RefineEob(area, k, ke, kex), run, bin);
      if k <= ke {
        RefineRunTold(area, t, ss, k, ke, kex, se, bin);
      } else {
        NoCorrection(area, t, k, ke, bin);
        NothingRefined(area, t, ss, k + 1, ke, kex, se, bin);
      }
    }
  }

  lemma {:induction false} RefineRunTold(area: nat, t: seq<int>, ss: nat, k: nat, ke: nat, kex: nat, se: nat, bin: nat)
    requires 0 < ss <= k <= ke <= se < |t| && kex <= ke && t[ke] != 0 && forall i :: ke < i <= se ==> t[i] == 0
    ensures Told(RefineRun(area, t, k, ke, kex, se), bin)
         == CorrectionTold(area, t, k, ke, bin) + RefinedTold(area, t, ss, k + 1, ke, kex, se, bin)
    decreases se + 1 - k, 0
  {
    hide Told, RefineBlock, RefineRun, RefinedTold, CorrectionTold, RefineOne;
    RefineRunIs(area, t, k, ke, kex, se);
    ToldRefineOne(area, t, k, ke, bin);
    if t[k] == 0 {
      ToldJoin(RefineOne(area, t, k), RefineRun(area, t, k + 1, ke, kex, se), bin);
      RefineRunTold(area, t, ss, k + 1, ke, kex, se, bin);
      RefinedNext(area, t, ss, k + 1, ke, kex, se, bin);
      assert !EobDue(t, ss, k + 1);
    } else {
      ToldJoin(RefineOne(area, t, k), RefineBlock(area, t, k + 1, ke, kex, se), bin);
      RefineBlockTold(area, t, ss, k + 1, ke, kex, se, bin);
    }
  }

  // What each bin is told about a band in its refinement.
  lemma RefineBins(area: nat, t: seq<int>, ss: nat, se: nat, bin: nat)
    requires 0 < ss && se < |t|
    ensures var ke := LastNonzero(t, se);
      Told(RefineDecisions(area, t, ss, se), bin) == RefinedTold(area, t, ss, ss, ke, LastKnown(t, ke), se, bin)
  {
    var ke := LastNonzero(t, se);
    RefineBlockTold(area, t, ss, ss, ke, LastKnown(t, ke), se, bin);
  }

  // ----- Whole blocks -----

  // What each bin is told about a block: 64 bins for each DC table, then 256 for each AC table.
  lemma BlockBinsTold(p: Scan, s: DcState, ci: nat, t: seq<int>, bin: nat)
    requires ValidScan(p) && |s.last| == |s.context| == 4 && ci < |p.dcTbl| && |t| == p.se + 1
    ensures var dc, ac := 64 * p.dcTbl[ci], 1024 + 256 * p.acTbl[ci];
      var kx, ke := p.acK[p.acTbl[ci]], LastNonzero(t, p.se);
      Told(BlockDecisions(p, s, ci, t), bin) ==
        if !p.progressive then
          DcTold(dc, s.context[ci], t[0] - s.last[ci], bin) + BandTold(ac, kx, t, 1, 1, ke, p.se, bin)
        else if p.ss == 0 then
          (if p.ah == 0 then DcTold(dc, s.context[ci], t[0] - s.last[ci], bin) else Only(bin == FIXED_BIN, [t[0] % 2 == 1]))
        else if p.ah == 0 then BandTold(ac, kx, t, p.ss, p.ss, ke, p.se, bin)
        else RefinedTold(ac, t, p.ss, p.ss, ke, LastKnown(t, ke), p.se, bin)
  {
    hide Told, DcDecisions, AcDecisions, RefineDecisions, DcTold, BandTold, RefinedTold;
    var dc, ac := DcArea(p.dcTbl[ci]), AcArea(p.acTbl[ci]);
    var kx, v := p.acK[p.acTbl[ci]], t[0] - s.last[ci];
    match ModeOf(p)
    case Sequential =>
      ToldJoin(DcDecisions(dc, s.context[ci], v), AcDecisions(ac, kx, t, 1, p.se), bin);
      DcBins(dc, s.context[ci], v, bin);
      AcBins(ac, kx, t, 1, p.se, bin);
    case DcFirst => DcBins(dc, s.context[ci], v, bin);
    case AcFirst => AcBins(ac, kx, t, p.ss, p.se, bin);
    case DcRefine => ToldOne(Decision(FIXED_BIN, t[0] % 2 == 1), bin);
    case AcRefine => RefineBins(ac, t, p.ss, p.se, bin);
  }
}
