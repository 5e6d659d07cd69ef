// The limits of the statistical models: which statistics bins a block can touch (Tables F.4
// and F.5 of ITU-T T.81), and which DC differences can be coded.
module CodingLimits {
  import opened Powers
  import opened ExactCoder
  import opened DecisionModel
  import opened ScanModel

  const LAST_DC_BIN := 48
  const LAST_AC_BIN := 244

  ghost predicate Within(ds: seq<Decision>, area: nat, last: nat) {
    forall d :: d in ds ==> area <= d.bin <= area + last || d.bin == FIXED_BIN
  }

  lemma {:induction false} CategoryWithin(area: nat, st: nat, u: nat, last: nat)
    requires u > 0 && area <= st && st + Log2(u) <= area + last
    ensures Within(Category(st, u), area, last)
    decreases u
  {
    if u > 1 {
      CategoryWithin(area, st + 1, u / 2, last);
    }
  }

  lemma {:induction false} LowBitsWithin(area: nat, st: nat, u: nat, j: nat, last: nat)
    requires area <= st <= area + last
    ensures Within(LowBits(st, u, j), area, last)
  {
    if j > 0 {
      LowBitsWithin(area, st, u, j - 1, last);
    }
  }

  // Differences up to 2^15 stay in bins 0 to 48; the wider ones the coder refuses to decode
  // reach bin 49.
  lemma DcWithin(area: nat, context: nat, v: int)
    requires context <= 16 && Abs(v) <= 0x8000
    ensures Within(DcDecisions(area, context, v), area, LAST_DC_BIN)
  {
    hide Category, LowBits, Log2;
    if Abs(v) > 1 {
      var u := Abs(v) - 1;
      Pow2Values();
      Log2Below(u, 15);
      CategoryWithin(area, area + 20, u, LAST_DC_BIN);
      LowBitsWithin(area, area + 20 + Log2(u) + 14, u, Log2(u), LAST_DC_BIN);
    }
  }

  lemma DcBinIsReached(area: nat)
    ensures exists d :: d in DcDecisions(area, 0, 0x8000) && d.bin == area + LAST_DC_BIN
  {
    var u := 0x7FFF;
    Log2Of15();
    var bits := LowBits(area + 48, u, 14);
    assert bits[0] in DcDecisions(area, 0, 0x8000);
  }

  lemma Log2Of15()
    ensures Log2(0x7FFF) == 14
  {
    assert Log2(0x7F) == 6;
    assert Log2(0x3FFF) == 1 + Log2(0x1FFF) && Log2(0x1FFF) == 1 + Log2(0xFFF) && Log2(0xFFF) == 1 + Log2(0x7FF);
    assert Log2(0x7FF) == 1 + Log2(0x3FF) && Log2(0x3FF) == 1 + Log2(0x1FF) && Log2(0x1FF) == 1 + Log2(0xFF);
  }

  lemma AcMagnitudeWithin(area: nat, st: nat, k: nat, kx: nat, u: nat)
    requires area <= st <= area + 188 && u < 0x8000
    ensures Within(AcMagnitude(st, AcX(area, k, kx), u), area, LAST_AC_BIN)
  {
    if u > 1 {
      var x := AcX(area, k, kx);
      Pow2Values();
      assert Pow2(14) == 0x4000;
      Log2Below(u / 2, 14);
      CategoryWithin(area, x, u / 2, LAST_AC_BIN);
      LowBitsWithin(area, x + Log2(u / 2) + 14, u, Log2(u), LAST_AC_BIN);
    }
  }

  ghost predicate Codable(zz: seq<int>) {
    forall k :: 0 <= k < |zz| ==> Abs(zz[k]) <= 0x8000
  }

  lemma {:induction false} AcBlockWithin(area: nat, kx: nat, zz: seq<int>, k: nat, ke: nat, se: nat)
    requires 0 < k && ke <= se < |zz| <= 64 && (ke > 0 ==> zz[ke] != 0) && Codable(zz)
    ensures Within(AcBlock(area, kx, zz, k, ke, se), area, LAST_AC_BIN)
    decreases se + 1 - k, 1
  {
    if k <= ke {
      AcRunWithin(area, kx, zz, k, ke, se);
    }
  }

  lemma {:induction false} AcRunWithin(area: nat, kx: nat, zz: seq<int>, k: nat, ke: nat, se: nat)
    requires 0 < k <= ke <= se < |zz| <= 64 && zz[ke] != 0 && Codable(zz)
    ensures Within(AcRun(area, kx, zz, k, ke, se), area, LAST_AC_BIN)
    decreases se + 1 - k, 0
  {
    hide AcMagnitude, AcX, AcBlock, Log2, LowBits, Category;
    if zz[k] == 0 {
      AcRunWithin(area, kx, zz, k + 1, ke, se);
    } else {
      AcMagnitudeWithin(area, AcBin(area, k) + 2, k, kx, Abs(zz[k]) - 1);
      AcBlockWithin(area, kx, zz, k + 1, ke, se);
    }
  }

  lemma {:induction false} RefineBlockWithin(area: nat, t: seq<int>, k: nat, ke: nat, kex: nat, se: nat)
    requires 0 < k && kex <= ke <= se < |t| <= 64 && (ke > 0 ==> t[ke] != 0)
    ensures Within(RefineBlock(area, t, k, ke, kex, se), area, LAST_AC_BIN)
    decreases se + 1 - k, 1
  {
    if k <= ke {
      RefineRunWithin(area, t, k, ke, kex, se);
    }
  }

  lemma {:induction false} RefineRunWithin(area: nat, t: seq<int>, k: nat, ke: nat, kex: nat, se: nat)
    requires 0 < k <= ke <= se < |t| <= 64 && kex <= ke && t[ke] != 0
    ensures Within(RefineRun(area, t, k, ke, kex, se), area, LAST_AC_BIN)
    decreases se + 1 - k, 0
  {
    if t[k] == 0 {
      RefineRunWithin(area, t, k + 1, ke, kex, se);
    } else {
      RefineBlockWithin(area, t, k + 1, ke, kex, se);
    }
  }

  // No block whose DC difference and coefficients are in the coded range touches another
  // table, or a bin of its own tables beyond the last.
  lemma BlockBins(p: Scan, s: DcState, ci: nat, t: seq<int>)
    requires ValidScan(p) && ValidDc(s) && ci < |p.dcTbl| && |t| == p.se + 1
    requires Codable(t) && DiffFits(p, s, ci, t)
    ensures forall d :: d in BlockDecisions(p, s, ci, t) ==>
      || DcArea(p.dcTbl[ci]) <= d.bin <= DcArea(p.dcTbl[ci]) + LAST_DC_BIN
      || AcArea(p.acTbl[ci]) <= d.bin <= AcArea(p.acTbl[ci]) + LAST_AC_BIN
      || d.bin == FIXED_BIN
  {
    hide DcDecisions, AcBlock, RefineBlock, Codable;
    var dc, ac := DcArea(p.dcTbl[ci]), AcArea(p.acTbl[ci]);
    var ke := LastNonzero(t, p.se);
    match ModeOf(p)
    case Sequential =>
      DcWithin(dc, s.context[ci], t[0] - s.last[ci]);
      AcBlockWithin(ac, p.acK[p.acTbl[ci]], t, 1, ke, p.se);
    case DcFirst => DcWithin(dc, s.context[ci], t[0] - s.last[ci]);
    case AcFirst => AcBlockWithin(ac, p.acK[p.acTbl[ci]], t, p.ss, ke, p.se);
    case DcRefine =>
    case AcRefine => RefineBlockWithin(ac, t, p.ss, ke, LastKnown(t, ke), p.se);
  }

  // ----- When the DC differences fit -----

  ghost predicate SmallDc(ts: seq<seq<int>>) {
    forall i :: 0 <= i < |ts| ==> |ts[i]| > 0 && Abs(ts[i][0]) <= 0x4000
  }

  ghost predicate SmallState(s: DcState) {
    |s.last| == |s.context| == 4 && forall i :: 0 <= i < 4 ==> Abs(s.last[i]) <= 0x4000
  }

  lemma {:induction false} SmallMcuFits(p: Scan, s: DcState, ts: seq<seq<int>>, i: nat)
    requires ValidMcu(p, s, ts) && SmallState(s) && SmallDc(ts) && i <= |ts|
    ensures DiffsFit(p, s, ts, i) && SmallState(AfterMcu(p, s, ts, i))
    decreases |ts| - i
  {
    hide DcContext;
    if i < |ts| {
      SmallMcuFits(p, AfterBlock(p, s, p.membership[i], ts[i]), ts, i + 1);
    }
  }

  // Every scan whose DC coefficients are at most 2^14 in magnitude can be decoded.
  lemma {:induction false} SmallScanFits(p: Scan, togo: nat, s: DcState, mcus: seq<Mcu>, i: nat)
    requires ValidMcus(p, mcus) && SmallState(s) && i <= |mcus|
    requires forall j :: 0 <= j < |mcus| ==> SmallDc(mcus[j])
    ensures ScanFits(p, togo, s, mcus, i)
    decreases |mcus| - i
  {
    hide DiffsFit, AfterMcu;
    if i < |mcus| {
      var s' := Predicted(p, togo, s);
      SmallMcuFits(p, s', mcus[i], 0);
      SmallScanFits(p, NextToGo(p, togo), AfterMcu(p, s', mcus[i], 0), mcus, i + 1);
    }
  }

  // Not every image can: this sequential scan of two blocks is encoded, but its second DC
  // difference is too wide to be decoded.
  lemma WideDifference(p: Scan, t: seq<int>, u: seq<int>)
    requires ValidScan(p) && !p.progressive && p.membership == [0] && |t| == |u| == p.se + 1
    requires t[0] == 0x7FFF && u[0] == -0x8000 && p.restart != 1
    ensures ValidMcus(p, [[t], [u]]) && !ScanFits(p, p.restart, InitialDc(), [[t], [u]], 0)
  {
    var mcus := [[t], [u]];
    var s := AfterBlock(p, InitialDc(), p.membership[0], t);
    assert AfterMcu(p, s, mcus[0], 1) == s;
    assert AfterMcu(p, InitialDc(), mcus[0], 0) == s;
    assert s.last[0] == 0x7FFF;
    assert !DiffFits(p, s, 0, u);
    assert !DiffsFit(p, s, mcus[1], 0);
    assert !ScanFits(p, NextToGo(p, p.restart), s, mcus, 1);
  }
}
