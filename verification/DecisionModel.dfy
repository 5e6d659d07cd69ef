// The statistical models of sections F.1.4.4 and G.1.3 of ITU-T T.81: which binary
// decisions stand for a coefficient block, and in which statistics bins. Blocks are in
// zigzag order here.
module DecisionModel {
  import opened Powers
  import opened ExactCoder
  import opened ProbabilityTable

  // The statistics areas, one after the other: 16 DC tables of 64 bytes, 16 AC tables of
  // 256 bytes, and the bin for fixed probability 0.5.
  const DC_STAT_BINS := 64
  const AC_STAT_BINS := 256
  const FIXED_BIN := 16 * DC_STAT_BINS + 16 * AC_STAT_BINS
  const AREA_SIZE := FIXED_BIN + 1

  function DcArea(tbl: nat): nat {
    tbl * DC_STAT_BINS
  }

  function AcArea(tbl: nat): nat {
    16 * DC_STAT_BINS + tbl * AC_STAT_BINS
  }

  function Abs(v: int): nat {
    if v < 0 then -v else v
  }

  function Log2(u: nat): nat
    requires u > 0
  {
    if u == 1 then 0 else 1 + Log2(u / 2)
  }

  lemma {:induction false} Log2Bounds(u: nat)
    requires u > 0
    ensures Pow2(Log2(u)) <= u < 2 * Pow2(Log2(u))
  {
    if u > 1 {
      Log2Bounds(u / 2);
    }
  }

  lemma {:induction false} Log2Below(u: nat, e: nat)
    requires 0 < u < Pow2(e)
    ensures Log2(u) < e
  {
    if u > 1 {
      Log2Below(u / 2, e - 1);
    }
  }

  // ----- Magnitudes (Figures F.8 and F.9) -----

  // The magnitude category: a run of ones, one bin each, closed by a zero.
  function Category(st: nat, u: nat): (ds: seq<Decision>)
    requires u > 0
    ensures ds != []
    decreases u
  {
    if u == 1 then [Decision(st, false)] else [Decision(st, true)] + Category(st + 1, u / 2)
  }

  function Bit(u: nat, j: nat): bool {
    ShiftRight(u, j) % 2 == 1
  }

  // The j low bits of u, high bit first, all in one bin.
  function LowBits(st: nat, u: nat, j: nat): (ds: seq<Decision>)
    ensures |ds| == j
  {
    if j == 0 then [] else [Decision(st, Bit(u, j - 1))] + LowBits(st, u, j - 1)
  }

  function DcMagnitude(area: nat, st: nat, u: nat): (ds: seq<Decision>)
    ensures ds != []
  {
    if u == 0 then [Decision(st, false)]
    else
      [Decision(st, true)]
      + Category(area + 20, u)
      + LowBits(area + 20 + Log2(u) + 14, u, Log2(u))
  }

  function AcMagnitude(st: nat, x: nat, u: nat): (ds: seq<Decision>)
    ensures ds != []
  {
    if u == 0 then [Decision(st, false)]
    else if u == 1 then [Decision(st, true), Decision(st, false)]
    else
      [Decision(st, true), Decision(st, true)]
      + Category(x, u / 2)
      + LowBits(x + Log2(u / 2) + 14, u, Log2(u))
  }

  // ----- DC differences (Figure F.4, Table F.4) -----

  function DcDecisions(area: nat, context: nat, v: int): (ds: seq<Decision>)
    ensures ds != []
  {
    if v == 0 then [Decision(area + context, false)]
    else
      [Decision(area + context, true), Decision(area + context + 1, v < 0)]
      + DcMagnitude(area, area + context + (if v < 0 then 3 else 2), Abs(v) - 1)
  }

  lemma DcMagnitudeBegins(area: nat, st: nat, u: nat, rest: seq<Decision>)
    ensures DcMagnitude(area, st, u) + rest == [Decision(st, u > 0)] +
      if u > 0 then Category(area + 20, u) + (LowBits(area + 20 + Log2(u) + 14, u, Log2(u)) + rest) else rest
  {
    hide Category, LowBits, Log2;
  }

  // The first decision of a DC difference, and what follows it.
  lemma DifferenceBegins(area: nat, context: nat, v: int, rest: seq<Decision>)
    ensures var st := area + context;
      var magnitude := DcMagnitude(area, st + (if v < 0 then 3 else 2), if v == 0 then 0 else Abs(v) - 1) + rest;
      DcDecisions(area, context, v) + rest
        == [Decision(st, v != 0)] + (if v == 0 then rest else [Decision(st + 1, v < 0)] + magnitude)
  {
    hide DcMagnitude;
  }

  lemma MagnitudeBegins(st: nat, x: nat, u: nat, rest: seq<Decision>)
    ensures var u' := if u < 2 then 2 else u;
      var bits := LowBits(x + Log2(u' / 2) + 14, u', Log2(u')) + rest;
      var more := [Decision(st, u > 1)] + (if u > 1 then Category(x, u' / 2) + bits else rest);
      AcMagnitude(st, x, u) + rest == [Decision(st, u > 0)] + (if u > 0 then more else rest)
  {
    hide Category, LowBits, Log2;
  }

  // The bin for signs and correction bits starts in the fixed state and never leaves it, so it
  // needs no resetting.
  lemma {:induction false} FixedBinStays(s: State, ds: seq<Decision>)
    requires Normalized(s.i) && InBins(ds, |s.stats|) && |s.stats| == AREA_SIZE && s.stats[FIXED_BIN] == FIXED_STATE
    ensures Run(s, ds).stats[FIXED_BIN] == FIXED_STATE
    decreases |ds|
  {
    hide Step;
    if ds != [] {
      FixedStateStays(s, ds[0]);
      FixedBinStays(Step(s, ds[0]), ds[1..]);
    }
  }

  lemma FixedStateStays(s: State, d: Decision)
    requires Normalized(s.i) && |s.stats| == AREA_SIZE && s.stats[FIXED_BIN] == FIXED_STATE && d.bin < AREA_SIZE
    ensures Step(s, d).stats[FIXED_BIN] == FIXED_STATE
  {
    hide Renorm, Split, Normalized, Aritab;
    FixedEntry();
  }

  lemma FixedEntry()
    ensures Lookup(FIXED_STATE) == Entry(0x5a1d, 113, 113, 0)
  {
  }

  // The power of two in the magnitude category of a nonzero value.
  function Magnitude(v: int): nat {
    if Abs(v) <= 1 then 0 else Pow2(Log2(Abs(v) - 1))
  }

  // The conditioning category of a difference for bounds l and u (T.81, F.1.4.4.1.2).
  function DcContext(v: int, l: nat, u: nat): (context: nat)
    ensures context <= 16
  {
    if v == 0 || Magnitude(v) < Pow2(l) / 2 then 0
    else (if v > 0 then 4 else 8) + (if Magnitude(v) > Pow2(u) / 2 then 8 else 0)
  }

  // ----- AC bands (Figure F.5) -----

  // The index of the last nonzero coefficient at or below se, 0 if there is none.
  function LastNonzero(zz: seq<int>, se: nat): (k: nat)
    requires se < |zz|
    ensures k <= se && (k > 0 ==> zz[k] != 0)
    ensures forall j :: k < j <= se ==> zz[j] == 0
  {
    if se == 0 || zz[se] != 0 then se else LastNonzero(zz, se - 1)
  }

  function AcBin(area: nat, k: nat): nat
    requires k > 0
  {
    area + 3 * (k - 1)
  }

  // Table F.5: the category bins differ below and above the conditioning index kx.
  function AcX(area: nat, k: nat, kx: nat): nat {
    area + (if k <= kx then 189 else 217)
  }

  // From an end-of-block decision at k on.
  function AcBlock(area: nat, kx: nat, zz: seq<int>, k: nat, ke: nat, se: nat): seq<Decision>
    requires 0 < k && ke <= se < |zz| && (ke > 0 ==> zz[ke] != 0)
    decreases se + 1 - k, 1
  {
    if k <= ke then [Decision(AcBin(area, k), false)] + AcRun(area, kx, zz, k, ke, se)
    else if k <= se then [Decision(AcBin(area, k), true)]
    else []
  }

  // From a zero/nonzero decision at k on.
  function AcRun(area: nat, kx: nat, zz: seq<int>, k: nat, ke: nat, se: nat): (ds: seq<Decision>)
    requires 0 < k <= ke <= se < |zz| && zz[ke] != 0
    ensures ds != []
    decreases se + 1 - k, 0
  {
    if zz[k] == 0 then [Decision(AcBin(area, k) + 1, false)] + AcRun(area, kx, zz, k + 1, ke, se)
    else
      [Decision(AcBin(area, k) + 1, true), Decision(FIXED_BIN, zz[k] < 0)]
      + AcMagnitude(AcBin(area, k) + 2, AcX(area, k, kx), Abs(zz[k]) - 1)
      + AcBlock(area, kx, zz, k + 1, ke, se)
  }

  // What follows the decision that coefficient k is nonzero.
  function AfterPlace(area: nat, kx: nat, zz: seq<int>, k: nat, ke: nat, se: nat): seq<Decision>
    requires 0 < k <= ke <= se < |zz| && zz[ke] != 0 && zz[k] != 0
  {
    [Decision(FIXED_BIN, zz[k] < 0)]
    + AcMagnitude(AcBin(area, k) + 2, AcX(area, k, kx), Abs(zz[k]) - 1)
    + AcBlock(area, kx, zz, k + 1, ke, se)
  }

  lemma RunBegins(area: nat, kx: nat, zz: seq<int>, k: nat, ke: nat, se: nat, rest: seq<Decision>)
    requires 0 < k <= ke <= se < |zz| && zz[ke] != 0
    ensures AcRun(area, kx, zz, k, ke, se) + rest == [Decision(AcBin(area, k) + 1, zz[k] != 0)]
      + ((if zz[k] == 0 then AcRun(area, kx, zz, k + 1, ke, se) else AfterPlace(area, kx, zz, k, ke, se)) + rest)
  {
    hide AcMagnitude, AcBlock;
  }

  lemma BandEnds(area: nat, kx: nat, zz: seq<int>, ke: nat, se: nat)
    requires ke <= se < |zz| && (ke > 0 ==> zz[ke] != 0)
    ensures AcBlock(area, kx, zz, se + 1, ke, se) == []
  {
  }

  function AcDecisions(area: nat, kx: nat, zz: seq<int>, ss: nat, se: nat): seq<Decision>
    requires 0 < ss && se < |zz|
  {
    AcBlock(area, kx, zz, ss, LastNonzero(zz, se), se)
  }

  // ----- Successive approximation (section G.1.2) -----

  // The point transform of an AC coefficient: division by 2^al towards zero.
  function Truncate(v: int, al: nat): int {
    if v < 0 then 0 - ShiftRight(-v, al) else ShiftRight(v, al)
  }

  // The point transform of a DC coefficient: an arithmetic right shift.
  function Floor(v: int, al: nat): int {
    v / Pow2(al)
  }

  function Transformed(v: int, k: nat, al: nat): int {
    if k == 0 then Floor(v, al) else Truncate(v, al)
  }

  function PointTransform(zz: seq<int>, al: nat): (t: seq<int>)
    ensures |t| == |zz| && forall k :: 0 <= k < |t| ==> t[k] == Transformed(zz[k], k, al)
  {
    seq(|zz|, k requires 0 <= k < |zz| => Transformed(zz[k], k, al))
  }

  // Refinement of an AC band (Figure G.10): t is the band at the new precision, whose
  // coefficients of magnitude 2 and more were nonzero before.
  function RefineBlock(area: nat, t: seq<int>, k: nat, ke: nat, kex: nat, se: nat): seq<Decision>
    requires 0 < k && kex <= ke <= se < |t| && (ke > 0 ==> t[ke] != 0)
    decreases se + 1 - k, 1
  {
    if k <= ke then
      (if k > kex then [Decision(AcBin(area, k), false)] else []) + RefineRun(area, t, k, ke, kex, se)
    else if k <= se then [Decision(AcBin(area, k), true)]
    else []
  }

  function RefineRun(area: nat, t: seq<int>, k: nat, ke: nat, kex: nat, se: nat): (ds: seq<Decision>)
    requires 0 < k <= ke <= se < |t| && kex <= ke && t[ke] != 0
    ensures ds != []
    decreases se + 1 - k, 0
  {
    if t[k] == 0 then [Decision(AcBin(area, k) + 1, false)] + RefineRun(area, t, k + 1, ke, kex, se)
    else if Abs(t[k]) > 1 then
      [Decision(AcBin(area, k) + 2, Abs(t[k]) % 2 == 1)] + RefineBlock(area, t, k + 1, ke, kex, se)
    else
      [Decision(AcBin(area, k) + 1, true), Decision(FIXED_BIN, t[k] < 0)]
      + RefineBlock(area, t, k + 1, ke, kex, se)
  }

  lemma RefinementEnds(area: nat, t: seq<int>, ke: nat, kex: nat, se: nat)
    requires kex <= ke <= se < |t| && (ke > 0 ==> t[ke] != 0)
    ensures RefineBlock(area, t, se + 1, ke, kex, se) == []
  {
  }

  lemma RefineRunBegins(area: nat, t: seq<int>, k: nat, ke: nat, kex: nat, se: nat, rest: seq<Decision>)
    requires 0 < k <= ke <= se < |t| && kex <= ke && t[ke] != 0
    ensures var more := (if t[k] == 0 then RefineRun(area, t, k + 1, ke, kex, se)
                         else RefineBlock(area, t, k + 1, ke, kex, se)) + rest;
      RefineRun(area, t, k, ke, kex, se) + rest ==
        [if Abs(t[k]) > 1 then Decision(AcBin(area, k) + 2, Abs(t[k]) % 2 == 1) else Decision(AcBin(area, k) + 1, t[k] != 0)]
        + if Abs(t[k]) == 1 then [Decision(FIXED_BIN, t[k] < 0)] + more else more
  {
    hide RefineBlock;
  }

  // The index of the last coefficient at or below se that was nonzero in the scan before.
  function LastKnown(t: seq<int>, se: nat): (k: nat)
    requires se < |t|
    ensures k <= se && (k > 0 ==> Abs(t[k]) > 1)
    ensures forall j :: k < j <= se ==> Abs(t[j]) <= 1
  {
    if se == 0 || Abs(t[se]) > 1 then se else LastKnown(t, se - 1)
  }

  function RefineDecisions(area: nat, t: seq<int>, ss: nat, se: nat): seq<Decision>
    requires 0 < ss && se < |t|
  {
    var ke := LastNonzero(t, se);
    RefineBlock(area, t, ss, ke, LastKnown(t, ke), se)
  }

  // ----- Scans -----

  // The range of a coefficient (JCOEF is a 16-bit short).
  predicate InShort(v: int) {
    -0x8000 <= v < 0x8000
  }

  // The cast to JCOEF.
  function Short(v: int): (r: int)
    ensures InShort(r) && (InShort(v) ==> r == v)
  {
    (v + 0x8000) % 0x10000 - 0x8000
  }

  // The inverse scaling of a transformed coefficient.
  function Scaled(v: int, al: nat): int {
    v * Pow2(al)
  }

  datatype Mode = Sequential | DcFirst | AcFirst | DcRefine | AcRefine

  // What an MCU routine reads of the compression object: the tables of the components in
  // the scan, the component of each block of an MCU, the conditioning parameters, the
  // progression parameters (with se the last coefficient of a block in sequential mode),
  // the restart interval (0 for none),
  // and the natural-order position of each zigzag index.
  datatype Scan = Scan(
    progressive: bool, ss: nat, se: nat, ah: nat, al: nat, restart: nat,
    dcTbl: seq<nat>, acTbl: seq<nat>, membership: seq<nat>,
    dcL: seq<nat>, dcU: seq<nat>, acK: seq<nat>, order: seq<nat>)

  // A restart marker comes before the next MCU; togo is the number of MCUs before it.
  predicate RestartDue(p: Scan, togo: nat) {
    p.restart > 0 && togo == 0
  }

  function NextToGo(p: Scan, togo: nat): nat {
    if p.restart == 0 then togo else if togo == 0 then p.restart - 1 else togo - 1
  }

  type Mcu = seq<seq<int>>   // the blocks of an MCU, as far as a scan codes them

  // The selection of the MCU routine in start_pass.
  function ModeOf(p: Scan): Mode {
    if !p.progressive then Sequential
    else if p.ah == 0 then (if p.ss == 0 then DcFirst else AcFirst)
    else if p.ss == 0 then DcRefine
    else AcRefine
  }

  ghost predicate ValidOrder(order: seq<nat>, last: nat) {
    && last < 64 && |order| > last && order[0] == 0
    && (forall k :: 0 <= k <= last ==> order[k] < 64)
    && (forall j, k :: 0 <= j < k <= last ==> order[j] != order[k])
  }

  ghost predicate ValidScan(p: Scan) {
    && ValidOrder(p.order, p.se)
    && |p.dcTbl| == |p.acTbl| <= 4
    && (forall i :: 0 <= i < |p.dcTbl| ==> p.dcTbl[i] < 16 && p.acTbl[i] < 16)
    && (forall i :: 0 <= i < |p.membership| ==> p.membership[i] < |p.dcTbl|)
    && |p.dcL| == |p.dcU| == |p.acK| == 16
    && p.al <= 13
    && (!p.progressive ==> p.ss == 0 && p.al == 0 && p.ah == 0)
    && (p.progressive ==> p.ss <= p.se && (p.ss == 0 ==> p.se == 0))
    && (p.ah > 0 ==> p.al == p.ah - 1)
    && (p.progressive && p.ss > 0 ==> p.membership == [0])
  }

  // The DC predictions and conditioning contexts carried from block to block.
  datatype DcState = DcState(last: seq<int>, context: seq<nat>)

  ghost predicate ValidDc(s: DcState) {
    |s.last| == |s.context| == 4 && forall i :: 0 <= i < 4 ==> s.context[i] <= 16
  }

  function InitialDc(): DcState {
    DcState([0, 0, 0, 0], [0, 0, 0, 0])
  }

  function Zigzag(block: seq<int>, order: seq<nat>, last: nat): (zz: seq<int>)
    requires last < |order| && forall k :: 0 <= k <= last ==> order[k] < |block|
    ensures |zz| == last + 1 && forall k :: 0 <= k <= last ==> zz[k] == block[order[k]]
  {
    seq(last + 1, k requires 0 <= k <= last => block[order[k]])
  }

  // The decisions of one block of component ci, whose point-transformed coefficients are t.
  function BlockDecisions(p: Scan, s: DcState, ci: nat, t: seq<int>): seq<Decision>
    requires ci < |p.dcTbl| == |p.acTbl| && |s.last| == |s.context| == 4 && ci < 4
    requires p.acTbl[ci] < |p.acK| && |t| == p.se + 1
  {
    var dc := DcDecisions(DcArea(p.dcTbl[ci]), s.context[ci], t[0] - s.last[ci]);
    var area, kx := AcArea(p.acTbl[ci]), p.acK[p.acTbl[ci]];
    match ModeOf(p)
    case Sequential => dc + AcDecisions(area, kx, t, 1, p.se)
    case DcFirst => dc
    case AcFirst => AcDecisions(area, kx, t, p.ss, p.se)
    case DcRefine => [Decision(FIXED_BIN, t[0] % 2 == 1)]
    case AcRefine => RefineDecisions(area, t, p.ss, p.se)
  }

  function AfterDc(p: Scan, s: DcState, ci: nat, m: int): (r: DcState)
    requires ci < |p.dcTbl| && |s.last| == |s.context| == 4 && ci < 4
    requires p.dcTbl[ci] < |p.dcL| == |p.dcU|
    ensures |r.last| == |r.context| == 4
  {
    var tbl := p.dcTbl[ci];
    DcState(s.last[ci := m], s.context[ci := DcContext(m - s.last[ci], p.dcL[tbl], p.dcU[tbl])])
  }

  // The DC prediction state after that block.
  function AfterBlock(p: Scan, s: DcState, ci: nat, t: seq<int>): (r: DcState)
    requires ci < |p.dcTbl| && |s.last| == |s.context| == 4 && ci < 4 && t != []
    requires p.dcTbl[ci] < |p.dcL| == |p.dcU|
    ensures |r.last| == |r.context| == 4
  {
    if ModeOf(p) == Sequential || ModeOf(p) == DcFirst then AfterDc(p, s, ci, t[0]) else s
  }

  // after is before, with the band first..last set to the transformed coefficients t.
  ghost predicate Restored(p: Scan, before: seq<int>, after: seq<int>, t: seq<int>, first: nat, last: int)
    requires ValidScan(p) && |t| == p.se + 1 && last <= p.se
    requires |before| == |after| == 64
  {
    && (forall k :: first <= k <= last ==> after[p.order[k]] == Scaled(t[k], p.al))
    && (forall i :: 0 <= i < 64 && (forall k :: first <= k <= last ==> p.order[k] != i) ==> after[i] == before[i])
  }

  // The band from first on is zero, as the caller of a first scan provides it.
  ghost predicate ZeroBand(p: Scan, before: seq<int>, first: nat)
    requires ValidScan(p) && |before| == 64
  {
    forall k :: first <= k <= p.se ==> before[p.order[k]] == 0
  }

  lemma RestoredNone(p: Scan, before: seq<int>, t: seq<int>, first: nat)
    requires ValidScan(p) && |t| == p.se + 1 && first <= p.se + 1 && |before| == 64
    ensures Restored(p, before, before, t, first, first - 1)
  {
  }

  // Coefficients that are zero on both sides extend the band for free.
  lemma RestoredZeros(p: Scan, before: seq<int>, after: seq<int>, t: seq<int>, first: nat, k: int, last: int)
    requires ValidScan(p) && |t| == p.se + 1 && k <= last <= p.se && |before| == |after| == 64
    requires first <= k + 1
    requires Restored(p, before, after, t, first, k)
    requires forall j :: k < j <= last ==> t[j] == 0 && before[p.order[j]] == 0
    ensures Restored(p, before, after, t, first, last)
  {
    forall j | first <= j <= last
      ensures after[p.order[j]] == Scaled(t[j], p.al)
    {
      if j > k {
        assert forall i :: first <= i <= k ==> p.order[i] != p.order[j];
        assert t[j] == 0;
      }
    }
  }

  // Coefficient k, after zeros from one position on, extends the band.
  lemma RestoredNext(p: Scan, before: seq<int>, mid: seq<int>, after: seq<int>, t: seq<int>, first: nat, from: nat, k: nat)
    requires ValidScan(p) && |t| == p.se + 1 && first <= from <= k <= p.se && |before| == |mid| == 64
    requires Restored(p, before, mid, t, first, from - 1)
    requires forall j :: from <= j < k ==> t[j] == 0 && before[p.order[j]] == 0
    requires after == mid[p.order[k] := Scaled(t[k], p.al)]
    ensures Restored(p, before, after, t, first, k)
  {
    hide Scaled;
    RestoredZeros(p, before, mid, t, first, from - 1, k - 1);
    assert forall i :: first <= i < k ==> p.order[i] != p.order[k];
  }

  // The scaled coefficients fit.
  ghost predicate Fits(p: Scan, t: seq<int>) {
    |t| == p.se + 1 && forall k :: 0 <= k <= p.se ==> InShort(Scaled(t[k], p.al))
  }

  // The coefficient one bit less precise.
  function Coarser(t: int): int {
    if t < 0 then -(-t / 2) else t / 2
  }

  // The band, from first on, as the scan before left it.
  ghost predicate KnownFrom(p: Scan, before: seq<int>, t: seq<int>, first: nat)
    requires ValidScan(p) && |t| == p.se + 1 && |before| == 64
  {
    forall k :: first <= k <= p.se ==> before[p.order[k]] == Scaled(Coarser(t[k]), p.al + 1)
  }

  lemma KnownZeros(p: Scan, before: seq<int>, t: seq<int>, first: nat)
    requires ValidScan(p) && |t| == p.se + 1 && |before| == 64 && KnownFrom(p, before, t, first)
    ensures forall k :: first <= k <= p.se && t[k] == 0 ==> before[p.order[k]] == 0
  {
  }

  lemma RefinedNext(p: Scan, before: seq<int>, mid: seq<int>, after: seq<int>, t: seq<int>, first: nat, from: nat, k: nat)
    requires ValidScan(p) && |t| == p.se + 1 && first <= from <= k <= p.se && |before| == |mid| == 64
    requires KnownFrom(p, before, t, first) && KnownFrom(p, mid, t, from)
    requires Restored(p, before, mid, t, first, from - 1)
    requires forall j :: from <= j < k ==> t[j] == 0
    requires after == mid[p.order[k] := Scaled(t[k], p.al)]
    ensures Restored(p, before, after, t, first, k) && KnownFrom(p, after, t, k + 1)
  {
    hide Restored, Scaled, Coarser;
    KnownZeros(p, before, t, first);
    RestoredNext(p, before, mid, after, t, first, from, k);
  }

  lemma RefinedEnd(p: Scan, before: seq<int>, after: seq<int>, t: seq<int>, first: nat, k: nat)
    requires ValidScan(p) && |t| == p.se + 1 && first <= k <= p.se + 1 && |before| == |after| == 64
    requires KnownFrom(p, before, t, first) && Restored(p, before, after, t, first, k - 1)
    requires forall j :: k <= j <= p.se ==> t[j] == 0
    ensures Restored(p, before, after, t, first, p.se)
  {
    hide Restored;
    KnownZeros(p, before, t, first);
    RestoredZeros(p, before, after, t, first, k - 1, p.se);
  }

  // A refinement step of a coefficient that was nonzero before: the correction bit moves it
  // away from zero by p1 = 2^al.
  function Corrected(coef: int, bit: bool, al: nat): int {
    if !bit then coef else Short(if coef < 0 then coef - Pow2(al) else coef + Pow2(al))
  }

  // A coefficient that becomes nonzero.
  function Newborn(negative: bool, al: nat): int {
    if negative then 0 - Pow2(al) else Pow2(al)
  }

  lemma RefinedValue(t: int, al: nat)
    requires InShort(Scaled(t, al))
    ensures Scaled(Coarser(t), al + 1) != 0 <==> Abs(t) > 1
    ensures Abs(t) > 1 ==> Corrected(Scaled(Coarser(t), al + 1), Abs(t) % 2 == 1, al) == Scaled(t, al)
    ensures Abs(t) == 1 ==> Newborn(t < 0, al) == Scaled(t, al)
  {
    var d, c := Pow2(al), Coarser(t);
    var s := t - 2 * c;
    assert s == if Abs(t) % 2 == 0 then 0 else if t < 0 then -1 else 1;
    ScaledParts(c, s, d);
  }

  lemma ScaledParts(c: int, s: int, d: nat)
    requires d > 0
    ensures c * (2 * d) == 2 * (c * d) && (2 * c + s) * d == 2 * (c * d) + s * d
    ensures (c > 0 ==> c * d > 0) && (c < 0 ==> c * d < 0) && 0 * d == 0 && 1 * d == d && -1 * d == 0 - d
  {
    MulGrows(c, d);
    MulGrows(-c, d);
  }

  // Decoder and encoder find the same end of the previous stage, as far as the band goes.
  lemma SameKnown(p: Scan, before: seq<int>, t: seq<int>, kex: nat)
    requires ValidScan(p) && Fits(p, t) && |before| == 64 && KnownFrom(p, before, t, p.ss)
    requires kex == LastNonzero(Zigzag(before, p.order, p.se), p.se)
    ensures var known := LastKnown(t, LastNonzero(t, p.se));
      p.ss > 0 ==> if kex >= p.ss then known == kex else known < p.ss
  {
    hide Coarser, Scaled, Corrected, Newborn;
    var zz, ke := Zigzag(before, p.order, p.se), LastNonzero(t, p.se);
    var known := LastKnown(t, ke);
    if kex >= p.ss > 0 {
      RefinedValue(t[kex], p.al);
      assert zz[kex] != 0;
      assert Abs(t[kex]) > 1;
    }
    if known >= p.ss > 0 {
      RefinedValue(t[known], p.al);
      assert zz[known] != 0;
    }
  }

  lemma ScaledBound(v: int, al: nat)
    ensures InShort(Scaled(v, al)) ==> Abs(v) <= 0x8000
  {
    if v > 0 {
      MulGrows(v, Pow2(al));
    } else if v < 0 {
      MulGrows(-v, Pow2(al));
      assert -v * Pow2(al) == -Scaled(v, al);
    }
  }

  lemma FloorFits(v: int, al: nat)
    requires InShort(v)
    ensures InShort(Floor(v, al))
  {
    if v >= 0 {
      QuotientBounds(v, Pow2(al));
    } else {
      var d := Pow2(al);
      var q, r := v / d, v % d;
      assert v == q * d + r;
      if q < v {
        MulGrows(v - q, d);
        assert (v - q) * d == v * d - q * d;
        assert -v * d >= -v by {
          MulGrows(-v, d);
        }
      }
    }
  }

  // ----- MCUs -----

  // The coding of a DC difference is limited to 16 magnitude categories.
  predicate DiffFits(p: Scan, s: DcState, ci: nat, t: seq<int>)
    requires ci < |s.last| && t != []
  {
    ModeOf(p) == Sequential || ModeOf(p) == DcFirst ==> Abs(t[0] - s.last[ci]) <= 0x8000
  }

  ghost predicate ValidMcu(p: Scan, s: DcState, ts: seq<seq<int>>) {
    && ValidScan(p) && |s.last| == |s.context| == 4 && |ts| == |p.membership|
    && forall i :: 0 <= i < |ts| ==> |ts[i]| == p.se + 1
  }

  // The decisions of the blocks of an MCU from block i on.
  ghost function McuDecisions(p: Scan, s: DcState, ts: seq<seq<int>>, i: nat): seq<Decision>
    requires ValidMcu(p, s, ts) && i <= |ts|
    decreases |ts| - i
  {
    if i == |ts| then []
    else
      BlockDecisions(p, s, p.membership[i], ts[i])
      + McuDecisions(p, AfterBlock(p, s, p.membership[i], ts[i]), ts, i + 1)
  }

  ghost function AfterMcu(p: Scan, s: DcState, ts: seq<seq<int>>, i: nat): (r: DcState)
    requires ValidMcu(p, s, ts) && i <= |ts|
    ensures |r.last| == |r.context| == 4
    decreases |ts| - i
  {
    if i == |ts| then s else AfterMcu(p, AfterBlock(p, s, p.membership[i], ts[i]), ts, i + 1)
  }

  ghost predicate DiffsFit(p: Scan, s: DcState, ts: seq<seq<int>>, i: nat)
    requires ValidMcu(p, s, ts) && i <= |ts|
    decreases |ts| - i
  {
    i < |ts| ==>
      && DiffFits(p, s, p.membership[i], ts[i])
      && DiffsFit(p, AfterBlock(p, s, p.membership[i], ts[i]), ts, i + 1)
  }

  // What is ahead of block i of an MCU, as that block and what is ahead of the next.
  lemma NextBlock(p: Scan, s: DcState, ts: seq<seq<int>>, i: nat, rest: seq<Decision>)
    requires ValidMcu(p, s, ts) && i < |ts| && |p.acK| == |p.dcL| == |p.dcU| == 16
    ensures var ci := p.membership[i]; var next := AfterBlock(p, s, ci, ts[i]);
      && McuDecisions(p, s, ts, i) + rest == BlockDecisions(p, s, ci, ts[i]) + (McuDecisions(p, next, ts, i + 1) + rest)
      && AfterMcu(p, s, ts, i) == AfterMcu(p, next, ts, i + 1)
      && (DiffsFit(p, s, ts, i) <==> DiffFits(p, s, ci, ts[i]) && DiffsFit(p, next, ts, i + 1))
  {
    hide BlockDecisions, AfterBlock, DiffFits;
  }

  lemma LastBlock(p: Scan, s: DcState, ts: seq<seq<int>>, rest: seq<Decision>)
    requires ValidMcu(p, s, ts)
    ensures McuDecisions(p, s, ts, |ts|) + rest == rest
    ensures AfterMcu(p, s, ts, |ts|) == s && DiffsFit(p, s, ts, |ts|)
  {
  }

  // What a block holds when its scan begins: zeros in the band of a first scan, and the AC
  // coefficients at the precision of the scan before in a refinement.
  ghost predicate Ready(p: Scan, before: seq<int>, t: seq<int>)
    requires ValidScan(p) && |t| == p.se + 1 && |before| == 64
  {
    match ModeOf(p)
    case DcRefine => true
    case AcRefine => KnownFrom(p, before, t, p.ss)
    case _ => ZeroBand(p, before, p.ss)
  }

  // Block arrays do not overlap with each other or with the statistics.
  ghost predicate Separate(blocks: seq<array<int>>, area: array<Stat>) {
    && (forall b :: 0 <= b < |blocks| ==> blocks[b].Length == 64 && blocks[b] != area as object)
    && (forall b, c :: 0 <= b < c < |blocks| ==> blocks[b] != blocks[c])
  }

  ghost function Contents(mcu: seq<array<int>>): (bs: seq<seq<int>>)
    reads mcu
    ensures |bs| == |mcu| && forall i :: 0 <= i < |bs| ==> bs[i] == mcu[i][..]
  {
    seq(|mcu|, i requires 0 <= i < |mcu| reads mcu => mcu[i][..])
  }

  ghost predicate McuFits(p: Scan, s: DcState, ts: seq<seq<int>>) {
    ValidMcu(p, s, ts) && DiffsFit(p, s, ts, 0)
  }

  // The prediction state s2 is the one after the MCU.
  ghost predicate McuLeadsTo(p: Scan, s: DcState, ts: seq<seq<int>>, s2: DcState) {
    ValidMcu(p, s, ts) && s2 == AfterMcu(p, s, ts, 0)
  }

  ghost predicate McuReady(p: Scan, before: seq<seq<int>>, ts: seq<seq<int>>) {
    && ValidScan(p) && |before| == |ts|
    && forall i :: 0 <= i < |ts| ==> |before[i]| == 64 && Fits(p, ts[i]) && Ready(p, before[i], ts[i])
  }

  ghost predicate McuReceived(p: Scan, before: seq<seq<int>>, after: seq<seq<int>>, ts: seq<seq<int>>) {
    && ValidScan(p) && |before| == |after| == |ts|
    && forall i :: 0 <= i < |ts| ==>
      && |before[i]| == |after[i]| == 64 && |ts[i]| == p.se + 1
      && Received(p, before[i], after[i], ts[i])
  }

  // What decoding a band makes of a block. A DC refinement does not depend on what is there: it
  // adds one bit to anything.
  ghost predicate Received(p: Scan, before: seq<int>, after: seq<int>, t: seq<int>)
    requires ValidScan(p) && |t| == p.se + 1 && |before| == |after| == 64
  {
    if ModeOf(p) == DcRefine then after == before[0 := if t[0] % 2 == 1 then WithBit(before[0], p.al) else before[0]]
    else Restored(p, before, after, t, p.ss, p.se)
  }

  // To a DC coefficient that is right but for its last bit, the bit makes it right.
  ghost predicate Primed(p: Scan, before: seq<int>, t: seq<int>)
    requires t != [] && before != []
  {
    ModeOf(p) == DcRefine ==> before[0] == Scaled(Floor(t[0], 1), p.al + 1)
  }

  lemma ReceivedIsRestored(p: Scan, before: seq<int>, after: seq<int>, t: seq<int>)
    requires ValidScan(p) && |t| == p.se + 1 && |before| == |after| == 64
    requires Received(p, before, after, t) && Primed(p, before, t)
    ensures Restored(p, before, after, t, p.ss, p.se)
  {
    hide Restored, Scaled, Floor;
    if ModeOf(p) == DcRefine {
      FloorStep(t[0], p.al);
      DcRestored(p, before, after, t);
    }
  }

  // Or-ing bit al into a two's complement value.
  function WithBit(v: int, al: nat): int {
    if Floor(v, al) % 2 == 1 then v else v + Pow2(al)
  }

  lemma FloorStep(t: int, al: nat)
    ensures var coarse := Scaled(Floor(t, 1), al + 1);
      Scaled(t, al) == if t % 2 == 1 then WithBit(coarse, al) else coarse
  {
    var h, d := Floor(t, 1), Pow2(al);
    assert Pow2(1) == 2;
    assert t == 2 * h + t % 2;
    ScaledParts(h, t % 2, d);
    assert Floor(2 * h * d, al) == 2 * h by {
      FloorOfMultiple(2 * h, al);
    }
  }

  lemma FloorOfMultiple(q: int, al: nat)
    ensures Floor(q * Pow2(al), al) == q
  {
    var d := Pow2(al);
    var x, y := (q * d) / d, (q * d) % d;
    assert (x - q) * d == -y by {
      assert q * d == x * d + y;
    }
    if x > q {
      MulGrows(x - q, d);
    } else if x < q {
      MulGrows(d, q - x);
    }
  }

  lemma DcRestored(p: Scan, before: seq<int>, after: seq<int>, t: seq<int>)
    requires ValidScan(p) && |t| == p.se + 1 && |before| == |after| == 64 && p.se == 0
    ensures after == before[0 := Scaled(t[0], p.al)] ==> Restored(p, before, after, t, 0, 0)
  {
    hide Scaled;
  }

  lemma BlockRestored(p: Scan, before: seq<int>, mid: seq<int>, after: seq<int>, t: seq<int>)
    requires ValidScan(p) && |t| == p.se + 1 && |before| == |after| == 64
    ensures (mid == before[0 := Scaled(t[0], p.al)] && Restored(p, mid, after, t, 1, p.se)) ==>
      Restored(p, before, after, t, 0, p.se)
    ensures mid == before[0 := Scaled(t[0], p.al)] && ZeroBand(p, before, 0) ==> ZeroBand(p, mid, 1)
  {
    hide Scaled;
    if mid == before[0 := Scaled(t[0], p.al)] {
      assert forall k :: 1 <= k <= p.se ==> p.order[k] != p.order[0];
    }
  }
}
