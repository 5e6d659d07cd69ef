// The restart segments of an arithmetic-coded scan stand alone: each is the code of its own MCUs
// from statistics and predictions that are zero, whatever was sent before.
module RestartSegments {
  import opened Powers
  import opened ProbabilityTable
  import opened ExactCoder
  import opened Termination
  import opened DecisionModel
  import opened ScanModel
  import opened CodingLimits

  // ----- The bins a segment uses -----

  ghost predicate ShortMcu(ts: Mcu) {
    forall i, k :: 0 <= i < |ts| && 0 <= k < |ts[i]| ==> InShort(ts[i][k])
  }

  ghost predicate ShortMcus(mcus: seq<Mcu>) {
    forall j :: 0 <= j < |mcus| ==> ShortMcu(mcus[j])
  }

  ghost predicate ShortState(s: DcState) {
    ValidDc(s) && forall i :: 0 <= i < 4 ==> InShort(s.last[i])
  }

  // Every DC difference stays in its table, even one too wide to be decoded.
  lemma DcInTable(area: nat, context: nat, v: int)
    requires context <= 16 && Abs(v) <= 0x10000
    ensures Within(DcDecisions(area, context, v), area, DC_STAT_BINS - 1)
  {
    hide Category, LowBits, Log2;
    if Abs(v) > 1 {
      var u := Abs(v) - 1;
      Pow2Values();
      Log2Below(u, 16);
      CategoryWithin(area, area + 20, u, DC_STAT_BINS - 1);
      LowBitsWithin(area, area + 20 + Log2(u) + 14, u, Log2(u), DC_STAT_BINS - 1);
    }
  }

  // The bins are those the scan clears, and the fixed one.
  ghost predicate Clearable(p: Scan, d: Decision)
    requires ValidScan(p)
  {
    d.bin == FIXED_BIN || InTables(p, EncoderClearsDc(p), EncoderClearsAc(p), |p.dcTbl|, d.bin)
  }

  ghost predicate AllClearable(p: Scan, ds: seq<Decision>)
    requires ValidScan(p)
  {
    forall d :: d in ds ==> Clearable(p, d)
  }

  lemma DcClearable(p: Scan, ci: nat, ds: seq<Decision>)
    requires ValidScan(p) && ci < |p.dcTbl| && EncoderClearsDc(p)
    requires Within(ds, DcArea(p.dcTbl[ci]), DC_STAT_BINS - 1)
    ensures AllClearable(p, ds)
  {
    forall d | d in ds
      ensures Clearable(p, d)
    {
      assert d.bin != FIXED_BIN ==> InTablesOf(p, true, EncoderClearsAc(p), ci, d.bin);
    }
  }

  lemma AcClearable(p: Scan, ci: nat, ds: seq<Decision>)
    requires ValidScan(p) && ci < |p.dcTbl| && EncoderClearsAc(p)
    requires Within(ds, AcArea(p.acTbl[ci]), LAST_AC_BIN)
    ensures AllClearable(p, ds)
  {
    forall d | d in ds
      ensures Clearable(p, d)
    {
      assert d.bin != FIXED_BIN ==> InTablesOf(p, EncoderClearsDc(p), true, ci, d.bin);
    }
  }

  lemma BlockClearable(p: Scan, s: DcState, ci: nat, t: seq<int>)
    requires ValidScan(p) && ShortState(s) && ci < |p.dcTbl| && |t| == p.se + 1
    requires forall k :: 0 <= k < |t| ==> InShort(t[k])
    ensures AllClearable(p, BlockDecisions(p, s, ci, t))
  {
    hide DcDecisions, AcBlock, RefineBlock, AllClearable, Within;
    var dc, ac := DcArea(p.dcTbl[ci]), AcArea(p.acTbl[ci]);
    var ke := LastNonzero(t, p.se);
    match ModeOf(p)
    case Sequential =>
      DcInTable(dc, s.context[ci], t[0] - s.last[ci]);
      DcClearable(p, ci, DcDecisions(dc, s.context[ci], t[0] - s.last[ci]));
      var ds := AcBlock(ac, p.acK[p.acTbl[ci]], t, 1, ke, p.se);
      if p.se > 0 {
        AcBlockWithin(ac, p.acK[p.acTbl[ci]], t, 1, ke, p.se);
        AcClearable(p, ci, ds);
      } else {
        BandEnds(ac, p.acK[p.acTbl[ci]], t, ke, p.se);
      }
      BothClearable(p, DcDecisions(dc, s.context[ci], t[0] - s.last[ci]), ds);
    case DcFirst =>
      DcInTable(dc, s.context[ci], t[0] - s.last[ci]);
      DcClearable(p, ci, DcDecisions(dc, s.context[ci], t[0] - s.last[ci]));
    case AcFirst =>
      AcBlockWithin(ac, p.acK[p.acTbl[ci]], t, p.ss, ke, p.se);
      AcClearable(p, ci, AcBlock(ac, p.acK[p.acTbl[ci]], t, p.ss, ke, p.se));
    case DcRefine => FixedClearable(p, t[0] % 2 == 1);
    case AcRefine =>
      RefineBlockWithin(ac, t, p.ss, ke, LastKnown(t, ke), p.se);
      AcClearable(p, ci, RefineBlock(ac, t, p.ss, ke, LastKnown(t, ke), p.se));
  }

  lemma BothClearable(p: Scan, a: seq<Decision>, b: seq<Decision>)
    requires ValidScan(p) && AllClearable(p, a) && (b == [] || AllClearable(p, b))
    ensures AllClearable(p, a + b)
  {
    hide Clearable;
  }

  lemma FixedClearable(p: Scan, b: bool)
    requires ValidScan(p)
    ensures AllClearable(p, [Decision(FIXED_BIN, b)]) && AllClearable(p, [])
  {
  }

  lemma {:induction false} McuClearable(p: Scan, s: DcState, ts: Mcu, i: nat)
    requires ValidMcu(p, s, ts) && ShortState(s) && ShortMcu(ts) && i <= |ts|
    ensures AllClearable(p, McuDecisions(p, s, ts, i)) && ShortState(AfterMcu(p, s, ts, i))
    decreases |ts| - i
  {
    hide BlockDecisions, AllClearable, DcContext;
    if i < |ts| {
      var next := AfterBlock(p, s, p.membership[i], ts[i]);
      BlockClearable(p, s, p.membership[i], ts[i]);
      McuClearable(p, next, ts, i + 1);
      BothClearable(p, BlockDecisions(p, s, p.membership[i], ts[i]), McuDecisions(p, next, ts, i + 1));
    } else {
      FixedClearable(p, true);
    }
  }

  lemma {:induction false} McusClearable(p: Scan, s: DcState, mcus: seq<Mcu>, i: nat)
    requires ValidMcus(p, mcus) && ShortState(s) && ShortMcus(mcus) && i <= |mcus|
    ensures AllClearable(p, McusFrom(p, s, mcus, i))
    decreases |mcus| - i
  {
    hide McuDecisions, AfterMcu, AllClearable, ShortState, ShortMcu;
    if i < |mcus| {
      ShortIsValid(s);
      McuClearable(p, s, mcus[i], 0);
      McusClearable(p, AfterMcu(p, s, mcus[i], 0), mcus, i + 1);
      BothClearable(p, McuDecisions(p, s, mcus[i], 0), McusFrom(p, AfterMcu(p, s, mcus[i], 0), mcus, i + 1));
    } else {
      FixedClearable(p, true);
    }
  }

  lemma ShortIsValid(s: DcState)
    requires ShortState(s)
    ensures |s.last| == |s.context| == 4
  {
  }

  // ----- What they start from -----

  // Statistics that nothing has been learned in.
  function Clean(): (stats: seq<Stat>)
    ensures |stats| == AREA_SIZE
    ensures forall bin :: 0 <= bin < AREA_SIZE ==> stats[bin] == if bin == FIXED_BIN then FIXED_STATE else 0
  {
    seq(AREA_SIZE, bin => if bin == FIXED_BIN then FIXED_STATE else 0)
  }

  ghost predicate IsArea(stats: seq<Stat>) {
    |stats| == AREA_SIZE && stats[FIXED_BIN] == FIXED_STATE
  }

  lemma FreshIsArea(p: Scan, stats: seq<Stat>)
    requires ValidScan(p) && IsArea(stats)
    ensures IsArea(Fresh(p, stats))
  {
    assert !InTables(p, EncoderClearsDc(p), EncoderClearsAc(p), |p.dcTbl|, FIXED_BIN);
  }

  lemma FreshIsClean(p: Scan, stats: seq<Stat>, d: Decision)
    requires ValidScan(p) && IsArea(stats) && Clearable(p, d)
    ensures d.bin < AREA_SIZE && Fresh(p, stats)[d.bin] == Clean()[d.bin]
  {
    if d.bin == FIXED_BIN {
      FreshIsArea(p, stats);
    }
  }

  lemma LeavesArea(p: Scan, g: Segment)
    requires GoodSegment(p, g) && IsArea(g.start)
    ensures ValidMcus(p, g.mcus) && InBins(SegmentDecisions(p, g), |g.start|) && IsArea(StatsAfter(p, g))
  {
    hide McusFrom, IsShortestCode, ValidMcus, Run;
    FixedBinStays(Initial(g.start), SegmentDecisions(p, g));
  }

  // Where a segment starts: in what the one before it has left, cleared.
  lemma {:induction false} StartOf(p: Scan, first: seq<Stat>, segments: seq<Segment>, i: nat, stats: seq<Stat>)
    returns (before: seq<Stat>)
    requires Recorded(p, first, segments) && i < |segments| && IsArea(stats) && first == Fresh(p, stats)
    ensures IsArea(before) && GoodSegment(p, segments[i]) && segments[i].start == Fresh(p, before)
    decreases i
  {
    hide Recorded, Fresh, StatsAfter, IsArea, Chain, McusFrom, Run, IsShortestCode, ValidMcu, ValidScan;
    RecordedAt(p, first, segments, i);
    before := stats;
    if i > 0 {
      var earlier := StartOf(p, first, segments, i - 1, stats);
      FreshIsArea(p, earlier);
      LeavesArea(p, segments[i - 1]);
      before := StatsAfter(p, segments[i - 1]);
    }
  }

  // Every statistics bin a segment uses is zero when the segment begins.
  lemma SegmentStartsClean(p: Scan, stats: seq<Stat>, segments: seq<Segment>, i: nat)
    requires ValidScan(p) && IsArea(stats) && Recorded(p, Fresh(p, stats), segments)
    requires i < |segments| && ShortMcus(segments[i].mcus)
    ensures ValidMcus(p, segments[i].mcus)
    ensures forall d :: d in SegmentDecisions(p, segments[i]) ==>
      d.bin < |segments[i].start| && segments[i].start[d.bin] == if d.bin == FIXED_BIN then FIXED_STATE else 0
  {
    hide Recorded, Fresh, StatsAfter, IsArea, McusFrom, ShortMcus, ValidMcus, InBins, IsShortestCode, Run, Clearable;
    var before := StartOf(p, Fresh(p, stats), segments, i, stats);
    McusClearable(p, InitialDc(), segments[i].mcus, 0) by {
      assert ShortState(InitialDc());
    }
    FreshIsArea(p, before);
    AreaSize(Fresh(p, before));
    forall d | d in SegmentDecisions(p, segments[i])
      ensures d.bin < AREA_SIZE && Fresh(p, before)[d.bin] == Clean()[d.bin]
    {
      FreshIsClean(p, before, d);
    }
  }

  lemma AreaSize(stats: seq<Stat>)
    requires IsArea(stats)
    ensures |stats| == AREA_SIZE
  {
  }

  // ----- Standing alone -----

  ghost predicate AgreeOn(a: seq<Stat>, b: seq<Stat>, ds: seq<Decision>) {
    |a| == |b| && forall d :: d in ds ==> d.bin < |a| && a[d.bin] == b[d.bin]
  }

  // The interval depends on the statistics of the bins in use only.
  lemma {:induction false} RunAgrees(s: State, r: State, ds: seq<Decision>)
    requires Normalized(s.i) && s.i == r.i && AgreeOn(s.stats, r.stats, ds)
    ensures InBins(ds, |s.stats|) && Run(s, ds).i == Run(r, ds).i
    decreases ds
  {
    hide Renorm, Split, NextStat, Aritab, Normalized;
    if ds != [] {
      RunAgrees(Step(s, ds[0]), Step(r, ds[0]), ds[1..]);
    }
  }

  // A segment is a shortest code of its own decisions from clean statistics.
  lemma SegmentStandsAlone(p: Scan, stats: seq<Stat>, segments: seq<Segment>, i: nat)
    requires ValidScan(p) && IsArea(stats) && Recorded(p, Fresh(p, stats), segments)
    requires i < |segments| && ShortMcus(segments[i].mcus)
    ensures ValidMcus(p, segments[i].mcus) && InBins(SegmentDecisions(p, segments[i]), AREA_SIZE)
    ensures IsShortestCode(Run(Initial(Clean()), SegmentDecisions(p, segments[i])).i, segments[i].sent)
  {
    hide Recorded, McusFrom, Run, ValidMcus, IsShortestCode, Fresh, IsArea, ShortMcus, StatsAfter;
    SegmentStartsClean(p, stats, segments, i);
    var before := StartOf(p, Fresh(p, stats), segments, i, stats);
    FreshIsArea(p, before);
    AreaSize(Fresh(p, before));
    RunAgrees(Initial(segments[i].start), Initial(Clean()), SegmentDecisions(p, segments[i]));
  }

  // ----- Predictions -----

  // A block and its component.
  datatype Placed = Placed(ci: nat, t: seq<int>)

  // The last DC value of a component among the blocks, 0 if there is none.
  function LastDc(done: seq<Placed>, ci: nat): int
    requires forall b :: b in done ==> b.t != []
  {
    if done == [] then 0
    else
      var n := |done| - 1;
      if done[n].ci == ci then done[n].t[0] else LastDc(done[..n], ci)
  }

  // The last DC difference of a component.
  function LastDifference(done: seq<Placed>, ci: nat): int
    requires forall b :: b in done ==> b.t != []
  {
    if done == [] then 0
    else
      var n := |done| - 1;
      if done[n].ci == ci then done[n].t[0] - LastDc(done[..n], ci) else LastDifference(done[..n], ci)
  }

  ghost predicate PlacedIn(p: Scan, bs: seq<Placed>) {
    ValidScan(p) && forall b :: b in bs ==> b.ci < |p.dcTbl| && |b.t| == p.se + 1
  }

  // Each block after others is predicted by the last one of its component, and conditioned on
  // that one's difference.
  ghost function StateAfter(p: Scan, done: seq<Placed>): (s: DcState)
    requires PlacedIn(p, done)
    ensures |s.last| == |s.context| == 4
  {
    DcState(seq(4, ci requires 0 <= ci < 4 => LastDc(done, ci)), seq(4, ci requires 0 <= ci < 4 =>
      if ci < |p.dcTbl| then DcContext(LastDifference(done, ci), p.dcL[p.dcTbl[ci]], p.dcU[p.dcTbl[ci]]) else 0))
  }

  ghost function PredictedFrom(p: Scan, done: seq<Placed>, ahead: seq<Placed>): seq<Decision>
    requires PlacedIn(p, done) && PlacedIn(p, ahead)
    decreases |ahead|
  {
    if ahead == [] then []
    else
      var b := ahead[0];
      BlockDecisions(p, StateAfter(p, done), b.ci, b.t) + PredictedFrom(p, done + [b], ahead[1..])
  }

  ghost predicate Tracks(p: Scan, s: DcState, done: seq<Placed>) {
    && PlacedIn(p, done) && |s.last| == |s.context| == 4
    && (ModeOf(p) == Sequential || ModeOf(p) == DcFirst ==> s == StateAfter(p, done))
  }

  lemma StartTracks(p: Scan)
    requires ValidScan(p)
    ensures Tracks(p, InitialDc(), [])
  {
    assert StateAfter(p, []).last == [0, 0, 0, 0];
    assert StateAfter(p, []).context == [0, 0, 0, 0];
  }

  lemma NextTracks(p: Scan, s: DcState, done: seq<Placed>, b: Placed)
    requires Tracks(p, s, done) && PlacedIn(p, [b])
    ensures Tracks(p, AfterBlock(p, s, b.ci, b.t), done + [b])
    ensures BlockDecisions(p, s, b.ci, b.t) == BlockDecisions(p, StateAfter(p, done), b.ci, b.t)
  {
    hide DcDecisions, AcDecisions, RefineDecisions, DcContext;
    assert b in [b];
    assert (done + [b])[..|done|] == done;
    if ModeOf(p) == Sequential || ModeOf(p) == DcFirst {
      var r, u := AfterBlock(p, s, b.ci, b.t), StateAfter(p, done + [b]);
      assert r.last == u.last && r.context == u.context;
    }
  }

  ghost function McuBlocks(p: Scan, ts: Mcu): (bs: seq<Placed>)
    requires ValidMcu(p, InitialDc(), ts)
    ensures |bs| == |ts| && PlacedIn(p, bs) && forall i :: 0 <= i < |bs| ==> bs[i] == Placed(p.membership[i], ts[i])
  {
    seq(|ts|, i requires 0 <= i < |ts| => Placed(p.membership[i], ts[i]))
  }

  ghost function BlocksFrom(p: Scan, mcus: seq<Mcu>, j: nat): (bs: seq<Placed>)
    requires ValidMcus(p, mcus) && j <= |mcus|
    ensures PlacedIn(p, bs)
    decreases |mcus| - j
  {
    if j == |mcus| then [] else McuBlocks(p, mcus[j]) + BlocksFrom(p, mcus, j + 1)
  }

  lemma PredictedNext(p: Scan, done: seq<Placed>, b: Placed, ahead: seq<Placed>)
    requires PlacedIn(p, done) && PlacedIn(p, [b]) && PlacedIn(p, ahead)
    ensures PlacedIn(p, done + [b]) && PlacedIn(p, [b] + ahead) && b.ci < |p.dcTbl| && |b.t| == p.se + 1
    ensures PredictedFrom(p, done, [b] + ahead)
         == BlockDecisions(p, StateAfter(p, done), b.ci, b.t) + PredictedFrom(p, done + [b], ahead)
  {
    hide BlockDecisions, StateAfter;
    assert b in [b] && ([b] + ahead)[0] == b && ([b] + ahead)[1..] == ahead;
  }

  lemma BlocksLeft(p: Scan, ts: Mcu, i: nat, done: seq<Placed>, more: seq<Placed>)
    requires ValidMcu(p, InitialDc(), ts) && i < |ts| && PlacedIn(p, done) && PlacedIn(p, more)
    ensures var b, rest := McuBlocks(p, ts)[i], McuBlocks(p, ts)[i + 1..];
      && b == Placed(p.membership[i], ts[i]) && PlacedIn(p, [b]) && PlacedIn(p, rest + more)
      && McuBlocks(p, ts)[i..] + more == [b] + (rest + more) && done + McuBlocks(p, ts)[i..] == done + [b] + rest
  {
  }

  lemma {:induction false} McuIsPredicted(p: Scan, s: DcState, ts: Mcu, i: nat, done: seq<Placed>, more: seq<Placed>)
    requires ValidMcu(p, s, ts) && ValidMcu(p, InitialDc(), ts) && i <= |ts| && Tracks(p, s, done) && PlacedIn(p, more)
    ensures Tracks(p, AfterMcu(p, s, ts, i), done + McuBlocks(p, ts)[i..])
    ensures PlacedIn(p, McuBlocks(p, ts)[i..] + more)
    ensures PredictedFrom(p, done, McuBlocks(p, ts)[i..] + more)
         == McuDecisions(p, s, ts, i) + PredictedFrom(p, done + McuBlocks(p, ts)[i..], more)
    decreases |ts| - i
  {
    hide BlockDecisions, AfterBlock, StateAfter, PredictedFrom, McuBlocks;
    if i == |ts| {
      var ahead := McuBlocks(p, ts)[i..];
      assert ahead == [] && ahead + more == more && done + ahead == done;
    } else {
      var b, rest := McuBlocks(p, ts)[i], McuBlocks(p, ts)[i + 1..];
      BlocksLeft(p, ts, i, done, more);
      hide PlacedIn;
      NextTracks(p, s, done, b);
      PredictedNext(p, done, b, rest + more);
      McuIsPredicted(p, AfterBlock(p, s, b.ci, b.t), ts, i + 1, done + [b], more);
    }
  }

  lemma {:induction false} McusArePredicted(p: Scan, s: DcState, mcus: seq<Mcu>, j: nat, done: seq<Placed>)
    requires ValidMcus(p, mcus) && j <= |mcus| && Tracks(p, s, done)
    ensures McusFrom(p, s, mcus, j) == PredictedFrom(p, done, BlocksFrom(p, mcus, j))
    decreases |mcus| - j
  {
    hide McuDecisions, AfterMcu, StateAfter, PlacedIn;
    if j < |mcus| {
      var bs := McuBlocks(p, mcus[j]);
      assert bs[0..] == bs;
      McuIsPredicted(p, s, mcus[j], 0, done, BlocksFrom(p, mcus, j + 1));
      McusArePredicted(p, AfterMcu(p, s, mcus[j], 0), mcus, j + 1, done + bs);
    }
  }

  // In every segment a DC value is predicted by the last one of its component in that segment, by
  // zero if it is the first.
  lemma SegmentIsPredicted(p: Scan, g: Segment)
    requires ValidMcus(p, g.mcus)
    ensures SegmentDecisions(p, g) == PredictedFrom(p, [], BlocksFrom(p, g.mcus, 0))
  {
    hide McusFrom, PredictedFrom, BlocksFrom, Tracks;
    StartTracks(p);
    McusArePredicted(p, InitialDc(), g.mcus, 0, []);
  }
}
