// Scans as sequences of restart segments: which decisions each segment holds, in which
// statistics it starts, and how the segments lie in the byte stream.
module ScanModel {
  import opened Bytes
  import opened ProbabilityTable
  import opened ExactCoder
  import opened Termination
  import opened DecisionModel

  ghost predicate ValidMcus(p: Scan, mcus: seq<Mcu>) {
    ValidScan(p) && forall i :: 0 <= i < |mcus| ==> ValidMcu(p, InitialDc(), mcus[i])
  }

  // The decisions of the MCUs from MCU i on, with prediction state s.
  ghost function McusFrom(p: Scan, s: DcState, mcus: seq<Mcu>, i: nat): seq<Decision>
    requires ValidMcus(p, mcus) && |s.last| == |s.context| == 4 && i <= |mcus|
    decreases |mcus| - i
  {
    if i == |mcus| then []
    else McuDecisions(p, s, mcus[i], 0) + McusFrom(p, AfterMcu(p, s, mcus[i], 0), mcus, i + 1)
  }

  ghost function AfterMcus(p: Scan, s: DcState, mcus: seq<Mcu>, i: nat): (r: DcState)
    requires ValidMcus(p, mcus) && |s.last| == |s.context| == 4 && i <= |mcus|
    ensures |r.last| == |r.context| == 4
    decreases |mcus| - i
  {
    if i == |mcus| then s else AfterMcus(p, AfterMcu(p, s, mcus[i], 0), mcus, i + 1)
  }

  lemma {:induction false} McusAppend(p: Scan, s: DcState, mcus: seq<Mcu>, m: Mcu, i: nat)
    requires ValidMcus(p, mcus) && ValidMcu(p, InitialDc(), m)
    requires |s.last| == |s.context| == 4 && i <= |mcus|
    ensures McusFrom(p, s, mcus + [m], i)
         == McusFrom(p, s, mcus, i) + McuDecisions(p, AfterMcus(p, s, mcus, i), m, 0)
    ensures AfterMcus(p, s, mcus + [m], i) == AfterMcu(p, AfterMcus(p, s, mcus, i), m, 0)
    decreases |mcus| - i
  {
    hide McuDecisions, AfterMcu;
    if i < |mcus| {
      McusAppend(p, AfterMcu(p, s, mcus[i], 0), mcus, m, i + 1);
    }
  }

  // ----- Statistics -----

  // Which statistics bytes belong to a table of the first n components of the scan.
  predicate InTables(p: Scan, dc: bool, ac: bool, n: nat, j: int)
    requires n <= |p.dcTbl| && n <= |p.acTbl|
  {
    exists ci :: 0 <= ci < n && InTablesOf(p, dc, ac, ci, j)
  }

  predicate InTablesOf(p: Scan, dc: bool, ac: bool, ci: nat, j: int)
    requires ci < |p.dcTbl| && ci < |p.acTbl|
  {
    || (dc && DcArea(p.dcTbl[ci]) <= j < DcArea(p.dcTbl[ci]) + DC_STAT_BINS)
    || (ac && AcArea(p.acTbl[ci]) <= j < AcArea(p.acTbl[ci]) + AC_STAT_BINS)
  }

  ghost function Cleared(p: Scan, dc: bool, ac: bool, n: nat, stats: seq<Stat>): (r: seq<Stat>)
    requires n <= |p.dcTbl| && n <= |p.acTbl|
    ensures |r| == |stats|
  {
    seq(|stats|, j requires 0 <= j < |stats| => if InTables(p, dc, ac, n, j) then 0 else stats[j])
  }

  method ZeroTable(stats: array<Stat>, from: nat, count: nat)
    requires from + count <= stats.Length
    modifies stats
    ensures forall j :: 0 <= j < stats.Length ==> stats[j] == if from <= j < from + count then 0 else old(stats[j])
  {
    for i := 0 to count
      invariant forall j :: 0 <= j < stats.Length ==> stats[j] == if from <= j < from + i then 0 else old(stats[j])
    {
      stats[from + i] := 0;
    }
  }

  // Re-initialize the statistics areas of the components in the scan.
  method ClearTables(stats: array<Stat>, p: Scan, dc: bool, ac: bool)
    requires stats.Length == AREA_SIZE && ValidScan(p)
    modifies stats
    ensures stats[..] == Cleared(p, dc, ac, |p.dcTbl|, old(stats[..]))
  {
    for ci := 0 to |p.dcTbl|
      invariant forall j :: 0 <= j < stats.Length ==>
        stats[j] == if InTables(p, dc, ac, ci, j) then 0 else old(stats[j])
    {
      ghost var before := stats[..];
      if dc {
        ZeroTable(stats, DcArea(p.dcTbl[ci]), DC_STAT_BINS);
      }
      if ac {
        ZeroTable(stats, AcArea(p.acTbl[ci]), AC_STAT_BINS);
      }
      forall j | 0 <= j < stats.Length
        ensures stats[j] == if InTables(p, dc, ac, ci + 1, j) then 0 else old(stats[j])
      {
        assert stats[j] == if InTablesOf(p, dc, ac, ci, j) then 0 else before[j];
        assert InTables(p, dc, ac, ci + 1, j) <==> InTables(p, dc, ac, ci, j) || InTablesOf(p, dc, ac, ci, j);
      }
    }
  }

  // Which tables start_pass and emit_restart clear in the encoder.
  predicate EncoderClearsDc(p: Scan) {
    p.ss == 0 && p.ah == 0
  }

  predicate EncoderClearsAc(p: Scan) {
    p.se != 0
  }

  // Which tables start_pass and process_restart clear in the decoder.
  predicate DecoderClearsDc(p: Scan) {
    !p.progressive || (p.ss == 0 && p.ah == 0)
  }

  predicate DecoderClearsAc(p: Scan) {
    (!p.progressive && p.se != 0) || (p.progressive && p.ss != 0)
  }

  // The two sides test different fields, to the same effect.
  lemma SameTablesCleared(p: Scan)
    requires ValidScan(p)
    ensures EncoderClearsDc(p) == DecoderClearsDc(p) && EncoderClearsAc(p) == DecoderClearsAc(p)
  {
  }

  ghost function Fresh(p: Scan, stats: seq<Stat>): (r: seq<Stat>)
    requires ValidScan(p)
    ensures |r| == |stats|
  {
    Cleared(p, EncoderClearsDc(p), EncoderClearsAc(p), |p.dcTbl|, stats)
  }

  // ----- Segments -----

  datatype Segment = Segment(start: seq<Stat>, mcus: seq<Mcu>, sent: seq<byte>)

  ghost function SegmentDecisions(p: Scan, g: Segment): seq<Decision>
    requires ValidMcus(p, g.mcus)
  {
    McusFrom(p, InitialDc(), g.mcus, 0)
  }

  // The bytes of a segment are the code of its decisions.
  ghost predicate GoodSegment(p: Scan, g: Segment) {
    && ValidMcus(p, g.mcus)
    && InBins(SegmentDecisions(p, g), |g.start|)
    && IsShortestCode(Run(Initial(g.start), SegmentDecisions(p, g)).i, g.sent)
  }

  ghost function StatsAfter(p: Scan, g: Segment): seq<Stat>
    requires ValidMcus(p, g.mcus) && InBins(SegmentDecisions(p, g), |g.start|)
  {
    Run(Initial(g.start), SegmentDecisions(p, g)).stats
  }

  // Closed segments: each has the length of the restart interval and starts in what the one
  // before left, with the tables of the scan cleared; start is where the next one starts.
  ghost predicate Chain(p: Scan, first: seq<Stat>, segments: seq<Segment>, start: seq<Stat>)
    requires ValidScan(p)
  {
    if segments == [] then start == first
    else
      var last := segments[|segments| - 1];
      && GoodSegment(p, last) && |last.mcus| == p.restart
      && start == Fresh(p, StatsAfter(p, last))
      && Chain(p, first, segments[..|segments| - 1], last.start)
  }

  lemma ChainGrows(p: Scan, first: seq<Stat>, segments: seq<Segment>, g: Segment)
    requires ValidScan(p) && Chain(p, first, segments, g.start) && GoodSegment(p, g) && |g.mcus| == p.restart
    ensures Chain(p, first, segments + [g], Fresh(p, StatsAfter(p, g)))
  {
    assert (segments + [g])[..|segments|] == segments;
  }

  // A finished scan: only the last segment may be short, and none but a sole one is empty.
  ghost predicate Recorded(p: Scan, first: seq<Stat>, segments: seq<Segment>) {
    && ValidScan(p) && segments != []
    && GoodSegment(p, segments[|segments| - 1])
    && (if p.restart == 0 then |segments| == 1 else |segments[|segments| - 1].mcus| <= p.restart)
    && (|segments| > 1 ==> segments[|segments| - 1].mcus != [])
    && Chain(p, first, segments[..|segments| - 1], segments[|segments| - 1].start)
  }

  lemma {:induction false} RecordedAt(p: Scan, first: seq<Stat>, segments: seq<Segment>, i: nat)
    requires Recorded(p, first, segments) && i < |segments|
    ensures GoodSegment(p, segments[i])
    ensures p.restart == 0 ==> |segments| == 1
    ensures p.restart > 0 ==> |segments[i].mcus| <= p.restart
    ensures i == 0 ==> segments[i].start == first
    ensures i > 0 ==> |segments[i - 1].mcus| == p.restart && GoodSegment(p, segments[i - 1])
    ensures i > 0 ==> segments[i].start == Fresh(p, StatsAfter(p, segments[i - 1]))
    decreases |segments|
  {
    hide GoodSegment, Fresh, StatsAfter;
    var front := segments[..|segments| - 1];
    if i < |front| {
      RecordedAt(p, first, front, i);
    } else if i > 0 {
      assert front[|front| - 1] == segments[i - 1];
    }
  }

  lemma LaterNotEmpty(p: Scan, first: seq<Stat>, segments: seq<Segment>, i: nat)
    requires Recorded(p, first, segments) && 0 < i < |segments|
    ensures segments[i].mcus != []
  {
    hide GoodSegment, StatsAfter, Fresh, Chain;
    if i < |segments| - 1 {
      RecordedAt(p, first, segments, i + 1);
    }
  }

  function RestartMarker(i: nat): seq<byte> {
    [0xFF, 0xD0 + i % 8]
  }

  // Segments closed by restart markers.
  function MarkedBytes(segments: seq<Segment>): seq<byte> {
    if segments == [] then []
    else
      var last := |segments| - 1;
      MarkedBytes(segments[..last]) + Stuff(segments[last].sent) + RestartMarker(last)
  }

  // The stream from segment i on, with tail behind the last one.
  function StreamFrom(segments: seq<Segment>, i: nat, tail: seq<byte>): seq<byte>
    requires i < |segments|
    decreases |segments| - i
  {
    Stuff(segments[i].sent)
    + (if i == |segments| - 1 then tail else RestartMarker(i) + StreamFrom(segments, i + 1, tail))
  }

  lemma {:induction false} StreamIsMarked(segments: seq<Segment>, i: nat, tail: seq<byte>)
    requires i < |segments|
    ensures MarkedBytes(segments[..i]) + StreamFrom(segments, i, tail)
         == MarkedBytes(segments[..|segments| - 1]) + Stuff(segments[|segments| - 1].sent) + tail
    decreases |segments| - i
  {
    if i < |segments| - 1 {
      StreamIsMarked(segments, i + 1, tail);
      assert segments[..i + 1][..i] == segments[..i];
    }
  }

  // What a decoder finds at the start of segment i.
  lemma StreamReads(segments: seq<Segment>, i: nat, tail: seq<byte>)
    requires i < |segments| && StartsWithMarker(tail)
    ensures var src := StreamFrom(segments, i, tail);
      && Unstuff(src) == segments[i].sent
      && (i < |segments| - 1 ==>
          Marker(src) == RestartMarker(i)[1] && Behind(src) == StreamFrom(segments, i + 1, tail))
  {
    hide Stuff, Unstuff, Marker, Behind;
    var rest := if i == |segments| - 1 then tail else RestartMarker(i) + StreamFrom(segments, i + 1, tail);
    UnstuffStuff(segments[i].sent, rest);
    MarkerBehindStuff(segments[i].sent, rest);
    if i < |segments| - 1 {
      assert rest[2..] == StreamFrom(segments, i + 1, tail);
    }
  }

  // ----- All MCUs of a scan -----

  ghost function AllMcus(segments: seq<Segment>): seq<Mcu> {
    if segments == [] then []
    else AllMcus(segments[..|segments| - 1]) + segments[|segments| - 1].mcus
  }

  lemma AllMcusGrows(segments: seq<Segment>, g: Segment)
    ensures AllMcus(segments + [g]) == AllMcus(segments) + g.mcus
  {
    assert (segments + [g])[..|segments|] == segments;
  }

  lemma MarkedGrows(segments: seq<Segment>, g: Segment)
    ensures MarkedBytes(segments + [g]) == MarkedBytes(segments) + Stuff(g.sent) + RestartMarker(|segments|)
  {
    assert (segments + [g])[..|segments|] == segments;
  }

  // The MCUs from segment i on.
  ghost function McusAhead(segments: seq<Segment>, i: nat): seq<Mcu>
    requires i <= |segments|
    decreases |segments| - i
  {
    if i == |segments| then [] else segments[i].mcus + McusAhead(segments, i + 1)
  }

  lemma {:induction false} AllMcusAhead(segments: seq<Segment>, i: nat)
    requires i <= |segments|
    ensures AllMcus(segments[..i]) + McusAhead(segments, i) == AllMcus(segments)
    decreases |segments| - i
  {
    hide AllMcus;
    if i == |segments| {
      assert segments[..i] == segments;
    } else {
      assert segments[..i + 1] == segments[..i] + [segments[i]];
      AllMcusGrows(segments[..i], segments[i]);
      AllMcusAhead(segments, i + 1);
    }
  }

  // An encoder between two MCUs: the segments closed and their bytes, and the MCUs of the
  // open one with their decisions and the prediction state they lead to.
  ghost predicate OpenScan(p: Scan, head: seq<byte>, first: seq<Stat>, segments: seq<Segment>, current: seq<Mcu>,
                           closed: seq<byte>, start: seq<Stat>, history: seq<Decision>, dc: DcState)
  {
    && ValidScan(p) && ValidMcus(p, current)
    && closed == head + MarkedBytes(segments)
    && Chain(p, first, segments, start)
    && history == McusFrom(p, InitialDc(), current, 0)
    && dc == AfterMcus(p, InitialDc(), current, 0)
  }

  lemma ScanOpens(p: Scan, head: seq<byte>, first: seq<Stat>)
    requires ValidScan(p)
    ensures OpenScan(p, head, first, [], [], head, first, [], InitialDc())
  {
  }

  lemma OpenMcu(p: Scan, head: seq<byte>, first: seq<Stat>, segments: seq<Segment>, current: seq<Mcu>,
                closed: seq<byte>, start: seq<Stat>, history: seq<Decision>, dc: DcState, m: Mcu)
    requires OpenScan(p, head, first, segments, current, closed, start, history, dc) && ValidMcu(p, InitialDc(), m)
    ensures |dc.last| == |dc.context| == 4
    ensures OpenScan(p, head, first, segments, current + [m], closed, start,
                     history + McuDecisions(p, dc, m, 0), AfterMcu(p, dc, m, 0))
  {
    hide MarkedBytes, Chain, McuDecisions, AfterMcu;
    McusAppend(p, InitialDc(), current, m, 0);
  }

  lemma OpenSegment(p: Scan, head: seq<byte>, first: seq<Stat>, segments: seq<Segment>, g: Segment,
                    closed: seq<byte>, history: seq<Decision>, dc: DcState)
    requires OpenScan(p, head, first, segments, g.mcus, closed, g.start, history, dc)
    requires GoodSegment(p, g) && |g.mcus| == p.restart
    ensures OpenScan(p, head, first, segments + [g], [], closed + Stuff(g.sent) + RestartMarker(|segments|),
                     Fresh(p, StatsAfter(p, g)), [], InitialDc())
  {
    SegmentParts(p, g);
    hide MarkedBytes, Chain, GoodSegment, Stuff, ValidScan, StatsAfter, Cleared, ValidMcu, Run, Fresh, RestartMarker;
    hide McusFrom, AfterMcus, ValidMcus;
    ChainGrows(p, first, segments, g);
    MarkedGrows(segments, g);
    AfterHead(head, MarkedBytes(segments), Stuff(g.sent), RestartMarker(|segments|));
    NoMcus(p);
  }

  lemma SegmentParts(p: Scan, g: Segment)
    requires GoodSegment(p, g)
    ensures ValidMcus(p, g.mcus) && InBins(SegmentDecisions(p, g), |g.start|)
  {
  }

  lemma AfterHead(head: seq<byte>, a: seq<byte>, b: seq<byte>, c: seq<byte>)
    ensures head + a + b + c == head + (a + b + c)
  {
  }

  lemma NoMcus(p: Scan)
    requires ValidScan(p)
    ensures ValidMcus(p, []) && McusFrom(p, InitialDc(), [], 0) == [] && AfterMcus(p, InitialDc(), [], 0) == InitialDc()
  {
  }

  // A finished segment is the code of the decisions of the open one.
  lemma CloseSegment(p: Scan, head: seq<byte>, first: seq<Stat>, segments: seq<Segment>, g: Segment,
                     closed: seq<byte>, history: seq<Decision>, dc: DcState)
    requires OpenScan(p, head, first, segments, g.mcus, closed, g.start, history, dc)
    requires InBins(history, |g.start|) && IsShortestCode(Run(Initial(g.start), history).i, g.sent)
    ensures GoodSegment(p, g) && StatsAfter(p, g) == Run(Initial(g.start), history).stats
    ensures Confined(p, dc)
  {
    hide ValidScan, McusFrom, AfterMcus, IsShortestCode, Run, Chain, MarkedBytes, ValidMcu;
    McusAreConfined(p, InitialDc(), g.mcus, 0) by {
      assert Confined(p, InitialDc());
    }
  }

  lemma CloseScan(p: Scan, head: seq<byte>, first: seq<Stat>, segments: seq<Segment>, g: Segment,
                  closed: seq<byte>, history: seq<Decision>, dc: DcState, tail: seq<byte>)
    requires OpenScan(p, head, first, segments, g.mcus, closed, g.start, history, dc) && GoodSegment(p, g)
    requires if p.restart == 0 then segments == [] else |g.mcus| <= p.restart
    requires segments != [] ==> g.mcus != []
    ensures Recorded(p, first, segments + [g])
    ensures AllMcus(segments + [g]) == AllMcus(segments) + g.mcus
    ensures closed + Stuff(g.sent) + tail == head + StreamFrom(segments + [g], 0, tail)
  {
    hide Chain, GoodSegment, Stuff, StreamFrom, ValidScan, ValidMcu, McusFrom, AfterMcus;
    var all := segments + [g];
    assert all[..|segments|] == segments;
    AllMcusGrows(segments, g);
    StreamIsMarked(all, 0, tail);
    assert all[..0] == [];
    assert MarkedBytes(all[..0]) == [];
    assert closed + Stuff(g.sent) + tail == head + (MarkedBytes(segments) + Stuff(g.sent) + tail);
    assert [] + StreamFrom(all, 0, tail) == StreamFrom(all, 0, tail);
  }

  // ----- Reading a scan -----

  // The place of a reader in the recorded segments: in front of MCU done of segment g.
  datatype Track = Track(first: seq<Stat>, segments: seq<Segment>, tail: seq<byte>, g: nat, done: nat)

  // The MCUs still to be read.
  ghost function Remaining(t: Track): seq<Mcu> {
    if t.g < |t.segments| && t.done <= |t.segments[t.g].mcus| then
      t.segments[t.g].mcus[t.done..] + McusAhead(t.segments, t.g + 1)
    else []
  }

  // All of a segment that is not the last has been read.
  ghost predicate AtRestart(t: Track) {
    t.g + 1 < |t.segments| && t.done == |t.segments[t.g].mcus|
  }

  // A reader of the current segment: how it started, where the segment ends, the state the
  // segment leads to, and its own prediction state.
  ghost predicate Reading(p: Scan, t: Track, f: Fixture, dc: DcState) {
    && Recorded(p, t.first, t.segments) && StartsWithMarker(t.tail)
    && t.g < |t.segments| && t.done <= |t.segments[t.g].mcus|
    && f.start == t.segments[t.g].start && f.data == t.segments[t.g].sent
    && (t.g + 1 < |t.segments| ==>
        f.mark == RestartMarker(t.g)[1] && f.behind == StreamFrom(t.segments, t.g + 1, t.tail))
    && GoodSegment(p, t.segments[t.g])
    && f.goal == Run(Initial(t.segments[t.g].start), SegmentDecisions(p, t.segments[t.g]))
    && Confined(p, dc)
  }

  // The decisions of the rest of the segment are ahead.
  ghost predicate Tracking(p: Scan, t: Track, f: Fixture, history: seq<Decision>, dc: DcState) {
    Reading(p, t, f, dc) && Leads(f, history, McusFrom(p, dc, t.segments[t.g].mcus, t.done))
  }

  // What the source holds at the start of a segment.
  lemma SegmentAhead(p: Scan, t: Track)
    requires Recorded(p, t.first, t.segments) && StartsWithMarker(t.tail) && t.g < |t.segments|
    ensures GoodSegment(p, t.segments[t.g])
    ensures var g := t.segments[t.g];
      Follows(Initial(g.start), SegmentDecisions(p, g), Unstuff(StreamFrom(t.segments, t.g, t.tail)))
  {
    hide Unstuff, Marker, Behind, StreamFrom, McusFrom, Recorded, Prefix, Run;
    StreamReads(t.segments, t.g, t.tail);
    RecordedAt(p, t.first, t.segments, t.g);
  }

  lemma TrackStarts(p: Scan, t: Track, f: Fixture)
    requires Recorded(p, t.first, t.segments) && StartsWithMarker(t.tail) && t.g < |t.segments| && t.done == 0
    requires var src := StreamFrom(t.segments, t.g, t.tail);
      f.data == Unstuff(src) && f.mark == Marker(src) && f.behind == Behind(src)
    requires f.start == t.segments[t.g].start && GoodSegment(p, t.segments[t.g])
    requires f.goal == Run(Initial(f.start), SegmentDecisions(p, t.segments[t.g]))
    requires Leads(f, [], SegmentDecisions(p, t.segments[t.g]))
    ensures Tracking(p, t, f, [], InitialDc())
    ensures Remaining(t) == McusAhead(t.segments, t.g)
  {
    hide Unstuff, Marker, Behind, StreamFrom, McusFrom, Recorded, Prefix, Run, Leads;
    StreamReads(t.segments, t.g, t.tail);
  }

  // What a reader that has read all of a segment finds behind it.
  lemma TrackRestarts(p: Scan, t: Track, f: Fixture, history: seq<Decision>, dc: DcState)
    requires Tracking(p, t, f, history, dc) && AtRestart(t)
    ensures Recorded(p, t.first, t.segments) && StartsWithMarker(t.tail) && Confined(p, dc)
    ensures f.mark == 0xD0 + t.g % 8 && f.behind == StreamFrom(t.segments, t.g + 1, t.tail)
    ensures InBins(history, |f.start|) && Fresh(p, Run(Initial(f.start), history).stats) == t.segments[t.g + 1].start
    ensures Remaining(t) == McusAhead(t.segments, t.g + 1)
  {
    hide StreamFrom, Recorded, Fresh, Contains, IsShortestCode, ValidMcu, Run, Leads, InBins, StartsWithMarker;
    RecordedAt(p, t.first, t.segments, t.g + 1);
    LeadsNowhere(f, history);
  }

  // The next MCU.
  lemma TrackNext(p: Scan, t: Track, f: Fixture, history: seq<Decision>, dc: DcState)
    requires Tracking(p, t, f, history, dc) && t.g < |t.segments| && t.done < |t.segments[t.g].mcus|
    ensures ValidMcus(p, t.segments[t.g].mcus) && |dc.last| == |dc.context| == 4
    ensures var mcus := t.segments[t.g].mcus;
      Leads(f, history, McuDecisions(p, dc, mcus[t.done], 0)
                        + McusFrom(p, AfterMcu(p, dc, mcus[t.done], 0), mcus, t.done + 1))
  {
    hide McuDecisions, AfterMcu, Recorded, StreamFrom, Leads, IsShortestCode, StartsWithMarker, ValidMcu;
  }

  lemma RemainingNext(t: Track)
    requires t.g < |t.segments| && t.done < |t.segments[t.g].mcus|
    ensures Remaining(t) == [t.segments[t.g].mcus[t.done]] + Remaining(t.(done := t.done + 1))
  {
    hide McusAhead;
    var mcus := t.segments[t.g].mcus;
    assert mcus[t.done..] == [mcus[t.done]] + mcus[t.done + 1..];
  }

  lemma TrackAdvances(p: Scan, t: Track, f: Fixture, history: seq<Decision>, after: seq<Decision>, dc: DcState)
    requires Tracking(p, t, f, history, dc) && t.g < |t.segments| && t.done < |t.segments[t.g].mcus|
    requires ValidMcus(p, t.segments[t.g].mcus) && |dc.last| == |dc.context| == 4
    requires var mcus := t.segments[t.g].mcus;
      Leads(f, after, McusFrom(p, AfterMcu(p, dc, mcus[t.done], 0), mcus, t.done + 1))
    ensures Tracking(p, t.(done := t.done + 1), f, after, AfterMcu(p, dc, t.segments[t.g].mcus[t.done], 0))
  {
    hide McuDecisions, AfterMcu, Recorded, StreamFrom, McusFrom, Leads, IsShortestCode;
    McuIsConfined(p, dc, t.segments[t.g].mcus[t.done], 0);
  }

  // A reader with nothing left to read has seen the whole scan.
  lemma TrackEnds(p: Scan, t: Track, f: Fixture, history: seq<Decision>, dc: DcState)
    requires Tracking(p, t, f, history, dc) && Remaining(t) == []
    ensures t.segments != [] && GoodSegment(p, t.segments[|t.segments| - 1])
    ensures InBins(history, |f.start|)
    ensures Run(Initial(f.start), history).stats == StatsAfter(p, t.segments[|t.segments| - 1])
  {
    hide StreamFrom, Fresh, Contains, IsShortestCode, Chain;
    var last := |t.segments| - 1;
    if t.g < last {
      LaterNotEmpty(p, t.first, t.segments, t.g + 1);
    }
    assert t.g == last;
    RunNone(Run(Initial(f.start), history));
  }

  // A reader has MCUs left to read in its segment exactly while it has not reached the
  // restart interval.
  lemma MoreToRead(p: Scan, t: Track, togo: nat)
    requires Recorded(p, t.first, t.segments) && Remaining(t) != []
    requires p.restart > 0 ==> togo + t.done == p.restart
    ensures if p.restart > 0 && togo == 0 then AtRestart(t)
            else t.g < |t.segments| && t.done < |t.segments[t.g].mcus|
  {
    hide GoodSegment, Recorded, StatsAfter, Fresh;
    RecordedAt(p, t.first, t.segments, t.g);
    if t.g + 1 < |t.segments| {
      RecordedAt(p, t.first, t.segments, t.g + 1);
    }
  }

  // The prediction state in front of an MCU.
  function Predicted(p: Scan, togo: nat, s: DcState): DcState {
    if RestartDue(p, togo) then InitialDc() else s
  }

  // All DC differences of the MCUs from MCU i on are in the coded range.
  ghost predicate ScanFits(p: Scan, togo: nat, s: DcState, mcus: seq<Mcu>, i: nat)
    requires i <= |mcus|
    decreases |mcus| - i
  {
    i < |mcus| ==>
      var s' := Predicted(p, togo, s);
      && McuFits(p, s', mcus[i])
      && ScanFits(p, NextToGo(p, togo), AfterMcu(p, s', mcus[i], 0), mcus, i + 1)
  }

  lemma ScanFitsAtEnd(p: Scan, togo: nat, s: DcState, mcus: seq<Mcu>)
    ensures ScanFits(p, togo, s, mcus, |mcus|)
  {
  }

  lemma ScanFitsNext(p: Scan, togo: nat, s: DcState, mcus: seq<Mcu>, i: nat, fits: bool, s2: DcState)
    requires i < |mcus| && (fits <==> McuFits(p, Predicted(p, togo, s), mcus[i]))
    requires fits ==> McuLeadsTo(p, Predicted(p, togo, s), mcus[i], s2)
    ensures ScanFits(p, togo, s, mcus, i) <==> fits && ScanFits(p, NextToGo(p, togo), s2, mcus, i + 1)
  {
  }

  // Coding leaves the prediction state of other components alone, and in scans without DC
  // prediction all of it.
  ghost predicate Confined(p: Scan, s: DcState) {
    && |s.last| == |s.context| == 4
    && (forall i :: |p.dcTbl| <= i < 4 ==> s.last[i] == 0 && s.context[i] == 0)
    && (!EncoderClearsDc(p) ==> s == InitialDc())
  }

  lemma {:induction false} McuIsConfined(p: Scan, s: DcState, m: Mcu, i: nat)
    requires ValidMcu(p, s, m) && i <= |m| && Confined(p, s)
    ensures Confined(p, AfterMcu(p, s, m, i))
    decreases |m| - i
  {
    if i < |m| {
      McuIsConfined(p, AfterBlock(p, s, p.membership[i], m[i]), m, i + 1);
    }
  }

  lemma {:induction false} McusAreConfined(p: Scan, s: DcState, mcus: seq<Mcu>, i: nat)
    requires ValidMcus(p, mcus) && i <= |mcus| && Confined(p, s)
    ensures Confined(p, AfterMcus(p, s, mcus, i))
    decreases |mcus| - i
  {
    hide AfterMcu;
    if i < |mcus| {
      McuIsConfined(p, s, mcus[i], 0);
      McusAreConfined(p, AfterMcu(p, s, mcus[i], 0), mcus, i + 1);
    }
  }
}
