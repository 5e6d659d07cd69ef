// Images sent by accepted scan scripts: the scans of such a script hand over to each other what
// the arithmetic codec needs, so the decoded copy has every coefficient at the precision the
// script gives it, and the recommended progressive script gives all of it.
module ImageScript {
  import opened ProbabilityTable
  import opened Bytes
  import opened DecisionModel
  import opened Progression
  import opened ImageRoundTrip
  import opened ScanScript
  import SimpleProgression

  // The blocks of an image: the component each belongs to, and whether it is shown; the others are
  // the dummy blocks that fill up interleaved MCUs at the edges.
  datatype Layout = Layout(owner: seq<nat>, shown: seq<bool>)

  ghost predicate ValidLayout(l: Layout, n: nat) {
    |l.shown| == |l.owner| && forall b :: 0 <= b < |l.owner| ==> l.owner[b] < n
  }

  // The levels of the blocks follow those of their components. A dummy block can lag behind, as it
  // is not in the scans of a single component; but it is never ahead.
  ghost predicate Tracks(l: Layout, lim: nat, bits: Progress, levels: seq<seq<int>>) {
    && ForComponents(|bits|, bits) && ValidLayout(l, |bits|) && |levels| == |l.owner| && lim < DCTSIZE2
    && forall b :: 0 <= b < |levels| ==> TracksBlock(l.shown[b], lim, bits[l.owner[b]], levels[b])
  }

  ghost predicate TracksBlock(shown: bool, lim: nat, row: seq<int>, level: seq<int>) {
    && |row| == DCTSIZE2 && lim < DCTSIZE2 && |level| == lim + 1
    && forall k :: 0 <= k <= lim ==> if shown then level[k] == row[k] else row[k] < 0 ==> level[k] == -1
  }

  // The pass carries out the scan: it visits each block of the scan's components once, the dummy
  // blocks at most once, and only if the scan is interleaved.
  ghost predicate CarriesOut(l: Layout, progressive: bool, order: seq<nat>, s: ScanInfo, pass: Pass) {
    && ValidScan(pass.scan) && pass.scan.order == order
    && pass.scan.progressive == progressive
    && pass.scan.ss == s.ss && pass.scan.se == s.se && pass.scan.ah == s.ah && pass.scan.al == s.al
    && ValidVisits(pass.scan, |l.owner|, pass.visits) && VisitOnce(pass.visits)
    && |l.shown| == |l.owner|
    && forall b :: 0 <= b < |l.owner| ==>
      if l.shown[b] then Visited(pass.visits, b) <==> l.owner[b] in s.comps
      else Visited(pass.visits, b) ==> l.owner[b] in s.comps && |s.comps| > 1
  }

  ghost predicate AllCarriedOut(l: Layout, progressive: bool, order: seq<nat>, script: seq<ScanInfo>, passes: seq<Pass>) {
    && |passes| == |script|
    && forall i :: 0 <= i < |script| ==> CarriesOut(l, progressive, order, script[i], passes[i])
  }

  // Levels are -1 or an Al.
  predicate Sane(bits: Progress) {
    forall c, k :: 0 <= c < |bits| && 0 <= k < |bits[c]| ==> bits[c][k] >= -1
  }

  lemma SaneAfter(progressive: bool, n: nat, lim: nat, bits: Progress, s: ScanInfo)
    requires lim < DCTSIZE2 && LegalScan(progressive, n, lim, bits, s) && Sane(bits)
    ensures Sane(SentScan(bits, s)) && ForComponents(n, SentScan(bits, s))
  {
    hide SentComps;
  }

  predicate HasBandOf(p: Scan, s: ScanInfo) {
    p.ss == s.ss && p.se == s.se && p.ah == s.ah && p.al == s.al
  }

  // A visited block that is shown is due exactly what its component is due.
  lemma {:induction false} ShownIsLegal(p: Scan, s: ScanInfo, lim: nat, row: seq<int>, level: seq<int>)
    requires LegalBand(row, s) && 0 <= s.ss <= s.se <= lim < DCTSIZE2 && s.al >= 0 && HasBandOf(p, s)
    requires (forall k :: 0 <= k < |row| ==> row[k] >= -1) && TracksBlock(true, lim, row, level)
    ensures Legal(p, level) && TracksBlock(true, lim, SentBand(row, s), Raised(p, level))
  {
    forall k | p.ss <= k <= p.se
      ensures row[k] == if p.ah == 0 then -1 else p.ah
    {
      assert Due(row, s, k);
    }
  }

  // A dummy block is visited by a DC refinement, or when nothing of the band has been sent.
  lemma {:induction false} DummyIsLoose(progressive: bool, p: Scan, s: ScanInfo, lim: nat, row: seq<int>, level: seq<int>)
    requires LegalBand(row, s) && lim < DCTSIZE2 && HasBandOf(p, s) && GoodBand(progressive, lim, s)
    requires p.progressive == progressive && |s.comps| > 1
    requires (forall k :: 0 <= k < |row| ==> row[k] >= -1) && TracksBlock(false, lim, row, level)
    ensures Loose(p, level) && TracksBlock(false, lim, SentBand(row, s), Raised(p, level))
  {
    if p.ah == 0 {
      forall k | p.ss <= k <= p.se
        ensures level[k] == -1
      {
        assert Due(row, s, k);
      }
    }
  }

  // What a scan does not visit, it does not send either, but for dummy blocks.
  lemma NotVisited(shown: bool, lim: nat, row: seq<int>, level: seq<int>, s: ScanInfo)
    requires TracksBlock(shown, lim, row, level) && s.al >= 0
    ensures !shown ==> TracksBlock(shown, lim, SentBand(row, s), level)
  {
  }

  lemma {:induction false} PassIsLegal(progressive: bool, n: nat, lim: nat, bits: Progress, l: Layout,
                                       order: seq<nat>, s: ScanInfo, pass: Pass, levels: seq<seq<int>>)
    requires LegalScan(progressive, n, lim, bits, s) && Sane(bits) && Tracks(l, lim, bits, levels)
    requires CarriesOut(l, progressive, order, s, pass)
    ensures LegalPass(order, l.shown, levels, pass)
    ensures Tracks(l, lim, SentScan(bits, s), AfterPass(levels, pass))
  {
    hide ValidScan, ValidVisits, VisitOnce, Visited, Legal, Loose, Raised, SentBand, LegalBand, SentComps, TracksBlock;
    var next, sent := AfterPass(levels, pass), SentScan(bits, s);
    forall b | 0 <= b < |levels|
      ensures Visited(pass.visits, b) ==>
        if l.shown[b] then Legal(pass.scan, levels[b]) else Loose(pass.scan, levels[b])
      ensures TracksBlock(l.shown[b], lim, sent[l.owner[b]], next[b])
    {
      var row := bits[l.owner[b]];
      if Visited(pass.visits, b) {
        var i :| 0 <= i < |s.comps| && s.comps[i] == l.owner[b];
        assert LegalBand(bits[s.comps[i]], s);
        if l.shown[b] {
          ShownIsLegal(pass.scan, s, lim, row, levels[b]);
        } else {
          DummyIsLoose(progressive, pass.scan, s, lim, row, levels[b]);
        }
      } else {
        NotVisited(l.shown[b], lim, row, levels[b], s);
      }
    }
  }

  // An accepted script makes a legal run of passes.
  lemma {:induction false} ScriptIsLegal(progressive: bool, n: nat, lim: nat, bits: Progress, l: Layout, order: seq<nat>,
                                         script: seq<ScanInfo>, passes: seq<Pass>, i: nat, levels: seq<seq<int>>)
    requires ForComponents(n, bits) && Sane(bits) && Tracks(l, lim, bits, levels) && i <= |script|
    requires LegalFrom(progressive, n, lim, bits, script[i..])
    requires AllCarriedOut(l, progressive, order, script, passes)
    ensures LegalScript(order, l.shown, levels, passes, i)
    ensures Tracks(l, lim, SentFrom(bits, script[i..]), AfterScript(levels, passes, i))
    decreases |script| - i
  {
    hide LegalScan, SentScan, LegalPass, AfterPass, CarriesOut, Sane;
    if i < |script| {
      assert script[i..][0] == script[i] && script[i..][1..] == script[i + 1..];
      assert lim < DCTSIZE2;
      hide Tracks;
      SaneAfter(progressive, n, lim, bits, script[i]);
      PassIsLegal(progressive, n, lim, bits, l, order, script[i], passes[i], levels);
      ScriptIsLegal(progressive, n, lim, SentScan(bits, script[i]), l, order, script, passes, i + 1,
                    AfterPass(levels, passes[i]));
    }
  }

  // The levels at the end of a compression.
  function FinalBits(n: nat, script: seq<ScanInfo>, blockSize: nat): Progress
    requires 1 <= blockSize <= 16
  {
    SentFrom(NothingSent(n), Followed(script, blockSize))
  }

  // What the decoder does not give up on is exactly what its MCU routines can decode, given tables
  // and an order of the coefficients up to the last.
  lemma ToleratedIsDecodable(lim: nat, s: ScanInfo, p: Scan)
    requires p.progressive && p.ss == s.ss && p.se == s.se && p.ah == s.ah && p.al == s.al
    requires |p.order| == lim + 1 && ValidOrder(p.order, lim)
    requires |p.dcTbl| == |p.acTbl| <= 4 && |p.dcL| == |p.dcU| == |p.acK| == 16
    requires forall i :: 0 <= i < |p.dcTbl| ==> p.dcTbl[i] < 16 && p.acTbl[i] < 16
    requires forall i :: 0 <= i < |p.membership| ==> p.membership[i] < |p.dcTbl|
    requires p.membership == [0] <==> |s.comps| == 1
    ensures Tolerated(lim, s) <==> ValidScan(p)
  {
  }

  // How many coefficients a block of this size has: larger ones are cut to 8 x 8.
  function CoefCount(blockSize: nat): (count: nat)
    requires 1 <= blockSize <= 16
    ensures 1 <= count <= 64
  {
    assert blockSize < 8 ==> 1 <= blockSize * blockSize <= 7 * 7;
    if blockSize < 8 then blockSize * blockSize else 64
  }

  // They are just those up to the limit of the scans.
  lemma LimitIsLast(blockSize: nat)
    requires 1 <= blockSize <= 16
    ensures LimSe(blockSize) + 1 == CoefCount(blockSize)
  {
  }

  // The passes of a compression that follows an accepted script.
  ghost predicate Compression(n: nat, l: Layout, script: seq<ScanInfo>, blockSize: nat, order: seq<nat>, passes: seq<Pass>) {
    && Accepted(n, script) && 1 <= blockSize <= 16 && ValidLayout(l, n)
    && |order| == CoefCount(blockSize) && ValidOrder(order, |order| - 1)
    && AllCarriedOut(l, IsProgressive(script), order, Followed(script, blockSize), passes)
  }

  lemma {:induction false} CompressionIsLegal(n: nat, l: Layout, script: seq<ScanInfo>, blockSize: nat, order: seq<nat>,
                                              passes: seq<Pass>)
    requires Compression(n, l, script, blockSize, order, passes)
    ensures LegalScript(order, l.shown, Unsent(|l.owner|, |order|), passes, 0)
    ensures Tracks(l, LimSe(blockSize), FinalBits(n, script, blockSize), AfterScript(Unsent(|l.owner|, |order|), passes, 0))
  {
    hide Accepted, AllCarriedOut, LegalFrom, Followed, LimSe, LegalScript, AfterScript, SentFrom, ValidOrder;
    var lim, follow := LimSe(blockSize), Followed(script, blockSize);
    LimitIsLast(blockSize);
    FollowedIsLegal(n, script, blockSize);
    assert follow[0..] == follow;
    ScriptIsLegal(IsProgressive(script), n, lim, NothingSent(n), l, order, follow, passes, 0, Unsent(|l.owner|, |order|));
  }

  // The whole way: an accepted script, the passes that follow it, bytes, and back. Each shown block
  // of the copy ends up at the levels the script gives its component.
  method TransmitImage(n: nat, ghost l: Layout, ghost script: seq<ScanInfo>, ghost blockSize: nat,
                       order: seq<nat>, passes: seq<Pass>,
                       image: seq<array<int>>, copy: seq<array<int>>, start: seq<Stat>, tail: seq<byte>)
    returns (ok: bool, ghost levels: seq<seq<int>>)
    requires Compression(n, l, script, blockSize, order, passes)
    requires |start| == AREA_SIZE && |image| == |copy| == |l.owner| && StartsWithMarker(tail)
    requires forall b :: 0 <= b < |image| ==> image[b].Length == 64 && AllShort(image[b][..])
    requires forall b, c :: 0 <= b < c < |image| ==> image[b] != image[c]
    requires forall b :: 0 <= b < |copy| ==> copy[b].Length == 64 && forall i :: 0 <= i < 64 ==> copy[b][i] == 0
    requires forall b, c :: 0 <= b < c < |copy| ==> copy[b] != copy[c]
    requires forall b, c :: 0 <= b < |image| && 0 <= c < |copy| ==> image[b] != copy[c]
    modifies copy
    ensures ok <==> ScriptFits(Contents(image), passes, 0)
    ensures Tracks(l, LimSe(blockSize), FinalBits(n, script, blockSize), levels)
    ensures ok ==> ImageShows(order, l.shown, levels, Contents(image), Contents(copy))
    ensures ok && AllSent(LimSe(blockSize), FinalBits(n, script, blockSize)) ==>
      forall b, k :: 0 <= b < |image| && l.shown[b] && 0 <= k < |order| ==> copy[b][order[k]] == image[b][order[k]]
  {
    hide ScriptFits, ImageShows, LegalScript, AfterScript, AllCarriedOut, Accepted, FinalBits, StartsWithMarker;
    hide LimSe, CoefCount;
    LimitIsLast(blockSize);
    CompressionIsLegal(n, l, script, blockSize, order, passes);
    ok := Transmit(passes, image, copy, start, tail, order, l.shown);
    levels := AfterScript(Unsent(|image|, |order|), passes, 0);
    if ok && AllSent(LimSe(blockSize), FinalBits(n, script, blockSize)) {
      forall b, k | 0 <= b < |image| && l.shown[b] && 0 <= k < |order|
        ensures copy[b][order[k]] == image[b][order[k]]
      {
        ExactAtZero(order, l.shown, levels, Contents(image), Contents(copy), b, k);
      }
    }
  }

  // The recommended progressive script sends everything, for every block size.
  lemma {:induction false} SimpleSendsAll(n: nat, ycc: bool, blockSize: nat)
    requires 0 < n && 1 <= blockSize <= 16
    ensures Accepted(n, SimpleProgression.ScriptFor(n, ycc))
    ensures AllSent(LimSe(blockSize), FinalBits(n, SimpleProgression.ScriptFor(n, ycc), blockSize))
  {
    hide SimpleProgression.ScriptFor, LegalFrom, SentFrom, LegalScan;
    var script, lim := SimpleProgression.ScriptFor(n, ycc), LimSe(blockSize);
    SimpleProgression.SimpleProgressionIsAccepted(n, ycc);
    if blockSize < DCTSIZE {
      ReducedIsLegal(true, n, lim, NothingSent(n), NothingSent(n), script);
      var all, less := SentFrom(NothingSent(n), script), FinalBits(n, script, blockSize);
      assert forall c, k :: 0 <= c < |less| && 0 <= k <= lim && k < DCTSIZE2 ==> all[c][k] == less[c][k];
    }
  }

  // A sequential script sends everything as well.
  lemma {:induction false} SequentialSendsAll(n: nat, script: seq<ScanInfo>, blockSize: nat)
    requires Accepted(n, script) && !IsProgressive(script) && 1 <= blockSize <= 16
    ensures AllSent(LimSe(blockSize), FinalBits(n, script, blockSize))
  {
    hide LegalFrom, SentFrom, Reduced;
    var follow := Followed(script, blockSize);
    FollowedIsLegal(n, script, blockSize);
    WholeBlocks(n, LimSe(blockSize), NothingSent(n), follow);
  }

  // In sequential mode, whatever has been sent of a block, all of it has been.
  lemma {:induction false} WholeBlocks(n: nat, lim: nat, bits: Progress, script: seq<ScanInfo>)
    requires lim < DCTSIZE2 && ForComponents(n, bits) && LegalFrom(false, n, lim, bits, script)
    requires forall c, k :: 0 <= c < n && 0 <= k <= lim ==> bits[c][k] == bits[c][0] <= 0
    ensures var last := SentFrom(bits, script);
      |last| == n && forall c, k :: 0 <= c < n && 0 <= k <= lim ==> |last[c]| == DCTSIZE2 && last[c][k] == last[c][0] <= 0
    decreases |script|
  {
    hide SentComps, LegalBand;
    if script != [] {
      WholeBlocks(n, lim, SentScan(bits, script[0]), script[1..]);
    }
  }
}
