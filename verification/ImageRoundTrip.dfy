// Whole scans and whole scripts of scans, from coefficient blocks to bytes and back.
module ImageRoundTrip {
  import opened Bytes
  import opened ProbabilityTable
  import opened ExactCoder
  import opened DecisionModel
  import opened ScanModel
  import opened Progression
  import ArithEncoder
  import ArithDecoder
  import McuEncoder
  import McuDecoder

  // The blocks each MCU of a scan is made of.
  type Visits = seq<seq<nat>>

  ghost predicate ValidVisits(p: Scan, count: nat, visits: Visits) {
    forall j :: 0 <= j < |visits| ==>
      |visits[j]| == |p.membership| && forall i :: 0 <= i < |visits[j]| ==> visits[j][i] < count
  }

  // No block is visited twice.
  ghost predicate VisitOnce(visits: Visits) {
    forall j, i, k, l ::
      (0 <= j < |visits| && 0 <= i < |visits[j]| && 0 <= k < |visits| && 0 <= l < |visits[k]|
       && visits[j][i] == visits[k][l]) ==> j == k && i == l
  }

  ghost predicate Visited(visits: Visits, b: nat) {
    exists j, i :: 0 <= j < |visits| && 0 <= i < |visits[j]| && visits[j][i] == b
  }

  ghost predicate AllBlocks(blocks: seq<seq<int>>) {
    forall b :: 0 <= b < |blocks| ==> |blocks[b]| == 64
  }

  ghost function McuOf(p: Scan, blocks: seq<seq<int>>, visit: seq<nat>): (m: Mcu)
    requires ValidScan(p) && AllBlocks(blocks) && forall i :: 0 <= i < |visit| ==> visit[i] < |blocks|
    ensures |m| == |visit|
  {
    seq(|visit|, i requires 0 <= i < |visit| => BandOf(p, blocks[visit[i]]))
  }

  ghost function McusOf(p: Scan, blocks: seq<seq<int>>, visits: Visits): (ms: seq<Mcu>)
    requires ValidScan(p) && AllBlocks(blocks) && ValidVisits(p, |blocks|, visits)
    ensures |ms| == |visits| && ValidMcus(p, ms)
  {
    seq(|visits|, j requires 0 <= j < |visits| => McuOf(p, blocks, visits[j]))
  }

  function Pick(image: seq<array<int>>, visit: seq<nat>): (mcu: seq<array<int>>)
    requires forall i :: 0 <= i < |visit| ==> visit[i] < |image|
    ensures |mcu| == |visit| && forall i :: 0 <= i < |mcu| ==> mcu[i] == image[visit[i]]
  {
    seq(|visit|, i requires 0 <= i < |visit| => image[visit[i]])
  }

  ghost predicate ImageShort(blocks: seq<seq<int>>) {
    forall b :: 0 <= b < |blocks| ==> AllShort(blocks[b])
  }

  lemma ContentsAreBlocks(image: seq<array<int>>, area: array<Stat>)
    requires Separate(image, area)
    ensures AllBlocks(Contents(image))
  {
  }

  lemma PickedAreBlocks(image: seq<array<int>>, visit: seq<nat>, area: array<Stat>)
    requires Separate(image, area) && ImageShort(Contents(image))
    requires forall i :: 0 <= i < |visit| ==> visit[i] < |image|
    ensures McuEncoder.AreBlocks(Pick(image, visit), area)
  {
    forall b, i | 0 <= b < |image| && 0 <= i < 64
      ensures InShort(image[b][i])
    {
      assert AllShort(Contents(image)[b]);
    }
  }

  lemma PickedBands(enc: McuEncoder.Encoder, image: seq<array<int>>, visits: Visits, j: nat)
    requires ValidScan(enc.scan) && ValidVisits(enc.scan, |image|, visits) && j < |visits|
    requires Separate(image, enc.coder.stats) && AllBlocks(Contents(image))
    requires McuEncoder.AreBlocks(Pick(image, visits[j]), enc.coder.stats)
    ensures enc.Bands(Pick(image, visits[j])) == McusOf(enc.scan, Contents(image), visits)[j]
  {
    hide ValidScan, Separate, PointTransform, Zigzag, McuEncoder.AreBlocks;
  }

  // Encode one scan of the image.
  method SendScan(p: Scan, visits: Visits, image: seq<array<int>>, area: array<Stat>, ghost tail: seq<byte>)
    returns (out: seq<byte>, ghost all: seq<Segment>)
    requires ValidScan(p) && area.Length == AREA_SIZE && ValidVisits(p, |image|, visits)
    requires Separate(image, area) && ImageShort(Contents(image)) && AllBlocks(Contents(image))
    modifies area
    ensures Recorded(p, Fresh(p, old(area[..])), all)
    ensures AllMcus(all) == McusOf(p, Contents(image), visits)
    ensures out + tail == StreamFrom(all, 0, tail)
    ensures area[..] == StatsAfter(p, all[|all| - 1])
  {
    hide ArithEncoder.Encoder.Valid, McuEncoder.Encoder.InScan, McuEncoder.AreBlocks, ImageShort;
    hide ValidScan, StreamFrom, GoodSegment, Recorded, AllMcus, Fresh, StatsAfter, Separate, PointTransform, Zigzag,
      Contents, ArithEncoder.Encoder.Written, ArithEncoder.Encoder.Bounded, ContainsAt, Contains, InBins,
      McusOf, AllBlocks, Pick, ValidMcus, McuEncoder.Encoder.Coded, McuEncoder.Encoder.Bands;
    ghost var blocks := Contents(image);
    var coder := new ArithEncoder.Encoder(area);
    var enc := new McuEncoder.Encoder(coder, p);
    for j := 0 to |visits|
      invariant enc.InScan() && enc.coder == coder && enc.scan == p && coder.stats == area
      invariant enc.head == [] && enc.first == Fresh(p, old(area[..]))
      invariant Contents(image) == blocks
      invariant enc.Coded() == McusOf(p, blocks, visits)[..j]
    {
      var mcu := Pick(image, visits[j]);
      PickedAreBlocks(image, visits[j], area);
      enc.EncodeMcu(mcu);
      PickedBands(enc, image, visits, j);
    }
    all := enc.FinishScan(tail);
    out := coder.out;
  }

  // What decoding a scan makes of the block contents: the visited blocks get their bands.
  ghost predicate ScanReceived(p: Scan, visits: Visits, blocks: seq<seq<int>>, before: seq<seq<int>>, after: seq<seq<int>>) {
    && ValidScan(p) && |blocks| == |before| == |after|
    && AllBlocks(blocks) && AllBlocks(before) && AllBlocks(after)
    && forall b :: 0 <= b < |blocks| ==>
      if Visited(visits, b) then Received(p, before[b], after[b], BandOf(p, blocks[b]))
      else after[b] == before[b]
  }

  // Every visited block of the copy holds what the scan expects.
  ghost predicate ScanReady(p: Scan, visits: Visits, blocks: seq<seq<int>>, copy: seq<seq<int>>) {
    && ValidScan(p) && |blocks| == |copy| && AllBlocks(blocks) && AllBlocks(copy)
    && ValidVisits(p, |blocks|, visits)
    && forall b :: 0 <= b < |blocks| && Visited(visits, b) ==>
      Fits(p, BandOf(p, blocks[b])) && Ready(p, copy[b], BandOf(p, blocks[b]))
  }

  ghost function At(blocks: seq<seq<int>>, visit: seq<nat>): (bs: seq<seq<int>>)
    requires forall i :: 0 <= i < |visit| ==> visit[i] < |blocks|
    ensures |bs| == |visit| && forall i :: 0 <= i < |bs| ==> bs[i] == blocks[visit[i]]
  {
    seq(|visit|, i requires 0 <= i < |visit| => blocks[visit[i]])
  }

  lemma VisitedNext(visits: Visits, j: nat, b: nat)
    requires j < |visits|
    ensures Visited(visits[..j + 1], b) <==> Visited(visits[..j], b) || b in visits[j]
    ensures Visited(visits[..j + 1], b) ==> Visited(visits, b)
  {
    if Visited(visits[..j], b) {
      var k, i :| 0 <= k < j && 0 <= i < |visits[..j][k]| && visits[..j][k][i] == b;
      assert visits[..j + 1][k][i] == b;
    }
    if b in visits[j] {
      var i :| 0 <= i < |visits[j]| && visits[j][i] == b;
      assert visits[..j + 1][j][i] == b;
    }
    if Visited(visits[..j + 1], b) {
      var k, i :| 0 <= k <= j && 0 <= i < |visits[..j + 1][k]| && visits[..j + 1][k][i] == b;
      assert visits[k][i] == b;
      assert k < j ==> visits[..j][k][i] == b;
    }
  }

  lemma NothingReceived(p: Scan, visits: Visits, blocks: seq<seq<int>>, before: seq<seq<int>>)
    requires ScanReady(p, visits, blocks, before)
    ensures ScanReceived(p, visits[..0], blocks, before, before)
  {
    hide Ready, Fits, Received, ValidScan;
  }

  // The blocks of the next MCU are still as the scan found them.
  lemma VisitReady(p: Scan, visits: Visits, j: nat, blocks: seq<seq<int>>, before: seq<seq<int>>, now: seq<seq<int>>)
    requires ScanReady(p, visits, blocks, before) && VisitOnce(visits) && j < |visits|
    requires ScanReceived(p, visits[..j], blocks, before, now)
    ensures |visits[j]| == |p.membership| && forall i :: 0 <= i < |visits[j]| ==> visits[j][i] < |now|
    ensures McuReady(p, At(now, visits[j]), McuOf(p, blocks, visits[j]))
  {
    hide Ready, Fits, Received, ValidScan;
    forall i | 0 <= i < |visits[j]|
      ensures !Visited(visits[..j], visits[j][i]) && Visited(visits, visits[j][i])
    {
    }
  }

  lemma VisitReceived(p: Scan, visits: Visits, j: nat, blocks: seq<seq<int>>, before: seq<seq<int>>,
                      now: seq<seq<int>>, after: seq<seq<int>>)
    requires ScanReady(p, visits, blocks, before) && VisitOnce(visits) && j < |visits|
    requires ScanReceived(p, visits[..j], blocks, before, now)
    requires |after| == |now| && AllBlocks(after)
    requires forall b :: 0 <= b < |now| && b !in visits[j] ==> after[b] == now[b]
    requires McuReceived(p, At(now, visits[j]), At(after, visits[j]), McuOf(p, blocks, visits[j]))
    ensures ScanReceived(p, visits[..j + 1], blocks, before, after)
  {
    hide Ready, Fits, Received, ValidScan;
    forall b | 0 <= b < |blocks|
      ensures if Visited(visits[..j + 1], b) then Received(p, before[b], after[b], BandOf(p, blocks[b]))
              else after[b] == before[b]
    {
      VisitedNext(visits, j, b);
      if b in visits[j] {
        var i :| 0 <= i < |visits[j]| && visits[j][i] == b;
        assert !Visited(visits[..j], b);
      }
    }
  }

  lemma PickedContents(image: seq<array<int>>, visit: seq<nat>)
    requires forall i :: 0 <= i < |visit| ==> visit[i] < |image|
    ensures Contents(Pick(image, visit)) == At(Contents(image), visit)
  {
  }

  lemma PickedApart(image: seq<array<int>>, visits: Visits, j: nat, area: array<Stat>)
    requires Separate(image, area) && VisitOnce(visits) && j < |visits|
    requires forall i :: 0 <= i < |visits[j]| ==> visits[j][i] < |image|
    ensures Separate(Pick(image, visits[j]), area)
  {
  }

  lemma PickMisses(image: seq<array<int>>, visit: seq<nat>, area: array<Stat>, b: nat)
    requires Separate(image, area) && b < |image| && b !in visit
    requires forall i :: 0 <= i < |visit| ==> visit[i] < |image|
    ensures image[b] !in Pick(image, visit)
  {
  }

  // Decode MCU j of a scan into the copy.
  method ReceiveMcu(dec: McuDecoder.Decoder, visits: Visits, j: nat, copy: seq<array<int>>,
                    ghost blocks: seq<seq<int>>, ghost before: seq<seq<int>>)
    returns (ok: bool)
    requires dec.Valid() && dec.OnTrack() && j < |visits| && Separate(copy, dec.coder.stats)
    requires ValidScan(dec.scan) && AllBlocks(blocks) && ValidVisits(dec.scan, |blocks|, visits)
    requires ScanReady(dec.scan, visits, blocks, before) && VisitOnce(visits)
    requires ScanReceived(dec.scan, visits[..j], blocks, before, Contents(copy))
    requires Remaining(dec.track) == McusOf(dec.scan, blocks, visits)[j..]
    modifies copy, dec, dec.coder, dec.coder.stats
    ensures var dc, mcu := Predicted(dec.scan, old(dec.restartsToGo), old(dec.Dc())), McuOf(dec.scan, blocks, visits[j]);
      && (ok <==> McuFits(dec.scan, dc, mcu))
      && (ok ==> McuLeadsTo(dec.scan, dc, mcu, dec.Dc()))
    ensures ok ==>
      && dec.Valid() && dec.OnTrack() && dec.track.segments == old(dec.track.segments)
      && dec.restartsToGo == NextToGo(dec.scan, old(dec.restartsToGo))
      && Remaining(dec.track) == McusOf(dec.scan, blocks, visits)[j + 1..]
      && ScanReceived(dec.scan, visits[..j + 1], blocks, before, Contents(copy))
  {
    hide ArithDecoder.Decoder.Valid, McuDecoder.Decoder.OnTrack, McuDecoder.Decoder.Valid, ValidScan, VisitOnce;
    hide ScanReady, ScanReceived, McuReady, McuReceived, McuFits, McuLeadsTo, Remaining, Leads, Contains, InBins;
    ghost var now, mcus := Contents(copy), McusOf(dec.scan, blocks, visits);
    VisitReady(dec.scan, visits, j, blocks, before, now);
    var mcu := Pick(copy, visits[j]);
    PickedApart(copy, visits, j, dec.coder.stats);
    hide Separate, Contents, At, Pick, McuOf, AllBlocks;
    PickedContents(copy, visits[j]);
    ok := dec.DecodeMcu(mcu, mcus[j]);
    ok := ok && !dec.failed;
    if ok {
      PickedContents(copy, visits[j]);
      ContentsAreBlocks(copy, dec.coder.stats);
      forall b | 0 <= b < |copy| && b !in visits[j]
        ensures Contents(copy)[b] == now[b]
      {
        PickMisses(copy, visits[j], dec.coder.stats, b);
      }
      VisitReceived(dec.scan, visits, j, blocks, before, now, Contents(copy));
    }
  }

  // Decode one scan into the copy.
  method ReceiveScan(p: Scan, visits: Visits, copy: seq<array<int>>, area: array<Stat>, source: seq<byte>,
                     ghost blocks: seq<seq<int>>, ghost all: seq<Segment>, ghost tail: seq<byte>)
    returns (ok: bool)
    requires ValidScan(p) && AllBlocks(blocks) && ValidVisits(p, |blocks|, visits)
    requires area.Length == AREA_SIZE && ScanReady(p, visits, blocks, Contents(copy)) && VisitOnce(visits)
    requires Separate(copy, area)
    requires Recorded(p, Fresh(p, area[..]), all) && AllMcus(all) == McusOf(p, blocks, visits)
    requires StartsWithMarker(tail) && source == StreamFrom(all, 0, tail)
    modifies area, copy
    ensures ok <==> ScanFits(p, p.restart, InitialDc(), McusOf(p, blocks, visits), 0)
    ensures ok ==> ScanReceived(p, visits, blocks, old(Contents(copy)), Contents(copy))
    ensures ok ==> GoodSegment(p, all[|all| - 1]) && area[..] == StatsAfter(p, all[|all| - 1])
  {
    hide ArithDecoder.Decoder.Valid, McuDecoder.Decoder.OnTrack, McuDecoder.Decoder.Valid;
    hide ValidScan, StreamFrom, GoodSegment, Chain, AllMcus, Cleared, Stuff, Unstuff, Marker, Behind, StartsWithMarker;
    hide ScanReady, ScanReceived, ScanFits, McuFits, McuLeadsTo, VisitOnce, Remaining, Separate, Recorded, StatsAfter;
    ghost var before, mcus := Contents(copy), McusOf(p, blocks, visits);
    var coder := new ArithDecoder.Decoder(area, source);
    var dec := new McuDecoder.Decoder(coder, p);
    dec.Follow(all, tail);
    NothingReceived(p, visits, blocks, before);
    for j := 0 to |visits|
      invariant dec.Valid() && dec.OnTrack() && dec.coder == coder && dec.scan == p && coder.stats == area
      invariant Remaining(dec.track) == mcus[j..] && dec.track.segments == all
      invariant ScanFits(p, p.restart, InitialDc(), mcus, 0) == ScanFits(p, dec.restartsToGo, dec.Dc(), mcus, j)
      invariant ScanReceived(p, visits[..j], blocks, before, Contents(copy))
    {
      ghost var togo, dc := dec.restartsToGo, dec.Dc();
      ok := ReceiveMcu(dec, visits, j, copy, blocks, before);
      ScanFitsNext(p, togo, dc, mcus, j, ok, dec.Dc());
      if !ok {
        return;
      }
    }
    assert visits[..|visits|] == visits;
    ScanFitsAtEnd(p, dec.restartsToGo, dec.Dc(), mcus);
    dec.AtEnd();
    ok := true;
  }

  // ----- Scripts -----

  datatype Pass = Pass(scan: Scan, visits: Visits)

  // A script that sends or refines only what is due, block by block. The blocks that are not real
  // pad interleaved scans at the edges of the image.
  ghost predicate LegalScript(order: seq<nat>, shown: seq<bool>, levels: seq<seq<int>>, script: seq<Pass>, i: nat)
    requires i <= |script|
    decreases |script| - i
  {
    i < |script| ==>
      && LegalPass(order, shown, levels, script[i])
      && LegalScript(order, shown, AfterPass(levels, script[i]), script, i + 1)
  }

  ghost predicate LegalPass(order: seq<nat>, shown: seq<bool>, levels: seq<seq<int>>, pass: Pass) {
    && ValidScan(pass.scan) && pass.scan.order == order && |shown| == |levels|
    && ValidVisits(pass.scan, |levels|, pass.visits) && VisitOnce(pass.visits)
    && forall b :: 0 <= b < |levels| && Visited(pass.visits, b) ==>
      if shown[b] then Legal(pass.scan, levels[b]) else Loose(pass.scan, levels[b])
  }

  // The levels after a scan, and after the rest of a script.
  ghost function AfterPass(levels: seq<seq<int>>, pass: Pass): (r: seq<seq<int>>)
    ensures |r| == |levels|
  {
    seq(|levels|, b requires 0 <= b < |levels| =>
      if Visited(pass.visits, b) then Raised(pass.scan, levels[b]) else levels[b])
  }

  ghost function AfterScript(levels: seq<seq<int>>, script: seq<Pass>, i: nat): (r: seq<seq<int>>)
    requires i <= |script|
    ensures |r| == |levels|
    decreases |script| - i
  {
    if i == |script| then levels else AfterScript(AfterPass(levels, script[i]), script, i + 1)
  }

  // The DC differences of all scans from scan i on are in the coded range.
  ghost predicate ScriptFits(blocks: seq<seq<int>>, script: seq<Pass>, i: nat)
    requires i <= |script|
    decreases |script| - i
  {
    i < |script| ==> PassFits(blocks, script[i]) && ScriptFits(blocks, script, i + 1)
  }

  ghost predicate PassFits(blocks: seq<seq<int>>, pass: Pass) {
    && ValidScan(pass.scan) && AllBlocks(blocks) && ValidVisits(pass.scan, |blocks|, pass.visits)
    && ScanFits(pass.scan, pass.scan.restart, InitialDc(), McusOf(pass.scan, blocks, pass.visits), 0)
  }

  // The copy shows every real block at its levels.
  ghost predicate ImageShows(order: seq<nat>, shown: seq<bool>, levels: seq<seq<int>>, blocks: seq<seq<int>>,
                             copy: seq<seq<int>>) {
    && |shown| == |levels| == |blocks| == |copy|
    && ImageShort(blocks) && AllBlocks(blocks)
    && (forall b :: 0 <= b < |blocks| ==>
        if shown[b] then Shows(order, levels[b], blocks[b], copy[b]) else Pending(order, levels[b], copy[b]))
  }

  lemma PassReady(order: seq<nat>, shown: seq<bool>, levels: seq<seq<int>>, blocks: seq<seq<int>>, copy: seq<seq<int>>,
                  pass: Pass)
    requires ImageShows(order, shown, levels, blocks, copy) && LegalPass(order, shown, levels, pass)
    ensures ScanReady(pass.scan, pass.visits, blocks, copy) && ImageShort(blocks) && AllBlocks(blocks)
    ensures ValidScan(pass.scan) && ValidVisits(pass.scan, |blocks|, pass.visits) && VisitOnce(pass.visits)
  {
    hide ValidScan, Legal, Loose, Fits, Ready, ValidVisits, Primed;
    assert AllBlocks(copy);
    forall b | 0 <= b < |blocks| && Visited(pass.visits, b)
      ensures Fits(pass.scan, BandOf(pass.scan, blocks[b])) && Ready(pass.scan, copy[b], BandOf(pass.scan, blocks[b]))
    {
      if shown[b] {
        BlockReady(pass.scan, levels[b], blocks[b], copy[b]);
      } else {
        DummyReady(pass.scan, levels[b], blocks[b], copy[b]);
      }
    }
  }

  lemma PassShows(order: seq<nat>, shown: seq<bool>, levels: seq<seq<int>>, blocks: seq<seq<int>>, before: seq<seq<int>>,
                  after: seq<seq<int>>, pass: Pass)
    requires ImageShows(order, shown, levels, blocks, before) && LegalPass(order, shown, levels, pass)
    requires ScanReceived(pass.scan, pass.visits, blocks, before, after)
    ensures ImageShows(order, shown, AfterPass(levels, pass), blocks, after)
  {
    hide ValidScan, Legal, Loose, ValidVisits, Received, Restored, AllShort, Shows, Pending, Raised, VisitOnce, Primed,
      Ready, Fits;
    var next := AfterPass(levels, pass);
    forall b | 0 <= b < |blocks|
      ensures if shown[b] then Shows(order, next[b], blocks[b], after[b]) else Pending(order, next[b], after[b])
    {
      if Visited(pass.visits, b) {
        VisitShows(order, shown[b], levels[b], blocks[b], before[b], after[b], pass.scan);
      }
    }
  }

  // One visited block.
  lemma VisitShows(order: seq<nat>, shown: bool, level: seq<int>, block: seq<int>, before: seq<int>, after: seq<int>, p: Scan)
    requires ValidScan(p) && p.order == order && |block| == |before| == |after| == 64 && AllShort(block)
    requires if shown then Legal(p, level) else Loose(p, level)
    requires if shown then Shows(order, level, block, before) else Pending(order, level, before)
    requires Received(p, before, after, BandOf(p, block))
    ensures if shown then Shows(order, Raised(p, level), block, after) else Pending(order, Raised(p, level), after)
  {
    hide Legal, Loose, Received, Restored, AllShort, Shows, Pending, Raised, Primed, Ready, Fits, BandOf;
    if shown {
      BlockReady(p, level, block, before);
      ReceivedIsRestored(p, before, after, BandOf(p, block));
      BlockShows(p, level, block, before, after);
    } else {
      DummyPending(p, level, before, after, BandOf(p, block));
    }
  }

  // One scan, encoded and decoded.
  method TransmitPass(pass: Pass, image: seq<array<int>>, copy: seq<array<int>>, sender: array<Stat>,
                      receiver: array<Stat>, tail: seq<byte>, ghost order: seq<nat>, ghost shown: seq<bool>, ghost levels: seq<seq<int>>)
    returns (ok: bool)
    requires sender != receiver && sender.Length == receiver.Length == AREA_SIZE && sender[..] == receiver[..]
    requires Separate(image, sender) && Separate(image, receiver)
    requires Separate(copy, sender) && Separate(copy, receiver)
    requires forall b, c :: 0 <= b < |image| && 0 <= c < |copy| ==> image[b] != copy[c]
    requires ImageShows(order, shown, levels, Contents(image), Contents(copy)) && LegalPass(order, shown, levels, pass)
    requires StartsWithMarker(tail)
    modifies sender, receiver, copy
    ensures ok <==> PassFits(Contents(image), pass)
    ensures ok ==>
      && sender[..] == receiver[..]
      && ImageShows(order, shown, AfterPass(levels, pass), Contents(image), Contents(copy))
  {
    hide ImageShows, LegalPass, ScanReady, ScanReceived, ScanFits, Recorded, StreamFrom, AllMcus, GoodSegment;
    ghost var blocks, before := Contents(image), Contents(copy);
    PassReady(order, shown, levels, blocks, before, pass);
    var out, all := SendScan(pass.scan, pass.visits, image, sender, tail);
    ok := ReceiveScan(pass.scan, pass.visits, copy, receiver, out + tail, blocks, all, tail);
    if ok {
      PassShows(order, shown, levels, blocks, before, Contents(copy), pass);
    }
  }

  // Nothing sent yet.
  function Unsent(count: nat, size: nat): (levels: seq<seq<int>>)
    ensures |levels| == count && forall b, k :: 0 <= b < count && 0 <= k < size ==> |levels[b]| == size && levels[b][k] == -1
  {
    seq(count, _ => seq(size, _ => -1))
  }

  lemma NothingShown(order: seq<nat>, shown: seq<bool>, blocks: seq<seq<int>>, copy: seq<seq<int>>)
    requires 0 < |order| <= 64 && ValidOrder(order, |order| - 1) && |shown| == |blocks| == |copy|
    requires AllBlocks(blocks) && AllBlocks(copy) && ImageShort(blocks)
    requires forall b, i :: 0 <= b < |copy| && 0 <= i < 64 ==> copy[b][i] == 0
    ensures ImageShows(order, shown, Unsent(|blocks|, |order|), blocks, copy)
  {
  }

  // A coefficient whose last scan had Al = 0 is the original.
  lemma ExactAtZero(order: seq<nat>, shown: seq<bool>, levels: seq<seq<int>>, blocks: seq<seq<int>>, copy: seq<seq<int>>,
                    b: nat, k: nat)
    requires ImageShows(order, shown, levels, blocks, copy)
    requires b < |blocks| && shown[b] && k < |levels[b]| && levels[b][k] == 0
    ensures k < |order| && order[k] < 64 && |copy[b]| == |blocks[b]| == 64
    ensures copy[b][order[k]] == blocks[b][order[k]]
  {
    FullPrecision(blocks[b][order[k]], k);
  }

  // A whole script, encoded and decoded: the copy ends up with every coefficient of the real
  // blocks at the precision the script takes it to.
  method Transmit(script: seq<Pass>, image: seq<array<int>>, copy: seq<array<int>>, start: seq<Stat>,
                  tail: seq<byte>, order: seq<nat>, ghost shown: seq<bool>)
    returns (ok: bool)
    requires |start| == AREA_SIZE && 0 < |order| <= 64 && ValidOrder(order, |order| - 1)
    requires forall b :: 0 <= b < |image| ==> image[b].Length == 64 && AllShort(image[b][..])
    requires forall b, c :: 0 <= b < c < |image| ==> image[b] != image[c]
    requires forall b :: 0 <= b < |copy| ==> copy[b].Length == 64 && forall i :: 0 <= i < 64 ==> copy[b][i] == 0
    requires forall b, c :: 0 <= b < c < |copy| ==> copy[b] != copy[c]
    requires forall b, c :: 0 <= b < |image| && 0 <= c < |copy| ==> image[b] != copy[c]
    requires |image| == |copy| == |shown| && LegalScript(order, shown, Unsent(|image|, |order|), script, 0)
    requires StartsWithMarker(tail)
    modifies copy
    ensures ok <==> ScriptFits(Contents(image), script, 0)
    ensures ok ==>
      ImageShows(order, shown, AfterScript(Unsent(|image|, |order|), script, 0), Contents(image), Contents(copy))
  {
    hide ImageShows, LegalPass, PassFits, Unsent, AfterPass, StartsWithMarker;
    ghost var blocks, levels, goal := Contents(image), Unsent(|image|, |order|), AfterScript(Unsent(|image|, |order|), script, 0);
    NothingShown(order, shown, blocks, Contents(copy));
    var sender := new Stat[|start|](i requires 0 <= i < |start| => start[i]);
    var receiver := new Stat[|start|](i requires 0 <= i < |start| => start[i]);
    assert sender[..] == start == receiver[..];
    for i := 0 to |script|
      invariant sender[..] == receiver[..] && Contents(image) == blocks
      invariant ImageShows(order, shown, levels, blocks, Contents(copy))
      invariant LegalScript(order, shown, levels, script, i) && AfterScript(levels, script, i) == goal
      invariant ScriptFits(blocks, script, 0) == ScriptFits(blocks, script, i)
    {
      ok := TransmitPass(script[i], image, copy, sender, receiver, tail, order, shown, levels);
      if !ok {
        return;
      }
      levels := AfterPass(levels, script[i]);
    }
    ok := true;
  }
}
