// The restart segments of a sequential Huffman scan stand alone: each holds the items of its own
// MCUs from predictions of zero, and decodes without the segments before it.
module HuffmanRestarts {
  import opened DecisionModel
  import opened BitStream
  import opened HuffmanItems
  import opened HuffmanScan
  import opened HuffmanSegments

  const NO_DC: seq<int> := [0, 0, 0, 0]

  // The items of MCUs j up to k, with nothing but the last DC values known of what is before.
  ghost function ItemsAlone(p: Scan, last: seq<int>, mcus: seq<Mcu>, j: nat, k: nat): seq<Item>
    requires ValidHuffmanScan(p) && McusOfScan(p, mcus) && |last| == 4 && j <= k <= |mcus|
    decreases k - j
  {
    if j == k then []
    else McuItems(p, last, mcus[j], 0) + ItemsAlone(p, LastAfter(p, last, mcus[j], 0), mcus, j + 1, k)
  }

  ghost predicate InRangeAlone(p: Scan, last: seq<int>, mcus: seq<Mcu>, j: nat, k: nat)
    requires ValidHuffmanScan(p) && McusOfScan(p, mcus) && |last| == 4 && j <= k <= |mcus|
    decreases k - j
  {
    j < k ==> McuInRange(p, last, mcus[j], 0) && InRangeAlone(p, LastAfter(p, last, mcus[j], 0), mcus, j + 1, k)
  }

  // The MCUs in the bits of a segment.
  ghost function DecodeAlone(p: Scan, bs: Books, last: seq<int>, bits: seq<bool>, n: nat): (mcus: seq<Mcu>)
    requires ValidHuffmanScan(p) && GoodBooks(bs) && |last| == 4
    decreases n
  {
    if n == 0 then []
    else
      var r := DecodeMcu(p, bs, last, 0, bits);
      [r.0] + DecodeAlone(p, bs, r.1, r.2, n - 1)
  }

  // Components that are not in the scan have no DC values.
  ghost predicate Unused(p: Scan, last: seq<int>) {
    |last| == 4 && forall ci :: |p.dcTbl| <= ci < 4 ==> last[ci] == 0
  }

  lemma {:induction false} LastUnused(p: Scan, last: seq<int>, ts: Mcu, i: nat)
    requires ValidHuffmanScan(p) && ValidBlocks(p, ts) && Unused(p, last) && i <= |ts|
    ensures Unused(p, LastAfter(p, last, ts, i))
    decreases |ts| - i
  {
    if i < |ts| {
      LastUnused(p, last[p.membership[i] := ts[i][0]], ts, i + 1);
    }
  }

  // After a restart marker all predictions are zero.
  lemma ResetToZero(p: Scan, last: seq<int>)
    requires ValidHuffmanScan(p) && Unused(p, last)
    ensures ResetLast(p, last) == NO_DC
  {
  }

  function Upto(j: nat, count: nat): (k: nat)
    ensures k <= j && k <= count
  {
    if j <= count then j else count
  }

  // The items of the segments from MCU j on, where one begins.
  ghost function Segmented(p: Scan, mcus: seq<Mcu>, j: nat): (r: seq<seq<Item>>)
    requires ValidHuffmanScan(p) && McusOfScan(p, mcus) && j <= |mcus| && 0 < p.restart
    ensures r != []
    decreases |mcus| - j
  {
    var k := Upto(j + p.restart, |mcus|);
    [ItemsAlone(p, NO_DC, mcus, j, k)] + if j + p.restart < |mcus| then Segmented(p, mcus, k) else []
  }

  lemma AloneNext(p: Scan, last: seq<int>, mcus: seq<Mcu>, j: nat, k: nat)
    requires ValidHuffmanScan(p) && McusOfScan(p, mcus) && |last| == 4 && j < k <= |mcus|
    ensures ItemsAlone(p, last, mcus, j, k)
         == McuItems(p, last, mcus[j], 0) + ItemsAlone(p, LastAfter(p, last, mcus[j], 0), mcus, j + 1, k)
    ensures ItemsAlone(p, last, mcus, j, j) == []
  {
    hide McuItems, LastAfter, ValidHuffmanScan;
  }

  // What is in front of MCU j: what the segment in progress has still to hold, which goes on from
  // last, and the segments behind it.
  ghost function InProgress(p: Scan, togo: nat, last: seq<int>, mcus: seq<Mcu>, j: nat): (r: seq<seq<Item>>)
    requires ValidHuffmanScan(p) && McusOfScan(p, mcus) && |last| == 4 && j <= |mcus| && 0 < p.restart
    ensures r != []
  {
    [ItemsAlone(p, last, mcus, j, Upto(j + togo, |mcus|))]
    + if j + togo < |mcus| then Segmented(p, mcus, j + togo) else []
  }

  lemma InProgressNext(p: Scan, togo: nat, last: seq<int>, mcus: seq<Mcu>, j: nat)
    requires ValidHuffmanScan(p) && McusOfScan(p, mcus) && Unused(p, last) && j < |mcus| && togo <= p.restart
    requires 0 < p.restart
    ensures var from := LastAt(p, togo, last);
      var now := Prepend(McuItems(p, from, mcus[j], 0),
                         InProgress(p, NextToGo(p, togo), LastAfter(p, from, mcus[j], 0), mcus, j + 1));
      InProgress(p, togo, last, mcus, j) == if RestartDue(p, togo) then [[]] + now else now
  {
    hide McuItems, LastAfter, ValidHuffmanScan, Unused, ResetLast, ItemsAlone;
    ResetToZero(p, last);
    AloneNext(p, last, mcus, j, Upto(j + 1, |mcus|));
    if togo == 0 {
      AloneNext(p, NO_DC, mcus, j, Upto(j + p.restart, |mcus|));
    } else {
      AloneNext(p, last, mcus, j, Upto(j + togo, |mcus|));
    }
  }

  lemma {:induction false} SegmentsApart(p: Scan, togo: nat, last: seq<int>, mcus: seq<Mcu>, j: nat)
    requires ValidHuffmanScan(p) && McusOfScan(p, mcus) && Unused(p, last) && j <= |mcus| && togo <= p.restart
    requires 0 < p.restart && |last| == 4
    ensures SegmentItems(p, togo, last, mcus, j) == InProgress(p, togo, last, mcus, j)
    decreases |mcus| - j
  {
    hide McuItems, LastAfter, ValidHuffmanScan, Unused, ResetLast, McusOfScan, LastAt;
    if j < |mcus| {
      hide InProgress;
      ValidAt(p, mcus, j);
      StillUnused(p, togo, last, mcus[j]);
      InProgressNext(p, togo, last, mcus, j);
      SegmentsApart(p, NextToGo(p, togo), LastAfter(p, LastAt(p, togo, last), mcus[j], 0), mcus, j + 1);
    }
  }

  lemma ValidAt(p: Scan, mcus: seq<Mcu>, j: nat)
    requires McusOfScan(p, mcus) && j < |mcus|
    ensures ValidBlocks(p, mcus[j])
  {
  }

  lemma StillUnused(p: Scan, togo: nat, last: seq<int>, ts: Mcu)
    requires ValidHuffmanScan(p) && ValidBlocks(p, ts) && Unused(p, last)
    ensures Unused(p, LastAfter(p, LastAt(p, togo, last), ts, 0))
  {
    LastUnused(p, LastAt(p, togo, last), ts, 0);
  }

  // The segments of a scan: each has the MCUs of one restart interval, from predictions of zero.
  lemma SegmentsAreApart(p: Scan, mcus: seq<Mcu>)
    requires ValidHuffmanScan(p) && McusOfScan(p, mcus) && 0 < p.restart
    ensures SegmentItems(p, p.restart, NO_DC, mcus, 0) == Segmented(p, mcus, 0)
  {
    hide SegmentItems, ItemsAlone;
    SegmentsApart(p, p.restart, NO_DC, mcus, 0);
  }

  lemma OneInterval(j: nat, g: nat, restart: nat)
    requires g > 0
    ensures j + restart + (g - 1) * restart == j + g * restart >= j + restart
  {
    assert (g - 1) * restart >= 0;
  }

  lemma {:induction false} SegmentedAt(p: Scan, mcus: seq<Mcu>, j: nat, g: nat, from: nat)
    requires ValidHuffmanScan(p) && McusOfScan(p, mcus) && j <= |mcus| && 0 < p.restart && from == j + g * p.restart
    ensures g < |Segmented(p, mcus, j)| <==> g == 0 || from < |mcus|
    ensures g < |Segmented(p, mcus, j)| ==>
      from <= |mcus| && Segmented(p, mcus, j)[g] == ItemsAlone(p, NO_DC, mcus, from, Upto(from + p.restart, |mcus|))
    decreases g
  {
    hide ItemsAlone, McusOfScan, ValidHuffmanScan;
    if g > 0 {
      OneInterval(j, g, p.restart);
      if j + p.restart < |mcus| {
        SegmentedAt(p, mcus, j + p.restart, g - 1, from);
      }
    }
  }

  // ----- Decoding -----

  ghost predicate AllInRange(p: Scan, mcus: seq<Mcu>, j: nat)
    requires ValidHuffmanScan(p) && McusOfScan(p, mcus) && j <= |mcus| && 0 < p.restart
    decreases |mcus| - j
  {
    var k := Upto(j + p.restart, |mcus|);
    InRangeAlone(p, NO_DC, mcus, j, k) && (j + p.restart < |mcus| ==> AllInRange(p, mcus, k))
  }

  lemma RangeNext(p: Scan, last: seq<int>, mcus: seq<Mcu>, j: nat, k: nat)
    requires ValidHuffmanScan(p) && McusOfScan(p, mcus) && |last| == 4 && j < k <= |mcus|
    ensures InRangeAlone(p, last, mcus, j, k) <==>
      McuInRange(p, last, mcus[j], 0) && InRangeAlone(p, LastAfter(p, last, mcus[j], 0), mcus, j + 1, k)
    ensures InRangeAlone(p, last, mcus, j, j)
  {
    hide McuInRange, LastAfter, ValidHuffmanScan;
  }

  lemma {:induction false} RangesApart(p: Scan, togo: nat, last: seq<int>, mcus: seq<Mcu>, j: nat)
    requires ValidHuffmanScan(p) && McusOfScan(p, mcus) && Unused(p, last) && j <= |mcus| && togo <= p.restart
    requires 0 < p.restart && |last| == 4 && ScanInRange(p, togo, last, mcus, j)
    ensures InRangeAlone(p, last, mcus, j, Upto(j + togo, |mcus|))
    ensures j + togo < |mcus| ==> AllInRange(p, mcus, j + togo)
    decreases |mcus| - j
  {
    hide McuInRange, LastAfter, ValidHuffmanScan, Unused, ResetLast, McusOfScan, InRangeAlone;
    if j < |mcus| {
      ValidAt(p, mcus, j);
      StillUnused(p, togo, last, mcus[j]);
      ResetToZero(p, last);
      RangesApart(p, NextToGo(p, togo), LastAfter(p, LastAt(p, togo, last), mcus[j], 0), mcus, j + 1);
      RangeNext(p, LastAt(p, togo, last), mcus, j, if togo == 0 then Upto(j + p.restart, |mcus|) else Upto(j + togo, |mcus|));
      RangeNext(p, last, mcus, j, j + 1);
    } else {
      NoRange(p, last, mcus);
    }
  }

  lemma NoRange(p: Scan, last: seq<int>, mcus: seq<Mcu>)
    requires ValidHuffmanScan(p) && McusOfScan(p, mcus) && |last| == 4
    ensures InRangeAlone(p, last, mcus, |mcus|, |mcus|)
  {
  }

  lemma {:induction false} RangeAt(p: Scan, mcus: seq<Mcu>, j: nat, g: nat, from: nat)
    requires ValidHuffmanScan(p) && McusOfScan(p, mcus) && j <= |mcus| && 0 < p.restart && from == j + g * p.restart
    requires AllInRange(p, mcus, j) && (g == 0 || from < |mcus|)
    ensures from <= |mcus| && InRangeAlone(p, NO_DC, mcus, from, Upto(from + p.restart, |mcus|))
    decreases g
  {
    hide InRangeAlone, McusOfScan, ValidHuffmanScan;
    if g > 0 {
      OneInterval(j, g, p.restart);
      RangeAt(p, mcus, j + p.restart, g - 1, from);
    }
  }

  lemma {:induction false} AloneDecodes(tables: Tables, p: Scan, bs: Books, last: seq<int>, mcus: seq<Mcu>, j: nat, k: nat,
                                        ones: seq<bool>)
    requires ValidHuffmanScan(p) && McusOfScan(p, mcus) && |last| == 4 && j <= k <= |mcus|
    requires Matches(tables, bs) && GoodBooks(bs) && forall i :: 0 <= i < |mcus| ==> ShortDc(mcus[i])
    requires InRangeAlone(p, last, mcus, j, k) && HaveCodes(tables, ItemsAlone(p, last, mcus, j, k))
    ensures DecodeAlone(p, bs, last, BitsOf(tables, ItemsAlone(p, last, mcus, j, k)) + ones, k - j) == mcus[j..k]
    decreases k - j
  {
    hide McuItems, McuInRange, BitsOf, Matches, HaveCodes, GoodBooks, DecodeMcu, LastAfter, ValidHuffmanScan, ShortDc;
    hide ItemsAlone, InRangeAlone;
    if j < k {
      AloneNext(p, last, mcus, j, k);
      RangeNext(p, last, mcus, j, k);
      var next := LastAfter(p, last, mcus[j], 0);
      FrontDecodes(tables, p, bs, last, mcus[j], ItemsAlone(p, next, mcus, j + 1, k), ones);
      AloneDecodes(tables, p, bs, next, mcus, j + 1, k, ones);
      assert mcus[j..k] == [mcus[j]] + mcus[j + 1..k];
    }
  }

  lemma AllRanges(p: Scan, mcus: seq<Mcu>)
    requires ValidHuffmanScan(p) && McusOfScan(p, mcus) && 0 < p.restart && ScanInRange(p, p.restart, NO_DC, mcus, 0)
    ensures AllInRange(p, mcus, 0)
  {
    hide ScanInRange, InRangeAlone, McusOfScan, ValidHuffmanScan;
    RangesApart(p, p.restart, NO_DC, mcus, 0);
  }

  // Segment g of a stream has the MCUs from g times the restart interval on, and their items from
  // predictions of zero.
  lemma SegmentIsAlone(p: Scan, mcus: seq<Mcu>, pieces: seq<Piece>, g: nat, from: nat)
    requires ValidHuffmanScan(p) && McusOfScan(p, mcus) && 0 < p.restart && from == g * p.restart
    requires ItemsOf(pieces) == SegmentItems(p, p.restart, [0, 0, 0, 0], mcus, 0)
    ensures g < |pieces| <==> g == 0 || from < |mcus|
    ensures g < |pieces| ==>
      && from <= |mcus|
      && pieces[g].items == ItemsAlone(p, [0, 0, 0, 0], mcus, from, Upto(from + p.restart, |mcus|))
  {
    hide ValidHuffmanScan, SegmentItems, Segmented, ItemsAlone, McusOfScan;
    SegmentsAreApart(p, mcus);
    SegmentedAt(p, mcus, 0, g, from);
    if g < |pieces| {
      assert ItemsOf(pieces)[g] == pieces[g].items;
    }
  }

  // It decodes to them from literal zeros, whatever the rest of the stream is.
  lemma SegmentDecodesAlone(tables: Tables, p: Scan, bs: Books, mcus: seq<Mcu>, pieces: seq<Piece>, g: nat, from: nat)
    requires ValidHuffmanScan(p) && McusOfScan(p, mcus) && Matches(tables, bs) && GoodBooks(bs) && 0 < p.restart
    requires forall k :: 0 <= k < |mcus| ==> ShortDc(mcus[k])
    requires ScanInRange(p, p.restart, [0, 0, 0, 0], mcus, 0) && AllHold(tables, pieces)
    requires ItemsOf(pieces) == SegmentItems(p, p.restart, [0, 0, 0, 0], mcus, 0)
    requires g < |pieces| && from == g * p.restart
    ensures from <= |mcus|
    ensures var to := Upto(from + p.restart, |mcus|);
      DecodeAlone(p, bs, [0, 0, 0, 0], Unpack(pieces[g].sent), to - from) == mcus[from..to]
  {
    hide ScanInRange, HaveCodes, Matches, GoodBooks, BitsOf, ValidHuffmanScan, ShortDc, SegmentItems, Unpack, ItemsOf,
      ItemsAlone, InRangeAlone, DecodeAlone, McusOfScan, AllInRange, SegmentHolds, AllHold;
    SegmentIsAlone(p, mcus, pieces, g, from);
    AllRanges(p, mcus);
    RangeAt(p, mcus, 0, g, from);
    var ones := PieceBits(tables, pieces, g);
    AloneDecodes(tables, p, bs, [0, 0, 0, 0], mcus, from, Upto(from + p.restart, |mcus|), ones);
  }
}
