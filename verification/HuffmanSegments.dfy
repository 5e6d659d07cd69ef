// Restart segments of a sequential Huffman scan: which items each holds, how the segments lie in
// the byte stream, and that decoding the stream gives the MCUs of the scan.
module HuffmanSegments {
  import opened Bytes
  import opened DecisionModel
  import opened BitStream
  import opened HuffmanItems
  import opened HuffmanScan
  import ScanModel

  // ----- Decoding -----

  ghost predicate GoodBooks(bs: Books) {
    && |bs.dc| == |bs.ac| == NUM_HUFF_TBLS
    && forall i :: 0 <= i < NUM_HUFF_TBLS ==> GoodBook(bs.dc[i]) && GoodBook(bs.ac[i])
  }

  // The blocks of an MCU from block i on: the blocks, the last DC values, the bits left.
  ghost function DecodeMcu(p: Scan, bs: Books, last: seq<int>, i: nat, s: seq<bool>): (r: (Mcu, seq<int>, seq<bool>))
    requires ValidHuffmanScan(p) && GoodBooks(bs) && |last| == 4 && i <= |p.membership|
    ensures |r.1| == 4
    decreases |p.membership| - i
  {
    if i == |p.membership| then ([], last, s)
    else
      var ci := p.membership[i];
      var (t, s2) := DecodeBlock(bs.dc[p.dcTbl[ci]], bs.ac[p.acTbl[ci]], last[ci], p.se + 1, s);
      var (ts, last2, s3) := DecodeMcu(p, bs, last[ci := if t == [] then 0 else t[0]], i + 1, s2);
      ([t] + ts, last2, s3)
  }

  ghost predicate ShortDc(ts: Mcu) {
    forall i :: 0 <= i < |ts| ==> ts[i] != [] && InShort(ts[i][0])
  }

  lemma {:induction false} McuDecodes(tables: Tables, p: Scan, bs: Books, last: seq<int>, ts: Mcu, i: nat, rest: seq<bool>)
    requires ValidHuffmanScan(p) && ValidBlocks(p, ts) && |last| == 4 && i <= |ts|
    requires Matches(tables, bs) && GoodBooks(bs) && ShortDc(ts)
    requires McuInRange(p, last, ts, i) && HaveCodes(tables, McuItems(p, last, ts, i))
    ensures DecodeMcu(p, bs, last, i, BitsOf(tables, McuItems(p, last, ts, i)) + rest)
         == (ts[i..], LastAfter(p, last, ts, i), rest)
    decreases |ts| - i
  {
    hide BlockItems, InRange, HasCode, BitsOf, Matches, HaveCodes, GoodBook, DecodeBlock;
    if i == |ts| {
      NoBlocksLeft(tables, p, bs, last, ts, rest);
    } else {
      var ci := p.membership[i];
      var next, block := last[ci := ts[i][0]], BlockItems(p.dcTbl[ci], p.acTbl[ci], ts[i], last[ci]);
      McuBits(tables, p, last, ts, i, rest);
      var more := BitsOf(tables, McuItems(p, next, ts, i + 1)) + rest;
      TablesMatch(tables, bs);
      BlockDecodes(tables, bs, p.dcTbl[ci], p.acTbl[ci], ts[i], last[ci], more);
      McuDecodes(tables, p, bs, next, ts, i + 1, rest);
      NextBlockDecodes(p, bs, last, i, ts[i], BitsOf(tables, block) + more, more);
      assert [ts[i]] + ts[i + 1..] == ts[i..];
    }
  }

  lemma NoBlocksLeft(tables: Tables, p: Scan, bs: Books, last: seq<int>, ts: Mcu, rest: seq<bool>)
    requires ValidHuffmanScan(p) && ValidBlocks(p, ts) && |last| == 4 && GoodBooks(bs)
    ensures HaveCodes(tables, McuItems(p, last, ts, |ts|))
    ensures DecodeMcu(p, bs, last, |ts|, BitsOf(tables, McuItems(p, last, ts, |ts|)) + rest)
         == (ts[|ts|..], LastAfter(p, last, ts, |ts|), rest)
  {
    var s := BitsOf(tables, McuItems(p, last, ts, |ts|)) + rest;
    assert s == rest;
    assert ts[|ts|..] == [];
  }

  // A decoded block comes in front of the rest of its MCU.
  lemma NextBlockDecodes(p: Scan, bs: Books, last: seq<int>, i: nat, t: seq<int>, s: seq<bool>, more: seq<bool>)
    requires ValidHuffmanScan(p) && GoodBooks(bs) && |last| == 4 && i < |p.membership| && |t| == p.se + 1
    requires var ci := p.membership[i];
      DecodeBlock(bs.dc[p.dcTbl[ci]], bs.ac[p.acTbl[ci]], last[ci], p.se + 1, s) == (t, more)
    ensures var r := DecodeMcu(p, bs, last[p.membership[i] := t[0]], i + 1, more);
      DecodeMcu(p, bs, last, i, s) == ([t] + r.0, r.1, r.2)
  {
    hide DecodeBlock, GoodBook;
  }

  // The bits of an MCU from block i on: those of the block, and the rest.
  lemma McuBits(tables: Tables, p: Scan, last: seq<int>, ts: Mcu, i: nat, rest: seq<bool>)
    requires ValidHuffmanScan(p) && ValidBlocks(p, ts) && |last| == 4 && i < |ts|
    requires HaveCodes(tables, McuItems(p, last, ts, i))
    ensures var ci := p.membership[i];
      var block := BlockItems(p.dcTbl[ci], p.acTbl[ci], ts[i], last[ci]);
      var more := McuItems(p, last[ci := ts[i][0]], ts, i + 1);
      && HaveCodes(tables, block) && HaveCodes(tables, more)
      && BitsOf(tables, McuItems(p, last, ts, i)) + rest == BitsOf(tables, block) + (BitsOf(tables, more) + rest)
  {
    hide BlockItems, HasCode, BitsOf, HaveCodes;
    var ci := p.membership[i];
    BitsOfJoin(tables, BlockItems(p.dcTbl[ci], p.acTbl[ci], ts[i], last[ci]), McuItems(p, last[ci := ts[i][0]], ts, i + 1));
  }

  lemma TablesMatch(tables: Tables, bs: Books)
    requires Matches(tables, bs)
    ensures |tables.dc| == |bs.dc| && |tables.ac| == |bs.ac|
  {
  }

  // ----- Items by segments -----

  function Prepend(items: seq<Item>, ahead: seq<seq<Item>>): (r: seq<seq<Item>>)
    requires ahead != []
    ensures r != []
  {
    [items + ahead[0]] + ahead[1..]
  }

  // The items of the open segment and of the later ones, from MCU j on.
  ghost function SegmentItems(p: Scan, togo: nat, last: seq<int>, mcus: seq<Mcu>, j: nat): (r: seq<seq<Item>>)
    requires ValidHuffmanScan(p) && McusOfScan(p, mcus) && |last| == 4 && j <= |mcus|
    ensures r != []
    decreases |mcus| - j
  {
    if j == |mcus| then [[]]
    else
      var from := LastAt(p, togo, last);
      var now := Prepend(McuItems(p, from, mcus[j], 0),
                         SegmentItems(p, NextToGo(p, togo), LastAfter(p, from, mcus[j], 0), mcus, j + 1));
      if RestartDue(p, togo) then [[]] + now else now
  }

  // Closed segments, an open one, and what is ahead.
  function Lined(closed: seq<seq<Item>>, open: seq<Item>, ahead: seq<seq<Item>>): seq<seq<Item>>
    requires ahead != []
  {
    closed + Prepend(open, ahead)
  }

  lemma NextSegmentItems(p: Scan, togo: nat, last: seq<int>, mcus: seq<Mcu>, j: nat,
                         closed: seq<seq<Item>>, open: seq<Item>)
    requires ValidHuffmanScan(p) && McusOfScan(p, mcus) && |last| == 4 && j < |mcus|
    ensures var from := LastAt(p, togo, last); var items := McuItems(p, from, mcus[j], 0);
      var next := SegmentItems(p, NextToGo(p, togo), LastAfter(p, from, mcus[j], 0), mcus, j + 1);
      Lined(closed, open, SegmentItems(p, togo, last, mcus, j)) ==
        if RestartDue(p, togo) then Lined(closed + [open], [] + items, next) else Lined(closed, open + items, next)
  {
    hide McuItems, LastAfter, ValidHuffmanScan, LastAt, NextToGo, RestartDue;
    var from := LastAt(p, togo, last);
    var items := McuItems(p, from, mcus[j], 0);
    var next := SegmentItems(p, NextToGo(p, togo), LastAfter(p, from, mcus[j], 0), mcus, j + 1);
    assert [] + items == items && open + [] == open;
    assert open + (items + next[0]) == open + items + next[0];
  }

  lemma LastSegmentItems(p: Scan, togo: nat, last: seq<int>, mcus: seq<Mcu>, closed: seq<seq<Item>>, open: seq<Item>)
    requires ValidHuffmanScan(p) && McusOfScan(p, mcus) && |last| == 4
    ensures Lined(closed, open, SegmentItems(p, togo, last, mcus, |mcus|)) == closed + [open]
  {
    assert open + [] == open;
  }

  // ----- Pieces of the stream -----

  function ItemsOf(pieces: seq<Piece>): (r: seq<seq<Item>>)
    ensures |r| == |pieces|
  {
    seq(|pieces|, i requires 0 <= i < |pieces| => pieces[i].items)
  }

  ghost predicate AllHold(tables: Tables, pieces: seq<Piece>) {
    forall i :: 0 <= i < |pieces| ==> SegmentHolds(tables, pieces[i].items, pieces[i].sent)
  }

  // As segments of a byte stream.
  function Segments(pieces: seq<Piece>): (r: seq<ScanModel.Segment>)
    ensures |r| == |pieces|
  {
    seq(|pieces|, i requires 0 <= i < |pieces| => ScanModel.Segment([], [], pieces[i].sent))
  }

  // The bytes of pieces that are all closed by restart markers.
  function Marked(pieces: seq<Piece>): seq<byte> {
    ScanModel.MarkedBytes(Segments(pieces))
  }

  // The bytes of a whole scan, whose last piece is not followed by a restart marker.
  function StreamOf(pieces: seq<Piece>): seq<byte> {
    if pieces == [] then [] else Marked(pieces[..|pieces| - 1]) + Stuff(pieces[|pieces| - 1].sent)
  }

  lemma NothingLined(tables: Tables, goal: seq<seq<Item>>)
    requires goal != []
    ensures AllHold(tables, []) && Marked([]) == [] && Lined(ItemsOf([]), [], goal) == goal
  {
    assert [] + goal[0] == goal[0];
  }

  lemma PieceCloses(tables: Tables, pieces: seq<Piece>, x: Piece)
    requires AllHold(tables, pieces) && SegmentHolds(tables, x.items, x.sent)
    ensures AllHold(tables, pieces + [x])
    ensures ItemsOf(pieces + [x]) == ItemsOf(pieces) + [x.items]
    ensures Marked(pieces + [x]) == Marked(pieces) + Stuff(x.sent) + [0xFF, 0xD0 + |pieces| % 8]
  {
    hide SegmentHolds, Stuff, ScanModel.MarkedBytes;
    var s := ScanModel.Segment([], [], x.sent);
    assert Segments(pieces + [x]) == Segments(pieces) + [s];
    ScanModel.MarkedGrows(Segments(pieces), s);
  }

  lemma LastPiece(tables: Tables, pieces: seq<Piece>, x: Piece)
    requires AllHold(tables, pieces) && SegmentHolds(tables, x.items, x.sent)
    ensures AllHold(tables, pieces + [x])
    ensures ItemsOf(pieces + [x]) == ItemsOf(pieces) + [x.items]
    ensures StreamOf(pieces + [x]) == Marked(pieces) + Stuff(x.sent)
  {
    hide SegmentHolds, Stuff, Marked;
    assert (pieces + [x])[..|pieces|] == pieces;
  }

  // ----- Decoding a stream -----

  datatype Option<T> = None | Some(value: T)

  function Then(m: Mcu, r: Option<seq<Mcu>>): Option<seq<Mcu>> {
    if r.None? then None else Some([m] + r.value)
  }

  // The next n MCUs: the bits left of the current segment, which starts at src. Where a restart
  // is due the segment must end with the right marker; the next segment is behind it.
  ghost function DecodeStream(p: Scan, bs: Books, togo: nat, num: nat, last: seq<int>, bits: seq<bool>, src: seq<byte>,
                              n: nat): Option<seq<Mcu>>
    requires ValidHuffmanScan(p) && GoodBooks(bs) && |last| == 4
    decreases n
  {
    if n == 0 then Some([])
    else if !RestartDue(p, togo) then
      var r := DecodeMcu(p, bs, last, 0, bits);
      Then(r.0, DecodeStream(p, bs, NextToGo(p, togo), num, r.1, r.2, src, n - 1))
    else if Marker(src) != 0xD0 + num then None
    else
      var r := DecodeMcu(p, bs, ResetLast(p, last), 0, Unpack(Unstuff(Behind(src))));
      Then(r.0, DecodeStream(p, bs, NextToGo(p, togo), (num + 1) % 8, r.1, r.2, Behind(src), n - 1))
  }

  ghost function DecodeScan(p: Scan, bs: Books, src: seq<byte>, n: nat): Option<seq<Mcu>>
    requires ValidHuffmanScan(p) && GoodBooks(bs)
  {
    DecodeStream(p, bs, p.restart, 0, [0, 0, 0, 0], Unpack(Unstuff(src)), src, n)
  }

  lemma NextScanCodes(tables: Tables, p: Scan, togo: nat, last: seq<int>, mcus: seq<Mcu>, j: nat)
    requires ValidHuffmanScan(p) && McusOfScan(p, mcus) && |last| == 4 && j < |mcus|
    ensures var from := LastAt(p, togo, last); var next := LastAfter(p, from, mcus[j], 0);
      HaveCodes(tables, ScanItems(p, togo, last, mcus, j)) <==>
        && HaveCodes(tables, McuItems(p, from, mcus[j], 0))
        && HaveCodes(tables, ScanItems(p, NextToGo(p, togo), next, mcus, j + 1))
  {
    hide McuItems, LastAfter, ValidHuffmanScan, HasCode, HaveCodes;
    var from := LastAt(p, togo, last);
    BitsOfJoin(tables, McuItems(p, from, mcus[j], 0),
               ScanItems(p, NextToGo(p, togo), LastAfter(p, from, mcus[j], 0), mcus, j + 1));
  }

  lemma LastScanCodes(tables: Tables, p: Scan, togo: nat, last: seq<int>, mcus: seq<Mcu>)
    requires ValidHuffmanScan(p) && McusOfScan(p, mcus) && |last| == 4
    ensures HaveCodes(tables, ScanItems(p, togo, last, mcus, |mcus|))
  {
  }

  // One MCU at the front of the bits of a segment.
  lemma FrontDecodes(tables: Tables, p: Scan, bs: Books, last: seq<int>, m: Mcu, more: seq<Item>, ones: seq<bool>)
    requires ValidHuffmanScan(p) && ValidBlocks(p, m) && |last| == 4
    requires Matches(tables, bs) && GoodBooks(bs) && ShortDc(m)
    requires McuInRange(p, last, m, 0) && HaveCodes(tables, McuItems(p, last, m, 0) + more)
    ensures HaveCodes(tables, more)
    ensures DecodeMcu(p, bs, last, 0, BitsOf(tables, McuItems(p, last, m, 0) + more) + ones)
         == (m, LastAfter(p, last, m, 0), BitsOf(tables, more) + ones)
  {
    hide McuItems, McuInRange, BitsOf, Matches, HaveCodes, GoodBooks, DecodeMcu, LastAfter, ValidHuffmanScan, ShortDc;
    var items := McuItems(p, last, m, 0);
    BitsOfJoin(tables, items, more);
    var rest := BitsOf(tables, more) + ones;
    assert BitsOf(tables, items + more) + ones == BitsOf(tables, items) + rest;
    McuDecodes(tables, p, bs, last, m, 0, rest);
    assert m[0..] == m;
  }

  // The bits of a piece.
  lemma PieceBits(tables: Tables, pieces: seq<Piece>, g: nat) returns (ones: seq<bool>)
    requires AllHold(tables, pieces) && g < |pieces|
    ensures HaveCodes(tables, pieces[g].items)
    ensures Unpack(pieces[g].sent) == BitsOf(tables, pieces[g].items) + ones
  {
    hide HaveCodes, Unpack, BitsOf;
    assert SegmentHolds(tables, pieces[g].items, pieces[g].sent);
    var k :| 0 <= k <= 7 && Unpack(pieces[g].sent) == BitsOf(tables, pieces[g].items) + Ones(k);
    ones := Ones(k);
  }

  // Where segment g ends and segment g + 1 starts.
  lemma PieceFollows(pieces: seq<Piece>, g: nat, tail: seq<byte>)
    requires g + 1 < |pieces| && StartsWithMarker(tail)
    ensures var src := ScanModel.StreamFrom(Segments(pieces), g, tail);
      && Marker(src) == 0xD0 + g % 8 && Behind(src) == ScanModel.StreamFrom(Segments(pieces), g + 1, tail)
      && Unstuff(Behind(src)) == pieces[g + 1].sent
  {
    hide ScanModel.StreamFrom, Marker, Behind, Unstuff;
    ScanModel.StreamReads(Segments(pieces), g, tail);
    ScanModel.StreamReads(Segments(pieces), g + 1, tail);
  }

  // From any MCU on: what is left of the stream decodes to what is left of the scan.
  lemma {:induction false} RestDecodes(tables: Tables, p: Scan, bs: Books, togo: nat, last: seq<int>, mcus: seq<Mcu>,
                                       j: nat, pieces: seq<Piece>, g: nat, ones: seq<bool>, tail: seq<byte>)
    requires ValidHuffmanScan(p) && McusOfScan(p, mcus) && |last| == 4 && j <= |mcus|
    requires Matches(tables, bs) && GoodBooks(bs) && StartsWithMarker(tail)
    requires forall k :: 0 <= k < |mcus| ==> ShortDc(mcus[k])
    requires ScanInRange(p, togo, last, mcus, j)
    requires AllHold(tables, pieces) && g < |pieces|
    requires ItemsOf(pieces)[g + 1..] == SegmentItems(p, togo, last, mcus, j)[1..]
    requires HaveCodes(tables, SegmentItems(p, togo, last, mcus, j)[0])
    ensures DecodeStream(p, bs, togo, g % 8, last, BitsOf(tables, SegmentItems(p, togo, last, mcus, j)[0]) + ones,
                         ScanModel.StreamFrom(Segments(pieces), g, tail), |mcus| - j) == Some(mcus[j..])
    decreases |mcus| - j
  {
    hide McuItems, McuInRange, BitsOf, Matches, HaveCodes, GoodBooks, DecodeMcu, LastAfter, ValidHuffmanScan;
    hide ShortDc, ScanModel.StreamFrom, Segments, Unpack, Unstuff, Marker, Behind, ResetLast, NextToGo, AllHold, ItemsOf;
    hide StartsWithMarker, SegmentItems;
    if j < |mcus| {
      var from := LastAt(p, togo, last);
      var after, next := LastAfter(p, from, mcus[j], 0), NextToGo(p, togo);
      var now, more := SegmentItems(p, togo, last, mcus, j), SegmentItems(p, next, after, mcus, j + 1);
      SegmentsFrom(p, togo, last, mcus, j);
      assert [mcus[j]] + mcus[j + 1..] == mcus[j..];
      if RestartDue(p, togo) {
        PieceNext(pieces, g, now);
        PieceFollows(pieces, g, tail);
        var ones' := PieceBits(tables, pieces, g + 1);
        FrontDecodes(tables, p, bs, from, mcus[j], more[0], ones');
        RestDecodes(tables, p, bs, next, after, mcus, j + 1, pieces, g + 1, ones', tail);
        assert (g % 8 + 1) % 8 == (g + 1) % 8;
      } else {
        FrontDecodes(tables, p, bs, from, mcus[j], more[0], ones);
        RestDecodes(tables, p, bs, next, after, mcus, j + 1, pieces, g, ones, tail);
      }
    }
  }

  lemma SegmentsFrom(p: Scan, togo: nat, last: seq<int>, mcus: seq<Mcu>, j: nat)
    requires ValidHuffmanScan(p) && McusOfScan(p, mcus) && |last| == 4 && j < |mcus|
    ensures var from := LastAt(p, togo, last); var items := McuItems(p, from, mcus[j], 0);
      var now := SegmentItems(p, togo, last, mcus, j);
      var more := SegmentItems(p, NextToGo(p, togo), LastAfter(p, from, mcus[j], 0), mcus, j + 1);
      if RestartDue(p, togo) then |now| > 1 && now[1] == items + more[0] && now[2..] == more[1..]
      else now[0] == items + more[0] && now[1..] == more[1..]
  {
    hide McuItems, LastAfter, ValidHuffmanScan, NextToGo, LastAt;
  }

  lemma PieceNext(pieces: seq<Piece>, g: nat, now: seq<seq<Item>>)
    requires g < |pieces| && |now| > 1 && ItemsOf(pieces)[g + 1..] == now[1..]
    ensures g + 1 < |pieces| && pieces[g + 1].items == now[1] && ItemsOf(pieces)[g + 2..] == now[2..]
  {
    var items := ItemsOf(pieces);
    assert |items[g + 1..]| == |now| - 1;
    assert items[g + 1] == items[g + 1..][0] == now[1..][0];
    assert items[g + 2..] == items[g + 1..][1..] == now[1..][1..] == now[2..];
  }

  // The stream of a scan decodes to its MCUs, whatever the restart interval.
  lemma StreamDecodes(tables: Tables, p: Scan, bs: Books, mcus: seq<Mcu>, pieces: seq<Piece>, tail: seq<byte>)
    requires ValidHuffmanScan(p) && McusOfScan(p, mcus) && Matches(tables, bs) && GoodBooks(bs) && StartsWithMarker(tail)
    requires forall k :: 0 <= k < |mcus| ==> ShortDc(mcus[k])
    requires ScanInRange(p, p.restart, [0, 0, 0, 0], mcus, 0)
    requires AllHold(tables, pieces) && ItemsOf(pieces) == SegmentItems(p, p.restart, [0, 0, 0, 0], mcus, 0)
    ensures DecodeScan(p, bs, StreamOf(pieces) + tail, |mcus|) == Some(mcus)
  {
    hide ScanInRange, ScanItems, HaveCodes, Matches, GoodBooks, DecodeStream, BitsOf, ValidHuffmanScan, ShortDc;
    hide SegmentItems, ScanModel.StreamFrom, ScanModel.MarkedBytes, Unpack, Unstuff, Stuff;
    var items := SegmentItems(p, p.restart, [0, 0, 0, 0], mcus, 0);
    ScanModel.StreamIsMarked(Segments(pieces), 0, tail);
    ScanModel.StreamReads(Segments(pieces), 0, tail);
    assert Segments(pieces)[..|pieces| - 1] == Segments(pieces[..|pieces| - 1]);
    assert Segments(pieces)[..0] == [];
    StreamIs(pieces, tail);
    assert ItemsOf(pieces)[0] == pieces[0].items == items[0];
    var ones := PieceBits(tables, pieces, 0);
    RestDecodes(tables, p, bs, p.restart, [0, 0, 0, 0], mcus, 0, pieces, 0, ones, tail);
    assert mcus[0..] == mcus;
  }

  lemma StreamIs(pieces: seq<Piece>, tail: seq<byte>)
    requires pieces != []
    ensures StreamOf(pieces) + tail == ScanModel.StreamFrom(Segments(pieces), 0, tail)
  {
    hide ScanModel.StreamFrom, Stuff;
    ScanModel.StreamIsMarked(Segments(pieces), 0, tail);
    assert Segments(pieces)[..|pieces| - 1] == Segments(pieces[..|pieces| - 1]);
    assert ScanModel.MarkedBytes(Segments(pieces)[..0]) == [];
    var stream := ScanModel.StreamFrom(Segments(pieces), 0, tail);
    assert [] + stream == stream;
  }
}
