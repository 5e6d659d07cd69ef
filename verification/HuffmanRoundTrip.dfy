// An optimized sequential Huffman scan from blocks to bytes and back: the statistics pass, the
// tables, the output pass, and the decoding procedures.
module HuffmanRoundTrip {
  import opened Powers
  import opened Bytes
  import opened DecisionModel
  import opened HuffmanCost
  import opened HuffmanMerge
  import opened HuffmanDepth
  import opened HuffmanTable
  import opened DerivedTable
  import opened BitStream
  import opened HuffmanItems
  import opened HuffmanScan
  import opened HuffmanSegments

  // ----- The counts make usable tables -----

  // DC symbols are at most 11, AC symbols end in a size of at most 10.
  predicate SymbolInRange(i: Item) {
    i.Symbol? ==> i.tbl < NUM_HUFF_TBLS && if i.isDc then i.s <= 11 else i.s <= 0xFF && i.s % 16 <= 10
  }

  ghost predicate SymbolsInRange(items: seq<Item>) {
    forall i :: i in items ==> SymbolInRange(i)
  }

  lemma {:induction false} AcSymbols(tbl: nat, t: seq<int>, k: nat, r: nat)
    requires r < k <= |t| <= 64 && AcInRange(t, 1) && tbl < NUM_HUFF_TBLS
    ensures SymbolsInRange(AcItems(tbl, t, k, r))
    decreases |t| - k
  {
    hide NBits, ExtraOf, Zrls;
    if k < |t| {
      if t[k] == 0 {
        AcSymbols(tbl, t, k + 1, r + 1);
      } else {
        AcSymbols(tbl, t, k + 1, 0);
        assert NBits(Abs(t[k])) <= MAX_COEF_BITS;
        RunAndSize(r % 16, NBits(Abs(t[k])));
      }
    }
  }

  lemma {:induction false} McuSymbols(p: Scan, last: seq<int>, ts: Mcu, i: nat)
    requires ValidHuffmanScan(p) && ValidBlocks(p, ts) && |last| == 4 && i <= |ts|
    requires McuInRange(p, last, ts, i)
    ensures SymbolsInRange(McuItems(p, last, ts, i))
    decreases |ts| - i
  {
    hide AcItems, ExtraOf, NBits;
    if i < |ts| {
      AcSymbols(p.acTbl[p.membership[i]], ts[i], 1, 0);
      McuSymbols(p, last[p.membership[i] := ts[i][0]], ts, i + 1);
    }
  }

  lemma {:induction false} ScanSymbols(p: Scan, togo: nat, last: seq<int>, mcus: seq<Mcu>, j: nat)
    requires ValidHuffmanScan(p) && McusOfScan(p, mcus) && |last| == 4 && j <= |mcus|
    requires ScanInRange(p, togo, last, mcus, j)
    ensures SymbolsInRange(ScanItems(p, togo, last, mcus, j))
    decreases |mcus| - j
  {
    hide McuItems, McuInRange, LastAfter, SymbolInRange;
    if j < |mcus| {
      var from := LastAt(p, togo, last);
      McuSymbols(p, from, mcus[j], 0);
      ScanSymbols(p, NextToGo(p, togo), LastAfter(p, from, mcus[j], 0), mcus, j + 1);
    }
  }

  // The counts of one table.
  ghost predicate CountsOf(freq: seq<nat>, m: multiset<Item>, isDc: bool, tbl: nat, n: nat)
    requires n <= |freq|
  {
    forall s :: 0 <= s < n ==> freq[s] == m[Symbol(isDc, tbl, s)]
  }

  // Two symbols are never used.
  lemma {:induction false} UsedIsBounded(freq: seq<nat>, n: nat)
    requires n <= |freq| && |freq| > 13 && freq[12] == freq[13] == 0
    ensures |Used(freq, freq, n)| + (if n > 13 then 2 else if n > 12 then 1 else 0) <= n
  {
    if n > 0 {
      UsedIsBounded(freq, n - 1);
    }
  }

  lemma CountsAreCountable(freq: seq<nat>, items: seq<Item>, isDc: bool, tbl: nat)
    requires |freq| == SYMBOLS && CountsOf(freq, multiset(items), isDc, tbl, SYMBOLS)
    requires SymbolsInRange(items) && Total(freq, 256) < SENTINEL
    requires exists s :: 0 <= s < 256 && freq[s] > 0
    ensures Countable(freq)
    ensures isDc ==> forall s :: 16 <= s < 256 ==> freq[s] == 0
  {
    hide Total, Used;
    var m := multiset(items);
    forall s | 0 <= s < SYMBOLS && !SymbolInRange(Symbol(isDc, tbl, s))
      ensures freq[s] == 0
    {
      assert Symbol(isDc, tbl, s) !in items;
      assert Symbol(isDc, tbl, s) !in m;
    }
    assert !SymbolInRange(Symbol(isDc, tbl, 12)) && !SymbolInRange(Symbol(isDc, tbl, 13));
    UsedIsBounded(freq, 256);
  }

  // A table for no symbols at all.
  function EmptyBook(): Book {
    Book(seq(17, _ => 0), seq(256, _ => 0))
  }

  function EmptyTable(): Derived {
    Derived(seq(256, _ => 0), seq(256, _ => 0))
  }

  lemma {:induction false} NoWords(bits: seq<nat>, n: nat)
    requires n < |bits| && n <= 16 && forall l :: 0 <= l <= n ==> bits[l] == 0
    ensures Words(bits, n) == 0 && KraftOf(bits, n, 16) == 0
  {
    if n > 0 {
      NoWords(bits, n - 1);
    }
  }

  lemma EmptyIsGood()
    ensures GoodBook(EmptyBook()) && Derives(EmptyBook().bits, EmptyBook().huffval, EmptyTable())
    ensures GoodTable(EmptyTable())
  {
    hide SizesOf, KraftOf, Words, CodeAt, Pow2;
    NoWords(EmptyBook().bits, 16);
    SizesAscend(EmptyBook().bits, 16);
  }

  // A table serves the items of a scan.
  ghost predicate Serves(b: Book, d: Derived, items: seq<Item>, isDc: bool, tbl: nat) {
    && GoodBook(b) && Derives(b.bits, b.huffval, d) && GoodTable(d)
    && forall s: nat :: Symbol(isDc, tbl, s) in items ==> s < 256 && d.ehufsi[s] > 0
  }

  // How often each symbol occurs.
  ghost function SymbolCounts(items: seq<Item>, isDc: bool, tbl: nat): (counts: seq<nat>)
    ensures |counts| == SYMBOLS
  {
    seq(SYMBOLS, s requires 0 <= s < SYMBOLS => multiset(items)[Symbol(isDc, tbl, s)])
  }

  // The code lengths for the symbols of a table overflow.
  ghost predicate TableOverflows(items: seq<Item>, isDc: bool, tbl: nat) {
    Overflows(Weights(SymbolCounts(items, isDc, tbl)))
  }

  lemma SymbolCountsAre(counts: seq<nat>, items: seq<Item>, isDc: bool, tbl: nat)
    requires |counts| == SYMBOLS && CountsOf(counts, multiset(items), isDc, tbl, SYMBOLS)
    ensures counts == SymbolCounts(items, isDc, tbl)
  {
  }

  // The sum of the counts, with the pseudo-symbol.
  lemma WeightsTotal(counts: seq<nat>)
    requires |counts| == SYMBOLS
    ensures Total(Weights(counts), SYMBOLS) == Total(counts, 256) + 1
  {
    UsedSame(counts, Weights(counts), 256);
  }

  lemma NoCountsFit(counts: seq<nat>)
    requires |counts| == SYMBOLS && forall s :: 0 <= s < 256 ==> counts[s] == 0
    ensures !Overflows(Weights(counts))
  {
    hide Overflows, Total, Weights;
    NoTotal(counts, 256);
    WeightsTotal(counts);
    LightFits(Weights(counts));
  }

  // How many symbols of a table there are.
  ghost function TableTotal(items: seq<Item>, isDc: bool, tbl: nat): nat {
    Total(SymbolCounts(items, isDc, tbl), 256)
  }

  // Fewer symbols of a table than the 35th Fibonacci number cannot overflow.
  lemma FewItemsFit(items: seq<Item>, isDc: bool, tbl: nat)
    requires TableTotal(items, isDc, tbl) < 9227464
    ensures !TableOverflows(items, isDc, tbl)
  {
    hide Overflows, Total, Weights;
    WeightsTotal(SymbolCounts(items, isDc, tbl));
    LightFits(Weights(SymbolCounts(items, isDc, tbl)));
  }

  lemma {:induction false} DcUsed(w: seq<nat>, n: nat)
    requires n <= |w| && forall s :: 12 <= s < |w| && s != 256 ==> w[s] == 0
    ensures |Used(w, w, n)| <= (if n <= 12 then n else 12) + (if n > 256 then 1 else 0)
  {
    if n > 0 {
      DcUsed(w, n - 1);
    }
  }

  // There are too few DC symbols for an overflow.
  lemma DcNeverOverflows(items: seq<Item>, tbl: nat)
    requires SymbolsInRange(items)
    ensures !TableOverflows(items, true, tbl)
  {
    hide Overflows, Used, SymbolsInRange;
    var w := Weights(SymbolCounts(items, true, tbl));
    forall s | 12 <= s < SYMBOLS && s != 256
      ensures w[s] == 0
    {
      DcSymbolIsSmall(items, tbl, s);
    }
    DcUsed(w, SYMBOLS);
    FewSymbolsFit(w);
  }

  lemma DcSymbolIsSmall(items: seq<Item>, tbl: nat, s: nat)
    requires SymbolsInRange(items) && 12 <= s
    ensures multiset(items)[Symbol(true, tbl, s)] == 0
  {
    assert !SymbolInRange(Symbol(true, tbl, s));
    assert Symbol(true, tbl, s) !in items;
  }

  // The optimal table for the counts of one table number. False is the error exit on a code
  // length overflow.
  method MakeTable(counts: seq<nat>, isDc: bool, tbl: nat, ghost items: seq<Item>)
    returns (ok: bool, b: Book, d: Derived)
    requires |counts| == SYMBOLS && CountsOf(counts, multiset(items), isDc, tbl, SYMBOLS)
    requires SymbolsInRange(items) && Total(counts, 256) < SENTINEL
    ensures ok ==> Serves(b, d, items, isDc, tbl)
    ensures ok <==> !TableOverflows(items, isDc, tbl)
  {
    hide GoodBook, Derives, Countable, IsOptimal, Acceptable, CodeWord, Apart, SizesOf, Words, KraftOf, HuffmanSizes;
    hide Overflows, KeepsOrder, KeepsSizes, SizesAreShort, Weights, Total;
    SymbolCountsAre(counts, items, isDc, tbl);
    assert forall s: nat :: Symbol(isDc, tbl, s) in items ==>
      SymbolInRange(Symbol(isDc, tbl, s)) && Symbol(isDc, tbl, s) in multiset(items);
    var used := exists s :: 0 <= s < 256 && counts[s] > 0;
    if used {
      CountsAreCountable(counts, items, isDc, tbl);
      var freq := new nat[SYMBOLS](i requires 0 <= i < SYMBOLS => counts[i]);
      assert freq[..] == counts;
      var bits, huffval;
      ok, d, bits, huffval := OptimalCodes(isDc, freq);
      b := Book(bits, huffval);
      if ok {
        AcceptableIsGood(isDc, bits, huffval, d);
      }
    } else {
      EmptyIsGood();
      NoCountsFit(counts);
      ok, b, d := true, EmptyBook(), EmptyTable();
    }
  }

  lemma AcceptableIsGood(isDc: bool, bits: seq<byte>, huffval: seq<byte>, d: Derived)
    requires |bits| == 17 && |huffval| == 256 && Acceptable(isDc, bits, huffval) && Derives(bits, huffval, d)
    requires forall s :: 0 <= s < 256 && d.ehufsi[s] > 0 ==> d.ehufsi[s] <= 16
    ensures GoodBook(Book(bits, huffval)) && GoodTable(d)
  {
  }

  // ----- The whole -----

  datatype Outcome = OutOfRange | LengthOverflow | Done(out: seq<byte>, books: Books)

  ghost function AllZigzags(p: Scan, mcus: seq<seq<array<int>>>): (ts: seq<Mcu>)
    requires ValidHuffmanScan(p) && AreMcus(p, mcus)
    reads set j, i | 0 <= j < |mcus| && 0 <= i < |mcus[j]| :: mcus[j][i]
    ensures |ts| == |mcus| && McusOfScan(p, ts) && forall j :: 0 <= j < |ts| ==> ts[j] == Zigzags(p, mcus[j])
  {
    if mcus == [] then []
    else AllZigzags(p, mcus[..|mcus| - 1]) + [Zigzags(p, mcus[|mcus| - 1])]
  }

  ghost predicate AreMcus(p: Scan, mcus: seq<seq<array<int>>>) {
    forall j :: 0 <= j < |mcus| ==>
      |mcus[j]| == |p.membership| && forall i :: 0 <= i < |mcus[j]| ==> mcus[j][i].Length == 64
  }

  // The statistics pass.
  method GatherAll(p: Scan, mcus: seq<seq<array<int>>>) returns (ok: bool, g: Gatherer)
    requires ValidHuffmanScan(p) && AreMcus(p, mcus)
    ensures fresh(g) && g.Valid() && g.scan == p
    ensures ok <==> ScanInRange(p, p.restart, [0, 0, 0, 0], AllZigzags(p, mcus), 0)
    ensures ok ==> g.items == ScanItems(p, p.restart, [0, 0, 0, 0], AllZigzags(p, mcus), 0)
  {
    hide Gatherer.Valid, McuItems, McuInRange, LastAfter, ValidHuffmanScan;
    hide ScanItems, ScanInRange, AllZigzags, LastAt, ResetLast;
    ghost var ts := AllZigzags(p, mcus);
    g := new Gatherer(p);
    ghost var goal := ScanItems(p, p.restart, [0, 0, 0, 0], ts, 0);
    assert [] + goal == goal;
    for j := 0 to |mcus|
      invariant fresh(g) && g.Valid() && g.scan == p && |g.lastDcVal| == 4 && ts == AllZigzags(p, mcus)
      invariant g.items + ScanItems(p, g.restartsToGo, g.lastDcVal, ts, j) == goal
      invariant ScanInRange(p, g.restartsToGo, g.lastDcVal, ts, j)
             == ScanInRange(p, p.restart, [0, 0, 0, 0], ts, 0)
    {
      NextScanItems(p, g.restartsToGo, g.lastDcVal, ts, j, g.items);
      ok := g.EncodeMcuGather(mcus[j]);
      if !ok {
        return;
      }
    }
    LastScanItems(p, g.restartsToGo, g.lastDcVal, ts, g.items);
    ok := true;
  }

  lemma NextScanItems(p: Scan, togo: nat, last: seq<int>, mcus: seq<Mcu>, j: nat, before: seq<Item>)
    requires ValidHuffmanScan(p) && McusOfScan(p, mcus) && |last| == 4 && j < |mcus|
    ensures var from := LastAt(p, togo, last); var next := LastAfter(p, from, mcus[j], 0);
      && before + ScanItems(p, togo, last, mcus, j)
         == before + McuItems(p, from, mcus[j], 0) + ScanItems(p, NextToGo(p, togo), next, mcus, j + 1)
      && (ScanInRange(p, togo, last, mcus, j) <==>
          McuInRange(p, from, mcus[j], 0) && ScanInRange(p, NextToGo(p, togo), next, mcus, j + 1))
  {
    hide McuItems, McuInRange, LastAfter, ValidHuffmanScan;
  }

  lemma LastScanItems(p: Scan, togo: nat, last: seq<int>, mcus: seq<Mcu>, before: seq<Item>)
    requires ValidHuffmanScan(p) && McusOfScan(p, mcus) && |last| == 4
    ensures before + ScanItems(p, togo, last, mcus, |mcus|) == before
    ensures ScanInRange(p, togo, last, mcus, |mcus|)
  {
  }

  // The output pass. It fails only on a coefficient out of range or a symbol without a code.
  method EncodeAll(p: Scan, mcus: seq<seq<array<int>>>, tables: Tables)
    returns (ok: bool, out: seq<byte>, ghost pieces: seq<Piece>)
    requires ValidHuffmanScan(p) && AreMcus(p, mcus)
    requires |tables.dc| == |tables.ac| == NUM_HUFF_TBLS && GoodTables(tables)
    ensures ok <==>
      && ScanInRange(p, p.restart, [0, 0, 0, 0], AllZigzags(p, mcus), 0)
      && HaveCodes(tables, ScanItems(p, p.restart, [0, 0, 0, 0], AllZigzags(p, mcus), 0))
    ensures ok ==>
      && AllHold(tables, pieces) && ItemsOf(pieces) == SegmentItems(p, p.restart, [0, 0, 0, 0], AllZigzags(p, mcus), 0)
      && out == StreamOf(pieces)
  {
    hide Encoder.Valid, BitWriter.Valid, McuItems, McuInRange, LastAfter, ValidHuffmanScan, HasCode, HaveCodes, StreamOf;
    hide SegmentHolds, GoodTables, Stuff, ScanItems, ScanInRange, AllZigzags, LastAt, ResetLast, SegmentItems, AllHold,
      Marked, ItemsOf, Lined, NextToGo, BitsOf, Unpack, CodeWord;
    ghost var ts := AllZigzags(p, mcus);
    var w := new BitWriter();
    var enc := new Encoder(p, tables, w);
    ghost var goal := SegmentItems(p, p.restart, [0, 0, 0, 0], ts, 0);
    NothingLined(tables, goal);
    for j := 0 to |mcus|
      invariant fresh(enc) && fresh(w) && enc.Valid() && enc.scan == p && enc.tables == tables && enc.writer == w
      invariant |enc.lastDcVal| == 4 && ts == AllZigzags(p, mcus)
      invariant Lined(ItemsOf(enc.pieces), enc.segment, SegmentItems(p, enc.restartsToGo, enc.lastDcVal, ts, j)) == goal
      invariant HaveCodes(tables, ScanItems(p, enc.restartsToGo, enc.lastDcVal, ts, j))
             == HaveCodes(tables, ScanItems(p, p.restart, [0, 0, 0, 0], ts, 0))
      invariant ScanInRange(p, enc.restartsToGo, enc.lastDcVal, ts, j)
             == ScanInRange(p, p.restart, [0, 0, 0, 0], ts, 0)
      invariant AllHold(tables, enc.pieces) && w.closed == Marked(enc.pieces) && enc.nextRestartNum == |enc.pieces| % 8
    {
      NextScanItems(p, enc.restartsToGo, enc.lastDcVal, ts, j, []);
      NextScanCodes(tables, p, enc.restartsToGo, enc.lastDcVal, ts, j);
      NextSegmentItems(p, enc.restartsToGo, enc.lastDcVal, ts, j, ItemsOf(enc.pieces), enc.segment);
      ghost var before := enc.pieces;
      ok := enc.EncodeMcu(mcus[j]);
      if !ok {
        out, pieces := [], [];
        return;
      }
      if enc.pieces != before {
        PieceCloses(tables, before, enc.pieces[|before|]);
      }
    }
    LastScanItems(p, enc.restartsToGo, enc.lastDcVal, ts, []);
    LastScanCodes(tables, p, enc.restartsToGo, enc.lastDcVal, ts);
    LastSegmentItems(p, enc.restartsToGo, enc.lastDcVal, ts, ItemsOf(enc.pieces), enc.segment);
    ghost var sent := enc.FinishSegment();
    pieces := enc.pieces + [Piece(enc.segment, sent)];
    LastPiece(tables, enc.pieces, Piece(enc.segment, sent));
    ok, out := true, w.out;
  }

  ghost predicate SomeOverflows(items: seq<Item>) {
    exists j :: 0 <= j < NUM_HUFF_TBLS && TableOverflows(items, false, j)
  }

  // No count reaches the sentinel of the merge loop.
  ghost predicate CountsBelow(items: seq<Item>, bound: nat) {
    forall j :: 0 <= j < NUM_HUFF_TBLS ==> TableTotal(items, true, j) < bound && TableTotal(items, false, j) < bound
  }

  // The symbols of each AC table are few.
  ghost predicate FewAcSymbols(items: seq<Item>) {
    forall j :: 0 <= j < NUM_HUFF_TBLS ==> TableTotal(items, false, j) < 9227464
  }

  // The tables at the end of a statistics pass. A table no symbol uses costs nothing.
  method MakeTables(g: Gatherer) returns (ok: bool, tables: Tables, books: Books)
    requires g.Valid() && SymbolsInRange(g.items) && CountsBelow(g.items, SENTINEL)
    ensures ok ==>
      && |tables.dc| == |tables.ac| == NUM_HUFF_TBLS && GoodTables(tables) && GoodBooks(books)
      && Matches(tables, books) && HaveCodes(tables, g.items)
    ensures ok <==> !SomeOverflows(g.items)
  {
    hide GoodBook, Derives, GoodTable, SymbolsInRange, TableOverflows, Serves, Total;
    tables, books := Tables([], []), Books([], []);
    for i := 0 to NUM_HUFF_TBLS
      invariant |tables.dc| == |tables.ac| == |books.dc| == |books.ac| == i
      invariant forall j :: 0 <= j < i ==>
        && Serves(books.dc[j], tables.dc[j], g.items, true, j)
        && Serves(books.ac[j], tables.ac[j], g.items, false, j)
        && !TableOverflows(g.items, false, j)
    {
      var b, d;
      SymbolCountsAre(g.dcCounts[i], g.items, true, i);
      SymbolCountsAre(g.acCounts[i], g.items, false, i);
      DcNeverOverflows(g.items, i);
      assert TableTotal(g.items, true, i) < SENTINEL && TableTotal(g.items, false, i) < SENTINEL;
      ok, b, d := MakeTable(g.dcCounts[i], true, i, g.items);
      if !ok {
        return;
      }
      tables, books := tables.(dc := tables.dc + [d]), books.(dc := books.dc + [b]);
      ok, b, d := MakeTable(g.acCounts[i], false, i, g.items);
      if !ok {
        return;
      }
      tables, books := tables.(ac := tables.ac + [d]), books.(ac := books.ac + [b]);
    }
    AllServed(tables, books, g.items);
    ok := true;
  }

  lemma AllServed(tables: Tables, books: Books, items: seq<Item>)
    requires |tables.dc| == |tables.ac| == |books.dc| == |books.ac| == NUM_HUFF_TBLS
    requires forall j :: 0 <= j < NUM_HUFF_TBLS ==>
      && Serves(books.dc[j], tables.dc[j], items, true, j)
      && Serves(books.ac[j], tables.ac[j], items, false, j)
    requires SymbolsInRange(items)
    ensures GoodTables(tables) && GoodBooks(books) && Matches(tables, books) && HaveCodes(tables, items)
  {
    hide GoodBook, Derives, GoodTable;
    forall i | i in items
      ensures HasCode(tables, i)
    {
      assert SymbolInRange(i);
      if i.Symbol? {
        assert i == Symbol(i.isDc, i.tbl, i.s);
      }
    }
  }

  // With the tables made from its own statistics a scan is always encoded: the error exit on
  // a missing code cannot occur. And what is encoded is what is decoded.
  method OptimizedScan(p: Scan, mcus: seq<seq<array<int>>>, tail: seq<byte>) returns (r: Outcome)
    requires ValidHuffmanScan(p) && AreMcus(p, mcus) && StartsWithMarker(tail)
    requires forall j, i :: 0 <= j < |mcus| && 0 <= i < |mcus[j]| ==> InShort(mcus[j][i][0])
    requires CountsBelow(ScanItems(p, p.restart, [0, 0, 0, 0], AllZigzags(p, mcus), 0), SENTINEL)
    ensures var ts := AllZigzags(p, mcus); var items := ScanItems(p, p.restart, [0, 0, 0, 0], ts, 0);
      && (r.OutOfRange? <==> !ScanInRange(p, p.restart, [0, 0, 0, 0], ts, 0))
      && (r.LengthOverflow? <==> !r.OutOfRange? && SomeOverflows(items))
      && (FewAcSymbols(items) ==> !r.LengthOverflow?)
    ensures r.Done? ==> GoodBooks(r.books)
    ensures r.Done? ==> DecodeScan(p, r.books, r.out + tail, |mcus|) == Some(AllZigzags(p, mcus))
  {
    hide Gatherer.Valid, ScanInRange, ScanItems, HaveCodes, Matches, SymbolsInRange, GoodTables, GoodBooks;
    hide SomeOverflows, CountsBelow, FewAcSymbols, SegmentItems, AllHold, StreamOf, ItemsOf, StartsWithMarker, DecodeScan, Zigzags, AllZigzags, ValidScan;
    ghost var ts := AllZigzags(p, mcus);
    var ok, g := GatherAll(p, mcus);
    if !ok {
      return OutOfRange;
    }
    ScanSymbols(p, p.restart, [0, 0, 0, 0], ts, 0);
    FewFit(g.items);
    var tables, books;
    ok, tables, books := MakeTables(g);
    if !ok {
      return LengthOverflow;
    }
    var out;
    ghost var pieces;
    ok, out, pieces := EncodeAll(p, mcus, tables);
    assert ok;
    r := Done(out, books);
    DcFits(p, mcus);
    StreamDecodes(tables, p, books, ts, pieces, tail);
  }

  lemma FewFit(items: seq<Item>)
    ensures FewAcSymbols(items) ==> !SomeOverflows(items)
  {
    hide TableOverflows, TableTotal;
    if FewAcSymbols(items) {
      forall j | 0 <= j < NUM_HUFF_TBLS
        ensures !TableOverflows(items, false, j)
      {
        FewItemsFit(items, false, j);
      }
    }
  }

  lemma DcFits(p: Scan, mcus: seq<seq<array<int>>>)
    requires ValidHuffmanScan(p) && AreMcus(p, mcus)
    requires forall j, i :: 0 <= j < |mcus| && 0 <= i < |mcus[j]| ==> InShort(mcus[j][i][0])
    ensures forall j :: 0 <= j < |mcus| ==> ShortDc(AllZigzags(p, mcus)[j])
  {
    forall j, i | 0 <= j < |mcus| && 0 <= i < |mcus[j]|
      ensures AllZigzags(p, mcus)[j][i] != [] && InShort(AllZigzags(p, mcus)[j][i][0])
    {
      assert AllZigzags(p, mcus)[j] == Zigzags(p, mcus[j]);
      assert Zigzags(p, mcus[j])[i][0] == mcus[j][i][0];
    }
  }
}
