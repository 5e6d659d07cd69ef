// An AC refinement scan on its way to bytes: the table made of its own symbols, the packed items,
// and a decoder that reads the bits back.
module RefinementStream {
  import opened Powers
  import opened Bytes
  import opened DecisionModel
  import opened HuffmanMerge
  import opened DerivedTable
  import opened BitStream
  import opened HuffmanItems
  import opened RefinementItems
  import opened HuffmanRefinement
  import opened HuffmanScan
  import opened HuffmanSegments
  import opened HuffmanRoundTrip
  import opened HuffmanDepth
  import opened HuffmanTable

  // ----- The decoder on bits (section G.1.2.3 of T.81) -----

  datatype Spot = Spot(v: Block, k: nat, bits: seq<bool>)

  function BitOf(s: seq<bool>): nat {
    if FirstBit(s) then 1 else 0
  }

  function AdvanceBits(v: Block, k: nat, r: nat, s: seq<bool>): (p: Spot)
    ensures |p.v| == |v| && p.k >= k
    decreases |v| - k
  {
    if k >= |v| then Spot(v, k, s)
    else if v[k] != 0 then AdvanceBits(v[k := CorrectedBy(v[k], BitOf(s))], k + 1, r, RestBits(s))
    else if r == 0 then Spot(v, k, s)
    else AdvanceBits(v, k + 1, r - 1, s)
  }

  function TailBits(v: Block, k: nat, s: seq<bool>): (p: Spot)
    ensures |p.v| == |v|
    decreases |v| - k
  {
    if k >= |v| then Spot(v, k, s)
    else if v[k] != 0 then TailBits(v[k := CorrectedBy(v[k], BitOf(s))], k + 1, RestBits(s))
    else TailBits(v, k + 1, s)
  }

  // The blocks from block j on, which is at coefficient k.
  ghost function CoefBits(b: Book, us: seq<Block>, ss: nat, j: nat, v: Block, k: nat, s: seq<bool>): seq<Block>
    requires GoodBook(b)
    decreases |us| - j, 1 + |v| - k
  {
    if j >= |us| then []
    else if k >= |v| then [v] + BlockBits(b, us, ss, j + 1, s)
    else
      var (symbol, rest) := NextSymbol(b, s);
      var r, n := symbol / 16, symbol % 16;
      if n != 0 then
        var p := AdvanceBits(v, k, r, RestBits(rest));
        if p.k >= |v| then []
        else CoefBits(b, us, ss, j, p.v[p.k := if FirstBit(rest) then 1 else -1], p.k + 1, p.bits)
      else if r == 15 then
        var p := AdvanceBits(v, k, 15, rest);
        CoefBits(b, us, ss, j, p.v, p.k + 1, p.bits)
      else if r == 0 then RunBits(b, us, ss, j, v, k, 1, rest)
      else
        var (extra, more) := Receive(rest, r, 0);
        RunBits(b, us, ss, j, v, k, Pow2(r) + extra, more)
  }

  ghost function BlockBits(b: Book, us: seq<Block>, ss: nat, j: nat, s: seq<bool>): seq<Block>
    requires GoodBook(b)
    decreases |us| - j, if j < |us| then 2 + |us[j]| else 0
  {
    if j >= |us| then [] else CoefBits(b, us, ss, j, us[j], ss, s)
  }

  ghost function RunBits(b: Book, us: seq<Block>, ss: nat, j: nat, v: Block, k: nat, run: nat, s: seq<bool>): seq<Block>
    requires run > 0 && GoodBook(b)
    decreases |us| - j, 0
  {
    if j >= |us| then []
    else
      var p := TailBits(v, k, s);
      [p.v]
      + (if run > 1 && j + 1 < |us| then RunBits(b, us, ss, j + 1, us[j + 1], ss, run - 1, p.bits)
         else BlockBits(b, us, ss, j + 1, p.bits))
  }

  // ----- Items and their bits -----

  // Items that a table set has codes for, all of one AC table.
  ghost predicate InTable(ts: Tables, tbl: nat, items: seq<Item>) {
    HaveCodes(ts, items) && OfTable(items, tbl)
  }

  lemma FirstItem(ts: Tables, tbl: nat, items: seq<Item>, rest: seq<bool>)
    requires InTable(ts, tbl, items) && items != []
    ensures InTable(ts, tbl, items[1..]) && HasCode(ts, items[0]) && IsOfTable(items[0], tbl)
    ensures BitsOf(ts, items) + rest == ItemBits(ts, items[0]) + (BitsOf(ts, items[1..]) + rest)
  {
    hide HasCode, IsOfTable;
  }

  lemma BitIs(ts: Tables, tbl: nat, items: seq<Item>, rest: seq<bool>)
    requires InTable(ts, tbl, items) && BitNext(items)
    ensures InTable(ts, tbl, items[1..]) && items[0].v < 2
    ensures var s := BitsOf(ts, items) + rest;
      BitOf(s) == items[0].v && RestBits(s) == BitsOf(ts, items[1..]) + rest
  {
    FirstItem(ts, tbl, items, rest);
    assert Pow2(1) == 2;
    OneBit(items[0].v);
    hide BitsOf;
    var s := BitsOf(ts, items) + rest;
    assert s == [items[0].v == 1] + (BitsOf(ts, items[1..]) + rest);
  }

  lemma {:induction false} AdvanceSame(ts: Tables, tbl: nat, v: Block, k: nat, r: nat, items: seq<Item>, rest: seq<bool>)
    requires InTable(ts, tbl, items) && Advance(v, k, r, items).Place?
    ensures var p := Advance(v, k, r, items);
      && InTable(ts, tbl, p.rest)
      && AdvanceBits(v, k, r, BitsOf(ts, items) + rest) == Spot(p.v, p.k, BitsOf(ts, p.rest) + rest)
    decreases |v| - k
  {
    hide BitsOf, InTable, CorrectedBy;
    InTableIs(ts, tbl, items);
    if k < |v| {
      if v[k] != 0 {
        BitIs(ts, tbl, items, rest);
        AdvanceSame(ts, tbl, v[k := CorrectedBy(v[k], items[0].v)], k + 1, r, items[1..], rest);
      } else if r > 0 {
        AdvanceSame(ts, tbl, v, k + 1, r - 1, items, rest);
      }
    }
  }

  lemma InTableIs(ts: Tables, tbl: nat, items: seq<Item>)
    requires InTable(ts, tbl, items)
    ensures HaveCodes(ts, items)
  {
  }

  lemma {:induction false} TailSame(ts: Tables, tbl: nat, v: Block, k: nat, items: seq<Item>, rest: seq<bool>)
    requires InTable(ts, tbl, items) && Tail(v, k, items).Place?
    ensures var p := Tail(v, k, items);
      && InTable(ts, tbl, p.rest)
      && TailBits(v, k, BitsOf(ts, items) + rest) == Spot(p.v, p.k, BitsOf(ts, p.rest) + rest)
    decreases |v| - k
  {
    hide BitsOf, InTable, CorrectedBy;
    InTableIs(ts, tbl, items);
    if k < |v| {
      if v[k] != 0 {
        BitIs(ts, tbl, items, rest);
        TailSame(ts, tbl, v[k := CorrectedBy(v[k], items[0].v)], k + 1, items[1..], rest);
      } else {
        TailSame(ts, tbl, v, k + 1, items, rest);
      }
    }
  }

  // The book of the table.
  ghost predicate Serving(ts: Tables, bs: Books, tbl: nat) {
    Matches(ts, bs) && tbl < |bs.ac| && GoodBook(bs.ac[tbl])
  }

  lemma SymbolIs(ts: Tables, bs: Books, tbl: nat, items: seq<Item>, rest: seq<bool>)
    requires InTable(ts, tbl, items) && items != [] && items[0].Symbol? && Serving(ts, bs, tbl)
    ensures InTable(ts, tbl, items[1..]) && items[0].s < 256
    ensures NextSymbol(bs.ac[tbl], BitsOf(ts, items) + rest) == (items[0].s, BitsOf(ts, items[1..]) + rest)
  {
    FirstItem(ts, tbl, items, rest);
    hide BitsOf, InTable, NextSymbol, Matches, GoodBook;
    InTableIs(ts, tbl, items);
    InTableIs(ts, tbl, items[1..]);
    SymbolDecodes(ts, bs, items[0], BitsOf(ts, items[1..]) + rest);
  }

  lemma ExtraIs(ts: Tables, tbl: nat, items: seq<Item>, n: nat, rest: seq<bool>)
    requires InTable(ts, tbl, items) && items != [] && items[0].Extra? && items[0].n == n
    ensures InTable(ts, tbl, items[1..])
    ensures Receive(BitsOf(ts, items) + rest, n, 0) == (items[0].v, BitsOf(ts, items[1..]) + rest)
  {
    FirstItem(ts, tbl, items, rest);
    hide BitsOf, InTable;
    InTableIs(ts, tbl, items);
    InTableIs(ts, tbl, items[1..]);
    ReceiveExtra(items[0].v, n, 0, BitsOf(ts, items[1..]) + rest);
  }

  // ----- What decodes from items decodes from their bits -----

  // The decoder on items gets through to the last block.
  lemma {:induction false} CoefSame(ts: Tables, bs: Books, tbl: nat, us: seq<Block>, ss: nat, j: nat, v: Block, k: nat,
                                    items: seq<Item>, rest: seq<bool>)
    requires InTable(ts, tbl, items) && Serving(ts, bs, tbl) && j <= |us|
    requires |FromCoef(us, ss, j, v, k, items)| == |us| - j
    ensures CoefBits(bs.ac[tbl], us, ss, j, v, k, BitsOf(ts, items) + rest) == FromCoef(us, ss, j, v, k, items)
    decreases |us| - j, 1 + |v| - k
  {
    hide BitsOf, InTable, Serving, NextSymbol, GoodBook, Receive;
    ServingIs(ts, bs, tbl);
    InTableIs(ts, tbl, items);
    if j < |us| && k >= |v| {
      BlockSame(ts, bs, tbl, us, ss, j + 1, items, rest);
    } else if j < |us| {
      assert items != [] && items[0].Symbol?;
      SymbolIs(ts, bs, tbl, items, rest);
      var r, n, more := items[0].s / 16, items[0].s % 16, items[1..];
      InTableIs(ts, tbl, more);
      if n != 0 {
        BitIs(ts, tbl, more, rest);
        var p := Advance(v, k, r, more[1..]);
        AdvanceSame(ts, tbl, v, k, r, more[1..], rest);
        CoefSame(ts, bs, tbl, us, ss, j, p.v[p.k := if more[0].v == 1 then 1 else -1], p.k + 1, p.rest, rest);
      } else if r == 15 {
        var p := Advance(v, k, 15, more);
        AdvanceSame(ts, tbl, v, k, 15, more, rest);
        CoefSame(ts, bs, tbl, us, ss, j, p.v, p.k + 1, p.rest, rest);
      } else if r == 0 {
        RunSame(ts, bs, tbl, us, ss, j, v, k, 1, more, rest);
      } else {
        ExtraIs(ts, tbl, more, r, rest);
        RunSame(ts, bs, tbl, us, ss, j, v, k, Pow2(r) + more[0].v, more[1..], rest);
      }
    }
  }

  lemma ServingIs(ts: Tables, bs: Books, tbl: nat)
    requires Serving(ts, bs, tbl)
    ensures tbl < |bs.ac| && GoodBook(bs.ac[tbl])
  {
  }

  lemma {:induction false} BlockSame(ts: Tables, bs: Books, tbl: nat, us: seq<Block>, ss: nat, j: nat,
                                     items: seq<Item>, rest: seq<bool>)
    requires InTable(ts, tbl, items) && Serving(ts, bs, tbl) && j <= |us|
    requires |FromBlock(us, ss, j, items)| == |us| - j
    ensures BlockBits(bs.ac[tbl], us, ss, j, BitsOf(ts, items) + rest) == FromBlock(us, ss, j, items)
    decreases |us| - j, if j < |us| then 2 + |us[j]| else 0
  {
    hide BitsOf, InTable, Serving, GoodBook, FromCoef, CoefBits;
    ServingIs(ts, bs, tbl);
    if j < |us| {
      CoefSame(ts, bs, tbl, us, ss, j, us[j], ss, items, rest);
    }
  }

  lemma {:induction false} RunSame(ts: Tables, bs: Books, tbl: nat, us: seq<Block>, ss: nat, j: nat, v: Block, k: nat,
                                   run: nat, items: seq<Item>, rest: seq<bool>)
    requires run > 0 && InTable(ts, tbl, items) && Serving(ts, bs, tbl) && j <= |us|
    requires |InRun(us, ss, j, v, k, run, items)| == |us| - j
    ensures RunBits(bs.ac[tbl], us, ss, j, v, k, run, BitsOf(ts, items) + rest) == InRun(us, ss, j, v, k, run, items)
    decreases |us| - j, 0
  {
    hide BitsOf, InTable, Serving, GoodBook, FromCoef, CoefBits, Tail, TailBits, FromBlock, BlockBits;
    ServingIs(ts, bs, tbl);
    if j < |us| {
      var p := Tail(v, k, items);
      TailSame(ts, tbl, v, k, items, rest);
      if run > 1 && j + 1 < |us| {
        RunSame(ts, bs, tbl, us, ss, j + 1, us[j + 1], ss, run - 1, p.rest, rest);
      } else {
        BlockSame(ts, bs, tbl, us, ss, j + 1, p.rest, rest);
      }
    }
  }

  // ----- Packing -----

  // The bits of the items, in order. False stands for the error exit on a missing code.
  method PackItems(w: BitWriter, ts: Tables, tbl: nat, items: seq<Item>) returns (ok: bool)
    requires w.Valid() && w.bits == [] && GoodTables(ts) && tbl < |ts.ac| && OfTable(items, tbl)
    modifies w
    ensures w.Valid() && w.closed == old(w.closed)
    ensures ok <==> HaveCodes(ts, items)
    ensures ok ==> w.bits == BitsOf(ts, items)
  {
    hide BitWriter.Valid, BitsOf, HasCode, IsOfTable, CodeWord, Pow2, GoodTable;
    NoItems(ts);
    for n := 0 to |items|
      invariant w.Valid() && w.closed == old(w.closed)
      invariant HaveCodes(ts, items[..n]) && w.bits == BitsOf(ts, items[..n])
    {
      assert items[..n + 1] == items[..n] + [items[n]];
      OneMore(ts, tbl, items[..n], items[n]);
      var i := items[n];
      if i.Symbol? {
        ok := w.EmitBits(ts.ac[tbl].ehufco[i.s], ts.ac[tbl].ehufsi[i.s]);
        if !ok {
          assert items[n] in items;
          return;
        }
      } else {
        ok := w.EmitBits(i.v, i.n);
      }
    }
    assert items[..|items|] == items;
    ok := true;
  }

  lemma OneMore(ts: Tables, tbl: nat, items: seq<Item>, i: Item)
    requires HaveCodes(ts, items) && IsOfTable(i, tbl) && GoodTables(ts) && tbl < |ts.ac|
    ensures |ts.ac[tbl].ehufco| == |ts.ac[tbl].ehufsi| == 256 && GoodTable(ts.ac[tbl])
    ensures i.Symbol? ==>
      && i.s < 256 && ts.ac[tbl].ehufsi[i.s] <= 16 && (HasCode(ts, i) <==> ts.ac[tbl].ehufsi[i.s] > 0)
      && (HasCode(ts, i) ==>
          ItemBits(ts, i) == CodeWord(ts.ac[tbl].ehufco[i.s] % Pow2(ts.ac[tbl].ehufsi[i.s]), ts.ac[tbl].ehufsi[i.s]))
    ensures i.Extra? ==> 0 < i.n <= 16 && HasCode(ts, i) && ItemBits(ts, i) == CodeWord(i.v % Pow2(i.n), i.n)
    ensures HaveCodes(ts, items + [i]) <==> HasCode(ts, i)
    ensures HasCode(ts, i) ==> BitsOf(ts, items + [i]) == BitsOf(ts, items) + ItemBits(ts, i)
  {
    assert GoodTable(ts.ac[tbl]);
    hide CodeWord, Pow2, BitsOf;
    BitsOfJoin(ts, items, [i]);
    if HasCode(ts, i) {
      BitsOfOne(ts, i);
    }
    assert i in [i];
    if i.Extra? {
      SmallModulus(i.v, Pow2(i.n));
    }
  }

  // ----- Restart segments -----

  // The blocks of the restart segments.
  function Chunks(restart: nat, ts: seq<Block>): (cs: seq<seq<Block>>)
    ensures cs != [] && (restart > 0 && |ts| > restart ==> |cs| > 1)
    decreases |ts|
  {
    if restart == 0 || |ts| <= restart then [ts] else [ts[..restart]] + Chunks(restart, ts[restart..])
  }

  ghost function BandsOf(p: Scan, blocks: seq<array<int>>): (ts: seq<Block>)
    requires ValidScan(p) && forall n :: 0 <= n < |blocks| ==> blocks[n].Length == 64
    reads blocks
    ensures |ts| == |blocks| && forall n :: 0 <= n < |ts| ==> |ts[n]| == p.se + 1 && ts[n] == BandFrom(p, blocks[n][..])
  {
    seq(|blocks|, n requires 0 <= n < |blocks| reads blocks => BandFrom(p, blocks[n][..]))
  }

  // Each sequence of items takes a decoder through one segment.
  ghost predicate AllRead(ss: nat, cs: seq<seq<Block>>, pieces: seq<seq<Item>>) {
    |pieces| == |cs| && forall i :: 0 <= i < |cs| ==> FromBlock(Knowns(cs[i]), ss, 0, pieces[i]) == cs[i]
  }

  // A segment whose blocks make one run has one symbol, that of the run, and the correction bits.
  ghost predicate RunsAreWhole(ss: nat, tbl: nat, cs: seq<seq<Block>>, pieces: seq<seq<Item>>) {
    |pieces| == |cs| && forall i :: 0 <= i < |cs| ==> RunIsWhole(ss, tbl, cs[i], pieces[i])
  }

  ghost predicate RunIsWhole(ss: nat, tbl: nat, c: seq<Block>, items: seq<Item>) {
    c != [] && IsOneRun(c, ss, |c|) ==> items == EobItems(tbl, |c|) + RunCorrections(c, ss, 0, ss, |c|)
  }

  function Flat(pieces: seq<seq<Item>>): seq<Item> {
    if pieces == [] then [] else Flat(pieces[..|pieces| - 1]) + pieces[|pieces| - 1]
  }

  lemma FlatMore(pieces: seq<seq<Item>>, x: seq<Item>)
    ensures Flat(pieces + [x]) == Flat(pieces) + x
  {
    assert (pieces + [x])[..|pieces|] == pieces;
  }

  // The first segment of what is left, and the others.
  lemma ChunkIs(restart: nat, all: seq<Block>, b: nat)
    requires b <= |all|
    ensures var c := Chunks(restart, all[b..])[0];
      && b + |c| <= |all| && c == all[b..b + |c|] && (restart > 0 ==> |c| <= restart)
      && (restart > 0 && b + restart < |all| ==>
          |c| == restart && Chunks(restart, all[b..]) == [c] + Chunks(restart, all[b + restart..]))
      && (restart == 0 || |all| <= b + restart ==> |c| == |all| - b && Chunks(restart, all[b..]) == [c])
  {
    if restart > 0 && b + restart < |all| {
      assert all[b..][..restart] == all[b..b + restart] && all[b..][restart..] == all[b + restart..];
    } else {
      assert all[b..] == all[b..|all|];
    }
  }

  // ----- The statistics pass -----

  // The next segment is coded from scratch, but for the counts.
  method StartSegment(p: Scan, tbl: nat, counts: seq<nat>, ghost earlier: seq<Item>, ghost symbols: nat,
                      ghost all: seq<Block>, ghost b: nat) returns (enc: RefineEncoder)
    requires ValidScan(p) && 0 < p.ss <= p.se && Tallied(earlier, tbl, counts, symbols) && b <= |all|
    requires forall n :: 0 <= n < |all| ==> |all[n]| == p.se + 1
    requires forall n, k :: 0 <= n < |all| && 0 <= k < p.ss ==> k < |all[n]| && all[n][k] == 0
    ensures fresh(enc) && fresh(enc.bitBuffer) && enc.scan == p && enc.tbl == tbl && enc.earlier == earlier
    ensures enc.ts == Chunks(p.restart, all[b..])[0] && enc.Valid(0) && enc.Load() == symbols
    ensures enc.Held(0)
  {
    hide RefineEncoder.Underway, Tallied, ValidScan;
    ChunkIs(p.restart, all, b);
    ghost var ts := Chunks(p.restart, all[b..])[0];
    assert forall n :: 0 <= n < |ts| ==> ts[n] == all[b + n];
    enc := new RefineEncoder(p, tbl, counts, earlier, symbols, ts);
  }

  // A segment is closed: its items take a decoder through it.
  method CloseSegment(enc: RefineEncoder, pieces0: seq<seq<Item>>, ghost done: seq<seq<Block>>)
    returns (pieces: seq<seq<Item>>)
    requires enc.Valid(|enc.ts|) && AllRead(enc.scan.ss, done, pieces0) && enc.earlier == Flat(pieces0)
    requires RunsAreWhole(enc.scan.ss, enc.tbl, done, pieces0)
    requires enc.Held(|enc.ts|)
    modifies enc
    ensures AllRead(enc.scan.ss, done + [enc.ts], pieces)
    ensures RunsAreWhole(enc.scan.ss, enc.tbl, done + [enc.ts], pieces)
    ensures Tallied(Flat(pieces), enc.tbl, enc.counts, enc.symbols) && enc.symbols == old(enc.Load())
  {
    hide FromBlock, RefineEncoder.Underway, Tallied, AllRead, Flat, IsOneRun, EobItems, RunCorrections;
    enc.Finish();
    SegmentDone(enc);
    PieceRead(enc.scan.ss, done, enc.ts, pieces0, enc.out);
    RunsMore(enc.scan.ss, enc.tbl, done, enc.ts, pieces0, enc.out);
    FlatMore(pieces0, enc.out);
    pieces := pieces0 + [enc.out];
  }

  // Halfway through a scan: the segments done, and the current one, which began at block b.
  ghost predicate Midway(restart: nat, all: seq<Block>, done: seq<seq<Block>>, current: seq<Block>, b: nat, n: nat, togo: nat) {
    && b <= n <= |all| && current == Chunks(restart, all[b..])[0] && n - b <= |current|
    && done + Chunks(restart, all[b..]) == Chunks(restart, all)
    && (restart > 0 ==> togo + (n - b) == restart)
  }

  lemma ScanBegins(restart: nat, all: seq<Block>)
    ensures all[0..] == all && Midway(restart, all, [], Chunks(restart, all)[0], 0, 0, restart)
  {
    hide Chunks;
    assert all[0..] == all;
    assert [] + Chunks(restart, all) == Chunks(restart, all);
  }

  // A restart is due exactly where the current segment ends before the scan does.
  lemma SegmentEnds(restart: nat, all: seq<Block>, done: seq<seq<Block>>, current: seq<Block>, b: nat, n: nat)
    requires Midway(restart, all, done, current, b, n, 0) && restart > 0 && n < |all|
    ensures |current| == n - b
    ensures Midway(restart, all, done + [current], Chunks(restart, all[n..])[0], n, n, restart)
  {
    ChunkIs(restart, all, b);
    hide Chunks;
    NextChunks(done, current, Chunks(restart, all[n..]));
  }

  lemma BlockIsNext(restart: nat, all: seq<Block>, done: seq<seq<Block>>, current: seq<Block>, b: nat, n: nat, togo: nat)
    requires Midway(restart, all, done, current, b, n, togo) && n < |all| && (restart > 0 ==> togo > 0)
    ensures n - b < |current| && current[n - b] == all[n]
    ensures Midway(restart, all, done, current, b, n + 1, if restart > 0 then togo - 1 else togo)
  {
    ChunkIs(restart, all, b);
    hide Chunks;
  }

  lemma ScanEnds(restart: nat, all: seq<Block>, done: seq<seq<Block>>, current: seq<Block>, b: nat, togo: nat)
    requires Midway(restart, all, done, current, b, |all|, togo)
    ensures |current| == |all| - b && done + [current] == Chunks(restart, all)
  {
    ChunkIs(restart, all, b);
    hide Chunks;
  }

  // All items of the scan, segment by segment, and the counts of their symbols.
  method EncodeRefinement(p: Scan, tbl: nat, blocks: seq<array<int>>)
    returns (pieces: seq<seq<Item>>, counts: seq<nat>, ghost symbols: nat)
    requires ValidScan(p) && 0 < p.ss <= p.se && forall n :: 0 <= n < |blocks| ==> blocks[n].Length == 64
    ensures AllRead(p.ss, Chunks(p.restart, BandsOf(p, blocks)), pieces)
    ensures RunsAreWhole(p.ss, tbl, Chunks(p.restart, BandsOf(p, blocks)), pieces)
    ensures Tallied(Flat(pieces), tbl, counts, symbols) && symbols <= 64 * |blocks|
  {
    hide FromBlock, RefineEncoder.Underway, RefineEncoder.Valid, Tallied, Chunks, AllRead, Flat, BandFrom, ValidScan,
      Knowns, Midway, BandsOf, BitsOf, Unpack, CodeWord, IsOfTable, HasCode, RunsAreWhole,
      RefineEncoder.Held, RefineEncoder.Calm, RefineEncoder.HasRoom, RefineEncoder.CorrectionCount;
    ghost var all := BandsOf(p, blocks);
    NothingTallied(tbl);
    NoPieces(p.ss);
    ScanBegins(p.restart, all);
    BandsStart(p, blocks);
    pieces := [];
    ghost var done, b := [], 0;
    var togo := p.restart;
    var enc := StartSegment(p, tbl, NoCounts(SYMBOLS), [], 0, all, 0);
    for n := 0 to |blocks|
      invariant fresh(enc) && fresh(enc.bitBuffer) && enc.scan == p && enc.tbl == tbl && all == BandsOf(p, blocks)
      invariant b <= n && Midway(p.restart, all, done, enc.ts, b, n, togo) && enc.Valid(n - b)
      invariant AllRead(p.ss, done, pieces) && enc.earlier == Flat(pieces) && enc.Load() <= 64 * n
      invariant RunsAreWhole(p.ss, tbl, done, pieces) && enc.Held(n - b)
    {
      if p.restart != 0 && togo == 0 {
        SegmentEnds(p.restart, all, done, enc.ts, b, n);
        ghost var chunk := enc.ts;
        pieces := CloseSegment(enc, pieces, done);
        done, b, togo := done + [chunk], n, p.restart;
        enc := StartSegment(p, tbl, enc.counts, Flat(pieces), enc.symbols, all, n);
      }
      BlockIsNext(p.restart, all, done, enc.ts, b, n, togo);
      enc.EncodeMcu(blocks[n], n - b);
      if p.restart != 0 {
        togo := togo - 1;
      }
    }
    ScanEnds(p.restart, all, done, enc.ts, b, togo);
    pieces := CloseSegment(enc, pieces, done);
    counts, symbols := enc.counts, enc.symbols;
  }

  lemma NextChunks(done: seq<seq<Block>>, c: seq<Block>, cs: seq<seq<Block>>)
    ensures done + ([c] + cs) == done + [c] + cs
  {
  }

  lemma NoPieces(ss: nat)
    ensures AllRead(ss, [], []) && Flat([]) == []
    ensures forall tbl :: RunsAreWhole(ss, tbl, [], [])
  {
  }

  lemma BandsStart(p: Scan, blocks: seq<array<int>>)
    requires ValidScan(p) && 0 < p.ss <= p.se && forall n :: 0 <= n < |blocks| ==> blocks[n].Length == 64
    ensures var all := BandsOf(p, blocks);
      forall n, k :: 0 <= n < |all| && 0 <= k < p.ss ==> k < |all[n]| && all[n][k] == 0
  {
    var all := BandsOf(p, blocks);
    forall n, k | 0 <= n < |all| && 0 <= k < p.ss
      ensures k < |all[n]| && all[n][k] == 0
    {
      assert all[n] == BandFrom(p, blocks[n][..]);
    }
  }

  lemma SegmentDone(enc: RefineEncoder)
    requires enc.Valid(|enc.ts|)
    ensures Tallied(enc.earlier + enc.out, enc.tbl, enc.counts, enc.symbols)
  {
  }

  lemma RunsMore(ss: nat, tbl: nat, done: seq<seq<Block>>, chunk: seq<Block>, pieces: seq<seq<Item>>, out: seq<Item>)
    requires RunsAreWhole(ss, tbl, done, pieces) && RunIsWhole(ss, tbl, chunk, out)
    ensures RunsAreWhole(ss, tbl, done + [chunk], pieces + [out])
  {
    hide RunIsWhole;
  }

  lemma PieceRead(ss: nat, done: seq<seq<Block>>, chunk: seq<Block>, pieces: seq<seq<Item>>, out: seq<Item>)
    requires AllRead(ss, done, pieces) && FromBlock(Knowns(chunk), ss, 0, out) == chunk
    ensures AllRead(ss, done + [chunk], pieces + [out])
  {
    hide FromBlock;
  }

  // ----- The output pass -----

  // The segments, packed, padded and stuffed, with restart markers between them.
  method PackPieces(ts: Tables, tbl: nat, pieces: seq<seq<Item>>) returns (ok: bool, out: seq<byte>, ghost ps: seq<Piece>)
    requires GoodTables(ts) && tbl < |ts.ac| && OfTable(Flat(pieces), tbl) && pieces != []
    ensures ok <==> HaveCodes(ts, Flat(pieces))
    ensures ok ==> AllHold(ts, ps) && ItemsOf(ps) == pieces && out == StreamOf(ps)
  {
    hide BitWriter.Valid, BitsOf, HasCode, HaveCodes, IsOfTable, OfTable, GoodTables, SegmentHolds, Stuff, Unpack, Flat,
      CodeWord, AllHold, ItemsOf, Marked, StreamOf;
    var w := new BitWriter();
    ps, out := [], [];
    NothingPacked(ts);
    for g := 0 to |pieces|
      invariant fresh(w) && w.Valid() && w.bits == [] && w.closed == w.out
      invariant AllHold(ts, ps) && ItemsOf(ps) == pieces[..g] && HaveCodes(ts, Flat(pieces[..g]))
      invariant if g < |pieces| then w.out == Marked(ps) && |ps| == g else w.out == StreamOf(ps)
    {
      PieceOf(ts, tbl, pieces, g);
      ok := PackItems(w, ts, tbl, pieces[g]);
      if !ok {
        return;
      }
      w.FlushBits();
      ghost var x := Piece(pieces[g], w.sent);
      assert SegmentHolds(ts, x.items, x.sent) by {
        Flushed(ts, pieces[g], w.sent);
      }
      PieceCloses(ts, ps, x);
      LastPiece(ts, ps, x);
      if g + 1 < |pieces| {
        w.EmitByte(0xFF);
        w.EmitByte(0xD0 + g % 8);
      }
      w.StartSegment();
      ps := ps + [x];
    }
    assert pieces[..|pieces|] == pieces;
    ok, out := true, w.out;
  }

  lemma NothingPacked(ts: Tables)
    ensures AllHold(ts, []) && ItemsOf([]) == [] && Marked([]) == [] && HaveCodes(ts, Flat([]))
  {
  }

  lemma Flushed(ts: Tables, items: seq<Item>, sent: seq<byte>)
    requires HaveCodes(ts, items) && exists k :: 0 <= k <= 7 && Unpack(sent) == BitsOf(ts, items) + Ones(k)
    ensures SegmentHolds(ts, items, sent)
  {
  }

  lemma {:induction false} PartOfFlat(pieces: seq<seq<Item>>, g: nat)
    requires g <= |pieces|
    ensures forall i :: i in Flat(pieces[..g]) ==> i in Flat(pieces)
    decreases |pieces| - g
  {
    hide Flat;
    if g < |pieces| {
      assert pieces[..g + 1] == pieces[..g] + [pieces[g]];
      FlatMore(pieces[..g], pieces[g]);
      PartOfFlat(pieces, g + 1);
    } else {
      assert pieces[..g] == pieces;
    }
  }

  lemma PieceOf(ts: Tables, tbl: nat, pieces: seq<seq<Item>>, g: nat)
    requires g < |pieces| && OfTable(Flat(pieces), tbl) && HaveCodes(ts, Flat(pieces[..g]))
    ensures OfTable(pieces[g], tbl) && pieces[..g + 1] == pieces[..g] + [pieces[g]]
    ensures HaveCodes(ts, Flat(pieces[..g + 1])) <==> HaveCodes(ts, pieces[g])
    ensures !HaveCodes(ts, pieces[g]) ==> !HaveCodes(ts, Flat(pieces))
  {
    hide HasCode, IsOfTable, Flat, BitsOf;
    assert pieces[..g + 1] == pieces[..g] + [pieces[g]];
    FlatMore(pieces[..g], pieces[g]);
    PartOfFlat(pieces, g + 1);
    BitsOfJoin(ts, Flat(pieces[..g]), pieces[g]);
  }

  // ----- Decoding with restarts -----

  // The refined blocks: a segment from the bits up to the marker, the next one behind it.
  ghost function DecodeRefined(p: Scan, b: Book, us: seq<Block>, g: nat, src: seq<byte>): HuffmanSegments.Option<seq<Block>>
    requires GoodBook(b)
    decreases |us|
  {
    var n := if p.restart == 0 || |us| <= p.restart then |us| else p.restart;
    var head := BlockBits(b, us[..n], p.ss, 0, Unpack(Unstuff(src)));
    if n == |us| then Some(head)
    else if Marker(src) != 0xD0 + g % 8 then None
    else
      var r := DecodeRefined(p, b, us[n..], g + 1, Behind(src));
      if r.None? then None else Some(head + r.value)
  }

  // One segment.
  lemma ChunkDecodes(ts: Tables, bs: Books, tbl: nat, ss: nat, c: seq<Block>, ps: seq<Piece>, g: nat, tail: seq<byte>)
    requires Serving(ts, bs, tbl) && AllHold(ts, ps) && g < |ps| && OfTable(ps[g].items, tbl) && StartsWithMarker(tail)
    requires FromBlock(Knowns(c), ss, 0, ps[g].items) == c
    ensures tbl < |bs.ac| && GoodBook(bs.ac[tbl])
    ensures BlockBits(bs.ac[tbl], Knowns(c), ss, 0, Unpack(Unstuff(ScanModel.StreamFrom(Segments(ps), g, tail)))) == c
  {
    hide Serving, AllHold, OfTable, BlockBits, FromBlock, GoodBook, BitsOf, Unpack, Unstuff, ScanModel.StreamFrom;
    ServingIs(ts, bs, tbl);
    ScanModel.StreamReads(Segments(ps), g, tail);
    var ones := PieceBits(ts, ps, g);
    assert InTable(ts, tbl, ps[g].items);
    BlockSame(ts, bs, tbl, Knowns(c), ss, 0, ps[g].items, ones);
  }

  lemma {:induction false} ChunksDecode(p: Scan, ts: Tables, bs: Books, tbl: nat, all: seq<Block>, ps: seq<Piece>, g: nat,
                                        tail: seq<byte>)
    requires Serving(ts, bs, tbl) && AllHold(ts, ps) && g < |ps| && StartsWithMarker(tail)
    requires forall i :: 0 <= i < |ps| ==> OfTable(ps[i].items, tbl)
    requires AllRead(p.ss, Chunks(p.restart, all), ItemsOf(ps)[g..])
    ensures tbl < |bs.ac| && GoodBook(bs.ac[tbl])
    ensures DecodeRefined(p, bs.ac[tbl], Knowns(all), g, ScanModel.StreamFrom(Segments(ps), g, tail)) == Some(all)
    decreases |all|
  {
    hide Serving, AllHold, OfTable, BlockBits, FromBlock, GoodBook, Unpack, Unstuff, ScanModel.StreamFrom, Marker, Behind,
      StartsWithMarker, Segments, BandsAligned;
    ServingIs(ts, bs, tbl);
    ChunkIs(p.restart, all, 0);
    assert all[0..] == all;
    var cs := Chunks(p.restart, all);
    assert ItemsOf(ps)[g..][0] == ps[g].items;
    ChunkDecodes(ts, bs, tbl, p.ss, cs[0], ps, g, tail);
    var n := |cs[0]|;
    KnownsSlice(all, n);
    if n < |all| {
      assert cs[1..] == Chunks(p.restart, all[n..]);
      assert ItemsOf(ps)[g + 1..] == ItemsOf(ps)[g..][1..];
      NextRead(p.ss, cs, ItemsOf(ps)[g..]);
      PieceFollows(ps, g, tail);
      ChunksDecode(p, ts, bs, tbl, all[n..], ps, g + 1, tail);
      assert all[..n] + all[n..] == all;
    } else {
      assert all[..n] == all && Knowns(all)[..n] == Knowns(all);
    }
  }

  lemma KnownsSlice(all: seq<Block>, n: nat)
    requires n <= |all|
    ensures Knowns(all)[..n] == Knowns(all[..n]) && Knowns(all)[n..] == Knowns(all[n..])
  {
  }

  lemma NextRead(ss: nat, cs: seq<seq<Block>>, pieces: seq<seq<Item>>)
    requires AllRead(ss, cs, pieces) && cs != []
    ensures AllRead(ss, cs[1..], pieces[1..])
  {
    hide FromBlock;
  }

  // ----- The whole -----

  datatype Refined = TooMany | Refined(out: seq<byte>, book: Book)

  lemma {:induction false} PairsUsed(w: seq<nat>, n: nat)
    requires n <= |w| <= 257 && forall s :: 0 <= s < |w| && s != 256 && s % 16 > 1 ==> w[s] == 0
    ensures |Used(w, w, n)| <= 2 * (n / 16) + if n % 16 == 0 then 0 else if n % 16 == 1 then 1 else 2
  {
    if n > 0 {
      PairsUsed(w, n - 1);
    }
  }

  // A refinement has only 32 symbols, too few for an overflow.
  lemma RefinementNeverOverflows(items: seq<Item>, tbl: nat)
    requires OfTable(items, tbl)
    ensures !TableOverflows(items, false, tbl)
  {
    hide Overflows, Used, OfTable;
    var w := Weights(SymbolCounts(items, false, tbl));
    forall s | 0 <= s < SYMBOLS && s != 256 && s % 16 > 1
      ensures w[s] == 0
    {
      NotOfTable(items, tbl, s);
    }
    PairsUsed(w, SYMBOLS);
    FewSymbolsFit(w);
  }

  lemma NotOfTable(items: seq<Item>, tbl: nat, s: nat)
    requires OfTable(items, tbl) && s % 16 > 1
    ensures multiset(items)[Symbol(false, tbl, s)] == 0
  {
    assert !IsOfTable(Symbol(false, tbl, s), tbl);
    assert Symbol(false, tbl, s) !in items;
  }

  lemma ItemsInRange(items: seq<Item>, tbl: nat)
    requires OfTable(items, tbl) && tbl < NUM_HUFF_TBLS
    ensures SymbolsInRange(items)
  {
    forall i | i in items
      ensures SymbolInRange(i)
    {
      assert IsOfTable(i, tbl);
    }
  }

  // A set of tables with just this one.
  function Alone(tbl: nat, d: Derived): (ts: Tables)
    ensures |ts.ac| == tbl + 1 && ts.ac[tbl] == d
  {
    Tables([], seq(tbl + 1, i => if i == tbl then d else EmptyTable()))
  }

  function AloneBook(tbl: nat, b: Book): (bs: Books)
    ensures |bs.ac| == tbl + 1 && bs.ac[tbl] == b
  {
    Books([], seq(tbl + 1, i => if i == tbl then b else EmptyBook()))
  }

  lemma AloneServes(tbl: nat, d: Derived, b: Book, items: seq<Item>)
    requires Serves(b, d, items, false, tbl) && OfTable(items, tbl)
    ensures var ts, bs := Alone(tbl, d), AloneBook(tbl, b);
      GoodTables(ts) && InTable(ts, tbl, items) && Serving(ts, bs, tbl)
  {
    hide GoodBook, Derives, GoodTable, IsOfTable;
    EmptyIsGood();
    var ts, bs := Alone(tbl, d), AloneBook(tbl, b);
    forall i | i in items
      ensures HasCode(ts, i)
    {
      OfTableIs(i, tbl);
      if i.Symbol? {
        assert i == Symbol(false, tbl, i.s);
      }
    }
  }

  lemma OfTableIs(i: Item, tbl: nat)
    requires IsOfTable(i, tbl)
    ensures i.Symbol? ==> !i.isDc && i.tbl == tbl && i.s < 256
  {
  }

  lemma PiecesOfTable(pieces: seq<seq<Item>>, ps: seq<Piece>, tbl: nat)
    requires OfTable(Flat(pieces), tbl) && ItemsOf(ps) == pieces
    ensures forall g :: 0 <= g < |ps| ==> OfTable(ps[g].items, tbl)
  {
    hide Flat, IsOfTable;
    forall g | 0 <= g < |ps|
      ensures OfTable(ps[g].items, tbl)
    {
      assert ps[g].items == pieces[g];
      assert pieces[..g + 1] == pieces[..g] + [pieces[g]];
      FlatMore(pieces[..g], pieces[g]);
      PartOfFlat(pieces, g + 1);
    }
  }

  lemma TallyIs(items: seq<Item>, tbl: nat, counts: seq<nat>, symbols: nat)
    requires Tallied(items, tbl, counts, symbols)
    ensures OfTable(items, tbl) && |counts| == SYMBOLS && Total(counts, 256) == symbols
    ensures CountsOf(counts, multiset(items), false, tbl, SYMBOLS)
  {
  }

  // A whole AC refinement scan from blocks to bytes and back: statistics of all its restart
  // segments, the one table they share, packing, decoding. The table always has its codes. Only
  // with as many symbols as the sentinel of the merge loop, for which it takes more than fifteen
  // million blocks, nothing is promised.
  method OptimizedRefinement(p: Scan, tbl: nat, blocks: seq<array<int>>, tail: seq<byte>) returns (r: Refined)
    requires ValidScan(p) && 0 < p.ss <= p.se && forall n :: 0 <= n < |blocks| ==> blocks[n].Length == 64
    requires tbl < NUM_HUFF_TBLS && StartsWithMarker(tail)
    ensures r.TooMany? ==> 64 * |blocks| >= SENTINEL
    ensures r.Refined? ==>
      && GoodBook(r.book)
      && DecodeRefined(p, r.book, Knowns(BandsOf(p, blocks)), 0, r.out + tail) == Some(BandsOf(p, blocks))
  {
    hide AllRead, Tallied, Flat, Chunks, BandsOf, GoodBook, DecodeRefined, Serves, InTable, Serving, OfTable, HaveCodes,
      TableOverflows, SymbolsInRange, AllHold, StreamOf, ItemsOf, Alone, AloneBook, GoodTables, StartsWithMarker, Total;
    var pieces, counts;
    ghost var symbols;
    pieces, counts, symbols := EncodeRefinement(p, tbl, blocks);
    ghost var items, all := Flat(pieces), BandsOf(p, blocks);
    TallyIs(items, tbl, counts, symbols);
    if Total(counts, 256) >= SENTINEL {
      return TooMany;
    }
    ItemsInRange(items, tbl);
    RefinementNeverOverflows(items, tbl);
    var ok, b, d := MakeTable(counts, false, tbl, items);
    AloneServes(tbl, d, b, items);
    var ts := Alone(tbl, d);
    ghost var bs := AloneBook(tbl, b);
    InTableIs(ts, tbl, items);
    SomePieces(p, all, pieces);
    var out;
    ghost var ps;
    ok, out, ps := PackPieces(ts, tbl, pieces);
    assert ok;
    r := Refined(out, b);
    PiecesOfTable(pieces, ps, tbl);
    ScanRefines(p, ts, bs, tbl, all, pieces, ps, tail);
  }

  lemma SomePieces(p: Scan, all: seq<Block>, pieces: seq<seq<Item>>)
    requires AllRead(p.ss, Chunks(p.restart, all), pieces)
    ensures pieces != []
  {
  }

  lemma ScanRefines(p: Scan, ts: Tables, bs: Books, tbl: nat, all: seq<Block>, pieces: seq<seq<Item>>, ps: seq<Piece>,
                    tail: seq<byte>)
    requires Serving(ts, bs, tbl) && AllHold(ts, ps) && ItemsOf(ps) == pieces && StartsWithMarker(tail)
    requires forall g :: 0 <= g < |ps| ==> OfTable(ps[g].items, tbl)
    requires AllRead(p.ss, Chunks(p.restart, all), pieces)
    ensures tbl < |bs.ac| && GoodBook(bs.ac[tbl])
    ensures DecodeRefined(p, bs.ac[tbl], Knowns(all), 0, StreamOf(ps) + tail) == Some(all)
  {
    hide Serving, AllHold, OfTable, GoodBook, DecodeRefined, AllRead, StreamOf, ScanModel.StreamFrom;
    SomePieces(p, all, pieces);
    assert pieces[0..] == pieces;
    StreamIs(ps, tail);
    ChunksDecode(p, ts, bs, tbl, all, ps, 0, tail);
  }
}
