// Sequential Huffman scans of libs/jpeg/jchuff.c: the statistics pass and the output pass,
// which must agree on the symbols, and what a decoder reads back.
module HuffmanScan {
  import opened Powers
  import opened Bytes
  import opened DecisionModel
  import opened HuffmanMerge
  import opened DerivedTable
  import opened BitStream
  import opened HuffmanItems

  const NUM_HUFF_TBLS := 4

  ghost predicate ValidHuffmanScan(p: Scan) {
    && ValidScan(p) && !p.progressive
    && forall i :: 0 <= i < |p.dcTbl| ==> p.dcTbl[i] < NUM_HUFF_TBLS && p.acTbl[i] < NUM_HUFF_TBLS
  }

  ghost predicate ValidBlocks(p: Scan, ts: Mcu) {
    |ts| == |p.membership| && forall i :: 0 <= i < |ts| ==> |ts[i]| == p.se + 1
  }

  // ----- The items of an MCU -----

  // From block i on, with the last DC values.
  ghost function McuItems(p: Scan, last: seq<int>, ts: Mcu, i: nat): seq<Item>
    requires ValidHuffmanScan(p) && ValidBlocks(p, ts) && |last| == 4 && i <= |ts|
    decreases |ts| - i
  {
    if i == |ts| then []
    else
      var ci := p.membership[i];
      BlockItems(p.dcTbl[ci], p.acTbl[ci], ts[i], last[ci]) + McuItems(p, last[ci := ts[i][0]], ts, i + 1)
  }

  ghost function LastAfter(p: Scan, last: seq<int>, ts: Mcu, i: nat): (r: seq<int>)
    requires ValidHuffmanScan(p) && ValidBlocks(p, ts) && |last| == 4 && i <= |ts|
    ensures |r| == 4
    decreases |ts| - i
  {
    if i == |ts| then last else LastAfter(p, last[p.membership[i] := ts[i][0]], ts, i + 1)
  }

  ghost predicate McuInRange(p: Scan, last: seq<int>, ts: Mcu, i: nat)
    requires ValidHuffmanScan(p) && ValidBlocks(p, ts) && |last| == 4 && i <= |ts|
    decreases |ts| - i
  {
    i < |ts| ==>
      && InRange(ts[i], last[p.membership[i]])
      && McuInRange(p, last[p.membership[i] := ts[i][0]], ts, i + 1)
  }

  // The DC predictions of the components in the scan are reset.
  function ResetLast(p: Scan, last: seq<int>): (r: seq<int>)
    ensures |r| == |last|
  {
    seq(|last|, i requires 0 <= i < |last| => if i < |p.dcTbl| then 0 else last[i])
  }

  // The last DC values an MCU starts from.
  function LastAt(p: Scan, togo: nat, last: seq<int>): (r: seq<int>)
    ensures |r| == |last|
  {
    if RestartDue(p, togo) then ResetLast(p, last) else last
  }

  ghost predicate McusOfScan(p: Scan, mcus: seq<Mcu>) {
    forall j :: 0 <= j < |mcus| ==> ValidBlocks(p, mcus[j])
  }

  // All items of a scan from MCU j on, restart markers apart.
  ghost function ScanItems(p: Scan, togo: nat, last: seq<int>, mcus: seq<Mcu>, j: nat): seq<Item>
    requires ValidHuffmanScan(p) && McusOfScan(p, mcus) && |last| == 4 && j <= |mcus|
    decreases |mcus| - j
  {
    if j == |mcus| then []
    else
      var from := LastAt(p, togo, last);
      McuItems(p, from, mcus[j], 0)
      + ScanItems(p, NextToGo(p, togo), LastAfter(p, from, mcus[j], 0), mcus, j + 1)
  }

  ghost predicate ScanInRange(p: Scan, togo: nat, last: seq<int>, mcus: seq<Mcu>, j: nat)
    requires ValidHuffmanScan(p) && McusOfScan(p, mcus) && |last| == 4 && j <= |mcus|
    decreases |mcus| - j
  {
    j < |mcus| ==>
      var from := LastAt(p, togo, last);
      && McuInRange(p, from, mcus[j], 0)
      && ScanInRange(p, NextToGo(p, togo), LastAfter(p, from, mcus[j], 0), mcus, j + 1)
  }

  // ----- Magnitudes -----

  // The size of a magnitude, bit by bit.
  method CountBits(a: nat) returns (nbits: nat)
    ensures nbits == NBits(a)
  {
    nbits := 0;
    var temp := a;
    while temp != 0
      invariant nbits + NBits(temp) == NBits(a)
      decreases temp
    {
      nbits := nbits + 1;
      temp := temp / 2;
    }
  }

  // The statistics pass.
  class Gatherer {
    const scan: Scan
    var lastDcVal: seq<int>
    var restartsToGo: nat
    var dcCounts: seq<seq<nat>>   // by table number and symbol
    var acCounts: seq<seq<nat>>

    ghost var items: seq<Item>    // what the output pass would emit

    ghost predicate Shaped()
      reads this
    {
      && ValidHuffmanScan(scan) && |lastDcVal| == 4
      && |dcCounts| == |acCounts| == NUM_HUFF_TBLS
      && (forall i :: 0 <= i < NUM_HUFF_TBLS ==> |dcCounts[i]| == |acCounts[i]| == SYMBOLS)
    }

    // The counts are those of the symbols among the items.
    ghost predicate Valid()
      reads this
    {
      && Shaped()
      && (forall i, s :: 0 <= i < NUM_HUFF_TBLS && 0 <= s < SYMBOLS ==>
          dcCounts[i][s] == multiset(items)[Symbol(true, i, s)])
      && (forall i, s :: 0 <= i < NUM_HUFF_TBLS && 0 <= s < SYMBOLS ==>
          acCounts[i][s] == multiset(items)[Symbol(false, i, s)])
    }

    constructor (scan: Scan)
      requires ValidHuffmanScan(scan)
      ensures Valid() && this.scan == scan && items == []
      ensures lastDcVal == [0, 0, 0, 0] && restartsToGo == scan.restart
    {
      this.scan := scan;
      lastDcVal, restartsToGo := [0, 0, 0, 0], scan.restart;
      dcCounts := seq(NUM_HUFF_TBLS, _ => seq(SYMBOLS, _ => 0));
      acCounts := seq(NUM_HUFF_TBLS, _ => seq(SYMBOLS, _ => 0));
      items := [];
    }

    method CountDc(tbl: nat, s: nat)
      requires Valid() && tbl < NUM_HUFF_TBLS && s < SYMBOLS
      modifies this`dcCounts, this`items
      ensures Valid() && items == old(items) + [Symbol(true, tbl, s)]
    {
      dcCounts := dcCounts[tbl := dcCounts[tbl][s := dcCounts[tbl][s] + 1]];
      items := items + [Symbol(true, tbl, s)];
    }

    method CountAc(tbl: nat, s: nat)
      requires Valid() && tbl < NUM_HUFF_TBLS && s < SYMBOLS
      modifies this`acCounts, this`items
      ensures Valid() && items == old(items) + [Symbol(false, tbl, s)]
    {
      acCounts := acCounts[tbl := acCounts[tbl][s := acCounts[tbl][s] + 1]];
      items := items + [Symbol(false, tbl, s)];
    }

    // Additional bits are not counted.
    ghost method PassExtra(v: int)
      requires Valid()
      modifies this`items
      ensures Valid() && items == old(items) + ValueItems(v)
    {
      items := items + ValueItems(v);
    }

    // The symbols for runs of 16 zeros; what is left of the run goes with the coefficient.
    method CountZrls(tbl: nat, r0: nat) returns (r: nat)
      requires Valid() && tbl < NUM_HUFF_TBLS
      modifies this`acCounts, this`items
      ensures Valid() && r == r0 % 16 && items == old(items) + Zrls(tbl, r0 / 16)
    {
      hide Valid, Zrls;
      ghost var before := items;
      r := r0;
      while r > 15
        invariant Valid() && r % 16 == r0 % 16
        invariant items + Zrls(tbl, r / 16) == before + Zrls(tbl, r0 / 16)
      {
        NextZrl(tbl, r, items);
        CountAc(tbl, 0xF0);
        r := r - 16;
      }
      NextZrl(tbl, r, items);
    }

    // One nonzero coefficient v with r zeros before it.
    method TestCoef(tbl: nat, v: int, r0: nat) returns (ok: bool)
      requires Valid() && tbl < NUM_HUFF_TBLS && v != 0 && r0 < 64
      modifies this`acCounts, this`items
      ensures Valid() && (ok <==> NBits(Abs(v)) <= MAX_COEF_BITS)
      ensures ok ==> items == old(items) + Zrls(tbl, r0 / 16) + [Symbol(false, tbl, 16 * (r0 % 16) + NBits(Abs(v)))] + ValueItems(v)
    {
      hide NBits, Valid, Zrls, ValueItems, ExtraOf;
      var r := CountZrls(tbl, r0);
      var nbits := CountBits(Abs(v));
      if nbits > MAX_COEF_BITS {
        return false;
      }
      CountAc(tbl, 16 * r + nbits);
      PassExtra(v);
      ok := true;
    }

    method TestAc(block: array<int>, tbl: nat, ghost t: seq<int>) returns (ok: bool)
      requires Valid() && tbl < NUM_HUFF_TBLS && block.Length == 64 && t == Zigzag(block[..], scan.order, scan.se)
      modifies this`acCounts, this`items
      ensures Valid() && (ok <==> AcInRange(t, 1))
      ensures ok ==> items == old(items) + AcItems(tbl, t, 1, 0)
    {
      hide NBits, Zrls, ValueItems, AcItems;
      ghost var goal := items + AcItems(tbl, t, 1, 0);
      var r: nat, k: nat := 0, 1;
      while k <= scan.se
        invariant Valid() && 1 <= k && r < k <= |t| && |t| == scan.se + 1
        invariant items + AcItems(tbl, t, k, r) == goal
        invariant forall j :: 1 <= j < k ==> NBits(Abs(t[j])) <= MAX_COEF_BITS
      {
        var temp := block[scan.order[k]];
        assert temp == t[k];
        NextAcItems(tbl, t, k, r, items);
        if temp == 0 {
          r := r + 1;
        } else {
          ok := TestCoef(tbl, temp, r);
          if !ok {
            return;
          }
          r := 0;
        }
        k := k + 1;
      }
      LastAcItems(tbl, t, r, items);
      if r > 0 {
        CountAc(tbl, 0);
      }
      ok := true;
    }

    // The symbols of a block (htest_one_block).
    method HtestOneBlock(block: array<int>, ci: nat) returns (ok: bool)
      requires Valid() && block.Length == 64 && ci < |scan.dcTbl|
      modifies this`dcCounts, this`acCounts, this`items
      ensures Valid()
      ensures ok <==> InRange(Zigzag(block[..], scan.order, scan.se), lastDcVal[ci])
      ensures ok ==>
        items == old(items) + BlockItems(scan.dcTbl[ci], scan.acTbl[ci], Zigzag(block[..], scan.order, scan.se), lastDcVal[ci])
    {
      hide NBits, AcItems, ValueItems, ExtraOf;
      ghost var t := Zigzag(block[..], scan.order, scan.se);
      ghost var before := items;
      var diff := block[0] - lastDcVal[ci];
      var nbits := CountBits(Abs(diff));
      if nbits > MAX_COEF_BITS + 1 {
        return false;
      }
      CountDc(scan.dcTbl[ci], nbits);
      PassExtra(diff);
      assert items == before + DcItems(scan.dcTbl[ci], diff);
      ok := TestAc(block, scan.acTbl[ci], t);
    }

    method GatherBlocks(mcu: seq<array<int>>) returns (ok: bool)
      requires Valid() && |mcu| == |scan.membership| && forall i :: 0 <= i < |mcu| ==> mcu[i].Length == 64
      modifies this`dcCounts, this`acCounts, this`items, this`lastDcVal
      ensures Valid()
      ensures ok <==> McuInRange(scan, old(lastDcVal), Zigzags(scan, mcu), 0)
      ensures ok ==>
        && items == old(items) + McuItems(scan, old(lastDcVal), Zigzags(scan, mcu), 0)
        && lastDcVal == LastAfter(scan, old(lastDcVal), Zigzags(scan, mcu), 0)
    {
      hide BlockItems, InRange, McuItems, LastAfter, McuInRange, Zigzags;
      ghost var ts, goal := Zigzags(scan, mcu), items + McuItems(scan, lastDcVal, Zigzags(scan, mcu), 0);
      for blkn := 0 to |mcu|
        invariant Valid()
        invariant items + McuItems(scan, lastDcVal, ts, blkn) == goal
        invariant LastAfter(scan, lastDcVal, ts, blkn) == LastAfter(scan, old(lastDcVal), ts, 0)
        invariant McuInRange(scan, lastDcVal, ts, blkn) == McuInRange(scan, old(lastDcVal), ts, 0)
      {
        var ci := scan.membership[blkn];
        NextMcuItems(scan, lastDcVal, ts, blkn, items);
        ok := HtestOneBlock(mcu[blkn], ci);
        if !ok {
          return;
        }
        lastDcVal := lastDcVal[ci := mcu[blkn][0]];
      }
      LastMcuItems(scan, lastDcVal, ts, items);
      ok := true;
    }

    // The symbols of an MCU (encode_mcu_gather).
    method EncodeMcuGather(mcu: seq<array<int>>) returns (ok: bool)
      requires Valid() && |mcu| == |scan.membership| && forall i :: 0 <= i < |mcu| ==> mcu[i].Length == 64
      modifies this
      ensures Valid()
      ensures ok <==> McuInRange(scan, LastAt(scan, old(restartsToGo), old(lastDcVal)), Zigzags(scan, mcu), 0)
      ensures ok ==>
        && items == old(items) + McuItems(scan, LastAt(scan, old(restartsToGo), old(lastDcVal)), Zigzags(scan, mcu), 0)
        && lastDcVal == LastAfter(scan, LastAt(scan, old(restartsToGo), old(lastDcVal)), Zigzags(scan, mcu), 0)
        && restartsToGo == NextToGo(scan, old(restartsToGo))
    {
      hide McuItems, LastAfter, McuInRange;
      // Predictions are reset where the output pass resets them.
      if scan.restart != 0 {
        if restartsToGo == 0 {
          ResetDc();
          restartsToGo := scan.restart;
        }
        restartsToGo := restartsToGo - 1;
      }
      ok := GatherBlocks(mcu);
    }

    method ResetDc()
      requires Valid()
      modifies this`lastDcVal
      ensures Valid() && lastDcVal == ResetLast(scan, old(lastDcVal))
    {
      ghost var before := lastDcVal;
      for ci := 0 to |scan.dcTbl|
        invariant Valid()
        invariant forall i :: 0 <= i < 4 ==> lastDcVal[i] == if i < ci then 0 else before[i]
      {
        lastDcVal := lastDcVal[ci := 0];
      }
    }
  }

  lemma NextZrl(tbl: nat, r: nat, before: seq<Item>)
    ensures r > 15 ==>
      before + Zrls(tbl, r / 16) == before + [Symbol(false, tbl, 0xF0)] + Zrls(tbl, (r - 16) / 16)
    ensures r <= 15 ==> before + Zrls(tbl, r / 16) == before
  {
  }

  lemma NextAcItems(tbl: nat, t: seq<int>, k: nat, r: nat, before: seq<Item>)
    requires k < |t|
    ensures t[k] == 0 ==> AcItems(tbl, t, k, r) == AcItems(tbl, t, k + 1, r + 1) && NBits(Abs(t[k])) == 0
    ensures t[k] != 0 ==>
      before + AcItems(tbl, t, k, r)
      == before + Zrls(tbl, r / 16) + [Symbol(false, tbl, 16 * (r % 16) + NBits(Abs(t[k])))] + ValueItems(t[k])
         + AcItems(tbl, t, k + 1, 0)
  {
    hide Zrls, ValueItems, ExtraOf;
  }

  lemma LastAcItems(tbl: nat, t: seq<int>, r: nat, before: seq<Item>)
    ensures before + AcItems(tbl, t, |t|, r) == if r > 0 then before + [Symbol(false, tbl, 0)] else before
  {
  }

  lemma NextMcuItems(p: Scan, last: seq<int>, ts: Mcu, i: nat, before: seq<Item>)
    requires ValidHuffmanScan(p) && ValidBlocks(p, ts) && |last| == 4 && i < |ts|
    ensures var ci := p.membership[i]; var next := last[ci := ts[i][0]];
      && before + McuItems(p, last, ts, i)
         == before + BlockItems(p.dcTbl[ci], p.acTbl[ci], ts[i], last[ci]) + McuItems(p, next, ts, i + 1)
      && LastAfter(p, last, ts, i) == LastAfter(p, next, ts, i + 1)
      && (McuInRange(p, last, ts, i) <==> InRange(ts[i], last[ci]) && McuInRange(p, next, ts, i + 1))
  {
    hide BlockItems, InRange, ValidScan;
  }

  lemma LastMcuItems(p: Scan, last: seq<int>, ts: Mcu, before: seq<Item>)
    requires ValidHuffmanScan(p) && ValidBlocks(p, ts) && |last| == 4
    ensures before + McuItems(p, last, ts, |ts|) == before
    ensures LastAfter(p, last, ts, |ts|) == last && McuInRange(p, last, ts, |ts|)
  {
  }

  ghost function Zigzags(p: Scan, mcu: seq<array<int>>): (ts: Mcu)
    requires ValidScan(p) && forall i :: 0 <= i < |mcu| ==> mcu[i].Length == 64
    reads mcu
    ensures |ts| == |mcu| && forall i :: 0 <= i < |ts| ==> ts[i] == Zigzag(mcu[i][..], p.order, p.se)
  {
    seq(|mcu|, i requires 0 <= i < |mcu| reads mcu => Zigzag(mcu[i][..], p.order, p.se))
  }

  // ----- The output pass -----

  // The bytes of a closed segment hold its items, padded with ones.
  ghost predicate SegmentHolds(ts: Tables, items: seq<Item>, sent: seq<byte>) {
    HaveCodes(ts, items) && exists k :: 0 <= k <= 7 && Unpack(sent) == BitsOf(ts, items) + Ones(k)
  }

  // The argument of emit_bits is unsigned; its low bits are those of the complement.
  function Unsigned(v: int): nat
    requires -0x10000 <= v < 0x10000
  {
    if v < 0 then v + 0x1_0000_0000 else v
  }

  lemma ComplementBits(v: int, n: nat)
    requires v < 0 && n <= 16 && -v < Pow2(n)
    ensures Pow2(n) <= 0x10000 && Unsigned(v - 1) % Pow2(n) == Pow2(n) - 1 + v
  {
    hide Pow2;
    var p, w := Pow2(n), Pow2(32 - n);
    Pow2Values();
    Pow2Monotonic(n, 16);
    Pow2Add(n, 32 - n);
    Pow2Add(16, 16);
    MulDistrib(w - 1, 1, p);
    assert v - 1 + 0x1_0000_0000 == (w - 1) * p + (p - 1 + v);
    RemainderIs(v - 1 + 0x1_0000_0000, p, w - 1, p - 1 + v);
  }

  lemma RemainderIs(x: nat, d: nat, q: nat, r: nat)
    requires x == q * d + r && r < d
    ensures x % d == r
  {
    QuotientIs(x, d, q, r);
    assert x == x / d * d + x % d;
  }

  lemma ExtraBits(v: int)
    requires v != 0 && NBits(Abs(v)) <= 16
    ensures -0x10000 < v < 0x10000
    ensures var n := NBits(Abs(v));
      0 < n && Unsigned(if v < 0 then v - 1 else v) % Pow2(n) == ExtraOf(v)
  {
    hide Pow2;
    NBitsBounds(Abs(v));
    Pow2Values();
    Pow2Monotonic(NBits(Abs(v)), 16);
    if v < 0 {
      ComplementBits(v, NBits(Abs(v)));
    } else {
      SmallModulus(v, Pow2(NBits(Abs(v))));
    }
  }

  // A segment closed by a restart marker: its items, and the bytes that hold them.
  datatype Piece = Piece(items: seq<Item>, sent: seq<byte>)

  class Encoder {
    const scan: Scan
    const tables: Tables
    const writer: BitWriter
    var lastDcVal: seq<int>
    var restartsToGo: nat
    var nextRestartNum: nat

    ghost var pieces: seq<Piece>   // the segments closed by restart markers
    ghost var segment: seq<Item>   // everything emitted since then

    ghost predicate Shaped()
      reads this
    {
      && ValidHuffmanScan(scan) && |lastDcVal| == 4 && nextRestartNum < 8
      && |tables.dc| == |tables.ac| == NUM_HUFF_TBLS && GoodTables(tables)
    }

    ghost predicate Valid()
      reads this, writer
    {
      Shaped() && writer.Valid() && HaveCodes(tables, segment) && writer.bits == BitsOf(tables, segment)
    }

    constructor (scan: Scan, tables: Tables, writer: BitWriter)
      requires ValidHuffmanScan(scan) && |tables.dc| == |tables.ac| == NUM_HUFF_TBLS && GoodTables(tables)
      requires writer.Valid() && writer.bits == []
      ensures Valid() && this.scan == scan && this.tables == tables && this.writer == writer
      ensures pieces == [] && segment == [] && nextRestartNum == 0
      ensures lastDcVal == [0, 0, 0, 0] && restartsToGo == scan.restart
    {
      this.scan, this.tables, this.writer := scan, tables, writer;
      lastDcVal, restartsToGo, nextRestartNum := [0, 0, 0, 0], scan.restart, 0;
      pieces, segment := [], [];
    }

    ghost method Record(i: Item)
      requires Shaped() && writer.Valid() && HaveCodes(tables, segment) && HasCode(tables, i)
      requires writer.bits == BitsOf(tables, segment) + ItemBits(tables, i)
      modifies this`segment
      ensures Valid() && segment == old(segment) + [i]
    {
      hide HasCode, ItemBits, BitsOf;
      assert HaveCodes(tables, [i]);
      BitsOfJoin(tables, segment, [i]);
      BitsOfOne(tables, i);
      segment := segment + [i];
    }

    method EmitSymbol(isDc: bool, tbl: nat, s: nat) returns (ok: bool)
      requires Valid() && tbl < NUM_HUFF_TBLS && s < 256
      modifies this`segment, writer
      ensures Valid() && writer.closed == old(writer.closed)
      ensures ok <==> HasCode(tables, Symbol(isDc, tbl, s))
      ensures ok ==> segment == old(segment) + [Symbol(isDc, tbl, s)]
    {
      hide BitWriter.Valid, CodeWord, BitsOf, Pow2;
      var d := if isDc then tables.dc[tbl] else tables.ac[tbl];
      ok := writer.EmitBits(d.ehufco[s], d.ehufsi[s]);
      if ok {
        Record(Symbol(isDc, tbl, s));
      }
    }

    // The bits that tell a value from the others of its size.
    method EmitExtra(v: int, nbits: nat)
      requires Valid() && nbits == NBits(Abs(v)) <= 16
      modifies this`segment, writer
      ensures Valid() && writer.closed == old(writer.closed)
      ensures segment == old(segment) + ValueItems(v)
    {
      hide BitWriter.Valid, CodeWord, BitsOf, Pow2, NBits, ExtraOf, Unsigned;
      if v != 0 {
        ExtraBits(v);
        var ok := writer.EmitBits(Unsigned(if v < 0 then v - 1 else v), nbits);
        Record(Extra(ExtraOf(v), nbits));
      } else {
        assert segment + [] == segment;
      }
    }

    // One nonzero coefficient v with r zeros before it.
    method EncodeCoef(tbl: nat, v: int, r0: nat) returns (ok: bool)
      requires Valid() && tbl < NUM_HUFF_TBLS && v != 0 && r0 < 64
      modifies this`segment, writer
      ensures Valid() && writer.closed == old(writer.closed)
      ensures ok <==> NBits(Abs(v)) <= MAX_COEF_BITS && HaveCodes(tables, CoefItems(tbl, v, r0))
      ensures ok ==> segment == old(segment) + CoefItems(tbl, v, r0)
    {
      hide NBits, Valid, Zrls, ValueItems, HasCode;
      ghost var before := segment;
      var r: nat := r0;
      CoefCodes(tables, tbl, v, r0);
      while r > 15
        invariant Valid() && writer.closed == old(writer.closed)
        invariant r % 16 == r0 % 16 && (r < r0 ==> r0 > 15 && HasCode(tables, Symbol(false, tbl, 0xF0)))
        invariant r <= r0 && segment + Zrls(tbl, r / 16) == before + Zrls(tbl, r0 / 16)
      {
        NextZrl(tbl, r, segment);
        ok := EmitSymbol(false, tbl, 0xF0);
        if !ok {
          return;
        }
        r := r - 16;
      }
      NextZrl(tbl, r, segment);
      var nbits := CountBits(Abs(v));
      if nbits > MAX_COEF_BITS {
        return false;
      }
      ok := EmitSymbol(false, tbl, 16 * r + nbits);
      if ok {
        EmitExtra(v, nbits);
      }
    }

    method EncodeAc(block: array<int>, tbl: nat, ghost t: seq<int>) returns (ok: bool)
      requires Valid() && tbl < NUM_HUFF_TBLS && block.Length == 64 && t == Zigzag(block[..], scan.order, scan.se)
      modifies this`segment, writer
      ensures Valid() && writer.closed == old(writer.closed)
      ensures ok <==> AcInRange(t, 1) && HaveCodes(tables, AcItems(tbl, t, 1, 0))
      ensures ok ==> segment == old(segment) + AcItems(tbl, t, 1, 0)
    {
      hide NBits, Zrls, ValueItems, AcItems, HasCode, BitWriter.Valid, CoefItems, GoodTables;
      ghost var goal := segment + AcItems(tbl, t, 1, 0);
      ghost var wanted := HaveCodes(tables, AcItems(tbl, t, 1, 0));
      var r: nat, k: nat := 0, 1;
      while k <= scan.se
        invariant Valid() && writer.closed == old(writer.closed)
        invariant 1 <= k && r < k <= |t| && |t| == scan.se + 1
        invariant segment + AcItems(tbl, t, k, r) == goal
        invariant HaveCodes(tables, AcItems(tbl, t, k, r)) == wanted
        invariant forall j :: 1 <= j < k ==> NBits(Abs(t[j])) <= MAX_COEF_BITS
      {
        var temp := block[scan.order[k]];
        assert temp == t[k];
        NextAcCodes(tables, tbl, t, k, r, segment);
        if temp == 0 {
          r := r + 1;
        } else {
          ok := EncodeCoef(tbl, temp, r);
          if !ok {
            return;
          }
          r := 0;
        }
        k := k + 1;
      }
      LastAcItems(tbl, t, r, segment);
      LastAcCodes(tables, tbl, t, r);
      ok := true;
      if r > 0 {
        ok := EmitSymbol(false, tbl, 0);
      }
    }

    // The codes of a block (encode_one_block).
    method EncodeOneBlock(block: array<int>, ci: nat) returns (ok: bool)
      requires Valid() && block.Length == 64 && ci < |scan.dcTbl|
      modifies this`segment, writer
      ensures Valid() && writer.closed == old(writer.closed)
      ensures var t := Zigzag(block[..], scan.order, scan.se);
        var b := BlockItems(scan.dcTbl[ci], scan.acTbl[ci], t, lastDcVal[ci]);
        && (ok <==> InRange(t, lastDcVal[ci]) && HaveCodes(tables, b))
        && (ok ==> segment == old(segment) + b)
    {
      hide NBits, AcItems, HasCode, ValueItems, BitWriter.Valid, GoodTables;
      ghost var t := Zigzag(block[..], scan.order, scan.se);
      var diff := block[0] - lastDcVal[ci];
      var nbits := CountBits(Abs(diff));
      DcCodes(tables, scan.dcTbl[ci], diff, AcItems(scan.acTbl[ci], t, 1, 0));
      if nbits > MAX_COEF_BITS + 1 {
        return false;
      }
      ghost var before := segment;
      ok := EmitSymbol(true, scan.dcTbl[ci], nbits);
      if ok {
        EmitExtra(diff, nbits);
        assert segment == before + DcItems(scan.dcTbl[ci], diff);
        ok := EncodeAc(block, scan.acTbl[ci], t);
      }
    }

    // The blocks of an MCU.
    method EncodeBlocks(mcu: seq<array<int>>) returns (ok: bool)
      requires Valid() && |mcu| == |scan.membership| && forall i :: 0 <= i < |mcu| ==> mcu[i].Length == 64
      modifies this`segment, this`lastDcVal, writer
      ensures Valid() && writer.closed == old(writer.closed)
      ensures ok <==>
        && McuInRange(scan, old(lastDcVal), Zigzags(scan, mcu), 0)
        && HaveCodes(tables, McuItems(scan, old(lastDcVal), Zigzags(scan, mcu), 0))
      ensures ok ==>
        && segment == old(segment) + McuItems(scan, old(lastDcVal), Zigzags(scan, mcu), 0)
        && lastDcVal == LastAfter(scan, old(lastDcVal), Zigzags(scan, mcu), 0)
    {
      hide BlockItems, InRange, McuItems, LastAfter, McuInRange, HasCode, BitWriter.Valid, GoodTables, HaveCodes;
      ghost var ts := Zigzags(scan, mcu);
      ghost var goal, wanted := segment + McuItems(scan, lastDcVal, ts, 0), HaveCodes(tables, McuItems(scan, lastDcVal, ts, 0));
      for blkn := 0 to |mcu|
        invariant Valid() && writer.closed == old(writer.closed)
        invariant segment + McuItems(scan, lastDcVal, ts, blkn) == goal
        invariant HaveCodes(tables, McuItems(scan, lastDcVal, ts, blkn)) == wanted
        invariant LastAfter(scan, lastDcVal, ts, blkn) == LastAfter(scan, old(lastDcVal), ts, 0)
        invariant McuInRange(scan, lastDcVal, ts, blkn) == McuInRange(scan, old(lastDcVal), ts, 0)
      {
        var ci := scan.membership[blkn];
        NextMcuItems(scan, lastDcVal, ts, blkn, segment);
        NextMcuCodes(tables, scan, lastDcVal, ts, blkn);
        ok := EncodeOneBlock(mcu[blkn], ci);
        if !ok {
          return;
        }
        lastDcVal := lastDcVal[ci := mcu[blkn][0]];
      }
      LastMcuItems(scan, lastDcVal, ts, segment);
      NoCodesNeeded(tables, scan, lastDcVal, ts);
      ok := true;
    }

    // Close the open segment: the padded bytes hold its items.
    method FinishSegment() returns (ghost sent: seq<byte>)
      requires Valid()
      modifies writer
      ensures writer.Valid() && writer.closed == old(writer.closed) && writer.sent == sent
      ensures writer.out == writer.closed + Stuff(sent)
      ensures SegmentHolds(tables, segment, sent)
      ensures writer.putBits == writer.putBuffer == 0
    {
      hide HasCode, BitsOf, CodeWord, Unpack, Stuff;
      writer.FlushBits();
      sent := writer.sent;
    }

    // Emit a restart marker and resynchronize predictions.
    method EmitRestart(num: nat) returns (ghost sent: seq<byte>)
      requires Valid() && num < 8
      modifies this`segment, this`pieces, this`lastDcVal, writer
      ensures Valid() && segment == [] && pieces == old(pieces) + [Piece(old(segment), sent)]
      ensures lastDcVal == ResetLast(scan, old(lastDcVal))
      ensures SegmentHolds(tables, old(segment), sent)
      ensures writer.out == old(writer.closed) + Stuff(sent) + [0xFF, 0xD0 + num] && writer.closed == writer.out
    {
      hide HasCode, BitsOf, CodeWord, Unpack, Stuff, SegmentHolds, Holds, GoodTables;
      sent := FinishSegment();
      writer.EmitByte(0xFF);
      writer.EmitByte(0xD0 + num);
      writer.StartSegment();
      pieces, segment := pieces + [Piece(segment, sent)], [];
      NoItems(tables);
      ResetDc();
    }

    method ResetDc()
      requires Valid()
      modifies this`lastDcVal
      ensures Valid() && lastDcVal == ResetLast(scan, old(lastDcVal))
    {
      hide BitWriter.Valid, GoodTables, HaveCodes;
      ghost var before := lastDcVal;
      for ci := 0 to |scan.dcTbl|
        invariant Valid()
        invariant forall i :: 0 <= i < 4 ==> lastDcVal[i] == if i < ci then 0 else before[i]
      {
        lastDcVal := lastDcVal[ci := 0];
      }
    }

    // Encode one MCU (encode_mcu_huff, without suspension).
    method EncodeMcu(mcu: seq<array<int>>) returns (ok: bool)
      requires Valid() && |mcu| == |scan.membership| && forall i :: 0 <= i < |mcu| ==> mcu[i].Length == 64
      modifies this, writer
      ensures Valid()
      ensures var from := LastAt(scan, old(restartsToGo), old(lastDcVal)); var ts := Zigzags(scan, mcu);
        && (ok <==> McuInRange(scan, from, ts, 0) && HaveCodes(tables, McuItems(scan, from, ts, 0)))
        && (ok ==>
            && segment == (if RestartDue(scan, old(restartsToGo)) then [] else old(segment)) + McuItems(scan, from, ts, 0)
            && lastDcVal == LastAfter(scan, from, ts, 0) && restartsToGo == NextToGo(scan, old(restartsToGo)))
      ensures ok && !RestartDue(scan, old(restartsToGo)) ==>
        pieces == old(pieces) && writer.closed == old(writer.closed) && nextRestartNum == old(nextRestartNum)
      ensures ok && RestartDue(scan, old(restartsToGo)) ==>
        && |pieces| > 0 && pieces[|pieces| - 1].items == old(segment) && pieces == old(pieces) + [pieces[|pieces| - 1]]
        && SegmentHolds(tables, old(segment), pieces[|pieces| - 1].sent)
        && writer.closed == old(writer.closed) + Stuff(pieces[|pieces| - 1].sent) + [0xFF, 0xD0 + old(nextRestartNum)]
        && nextRestartNum == (old(nextRestartNum) + 1) % 8
    {
      hide McuItems, LastAfter, McuInRange, HaveCodes, HasCode, BitWriter.Valid, GoodTables, Stuff, SegmentHolds;
      if scan.restart != 0 && restartsToGo == 0 {
        ghost var sent := EmitRestart(nextRestartNum);
      }
      ok := EncodeBlocks(mcu);
      if ok && scan.restart != 0 {
        if restartsToGo == 0 {
          restartsToGo := scan.restart;
          nextRestartNum := (nextRestartNum + 1) % 8;
        }
        restartsToGo := restartsToGo - 1;
      }
    }
  }

  lemma NoItems(ts: Tables)
    ensures HaveCodes(ts, []) && BitsOf(ts, []) == []
  {
  }

  lemma NextMcuCodes(tables: Tables, p: Scan, last: seq<int>, ts: Mcu, i: nat)
    requires ValidHuffmanScan(p) && ValidBlocks(p, ts) && |last| == 4 && i < |ts|
    ensures var ci := p.membership[i];
      HaveCodes(tables, McuItems(p, last, ts, i)) <==>
        && HaveCodes(tables, BlockItems(p.dcTbl[ci], p.acTbl[ci], ts[i], last[ci]))
        && HaveCodes(tables, McuItems(p, last[ci := ts[i][0]], ts, i + 1))
  {
    hide BlockItems, HasCode, HaveCodes;
    var ci := p.membership[i];
    BitsOfJoin(tables, BlockItems(p.dcTbl[ci], p.acTbl[ci], ts[i], last[ci]), McuItems(p, last[ci := ts[i][0]], ts, i + 1));
  }

  lemma NoCodesNeeded(tables: Tables, p: Scan, last: seq<int>, ts: Mcu)
    requires ValidHuffmanScan(p) && ValidBlocks(p, ts) && |last| == 4
    ensures HaveCodes(tables, McuItems(p, last, ts, |ts|))
  {
  }

  // The items of a nonzero coefficient after r zeros.
  function CoefItems(tbl: nat, v: int, r: nat): seq<Item> {
    Zrls(tbl, r / 16) + [Symbol(false, tbl, 16 * (r % 16) + NBits(Abs(v)))] + ValueItems(v)
  }

  lemma CoefCodes(ts: Tables, tbl: nat, v: int, r: nat)
    ensures HaveCodes(ts, CoefItems(tbl, v, r)) <==>
      && (r > 15 ==> HasCode(ts, Symbol(false, tbl, 0xF0)))
      && HasCode(ts, Symbol(false, tbl, 16 * (r % 16) + NBits(Abs(v))))
  {
    hide NBits, Zrls, ExtraOf, GoodTable;
    var zrls, sym := Zrls(tbl, r / 16), Symbol(false, tbl, 16 * (r % 16) + NBits(Abs(v)));
    assert sym in CoefItems(tbl, v, r);
    if r > 15 {
      assert zrls[0] in zrls;
      assert zrls[0] in CoefItems(tbl, v, r);
    }
  }

  lemma NextAcCodes(ts: Tables, tbl: nat, t: seq<int>, k: nat, r: nat, before: seq<Item>)
    requires k < |t|
    ensures t[k] == 0 ==> AcItems(tbl, t, k, r) == AcItems(tbl, t, k + 1, r + 1) && NBits(Abs(t[k])) == 0
    ensures t[k] != 0 ==>
      && before + AcItems(tbl, t, k, r) == before + CoefItems(tbl, t[k], r) + AcItems(tbl, t, k + 1, 0)
      && (HaveCodes(ts, AcItems(tbl, t, k, r)) <==>
          HaveCodes(ts, CoefItems(tbl, t[k], r)) && HaveCodes(ts, AcItems(tbl, t, k + 1, 0)))
  {
    hide Zrls, ValueItems, HasCode;
    NextAcItems(tbl, t, k, r, before);
    if t[k] != 0 {
      BitsOfJoin(ts, CoefItems(tbl, t[k], r), AcItems(tbl, t, k + 1, 0));
    }
  }

  lemma LastAcCodes(ts: Tables, tbl: nat, t: seq<int>, r: nat)
    ensures HaveCodes(ts, AcItems(tbl, t, |t|, r)) <==> r > 0 ==> HasCode(ts, Symbol(false, tbl, 0))
  {
    hide HasCode;
    if r > 0 {
      assert Symbol(false, tbl, 0) in AcItems(tbl, t, |t|, r);
    }
  }

  lemma DcCodes(ts: Tables, tbl: nat, diff: int, ac: seq<Item>)
    ensures HaveCodes(ts, DcItems(tbl, diff) + ac) <==>
      HasCode(ts, Symbol(true, tbl, NBits(Abs(diff)))) && HaveCodes(ts, ac)
  {
    hide NBits, ExtraOf, GoodTable;
    BitsOfJoin(ts, DcItems(tbl, diff), ac);
    assert Symbol(true, tbl, NBits(Abs(diff))) in DcItems(tbl, diff);
  }
}