// The AC refinement encoder of libs/jpeg/jchuff.c with its deferred end-of-band runs and its
// buffer of correction bits: the buffer never overflows, the run counter never needs its
// safety check, and the items sent are read back as the refined blocks.
module HuffmanRefinement {
  import opened Powers
  import opened DecisionModel
  import opened HuffmanItems
  import opened HuffmanMerge
  import opened RefinementItems

  const MAX_CORR_BITS := 1000   // max number of correction bits to buffer
  const MAX_RUN := 0x7FFF

  function BufferItems(buffer: seq<bool>): (items: seq<Item>)
    ensures |items| == |buffer|
  {
    seq(|buffer|, i requires 0 <= i < |buffer| => Extra(if buffer[i] then 1 else 0, 1))
  }

  // The items are symbols of one AC table, as refinements have them, and bits; the counts are
  // those of the symbols.
  ghost predicate Tallied(items: seq<Item>, tbl: nat, counts: seq<nat>, symbols: nat) {
    && OfTable(items, tbl) && |counts| == SYMBOLS && Total(counts, 256) == symbols
    && forall s :: 0 <= s < SYMBOLS ==> counts[s] == multiset(items)[Symbol(false, tbl, s)]
  }

  ghost predicate OfTable(items: seq<Item>, tbl: nat) {
    forall i :: i in items ==> IsOfTable(i, tbl)
  }

  predicate IsOfTable(i: Item, tbl: nat) {
    if i.Symbol? then !i.isDc && i.tbl == tbl && i.s < 256 && i.s % 16 <= 1
    else 0 < i.n <= 16 && i.v < Pow2(i.n)
  }

  lemma NothingTallied(tbl: nat)
    ensures Tallied([], tbl, NoCounts(SYMBOLS), 0)
  {
    NoTotal(NoCounts(SYMBOLS), 256);
  }

  lemma TalliedSymbol(earlier: seq<Item>, out: seq<Item>, tbl: nat, counts: seq<nat>, symbols: nat, s: nat)
    requires Tallied(earlier + out, tbl, counts, symbols) && s < 256 && s % 16 <= 1
    ensures |counts| == SYMBOLS
    ensures Tallied(earlier + (out + [Symbol(false, tbl, s)]), tbl, counts[s := counts[s] + 1], symbols + 1)
  {
    hide IsOfTable, Total;
    SymbolIsOf(tbl, s);
    TotalMore(counts, s, 256);
    assert earlier + (out + [Symbol(false, tbl, s)]) == earlier + out + [Symbol(false, tbl, s)];
  }

  lemma {:induction false} TotalMore(counts: seq<nat>, s: nat, n: nat)
    requires n <= |counts| && s < |counts|
    ensures Total(counts[s := counts[s] + 1], n) == Total(counts, n) + (if s < n then 1 else 0)
  {
    if n > 0 {
      TotalMore(counts, s, n - 1);
    }
  }

  lemma SymbolIsOf(tbl: nat, s: nat)
    requires s < 256 && s % 16 <= 1
    ensures IsOfTable(Symbol(false, tbl, s), tbl)
  {
  }

  lemma TalliedExtra(earlier: seq<Item>, out: seq<Item>, tbl: nat, counts: seq<nat>, symbols: nat, v: nat, n: nat)
    requires Tallied(earlier + out, tbl, counts, symbols) && 0 < n <= 16 && v < Pow2(n)
    ensures Tallied(earlier + (out + [Extra(v, n)]), tbl, counts, symbols)
  {
    hide Pow2, Total;
    assert IsOfTable(Extra(v, n), tbl);
    assert earlier + (out + [Extra(v, n)]) == earlier + out + [Extra(v, n)];
  }

  // ----- Stretches of a block -----

  // Correction bits come before the 16th zero.
  predicate Early(t: Block, a: nat, k: nat)
    requires a <= k <= |t|
  {
    forall i :: a <= i < k && Abs(t[i]) > 1 ==> ZerosIn(t, a, i) <= 15
  }

  // Where the first 16 zeros of a stretch end.
  lemma {:induction false} SixteenthZero(t: Block, a: nat, k: nat, n: nat) returns (b: nat)
    requires a <= k <= |t| && n < ZerosIn(t, a, k)
    ensures a <= b < k && t[b] == 0 && ZerosIn(t, a, b) == n
    decreases k - a
  {
    if t[a] == 0 && n == 0 {
      b := a;
    } else {
      b := SixteenthZero(t, a + 1, k, if t[a] == 0 then n - 1 else n);
    }
  }

  lemma {:induction false} ZerosGrow(t: Block, a: nat, b: nat, c: nat)
    requires a <= b <= c <= |t|
    ensures ZerosIn(t, a, b) <= ZerosIn(t, a, c)
  {
    CorrectionsSplit(t, a, b, c);
  }

  lemma {:induction false} OnlyZeros(t: Block, a: nat, b: nat)
    requires a <= b <= |t| && forall i :: a <= i < b ==> Abs(t[i]) <= 1
    ensures Corrections(t, a, b) == []
    decreases b - a
  {
    if a < b {
      OnlyZeros(t, a + 1, b);
    }
  }

  // The stretch after its first 16 zeros.
  lemma AfterZrl(t: Block, a: nat, k: nat) returns (b: nat)
    requires a <= k <= |t| && ZerosIn(t, a, k) > 15 && Early(t, a, k) && NoneNew(t, a, k)
    ensures a <= b < k && t[b] == 0 && ZerosIn(t, a, b) == 15
    ensures Corrections(t, a, b) == Corrections(t, a, k) && Corrections(t, b + 1, k) == []
    ensures ZerosIn(t, b + 1, k) == ZerosIn(t, a, k) - 16
    ensures NoneNew(t, a, b) && NoneNew(t, b + 1, k) && Early(t, b + 1, k)
  {
    hide Corrections, ZerosIn;
    b := SixteenthZero(t, a, k, 15);
    CorrectionsSnoc(t, a, b);
    CorrectionsSplit(t, a, b + 1, k);
    forall i | b + 1 <= i < k
      ensures Abs(t[i]) <= 1
    {
      ZerosGrow(t, a, b + 1, i);
    }
    OnlyZeros(t, b + 1, k);
  }

  lemma {:induction false} EmptyStretch(t: Block, a: nat, b: nat)
    requires a <= b <= |t| && NoneNew(t, a, b) && ZerosIn(t, a, b) == 0 && Corrections(t, a, b) == []
    ensures a == b
    decreases b - a
  {
  }

  // The band of a block: its transformed coefficients from ss on.
  function BandFrom(p: Scan, block: seq<int>): (t: Block)
    requires p.se < |p.order| && forall k :: 0 <= k <= p.se ==> p.order[k] < |block|
    ensures |t| == p.se + 1
    ensures forall k :: 0 <= k < |t| ==> t[k] == if k < p.ss then 0 else Truncate(block[p.order[k]], p.al)
  {
    seq(p.se + 1, k requires 0 <= k <= p.se => if k < p.ss then 0 else Truncate(block[p.order[k]], p.al))
  }

  class RefineEncoder {
    const scan: Scan
    const tbl: nat
    const bitBuffer: array<bool>   // buffer for correction bits
    var eobrun: nat                // run length of EOBs
    var be: nat                    // correction bits held back by earlier blocks
    var out: seq<Item>             // what has been emitted
    var counts: seq<nat>           // how often each symbol is among it

    ghost const earlier: seq<Item> // what was emitted in the restart segments before
    ghost var symbols: nat         // the symbols of the scan so far
    ghost const ts: seq<Block>     // the bands of the blocks of the segment
    ghost var j: nat               // the emitted items take a decoder to block j,
    ghost var k: nat               //   coefficient k

    // While block n is coded: a run of end-of-band blocks may be pending, with its
    // correction bits in the buffer.
    ghost predicate Underway(n: nat)
      reads this, bitBuffer
    {
      && ValidScan(scan) && 0 < scan.ss <= scan.se && BandsAligned(ts, scan.ss)
      && (forall i :: 0 <= i < |ts| ==> |ts[i]| == scan.se + 1)
      && bitBuffer.Length == MAX_CORR_BITS
      && Moves(ts, scan.ss, 0, scan.ss, out, j, k)
      && j + eobrun == n <= |ts| && scan.ss <= k && OnlyCorrections(ts, scan.ss, j, k, eobrun)
      && be <= MAX_CORR_BITS && eobrun <= MAX_RUN && (eobrun == 0 ==> be == 0) && (eobrun > 0 ==> k <= scan.se)
      && BufferItems(bitBuffer[..be]) == RunCorrections(ts, scan.ss, j, k, eobrun)
      && Tallied(earlier + out, tbl, counts, symbols)
    }

    // Between MCUs, with n blocks coded: there is room for the correction bits of another.
    ghost predicate Valid(n: nat)
      reads this, bitBuffer
    {
      && Underway(n)
      && be <= MAX_CORR_BITS - 64 + 1 && eobrun < MAX_RUN && (eobrun == 0 ==> k == scan.ss)
    }

    // The start of a restart segment; the counts go on.
    constructor (scan: Scan, tbl: nat, counts: seq<nat>, ghost earlier: seq<Item>, ghost symbols: nat, ghost ts: seq<Block>)
      requires ValidScan(scan) && 0 < scan.ss <= scan.se && BandsAligned(ts, scan.ss) && Tallied(earlier, tbl, counts, symbols)
      requires forall i :: 0 <= i < |ts| ==> |ts[i]| == scan.se + 1
      ensures Valid(0) && this.scan == scan && this.tbl == tbl && this.ts == ts && fresh(bitBuffer)
      ensures this.earlier == earlier && this.symbols == symbols && Load() == symbols && Waiting(0)
    {
      hide Moves, Tallied;
      assert earlier + [] == earlier;
      this.scan, this.tbl, this.ts, this.earlier := scan, tbl, ts, earlier;
      this.counts, this.symbols := counts, symbols;
      bitBuffer := new bool[MAX_CORR_BITS](_ => false);
      eobrun, be, out := 0, 0, [];
      j, k := 0, scan.ss;
      MovesNowhere(ts, scan.ss, 0, scan.ss);
      new;
      assert bitBuffer[..0] == [];
    }

    // The symbols emitted, and the one that is due for a pending run.
    ghost function Load(): nat
      reads this`symbols, this`eobrun
    {
      symbols + if eobrun > 0 then 1 else 0
    }

    method EmitSymbol(s: nat)
      requires Tallied(earlier + out, tbl, counts, symbols) && s < 256 && s % 16 <= 1
      modifies this`out, this`counts, this`symbols
      ensures symbols == old(symbols) + 1
      ensures out == old(out) + [Symbol(false, tbl, s)] && Tallied(earlier + out, tbl, counts, symbols)
    {
      TalliedSymbol(earlier, out, tbl, counts, symbols, s);
      counts, symbols := counts[s := counts[s] + 1], symbols + 1;
      out := out + [Symbol(false, tbl, s)];
    }

    // Emit bits from the correction bit buffer.
    method EmitBufferedBits(start: nat, count: nat)
      requires start + count <= bitBuffer.Length && Tallied(earlier + out, tbl, counts, symbols)
      modifies this`out
      ensures out == old(out) + BufferItems(bitBuffer[start..start + count]) && Tallied(earlier + out, tbl, counts, symbols)
    {
      hide Tallied;
      var n := 0;
      while n < count
        invariant n <= count && out == old(out) + BufferItems(bitBuffer[start..start + n]) && Tallied(earlier + out, tbl, counts, symbols)
      {
        TalliedExtra(earlier, out, tbl, counts, symbols, if bitBuffer[start + n] then 1 else 0, 1);
        out := out + [Extra(if bitBuffer[start + n] then 1 else 0, 1)];
        n := n + 1;
      }
    }

    // The symbol for the end-of-band run. The check on its length never fails.
    method EmitEobrun()
      requires eobrun <= MAX_RUN && be <= bitBuffer.Length && (eobrun == 0 ==> be == 0) && Tallied(earlier + out, tbl, counts, symbols)
      modifies this`out, this`counts, this`symbols, this`eobrun, this`be
      ensures Load() == old(Load())
      ensures eobrun == 0 && be == 0 && Tallied(earlier + out, tbl, counts, symbols)
      ensures old(eobrun) > 0 ==>
        out == old(out) + EobItems(tbl, old(eobrun)) + BufferItems(old(bitBuffer[..be]))
      ensures old(eobrun) == 0 ==> out == old(out)
    {
      hide Tallied;
      if eobrun > 0 {
        var temp, nbits := eobrun, 0;
        while temp / 2 != 0
          invariant temp > 0 && nbits + Log2(temp) == Log2(eobrun)
          decreases temp
        {
          temp := temp / 2;
          nbits := nbits + 1;
        }
        Pow2Values();
        Log2Below(eobrun, 15);
        assert nbits <= 14;
        EmitSymbol(16 * nbits);
        if nbits != 0 {
          TalliedExtra(earlier, out, tbl, counts, symbols, eobrun % Pow2(nbits), nbits);
          out := out + [Extra(eobrun % Pow2(nbits), nbits)];
        }
        assert out == old(out) + EobItems(tbl, eobrun);
        eobrun := 0;
        // The held correction bits, in order.
        EmitBufferedBits(0, be);
        be := 0;
      }
    }

    ghost predicate RunSent(run: nat, bits: seq<bool>, before: seq<Item>, after: seq<Item>) {
      after == if run > 0 then before + EobItems(tbl, run) + BufferItems(bits) else before
    }

    // The pending run is sent: the decoder is taken to block n.
    method FlushRun(ghost n: nat)
      requires Underway(n)
      modifies this`out, this`counts, this`symbols, this`eobrun, this`be, this`j, this`k
      ensures Load() == old(Load())
      ensures Underway(n) && eobrun == 0 && j == n
      ensures k == if old(eobrun) > 0 then scan.ss else old(k)
      ensures RunSent(old(eobrun), old(bitBuffer[..be]), old(out), out)
    {
      hide Tallied, Moves, EobItems, RunCorrections, OnlyCorrections, BandsAligned, BufferItems;
      ghost var run, sent := eobrun, out;
      EmitEobrun();
      if run > 0 {
        PendingRun(ts, scan.ss, j, k, run, tbl, sent);
        j, k := n, scan.ss;
      }
      assert bitBuffer[..0] == [];
      NoRun(ts, scan.ss, j, k);
    }

    // What has been seen of block n since the place the decoder will be at: r zeros and the
    // br correction bits in the buffer from start on.
    ghost predicate Seen(n: nat, at: nat, r: nat, start: nat, br: nat)
      reads this`eobrun, this`k, bitBuffer
    {
      && n < |ts| && at <= |ts[n]|
      && From() <= at && NoneNew(ts[n], From(), at) && r == ZerosIn(ts[n], From(), at)
      && start + br <= bitBuffer.Length
      && BufferItems(bitBuffer[start..start + br]) == Corrections(ts[n], From(), at)
    }

    // The start of the stretch.
    ghost function From(): nat
      reads this`eobrun, this`k
    {
      if eobrun > 0 then scan.ss else k
    }

    // Up to the last new coefficient, correction bits come before the 16th zero.
    ghost predicate Timely(n: nat, at: nat, eob: nat)
      reads this`eobrun, this`k
    {
      n < |ts| && From() <= at <= |ts[n]| && (at <= eob ==> Early(ts[n], From(), at))
    }

    // Emit a code for 16 zeros, and the correction bits that go with it.
    method EmitZrl(ghost n: nat, at: nat, r: nat, start: nat, br: nat)
      requires Underway(n) && Seen(n, at, r, start, br) && r > 15 && Early(ts[n], From(), at) && at <= scan.se
      modifies this`out, this`counts, this`symbols, this`eobrun, this`be, this`j, this`k
      ensures Load() == old(Load()) + 1
      ensures Underway(n) && eobrun == 0 && j == n
      ensures Seen(n, at, r - 16, 0, 0) && From() <= at <= |ts[n]| && Early(ts[n], From(), at)
    {
      hide RunSent, Tallied, Moves, Corrections, OnlyCorrections, BandsAligned, BufferItems, ZerosIn, Early, NoneNew;
      ghost var t, a := ts[n], From();
      ghost var b := AfterZrl(t, a, at);
      FlushRun(n);
      ghost var sent := out;
      EmitSymbol(0xF0);
      EmitBufferedBits(start, br);
      MovesZrl(ts, scan.ss, n, a, b, tbl);
      MovesOn(ts, scan.ss, sent, [Symbol(false, tbl, 0xF0)] + Corrections(t, a, b), 0, scan.ss, n, a, n, b + 1);
      assert out == sent + ([Symbol(false, tbl, 0xF0)] + Corrections(t, a, b));
      k := b + 1;
      NoRun(ts, scan.ss, n, b + 1);
      assert bitBuffer[..0] == [] && bitBuffer[0..0] == [];
      NoBufferItems();
    }

    // Emit a coefficient that becomes nonzero.
    method EmitNew(ghost n: nat, at: nat, r: nat, start: nat, br: nat, negative: bool)
      requires Underway(n) && Seen(n, at, r, start, br) && r <= 15 && at <= scan.se
      requires Abs(ts[n][at]) == 1 && negative == (ts[n][at] < 0)
      modifies this`out, this`counts, this`symbols, this`eobrun, this`be, this`j, this`k
      ensures Load() == old(Load()) + 1
      ensures Underway(n) && eobrun == 0 && j == n && k == at + 1
      ensures Seen(n, at + 1, 0, 0, 0)
    {
      hide RunSent, Tallied, Moves, Corrections, OnlyCorrections, BandsAligned, BufferItems, ZerosIn, NoneNew;
      ghost var t, a := ts[n], From();
      FlushRun(n);
      ghost var sent := out;
      EmitSymbol(16 * r + 1);
      TalliedExtra(earlier, out, tbl, counts, symbols, if negative then 0 else 1, 1);
      out := out + [Extra(if negative then 0 else 1, 1)];
      EmitBufferedBits(start, br);
      MovesNew(ts, scan.ss, n, a, at, tbl);
      ghost var items := [Symbol(false, tbl, 16 * r + 1), Extra(if t[at] < 0 then 0 else 1, 1)] + Corrections(t, a, at);
      MovesOn(ts, scan.ss, sent, items, 0, scan.ss, n, a, n, at + 1);
      assert out == sent + items;
      k := at + 1;
      NoRun(ts, scan.ss, n, at + 1);
      assert bitBuffer[..0] == [] && bitBuffer[0..0] == [];
      NoBufferItems();
      NothingSeen(t, at + 1);
    }

    // The magnitude of a coefficient after the point transform.
    function Magnitude(block: array<int>, at: nat): nat
      requires block.Length == 64 && ValidScan(scan) && at <= scan.se
      reads block
    {
      ShiftRight(Abs(block[scan.order[at]]), scan.al)
    }

    // The first of two passes: magnitudes after the point transform, and the EOB position, the
    // index of the last newly-nonzero coefficient.
    method Prepare(block: array<int>, absvalues: array<nat>) returns (eob: nat)
      requires block.Length == 64 == absvalues.Length && ValidScan(scan) && scan.ss <= scan.se
      modifies absvalues
      ensures forall i :: scan.ss <= i <= scan.se ==> absvalues[i] == Magnitude(block, i)
      ensures forall i :: scan.ss <= i <= scan.se && absvalues[i] == 1 ==> i <= eob
      ensures eob > 0 ==> scan.ss <= eob <= scan.se && absvalues[eob] == 1
    {
      hide ShiftRight;
      eob := 0;
      var at := scan.ss;
      while at <= scan.se
        invariant scan.ss <= at <= scan.se + 1
        invariant forall i :: scan.ss <= i < at ==> absvalues[i] == Magnitude(block, i)
        invariant forall i :: scan.ss <= i < at && absvalues[i] == 1 ==> i <= eob
        invariant eob > 0 ==> scan.ss <= eob < at && absvalues[eob] == 1
      {
        var temp := Magnitude(block, at);
        absvalues[at] := temp;
        if temp == 1 {
          eob := at;
        }
        at := at + 1;
      }
    }

    // Nothing is emitted.
    twostate predicate Silent()
      reads this
    {
      out == old(out) && eobrun == old(eobrun) && be == old(be) && j == old(j) && k == old(k)
    }

    // Runs of 16 zeros, as long as something newly nonzero follows in the band.
    method EmitZrls(ghost n: nat, at: nat, r0: nat, start0: nat, br0: nat, eob: nat)
      returns (r: nat, start: nat, br: nat)
      requires Underway(n) && Seen(n, at, r0, start0, br0) && at <= scan.se && start0 == be
      requires Timely(n, at, eob)
      modifies this`out, this`counts, this`symbols, this`eobrun, this`be, this`j, this`k
      ensures Underway(n) && Seen(n, at, r, start, br) && start == be && be <= old(be) && eobrun <= old(eobrun)
      ensures Timely(n, at, eob) && (at <= eob ==> r <= 15)
      ensures Load() + r <= old(Load()) + r0
      ensures at > eob ==> Silent()
    {
      hide Underway, Seen, Early;
      r, start, br := r0, start0, br0;
      while r > 15 && at <= eob
        invariant Underway(n) && Seen(n, at, r, start, br) && start == be && be <= old(be) && eobrun <= old(eobrun)
        invariant Timely(n, at, eob) && Load() + r <= old(Load()) + r0
        invariant at > eob ==> Silent()
        decreases r
      {
        EmitZrl(n, at, r, start, br);
        NothingBuffered(n);
        r, start, br := r - 16, 0, 0;
      }
    }

    lemma NothingBuffered(n: nat)
      requires Underway(n) && eobrun == 0
      ensures be == 0
    {
    }

    // One more coefficient that needs no code of its own: a zero, or one that was nonzero
    // before and has its correction bit in the buffer.
    lemma SeenMore(n: nat, at: nat, r: nat, start: nat, br: nat)
      requires Underway(n) && n < |ts| && From() <= at <= scan.se
      requires Abs(ts[n][at]) != 1 && start + br <= bitBuffer.Length
      requires NoneNew(ts[n], From(), at) && r == ZerosIn(ts[n], From(), at)
      requires BufferItems(bitBuffer[start..start + br]) == Corrections(ts[n], From(), at)
      requires Abs(ts[n][at]) > 1 ==>
        start + br < bitBuffer.Length && bitBuffer[start + br] == (Abs(ts[n][at]) % 2 == 1)
      ensures ts[n][at] == 0 ==> Seen(n, at + 1, r + 1, start, br)
      ensures Abs(ts[n][at]) > 1 ==> Seen(n, at + 1, r, start, br + 1)
    {
      CorrectionsSnoc(ts[n], From(), at);
      if Abs(ts[n][at]) > 1 {
        assert bitBuffer[start..start + br + 1] == bitBuffer[start..start + br] + [bitBuffer[start + br]];
      }
    }

    lemma EarlyMore(n: nat, at: nat, r: nat, eob: nat)
      requires Timely(n, at, eob) && at < |ts[n]| && r == ZerosIn(ts[n], From(), at)
      requires Abs(ts[n][at]) > 1 && at <= eob ==> r <= 15
      ensures Timely(n, at + 1, eob)
    {
    }

    // The buffer has room for the correction bits of the block.
    lemma SpaceLeft(n: nat, at: nat, r: nat, start: nat, br: nat)
      requires Underway(n) && Seen(n, at, r, start, br) && at <= scan.se
      ensures br <= 62
    {
      CorrectionsAreFew(ts[n], From(), at);
    }

    // What refines a coefficient that was nonzero before is the lowest bit of its magnitude.
    method BufferBit(temp: nat, ghost n: nat, at: nat, ghost r: nat, start: nat, br: nat)
      requires Underway(n) && Seen(n, at, r, start, br) && start == be && at <= scan.se && be <= MAX_CORR_BITS - 64 + 1
      requires temp == Abs(ts[n][at]) > 1
      modifies bitBuffer
      ensures Underway(n) && Seen(n, at + 1, r, start, br + 1)
    {
      hide Tallied, Moves, Corrections, OnlyCorrections, BandsAligned, BufferItems, ZerosIn, NoneNew, RunCorrections;
      SpaceLeft(n, at, r, start, br);
      ghost var before := bitBuffer[..];
      bitBuffer[start + br] := temp % 2 == 1;
      assert bitBuffer[start..start + br] == before[start..start + br];
      assert bitBuffer[..be] == before[..be];
      SeenMore(n, at, r, start, br);
    }

    // A zero is counted only.
    lemma CountZero(n: nat, at: nat, r: nat, start: nat, br: nat)
      requires Underway(n) && Seen(n, at, r, start, br) && at <= scan.se && ts[n][at] == 0
      ensures Seen(n, at + 1, r + 1, start, br)
    {
      SeenMore(n, at, r, start, br);
    }

    // One coefficient: a zero is counted, a correction bit is buffered, a new coefficient sent.
    method EncodeCoef(block: array<int>, temp: nat, ghost n: nat, at: nat, r0: nat, start0: nat, br0: nat, eob: nat)
      returns (r: nat, start: nat, br: nat)
      requires Underway(n) && Seen(n, at, r0, start0, br0) && start0 == be && Timely(n, at, eob) && at <= scan.se
      requires block.Length == 64 && block != bitBuffer as object && temp == Abs(ts[n][at])
      requires temp == 1 ==> at <= eob && (block[scan.order[at]] < 0 <==> ts[n][at] < 0)
      requires be <= MAX_CORR_BITS - 64 + 1
      modifies this`out, this`counts, this`symbols, this`eobrun, this`be, this`j, this`k, bitBuffer
      ensures Underway(n) && Seen(n, at + 1, r, start, br) && start == be && Timely(n, at + 1, eob)
      ensures Load() + r <= old(Load()) + r0 + 1
      ensures be <= old(be) && eobrun <= old(eobrun)
      ensures at > eob ==> Silent()
    {
      ScanIsValid(n);
      ZerosSeen(n, at, r0, start0, br0);
      hide Underway, Seen, Early, ZerosIn;
      r, start, br := r0, start0, br0;
      if temp == 0 {
        CountZero(n, at, r, start, br);
        r := r + 1;
        EarlyMore(n, at, r0, eob);
        return;
      }
      r, start, br := EmitZrls(n, at, r, start, br, eob);
      ZerosSeen(n, at, r, start, br);
      if temp > 1 {
        BufferBit(temp, n, at, r, start, br);
        br := br + 1;
        EarlyMore(n, at, r, eob);
      } else {
        EmitNew(n, at, r, start, br, block[scan.order[at]] < 0);
        r, start, br := 0, 0, 0;
        NothingBuffered(n);
        NothingEarly(n, at + 1, eob);
      }
    }

    lemma ZerosSeen(n: nat, at: nat, r: nat, start: nat, br: nat)
      requires Seen(n, at, r, start, br)
      ensures n < |ts| && From() <= at <= |ts[n]| && r == ZerosIn(ts[n], From(), at)
    {
    }

    lemma NothingEarly(n: nat, at: nat, eob: nat)
      requires n < |ts| && From() == at <= |ts[n]|
      ensures Timely(n, at, eob)
    {
    }

    // One more end of band; its correction bits stay behind the older ones.
    method CountEob(ghost n: nat, r: nat, br: nat)
      requires Underway(n) && Seen(n, scan.se + 1, r, be, br) && (r > 0 || br > 0)
      requires eobrun < MAX_RUN && be <= MAX_CORR_BITS - 64 + 1
      modifies this`eobrun, this`be
      ensures Underway(n + 1) && eobrun == old(eobrun) + 1 && be == old(be) + br && Load() <= old(Load()) + 1
    {
      hide Tallied, Moves, Corrections, BufferItems, ZerosIn, RunCorrections, ValidScan;
      CorrectionsAreFew(ts[n], From(), scan.se + 1);
      SomethingSeen(ts[n], From(), scan.se + 1);
      JoinBuffer(bitBuffer[..], be, br);
      if eobrun == 0 {
        OneBlockRun(ts, scan.ss, n, k);
        assert bitBuffer[0..br] == bitBuffer[..br];
      } else {
        RunSnoc(ts, scan.ss, j, k, eobrun);
      }
      assert bitBuffer[..][..be] == bitBuffer[..be];
      assert bitBuffer[..][be..be + br] == bitBuffer[be..be + br];
      assert bitBuffer[..][..be + br] == bitBuffer[..be + br];
      eobrun := eobrun + 1;
      be := be + br;
    }

    // A block that ends with a new coefficient needs no end-of-band code.
    ghost method PassBlock(n: nat)
      requires Underway(n) && Seen(n, scan.se + 1, 0, be, 0)
      modifies this`j, this`k
      ensures Underway(n + 1) && eobrun == 0 && k == scan.ss
    {
      hide Tallied, Moves, BufferItems;
      EmptyStretch(ts[n], From(), scan.se + 1);
      MovesToNext(ts, scan.ss, n);
      MovesOn(ts, scan.ss, out, [], 0, scan.ss, n, k, n + 1, scan.ss);
      assert out + [] == out;
      j, k := n + 1, scan.ss;
      NoRun(ts, scan.ss, n + 1, scan.ss);
    }

    // Block n has no new coefficients.
    ghost predicate Calm(n: nat) {
      n < |ts| && scan.ss <= |ts[n]| && NoneNew(ts[n], scan.ss, |ts[n]|)
    }

    ghost function CorrectionCount(n: nat): nat
      requires Calm(n)
    {
      |Corrections(ts[n], scan.ss, |ts[n]|)|
    }

    // Counter and buffer have room for it.
    ghost predicate HasRoom(n: nat)
      requires Calm(n)
      reads this`eobrun, this`be
    {
      eobrun + 1 < MAX_RUN && be + CorrectionCount(n) <= MAX_CORR_BITS - 64 + 1
    }

    lemma RoomIs(n: nat)
      ensures Calm(n) ==>
        (HasRoom(n) <==> eobrun + 1 < MAX_RUN && be + CorrectionCount(n) <= MAX_CORR_BITS - 64 + 1)
    {
    }

    // What has been seen of it in the end.
    lemma SeenInAll(n: nat, r: nat, br: nat)
      requires Underway(n) && Seen(n, scan.se + 1, r, be, br) && From() == scan.ss && Calm(n)
      ensures br == CorrectionCount(n) && (r > 0 || br > 0)
    {
      EmptyStretchSeen(ts[n], scan.ss, scan.se + 1);
    }

    // The coefficients of the band of block n.
    method EncodeBand(block: array<int>, ghost n: nat) returns (r: nat, br: nat)
      requires Valid(n) && n < |ts| && block.Length == 64 && block != bitBuffer as object
      requires ts[n] == BandFrom(scan, block[..])
      modifies this`out, this`counts, this`symbols, this`eobrun, this`be, this`j, this`k, bitBuffer
      ensures Underway(n) && Seen(n, scan.se + 1, r, be, br)
      ensures Load() + r <= old(Load()) + 63
      ensures be <= old(be) && eobrun <= old(eobrun)
      ensures Calm(n) ==> Silent()
    {
      hide Underway, Seen, Timely, BandFrom, ShiftRight;
      ScanIsValid(n);
      var absvalues := new nat[64](_ => 0);
      var eob := Prepare(block, absvalues);
      var start, at := be, scan.ss;
      r, br := 0, 0;
      BandStarts(n, eob);
      while at <= scan.se
        invariant Underway(n) && Seen(n, at, r, start, br) && start == be && Timely(n, at, eob)
        invariant Load() + r <= old(Load()) + (at - scan.ss)
        invariant scan.ss <= at <= scan.se + 1 && ts[n] == BandFrom(scan, block[..])
        invariant be <= old(be) && eobrun <= old(eobrun) && (eob == 0 ==> Silent())
        invariant forall i :: scan.ss <= i <= scan.se ==> absvalues[i] == Magnitude(block, i)
      {
        BandIs(block, at);
        r, start, br := EncodeCoef(block, absvalues[at], n, at, r, start, br, eob);
        at := at + 1;
      }
      if eob > 0 {
        BandIs(block, eob);
      }
    }

    lemma ScanIsValid(n: nat)
      requires Underway(n)
      ensures ValidScan(scan) && 0 < scan.ss <= scan.se
    {
    }

    lemma BandStarts(n: nat, eob: nat)
      requires Valid(n) && n < |ts|
      ensures Underway(n) && Seen(n, scan.ss, 0, be, 0) && Timely(n, scan.ss, eob)
    {
      NothingSeen(ts[n], scan.ss);
      assert bitBuffer[be..be] == [];
    }

    lemma BandIs(block: array<int>, at: nat)
      requires block.Length == 64 && ValidScan(scan) && scan.ss <= at <= scan.se && at > 0
      ensures Magnitude(block, at) == Abs(BandFrom(scan, block[..])[at])
      ensures BandFrom(scan, block[..])[at] != 0 ==> (block[scan.order[at]] < 0 <==> BandFrom(scan, block[..])[at] < 0)
    {
      hide ShiftRight;
    }

    // All n blocks so far are in the pending run.
    ghost predicate Waiting(n: nat)
      reads this`out, this`eobrun, this`j, this`k
    {
      out == [] && eobrun == n && j == 0 && k == scan.ss
    }

    // They are if they make one run.
    ghost predicate Held(n: nat)
      reads this`out, this`eobrun, this`j, this`k
    {
      IsOneRun(ts, scan.ss, n) ==> Waiting(n)
    }

    // Another block joins the run.
    lemma RunGoesOn(n: nat)
      requires Valid(n) && n < |ts| && Held(n) && IsOneRun(ts, scan.ss, n + 1)
      ensures Waiting(n) && Calm(n) && HasRoom(n)
    {
      hide Moves, Tallied, OnlyCorrections, Corrections, RunCorrections, ValidScan;
      ShorterRun(ts, scan.ss, n);
      if n > 0 {
        RunSnoc(ts, scan.ss, 0, scan.ss, n);
      } else {
        OneBlockRun(ts, scan.ss, 0, scan.ss);
      }
    }

    lemma RunIsHeld(n: nat)
      requires Valid(n) && Waiting(n) && n == |ts| > 0
      ensures BandsAligned(ts, scan.ss) && BufferItems(bitBuffer[..be]) == RunCorrections(ts, scan.ss, 0, scan.ss, n)
    {
    }

    // Encode one MCU (encode_mcu_AC_refine): block n of the segment.
    method EncodeMcu(block: array<int>, ghost n: nat)
      requires Valid(n) && n < |ts| && block.Length == 64 && block != bitBuffer as object
      requires ts[n] == BandFrom(scan, block[..])
      modifies this`out, this`counts, this`symbols, this`eobrun, this`be, this`j, this`k, bitBuffer
      ensures Valid(n + 1) && Load() <= old(Load()) + 64
      ensures Calm(n) && old(HasRoom(n)) ==>
        && out == old(out) && j == old(j) && k == old(k)
        && eobrun == old(eobrun) + 1 && be == old(be) + CorrectionCount(n)
      ensures Calm(n) && !old(HasRoom(n)) ==> eobrun == 0
      ensures old(Held(n)) ==> Held(n + 1)
    {
      hide Underway, Seen, Calm, CorrectionCount, RunSent, IsOneRun, HasRoom;
      if Held(n) && IsOneRun(ts, scan.ss, n + 1) {
        RunGoesOn(n);
      }
      RoomIs(n);
      var r, br := EncodeBand(block, n);
      if Calm(n) {
        SeenInAll(n, r, br);
      }
      if r > 0 || br > 0 {
        CountEob(n, r, br);
        // After this, counter and buffer have room for one more MCU.
        if eobrun == MAX_RUN || be > MAX_CORR_BITS - 64 + 1 {
          FlushRun(n + 1);
          NothingBuffered(n + 1);
        }
      } else {
        PassBlock(n);
        NothingBuffered(n + 1);
      }
    }

    // Nothing is held back any more (emit_restart, finish_pass): everything sent is read back as
    // the refined blocks.
    method Finish()
      requires Valid(|ts|)
      modifies this`out, this`counts, this`symbols, this`eobrun, this`be, this`j, this`k
      ensures Load() == symbols == old(Load())
      ensures Valid(|ts|) && FromBlock(Knowns(ts), scan.ss, 0, out) == ts
      ensures old(Waiting(|ts|)) && ts != [] ==>
        BandsAligned(ts, scan.ss) && out == EobItems(tbl, |ts|) + RunCorrections(ts, scan.ss, 0, scan.ss, |ts|)
    {
      hide FromCoef, FromBlock, Underway, EobItems, RunCorrections, BufferItems, Onward;
      if Waiting(|ts|) && ts != [] {
        RunIsHeld(|ts|);
      }
      FlushRun(|ts|);
      NothingBuffered(|ts|);
      ReadToTheEnd();
    }

    lemma ReadToTheEnd()
      requires Underway(|ts|) && j == |ts| && k == scan.ss
      ensures FromBlock(Knowns(ts), scan.ss, 0, out) == ts
    {
      hide FromCoef;
      assert out + [] == out;
      assert Onward(ts, scan.ss, 0, scan.ss, out + []) == ts[0..|ts|] + Onward(ts, scan.ss, |ts|, k, []);
      OnwardFromStart(ts, scan.ss, 0, out);
      assert ts[0..|ts|] == ts;
    }
  }

  // The first n blocks make one run: they have no new coefficients, and few enough correction bits.
  ghost predicate IsOneRun(ts: seq<Block>, ss: nat, n: nat) {
    && n <= |ts| && n < MAX_RUN && BandsAligned(ts, ss)
    && (forall i :: 0 <= i < n ==> NoneNew(ts[i], ss, |ts[i]|))
    && |RunCorrections(ts, ss, 0, ss, n)| <= MAX_CORR_BITS - 64 + 1
  }

  lemma ShorterRun(ts: seq<Block>, ss: nat, n: nat)
    requires n < |ts| && IsOneRun(ts, ss, n + 1)
    ensures IsOneRun(ts, ss, n)
  {
    if n > 0 {
      RunSnoc(ts, ss, 0, ss, n);
    }
  }

  lemma {:induction false} EmptyStretchSeen(t: Block, a: nat, b: nat)
    requires a < b <= |t| && NoneNew(t, a, b)
    ensures ZerosIn(t, a, b) > 0 || |Corrections(t, a, b)| > 0
  {
  }

  lemma JoinBuffer(buffer: seq<bool>, a: nat, b: nat)
    requires a + b <= |buffer|
    ensures BufferItems(buffer[..a + b]) == BufferItems(buffer[..a]) + BufferItems(buffer[a..a + b])
  {
  }

  lemma NoBufferItems()
    ensures BufferItems([]) == []
  {
  }

  lemma NothingSeen(t: Block, a: nat)
    requires a <= |t|
    ensures NoneNew(t, a, a) && ZerosIn(t, a, a) == 0 && Corrections(t, a, a) == []
  {
  }

  // NoCounts or correction bits take up room.
  lemma SomethingSeen(t: Block, a: nat, b: nat)
    requires a <= b <= |t|
    ensures ZerosIn(t, a, b) > 0 || |Corrections(t, a, b)| > 0 ==> a < b
  {
  }

  lemma NoRun(ts: seq<Block>, ss: nat, j: nat, k: nat)
    requires BandsAligned(ts, ss) && j <= |ts|
    ensures OnlyCorrections(ts, ss, j, k, 0) && RunCorrections(ts, ss, j, k, 0) == [] == BufferItems([])
  {
  }

  lemma PendingRun(ts: seq<Block>, ss: nat, j: nat, k: nat, run: nat, tbl: nat, sent: seq<Item>)
    requires 0 < run <= MAX_RUN && OnlyCorrections(ts, ss, j, k, run) && k < |ts[j]|
    requires Moves(ts, ss, 0, ss, sent, j, k)
    ensures Moves(ts, ss, 0, ss, sent + EobItems(tbl, run) + RunCorrections(ts, ss, j, k, run), j + run, ss)
  {
    hide Moves, EobItems, RunCorrections;
    var items := EobItems(tbl, run) + RunCorrections(ts, ss, j, k, run);
    MovesRun(ts, ss, j, k, run, tbl);
    MovesOn(ts, ss, sent, items, 0, ss, j, k, j + run, ss);
    assert sent + items == sent + EobItems(tbl, run) + RunCorrections(ts, ss, j, k, run);
  }
}