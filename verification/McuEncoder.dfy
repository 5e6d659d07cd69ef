// The MCU encoding routines of libs/jpeg/jcarith.c, proved to code exactly the decisions of
// the statistical model.
module McuEncoder {
  import opened Powers
  import opened ExactCoder
  import opened Bytes
  import opened ProbabilityTable
  import opened DecisionModel
  import opened ScanModel
  import opened Termination
  import ArithEncoder

  // A block of coefficients in natural order.
  ghost predicate IsBlock(block: array<int>)
    reads block
  {
    block.Length == 64 && forall i :: 0 <= i < 64 ==> InShort(block[i])
  }

  ghost predicate AreBlocks(mcu: seq<array<int>>, area: array<Stat>)
    reads mcu
  {
    forall i :: 0 <= i < |mcu| ==> IsBlock(mcu[i]) && mcu[i] != area as object
  }

  class Encoder {
    const coder: ArithEncoder.Encoder
    const scan: Scan
    var lastDcVal: seq<int>     // last DC coefficient for each component
    var dcContext: seq<nat>     // DC conditioning, by component
    var restartsToGo: nat       // MCUs before the next marker
    var nextRestartNum: nat     // of the next marker, modulo 8

    ghost var goal: seq<Decision>        // what the history is to become
    ghost var head: seq<byte>            // what was in the destination before the scan
    ghost var first: seq<Stat>           // the statistics at the start of the scan
    ghost var segments: seq<Segment>     // the segments closed so far
    ghost var current: seq<Mcu>          // the MCUs of the open segment

    ghost predicate Valid()
      reads this, coder, coder.stats
    {
      && coder.Valid() && coder.stats.Length == AREA_SIZE
      && ValidScan(scan) && ValidDc(Dc())
      && forall i :: 0 <= i < 4 ==> InShort(lastDcVal[i])
    }

    ghost function Dc(): DcState
      reads this
    {
      DcState(lastDcVal, dcContext)
    }

    // rest is what remains of the goal.
    ghost predicate Todo(rest: seq<Decision>)
      reads this, coder
    {
      coder.history + rest == goal
    }

    // Between MCUs.
    ghost predicate InScan()
      reads this, coder, coder.stats
    {
      Within(0)
    }

    // The restart counter runs ahead of the MCUs coded by pending.
    ghost predicate Within(pending: nat)
      reads this, coder, coder.stats
    {
      && Valid()
      && OpenScan(scan, head, first, segments, current, coder.closed, coder.start, coder.history, Dc())
      && nextRestartNum == |segments| % 8
      && (segments != [] ==> |current| + pending > 0)
      && (if scan.restart == 0 then segments == [] else restartsToGo + |current| + pending == scan.restart)
    }

    // The MCUs coded so far.
    ghost function Coded(): seq<Mcu>
      reads this
    {
      AllMcus(segments) + current
    }

    // Initialize for a scan (start_pass).
    constructor (coder: ArithEncoder.Encoder, scan: Scan)
      requires coder.stats.Length == AREA_SIZE && ValidScan(scan)
      modifies coder, coder.stats
      ensures InScan() && this.coder == coder && this.scan == scan
      ensures Coded() == [] && head == old(coder.out)
      ensures first == Fresh(scan, old(coder.stats[..]))
    {
      hide ArithEncoder.Encoder.Valid, OpenScan, Run, InBins, ValidScan, Cleared, StatsAfter;
      this.coder, this.scan := coder, scan;
      lastDcVal, dcContext := [0, 0, 0, 0], [0, 0, 0, 0];
      restartsToGo, nextRestartNum := scan.restart, 0;
      goal, head, segments, current := [], coder.out, [], [];
      new;
      ClearTables(coder.stats, scan, EncoderClearsDc(scan), EncoderClearsAc(scan));
      coder.Reset();
      first := coder.stats[..];
      ScanOpens(scan, head, first);
    }

    // The next decision of the goal (arith_encode).
    method Code(st: nat, val: bool, ghost rest: seq<Decision>)
      requires Valid() && st < AREA_SIZE && Todo([Decision(st, val)] + rest)
      modifies coder, coder.stats
      ensures Valid() && Todo(rest)
      ensures coder.start == old(coder.start) && coder.closed == old(coder.closed)
    {
      hide ArithEncoder.Encoder.Valid, ValidScan, ValidDc;
      coder.Encode(st, val);
    }

    // Encode the magnitude category: v2 loses a bit for every one coded.
    method CodeCategory(st0: nat, u: nat, m0: nat, ghost rest: seq<Decision>) returns (st: nat, m: nat)
      requires Valid() && 0 < u && st0 + Log2(u) < AREA_SIZE
      requires Todo(Category(st0, u) + rest)
      modifies coder, coder.stats
      ensures Valid() && Todo(rest)
      ensures coder.start == old(coder.start) && coder.closed == old(coder.closed)
      ensures st == st0 + Log2(u) && m == m0 * Pow2(Log2(u))
    {
      hide ArithEncoder.Encoder.Valid, ValidScan, ValidDc;
      st, m := st0, m0;
      var v2 := u;
      while v2 / 2 != 0
        invariant Valid() && v2 > 0 && Todo(Category(st, v2) + rest)
        invariant coder.start == old(coder.start) && coder.closed == old(coder.closed)
        invariant st + Log2(v2) == st0 + Log2(u)
        invariant m * Pow2(Log2(v2)) == m0 * Pow2(Log2(u))
        decreases v2
      {
        v2 := v2 / 2;
        assert [Decision(st, true)] + Category(st + 1, v2) + rest
            == [Decision(st, true)] + (Category(st + 1, v2) + rest);
        Code(st, true, Category(st + 1, v2) + rest);
        MulAssoc(m, 2, Pow2(Log2(v2)));
        m := 2 * m;
        st := st + 1;
      }
      Code(st, false, rest);
    }

    // Encode the magnitude bit pattern below the leading bit m.
    method CodeLowBits(st: nat, u: nat, m0: nat, ghost j0: nat, ghost rest: seq<Decision>)
      requires Valid() && st < AREA_SIZE && m0 == Pow2(j0)
      requires Todo(LowBits(st, u, j0) + rest)
      modifies coder, coder.stats
      ensures Valid() && Todo(rest)
      ensures coder.start == old(coder.start) && coder.closed == old(coder.closed)
    {
      hide ArithEncoder.Encoder.Valid, ValidScan, ValidDc;
      var m := m0;
      ghost var j := j0;
      while m / 2 != 0
        invariant Valid() && m == Pow2(j) && Todo(LowBits(st, u, j) + rest)
        invariant coder.start == old(coder.start) && coder.closed == old(coder.closed)
        decreases j
      {
        m := m / 2;
        j := j - 1;
        assert [Decision(st, Bit(u, j))] + LowBits(st, u, j) + rest
            == [Decision(st, Bit(u, j))] + (LowBits(st, u, j) + rest);
        Code(st, u / m % 2 == 1, LowBits(st, u, j) + rest);
      }
      assert j == 0;
      assert LowBits(st, u, 0) + rest == rest;
    }

    // The magnitude of a DC difference, u = |v| - 1, from the first category bin on.
    // m is the power of two in the category, which decides the conditioning.
    method CodeDcMagnitude(area: nat, st0: nat, u: nat, ghost rest: seq<Decision>) returns (m: nat)
      requires Valid() && u < 0x10000 && area + 64 <= AREA_SIZE && area <= st0 < area + 64
      requires Todo(DcMagnitude(area, st0, u) + rest)
      modifies coder, coder.stats
      ensures Valid() && Todo(rest)
      ensures coder.start == old(coder.start) && coder.closed == old(coder.closed)
      ensures m == if u == 0 then 0 else Pow2(Log2(u))
    {
      hide ArithEncoder.Encoder.Valid, ValidScan, ValidDc, Category, LowBits, DcMagnitude;
      DcMagnitudeBegins(area, st0, u, rest);
      if u == 0 {
        Code(st0, false, rest);
        m := 0;
      } else {
        Pow2Values();
        Log2Below(u, 16);
        ghost var bits := LowBits(area + 20 + Log2(u) + 14, u, Log2(u)) + rest;
        Code(st0, true, Category(area + 20, u) + bits);
        var st;
        st, m := CodeCategory(area + 20, u, 1, bits);
        CodeLowBits(st + 14, u, m, Log2(u), rest);
      }
    }

    // A nonzero difference v: the decision that it is, its sign, its magnitude.
    method CodeDifference(area: nat, st: nat, v: int, ghost rest: seq<Decision>) returns (category: nat)
      requires Valid() && 0 < Abs(v) <= 0x10000 && area + 64 <= AREA_SIZE && area <= st <= area + 16
      requires Todo([Decision(st, true)] + ([Decision(st + 1, v < 0)]
                    + (DcMagnitude(area, st + (if v < 0 then 3 else 2), Abs(v) - 1) + rest)))
      modifies coder, coder.stats
      ensures Valid() && Todo(rest)
      ensures coder.start == old(coder.start) && coder.closed == old(coder.closed)
      ensures category == if Abs(v) == 1 then 0 else Pow2(Log2(Abs(v) - 1))
    {
      hide ArithEncoder.Encoder.Valid, DcMagnitude, Log2, Pow2, ValidScan, ValidDc;
      ghost var tail := DcMagnitude(area, st + (if v < 0 then 3 else 2), Abs(v) - 1) + rest;
      Code(st, true, [Decision(st + 1, v < 0)] + tail);
      if v > 0 {
        Code(st + 1, false, tail);
        category := CodeDcMagnitude(area, st + 2, v - 1, rest);
      } else {
        Code(st + 1, true, tail);
        category := CodeDcMagnitude(area, st + 3, -v - 1, rest);
      }
    }

    // Encode a DC coefficient m of component ci against its prediction (Figure F.4).
    method CodeDc(ci: nat, m: int, ghost rest: seq<Decision>)
      requires Valid() && ci < |scan.dcTbl|
      requires InShort(m)
      requires Todo(DcDecisions(DcArea(scan.dcTbl[ci]), dcContext[ci], m - lastDcVal[ci]) + rest)
      modifies this`lastDcVal, this`dcContext, coder, coder.stats
      ensures Valid() && Todo(rest)
      ensures coder.start == old(coder.start) && coder.closed == old(coder.closed)
      ensures Dc() == AfterDc(scan, old(Dc()), ci, m)
    {
      hide ArithEncoder.Encoder.Valid, DcMagnitude, Log2, Pow2, DcDecisions;
      var tbl := scan.dcTbl[ci];
      var area := DcArea(tbl);
      var st := area + dcContext[ci];
      var v := m - lastDcVal[ci];
      var context := 0;
      DifferenceBegins(area, dcContext[ci], v, rest);
      if v == 0 {
        Code(st, false, rest);
      } else {
        var category := CodeDifference(area, st, v, rest);
        // Establish the conditioning category.
        context := if v > 0 then 4 else 8;
        if category < Pow2(scan.dcL[tbl]) / 2 {
          context := 0;
        } else if category > Pow2(scan.dcU[tbl]) / 2 {
          context := context + 8;
        }
      }
      lastDcVal := lastDcVal[ci := m];
      dcContext := dcContext[ci := context];
    }

    // The magnitude of an AC coefficient, u = |v| - 1, from the first category bin on.
    method CodeAcMagnitude(st0: nat, x: nat, u: nat, ghost rest: seq<Decision>)
      requires Valid() && u < 0x8000 && st0 < AREA_SIZE && x + 28 <= AREA_SIZE
      requires Todo(AcMagnitude(st0, x, u) + rest)
      modifies coder, coder.stats
      ensures Valid() && Todo(rest)
      ensures coder.start == old(coder.start) && coder.closed == old(coder.closed)
    {
      hide ArithEncoder.Encoder.Valid, ValidScan, ValidDc, Category, LowBits, AcMagnitude;
      MagnitudeBegins(st0, x, u, rest);
      if u == 0 {
        Code(st0, false, rest);
      } else if u == 1 {
        Code(st0, true, [Decision(st0, false)] + rest);
        Code(st0, false, rest);
      } else {
        Pow2Values();
        Log2Below(u, 15);
        ghost var bits := LowBits(x + Log2(u / 2) + 14, u, Log2(u)) + rest;
        ghost var tail := Category(x, u / 2) + bits;
        Code(st0, true, [Decision(st0, true)] + tail);
        Code(st0, true, tail);
        var st, m := CodeCategory(x, u / 2, 2, bits);
        assert m == Pow2(Log2(u));
        CodeLowBits(st + 14, u, m, Log2(u), rest);
      }
    }

    // The transformed coefficients of a block.
    ghost function Band(block: array<int>): (t: seq<int>)
      requires block.Length == 64 && ValidScan(scan)
      reads block
      ensures |t| == scan.se + 1
    {
      PointTransform(Zigzag(block[..], scan.order, scan.se), scan.al)
    }

    // The magnitude of coefficient k after the point transform: shift the absolute value.
    function Shrunk(block: array<int>, k: nat, shift: nat): nat
      requires block.Length == 64 && ValidScan(scan) && k <= scan.se
      reads block
    {
      ShiftRight(Abs(block[scan.order[k]]), shift)
    }

    lemma BandAt(block: array<int>, k: nat)
      requires block.Length == 64 && ValidScan(scan) && 0 < k <= scan.se
      ensures Abs(Band(block)[k]) == Shrunk(block, k, scan.al)
      ensures Band(block)[k] != 0 ==> (Band(block)[k] < 0 <==> block[scan.order[k]] < 0)
      ensures InShort(block[scan.order[k]]) ==> Abs(Band(block)[k]) <= 0x8000
    {
      hide ShiftRight;
    }

    // Establish the end-of-block index.
    method FindEob(block: array<int>) returns (ke: nat)
      requires block.Length == 64 && ValidScan(scan)
      ensures ke == LastNonzero(Band(block), scan.se)
    {
      hide ShiftRight;
      ke := scan.se;
      while ke > 0
        invariant ke <= scan.se
        invariant LastNonzero(Band(block), ke) == LastNonzero(Band(block), scan.se)
      {
        BandAt(block, ke);
        if Shrunk(block, ke, scan.al) != 0 {
          break;
        }
        ke := ke - 1;
      }
    }

    // The zero decisions up to the next nonzero coefficient.
    method CodeZeros(block: array<int>, area: nat, kx: nat, k0: nat, ghost ke: nat, ghost rest: seq<Decision>)
      returns (k: nat)
      requires Valid() && block.Length == 64 && block != coder.stats as object
      requires 0 < k0 <= ke <= scan.se && Band(block)[ke] != 0 && area + 256 <= AREA_SIZE
      requires Todo(AcRun(area, kx, Band(block), k0, ke, scan.se) + rest)
      modifies coder, coder.stats
      ensures Valid() && k0 <= k <= ke && Band(block)[k] != 0
      ensures Todo(AcRun(area, kx, Band(block), k, ke, scan.se) + rest)
      ensures coder.start == old(coder.start) && coder.closed == old(coder.closed)
    {
      hide ArithEncoder.Encoder.Valid, AcMagnitude, Pow2, AcBlock, Shrunk, ValidDc;
      ghost var t := Band(block);
      k := k0;
      var st := AcBin(area, k);
      BandAt(block, k);
      while Shrunk(block, k, scan.al) == 0
        invariant Valid() && k0 <= k <= ke && t == Band(block) && st == AcBin(area, k)
        invariant Abs(t[k]) == Shrunk(block, k, scan.al)
        invariant coder.start == old(coder.start) && coder.closed == old(coder.closed)
        invariant Todo(AcRun(area, kx, t, k, ke, scan.se) + rest)
        decreases ke - k
      {
        ghost var run := AcRun(area, kx, t, k + 1, ke, scan.se) + rest;
        assert AcRun(area, kx, t, k, ke, scan.se) + rest == [Decision(st + 1, false)] + run;
        Code(st + 1, false, run);
        st := st + 3;
        k := k + 1;
        BandAt(block, k);
      }
    }

    // One nonzero coefficient: its place, its sign and its magnitude.
    method CodeNonzero(block: array<int>, area: nat, kx: nat, k: nat, ghost ke: nat, ghost rest: seq<Decision>)
      requires Valid() && IsBlock(block) && block != coder.stats as object
      requires 0 < k <= ke <= scan.se && Band(block)[ke] != 0 && area + 256 <= AREA_SIZE
      requires Band(block)[k] != 0
      requires Todo(AcRun(area, kx, Band(block), k, ke, scan.se) + rest)
      modifies coder, coder.stats
      ensures Valid()
      ensures Todo(AcBlock(area, kx, Band(block), k + 1, ke, scan.se) + rest)
      ensures coder.start == old(coder.start) && coder.closed == old(coder.closed)
    {
      hide ArithEncoder.Encoder.Valid, AcMagnitude, Pow2, AcBlock, Shrunk, ValidDc;
      BandAt(block, k);
      var st, x, v := AcBin(area, k), AcX(area, k, kx), Shrunk(block, k, scan.al);
      var negative := block[scan.order[k]] < 0;
      ghost var tail := AcBlock(area, kx, Band(block), k + 1, ke, scan.se) + rest;
      ghost var magnitude := AcMagnitude(st + 2, x, v - 1) + tail;
      assert AcRun(area, kx, Band(block), k, ke, scan.se) + rest
          == [Decision(st + 1, true)] + ([Decision(FIXED_BIN, negative)] + magnitude);
      Code(st + 1, true, [Decision(FIXED_BIN, negative)] + magnitude);
      Code(FIXED_BIN, negative, magnitude);
      CodeAcMagnitude(st + 2, x, v - 1, tail);
    }

    // Encode the AC coefficients from ss on (Figure F.5).
    method CodeAcBand(block: array<int>, ci: nat, ss: nat, ghost rest: seq<Decision>)
      requires Valid() && IsBlock(block) && block != coder.stats as object
      requires ci < |scan.acTbl| && 0 < ss
      requires Todo(AcDecisions(AcArea(scan.acTbl[ci]), scan.acK[scan.acTbl[ci]], Band(block), ss, scan.se) + rest)
      modifies coder, coder.stats
      ensures Valid() && Todo(rest)
      ensures coder.start == old(coder.start) && coder.closed == old(coder.closed)
    {
      hide ArithEncoder.Encoder.Valid, AcRun, Pow2, ValidDc, Band;
      var tbl := scan.acTbl[ci];
      var area, kx := AcArea(tbl), scan.acK[tbl];
      ghost var t, se := Band(block), scan.se;
      var ke := FindEob(block);
      var k := ss;
      while k <= ke
        invariant Valid() && 0 < k && t == Band(block)
        invariant coder.start == old(coder.start) && coder.closed == old(coder.closed)
        invariant Todo(AcBlock(area, kx, t, k, ke, se) + rest)
      {
        ghost var run := AcRun(area, kx, t, k, ke, se) + rest;
        assert AcBlock(area, kx, t, k, ke, se) + rest == [Decision(AcBin(area, k), false)] + run;
        Code(AcBin(area, k), false, run);
        k := CodeZeros(block, area, kx, k, ke, rest);
        CodeNonzero(block, area, kx, k, ke, rest);
        k := k + 1;
      }
      // Encode the end-of-block decision only if the band goes on.
      if k <= scan.se {
        Code(AcBin(area, k), true, rest);
      } else {
        assert AcBlock(area, kx, t, k, ke, se) + rest == rest;
      }
    }

    // Establish the end-of-block index of the previous stage.
    method FindKnown(block: array<int>, ke: nat) returns (kex: nat)
      requires block.Length == 64 && ValidScan(scan) && scan.ah > 0 && ke <= scan.se
      ensures kex == LastKnown(Band(block), ke)
    {
      hide ShiftRight;
      kex := ke;
      while kex > 0
        invariant kex <= ke
        invariant LastKnown(Band(block), kex) == LastKnown(Band(block), ke)
      {
        BandAt(block, kex);
        ShiftRightOnce(Abs(block[scan.order[kex]]), scan.al);
        if Shrunk(block, kex, scan.ah) != 0 {
          break;
        }
        kex := kex - 1;
      }
    }

    // The zero decisions of a refinement, up to the next nonzero coefficient.
    method CodeRefineZeros(block: array<int>, area: nat, k0: nat, ghost ke: nat, ghost kex: nat, ghost rest: seq<Decision>)
      returns (k: nat)
      requires Valid() && block.Length == 64 && block != coder.stats as object
      requires 0 < k0 <= ke <= scan.se && kex <= ke && Band(block)[ke] != 0 && area + 256 <= AREA_SIZE
      requires Todo(RefineRun(area, Band(block), k0, ke, kex, scan.se) + rest)
      modifies coder, coder.stats
      ensures Valid() && k0 <= k <= ke && Band(block)[k] != 0
      ensures Todo(RefineRun(area, Band(block), k, ke, kex, scan.se) + rest)
      ensures coder.start == old(coder.start) && coder.closed == old(coder.closed)
    {
      hide ArithEncoder.Encoder.Valid, RefineBlock, Shrunk, ValidDc;
      ghost var t := Band(block);
      k := k0;
      var st := AcBin(area, k);
      BandAt(block, k);
      while Shrunk(block, k, scan.al) == 0
        invariant Valid() && k0 <= k <= ke && t == Band(block) && st == AcBin(area, k)
        invariant Abs(t[k]) == Shrunk(block, k, scan.al)
        invariant coder.start == old(coder.start) && coder.closed == old(coder.closed)
        invariant Todo(RefineRun(area, t, k, ke, kex, scan.se) + rest)
        decreases ke - k
      {
        ghost var run := RefineRun(area, t, k + 1, ke, kex, scan.se) + rest;
        assert RefineRun(area, t, k, ke, kex, scan.se) + rest == [Decision(st + 1, false)] + run;
        Code(st + 1, false, run);
        st := st + 3;
        k := k + 1;
        BandAt(block, k);
      }
    }

    // One coefficient that is nonzero at the new precision.
    method CodeRefined(block: array<int>, area: nat, k: nat, ghost ke: nat, ghost kex: nat, ghost rest: seq<Decision>)
      requires Valid() && block.Length == 64 && block != coder.stats as object
      requires 0 < k <= ke <= scan.se && kex <= ke && Band(block)[ke] != 0 && area + 256 <= AREA_SIZE
      requires Band(block)[k] != 0
      requires Todo(RefineRun(area, Band(block), k, ke, kex, scan.se) + rest)
      modifies coder, coder.stats
      ensures Valid()
      ensures Todo(RefineBlock(area, Band(block), k + 1, ke, kex, scan.se) + rest)
      ensures coder.start == old(coder.start) && coder.closed == old(coder.closed)
    {
      hide ArithEncoder.Encoder.Valid, RefineBlock, Shrunk, ValidDc;
      BandAt(block, k);
      var st, v := AcBin(area, k), Shrunk(block, k, scan.al);
      ghost var tail := RefineBlock(area, Band(block), k + 1, ke, kex, scan.se) + rest;
      if v > 1 {
        // Previously nonzero.
        assert RefineRun(area, Band(block), k, ke, kex, scan.se) + rest
            == [Decision(st + 2, v % 2 == 1)] + tail;
        Code(st + 2, v % 2 == 1, tail);
      } else {
        // Newly nonzero.
        var negative := block[scan.order[k]] < 0;
        assert RefineRun(area, Band(block), k, ke, kex, scan.se) + rest
            == [Decision(st + 1, true)] + ([Decision(FIXED_BIN, negative)] + tail);
        Code(st + 1, true, [Decision(FIXED_BIN, negative)] + tail);
        Code(FIXED_BIN, negative, tail);
      }
    }

    // Refine the AC coefficients of the band (Figure G.10).
    method CodeAcRefinement(block: array<int>, ci: nat, ghost rest: seq<Decision>)
      requires Valid() && block.Length == 64 && block != coder.stats as object
      requires ci < |scan.acTbl| && 0 < scan.ss && scan.ah > 0
      requires Todo(RefineDecisions(AcArea(scan.acTbl[ci]), Band(block), scan.ss, scan.se) + rest)
      modifies coder, coder.stats
      ensures Valid() && Todo(rest)
      ensures coder.start == old(coder.start) && coder.closed == old(coder.closed)
    {
      hide ArithEncoder.Encoder.Valid, RefineRun, ValidDc, Band;
      var area := AcArea(scan.acTbl[ci]);
      ghost var t, se := Band(block), scan.se;
      var ke := FindEob(block);
      var kex := FindKnown(block, ke);
      var k := scan.ss;
      while k <= ke
        invariant Valid() && 0 < k && t == Band(block)
        invariant coder.start == old(coder.start) && coder.closed == old(coder.closed)
        invariant Todo(RefineBlock(area, t, k, ke, kex, se) + rest)
      {
        ghost var run := RefineRun(area, t, k, ke, kex, se) + rest;
        if k > kex {
          assert RefineBlock(area, t, k, ke, kex, se) + rest == [Decision(AcBin(area, k), false)] + run;
          Code(AcBin(area, k), false, run);
        } else {
          assert RefineBlock(area, t, k, ke, kex, se) + rest == run;
        }
        k := CodeRefineZeros(block, area, k, ke, kex, rest);
        CodeRefined(block, area, k, ke, kex, rest);
        k := k + 1;
      }
      // Encode the end-of-block decision only if the band goes on.
      if k <= scan.se {
        Code(AcBin(area, k), true, rest);
      } else {
        assert RefineBlock(area, t, k, ke, kex, se) + rest == rest;
      }
    }

    // One block of component ci, by the routine the scan selects.
    method EncodeBlock(block: array<int>, ci: nat, ghost rest: seq<Decision>)
      requires Valid() && IsBlock(block) && block != coder.stats as object
      requires ci < |scan.dcTbl| && (ModeOf(scan) == AcFirst || ModeOf(scan) == AcRefine ==> ci == 0)
      requires Todo(BlockDecisions(scan, Dc(), ci, Band(block)) + rest)
      modifies this`lastDcVal, this`dcContext, coder, coder.stats
      ensures Valid() && Todo(rest)
      ensures coder.start == old(coder.start) && coder.closed == old(coder.closed)
      ensures Dc() == AfterBlock(scan, old(Dc()), ci, Band(block))
    {
      hide ArithEncoder.Encoder.Valid, DcDecisions, AcDecisions, RefineDecisions, Floor, DcContext;
      var m := Floor(block[0], scan.al);
      FloorFits(block[0], scan.al);
      ghost var t := Band(block);
      assert t[0] == m;
      match ModeOf(scan)
      case Sequential =>
        ghost var tbl := scan.acTbl[ci];
        ghost var ac := AcDecisions(AcArea(tbl), scan.acK[tbl], t, 1, scan.se) + rest;
        ghost var dc := DcDecisions(DcArea(scan.dcTbl[ci]), dcContext[ci], t[0] - lastDcVal[ci]);
        assert BlockDecisions(scan, Dc(), ci, t) + rest == dc + ac;
        CodeDc(ci, m, ac);
        CodeAcBand(block, ci, 1, rest);
      case DcFirst => CodeDc(ci, m, rest);
      case AcFirst => CodeAcBand(block, ci, scan.ss, rest);
      case DcRefine => Code(FIXED_BIN, m % 2 == 1, rest);
      case AcRefine => CodeAcRefinement(block, ci, rest);
    }

    ghost function Bands(mcu: seq<array<int>>): (ts: seq<seq<int>>)
      requires ValidScan(scan) && AreBlocks(mcu, coder.stats)
      reads mcu
      ensures |ts| == |mcu| && forall i :: 0 <= i < |ts| ==> ts[i] == Band(mcu[i])
    {
      seq(|mcu|, i requires 0 <= i < |mcu| reads mcu => Band(mcu[i]))
    }

    // The blocks of one MCU (the MCU routines, without the restart check at their head).
    method EncodeBlocks(mcu: seq<array<int>>, ghost rest: seq<Decision>)
      requires Valid() && |mcu| == |scan.membership|
      requires AreBlocks(mcu, coder.stats)
      requires Todo(McuDecisions(scan, Dc(), Bands(mcu), 0) + rest)
      modifies this`lastDcVal, this`dcContext, coder, coder.stats
      ensures Valid() && Todo(rest)
      ensures coder.start == old(coder.start) && coder.closed == old(coder.closed)
      ensures Dc() == AfterMcu(scan, old(Dc()), Bands(mcu), 0)
    {
      hide ArithEncoder.Encoder.Valid, BlockDecisions, AfterBlock, Band;
      ghost var ts := Bands(mcu);
      for blkn := 0 to |mcu|
        invariant Valid() && AreBlocks(mcu, coder.stats) && ts == Bands(mcu)
        invariant coder.start == old(coder.start) && coder.closed == old(coder.closed)
        invariant Todo(McuDecisions(scan, Dc(), ts, blkn) + rest)
        invariant AfterMcu(scan, Dc(), ts, blkn) == AfterMcu(scan, old(Dc()), ts, 0)
      {
        var ci := scan.membership[blkn];
        ghost var tail := McuDecisions(scan, AfterBlock(scan, Dc(), ci, ts[blkn]), ts, blkn + 1) + rest;
        assert McuDecisions(scan, Dc(), ts, blkn) + rest
            == BlockDecisions(scan, Dc(), ci, ts[blkn]) + tail;
        EncodeBlock(mcu[blkn], ci, tail);
      }
      assert [] + rest == rest;
    }

    // The open segment, when its bytes are sent.
    ghost function Closing(): Segment
      reads this, coder
    {
      Segment(coder.start, current, coder.sent)
    }

    // Finish the open segment (finish_pass).
    method FinishSegment()
      requires InScan()
      modifies coder
      ensures coder.closed == old(coder.closed) && coder.start == old(coder.start) && coder.history == old(coder.history)
      ensures coder.out == coder.closed + Stuff(coder.sent)
      ensures GoodSegment(scan, Closing()) && Confined(scan, Dc())
      ensures coder.stats[..] == StatsAfter(scan, Closing())
    {
      hide ArithEncoder.Encoder.Valid, OpenScan, IsShortestCode, Run, GoodSegment, StatsAfter, Stuff;
      coder.StatsOfHistory();
      coder.FinishPass();
      CloseSegment(scan, head, first, segments, Closing(), coder.closed, coder.history, Dc());
    }

    // Reset the DC predictions of the components in the scan.
    method ResetDc()
      requires ValidScan(scan) && Confined(scan, Dc())
      modifies this`lastDcVal, this`dcContext
      ensures Dc() == InitialDc()
    {
      if EncoderClearsDc(scan) {
        for ci := 0 to |scan.dcTbl|
          invariant Confined(scan, Dc())
          invariant forall i :: 0 <= i < ci ==> lastDcVal[i] == 0 && dcContext[i] == 0
        {
          lastDcVal := lastDcVal[ci := 0];
          dcContext := dcContext[ci := 0];
        }
      }
    }

    // Emit a restart marker and resynchronize predictions.
    method EmitRestart(num: nat)
      requires InScan() && num == |segments| % 8 && |current| == scan.restart > 0
      modifies this`lastDcVal, this`dcContext, this`segments, this`current, coder, coder.stats
      ensures Valid() && current == []
      ensures OpenScan(scan, head, first, segments, current, coder.closed, coder.start, coder.history, Dc())
      ensures |segments| == old(|segments|) + 1 && Coded() == old(Coded())
    {
      hide ArithEncoder.Encoder.Valid, OpenScan, GoodSegment, Confined, Stuff, StatsAfter, Cleared;
      FinishSegment();
      ghost var g := Closing();
      OpenSegment(scan, head, first, segments, g, coder.closed, coder.history, Dc());
      AllMcusGrows(segments, g);
      coder.EmitByte(0xFF);
      coder.EmitByte(0xD0 + num);
      ClearTables(coder.stats, scan, EncoderClearsDc(scan), EncoderClearsAc(scan));
      ResetDc();
      assert coder.out == coder.closed + Stuff(g.sent) + RestartMarker(|segments|);
      coder.Reset();
      segments, current := segments + [g], [];
    }

    // The restart check at the head of every MCU routine.
    method CheckRestart()
      requires InScan()
      modifies this`lastDcVal, this`dcContext, this`segments, this`current
      modifies this`restartsToGo, this`nextRestartNum, coder, coder.stats
      ensures Within(1) && Coded() == old(Coded())
    {
      hide ArithEncoder.Encoder.Valid, OpenScan, AllMcus;
      if scan.restart != 0 {
        if restartsToGo == 0 {
          EmitRestart(nextRestartNum);
          restartsToGo := scan.restart;
          nextRestartNum := (nextRestartNum + 1) % 8;
        }
        restartsToGo := restartsToGo - 1;
      }
    }

    // Encode one MCU (encode_mcu and its progressive variants).
    method EncodeMcu(mcu: seq<array<int>>)
      requires InScan() && |mcu| == |scan.membership| && AreBlocks(mcu, coder.stats)
      modifies this`lastDcVal, this`dcContext, this`segments, this`current, this`goal
      modifies this`restartsToGo, this`nextRestartNum, coder, coder.stats
      ensures InScan() && Coded() == old(Coded()) + [Bands(mcu)]
    {
      hide ArithEncoder.Encoder.Valid, OpenScan, McuDecisions, AfterMcu, Band, AllMcus;
      ghost var m := Bands(mcu);
      CheckRestart();
      OpenMcu(scan, head, first, segments, current, coder.closed, coder.start, coder.history, Dc(), m);
      goal := coder.history + McuDecisions(scan, Dc(), m, 0);
      assert McuDecisions(scan, Dc(), m, 0) + [] == McuDecisions(scan, Dc(), m, 0);
      EncodeBlocks(mcu, []);
      assert coder.history == goal;
      current := current + [m];
    }

    // Close the last segment.
    method FinishScan(ghost tail: seq<byte>) returns (ghost all: seq<Segment>)
      requires InScan()
      modifies coder
      ensures Recorded(scan, first, all) && AllMcus(all) == Coded()
      ensures coder.out + tail == head + StreamFrom(all, 0, tail)
      ensures coder.stats[..] == StatsAfter(scan, all[|all| - 1])
    {
      hide ArithEncoder.Encoder.Valid, OpenScan, GoodSegment, Stuff, StatsAfter, StreamFrom, Recorded, AllMcus, Confined;
      FinishSegment();
      all := segments + [Closing()];
      CloseScan(scan, head, first, segments, Closing(), coder.closed, coder.history, Dc(), tail);
    }
  }
}
