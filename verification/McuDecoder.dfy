// The MCU decoding routines of libs/jpeg/jdarith.c. On any source they stay inside their
// statistics tables; on a source that holds the decisions of a block they return the block.
module McuDecoder {
  import opened Powers
  import opened ExactCoder
  import opened Bytes
  import opened DecisionModel
  import opened ScanModel
  import ArithDecoder

  class Decoder {
    const coder: ArithDecoder.Decoder
    const scan: Scan
    var lastDcVal: seq<int>   // last DC coefficient for each component
    var dcContext: seq<nat>   // DC conditioning, by component
    var failed: bool          // the source sets ct to -1 on corrupt data
    var restartsToGo: nat     // MCUs before the next marker
    var nextRestartNum: nat   // of the next marker, modulo 8

    ghost var track: Track    // the place in the recorded scan, if the source holds one

    ghost predicate Valid()
      reads this, coder, coder.stats
    {
      && coder.Valid() && coder.stats.Length == AREA_SIZE
      && ValidScan(scan) && ValidDc(Dc()) && nextRestartNum < 8
    }

    ghost function Dc(): DcState
      reads this
    {
      DcState(lastDcVal, dcContext)
    }

    // The source holds the recorded segments, and everything up to the place has been read.
    ghost predicate OnTrack()
      reads this, coder, coder.stats
    {
      Within(0)
    }

    // The restart counter runs ahead of the MCUs read by pending.
    ghost predicate Within(pending: nat)
      reads this, coder, coder.stats
    {
      && Valid() && !failed
      && Tracking(scan, track, coder.Fixed(), coder.history, Dc())
      && nextRestartNum == track.g % 8
      && (scan.restart > 0 ==> restartsToGo + track.done + pending == scan.restart)
    }

    // At the start of a segment.
    ghost predicate Started()
      reads this, coder, coder.stats
    {
      && coder.pos <= |coder.src| && coder.history == [] && coder.start == coder.stats[..]
      && coder.data == Unstuff(coder.src[coder.pos..])
      && coder.mark == Marker(coder.src[coder.pos..])
      && coder.behind == Behind(coder.src[coder.pos..])
      && Dc() == InitialDc() && !failed && restartsToGo == scan.restart
    }

    // The start of a scan (start_pass).
    constructor (coder: ArithDecoder.Decoder, scan: Scan)
      requires coder.stats.Length == AREA_SIZE && ValidScan(scan)
      requires coder.pos <= |coder.src| && coder.unreadMarker == 0
      modifies coder, coder.stats
      ensures Valid() && this.coder == coder && this.scan == scan
      ensures Started() && nextRestartNum == 0
      ensures coder.src == old(coder.src) && coder.pos == old(coder.pos)
      ensures coder.stats[..] == Fresh(scan, old(coder.stats[..]))
    {
      hide ArithDecoder.Decoder.Valid, Unstuff, Marker, Behind, Cleared, ValidScan, Run, InBins;
      this.coder, this.scan := coder, scan;
      lastDcVal, dcContext := [0, 0, 0, 0], [0, 0, 0, 0];
      failed := false;
      restartsToGo, nextRestartNum := scan.restart, 0;
      new;
      ClearTables(coder.stats, scan, DecoderClearsDc(scan), DecoderClearsAc(scan));
      SameTablesCleared(scan);
      coder.Reset();
    }

    // One decision (arith_decode). ahead is a guess at what the source holds.
    method Read(st: nat, ghost ahead: seq<Decision>) returns (val: bool)
      requires Valid() && st < AREA_SIZE
      modifies coder, coder.stats
      ensures Valid()
      ensures coder.Fixed() == old(coder.Fixed())
      ensures old(coder.Ahead(ahead)) && ahead != [] && ahead[0].bin == st ==>
        val == ahead[0].bit && coder.Ahead(ahead[1..])
    {
      hide ArithDecoder.Decoder.Valid, ArithDecoder.Decoder.Ahead, ValidScan, ValidDc;
      val := coder.Decode(st, ahead);
    }

    // The magnitude category, at most 2^14; a longer run of ones is corrupt.
    method ReadCategory(st0: nat, m0: nat, ghost u: nat, ghost rest: seq<Decision>)
      returns (ok: bool, st: nat, m: nat)
      requires Valid() && 1 <= m0 <= 2 && st0 + 15 < AREA_SIZE && u > 0
      modifies coder, coder.stats
      ensures Valid()
      ensures coder.Fixed() == old(coder.Fixed())
      ensures ok ==> st0 <= st <= st0 + 15 - m0 && m <= 0x4000 && m == m0 * Pow2(st - st0)
      ensures old(coder.Ahead(Category(st0, u) + rest)) ==>
        && (ok <==> m0 * Pow2(Log2(u)) < 0x8000)
        && (ok ==> coder.Ahead(rest) && st == st0 + Log2(u))
    {
      hide ArithDecoder.Decoder.Valid, ArithDecoder.Decoder.Ahead, ValidScan, ValidDc;
      hide Pow2, Log2;
      ghost var following := coder.Ahead(Category(st0, u) + rest);
      st, m, ok := st0, m0, true;
      ghost var v2 := u;
      NoBits(m0);
      while true
        invariant Valid() && v2 > 0 && ok
        invariant coder.Fixed() == old(coder.Fixed())
        invariant st0 <= st && m == m0 * Pow2(st - st0) && m < 0x8000
        invariant following ==> coder.Ahead(Category(st, v2) + rest) && st + Log2(v2) == st0 + Log2(u)
        decreases 0x8000 - m
      {
        OneMoreBit(m0, st - st0);
        Log2Step(v2);
        ghost var tail := if v2 == 1 then rest else Category(st + 1, v2 / 2) + rest;
        assert Category(st, v2) + rest == [Decision(st, v2 != 1)] + tail;
        var more := Read(st, Category(st, v2) + rest);
        if !more {
          break;
        }
        m := 2 * m;
        if m == 0x8000 {
          if following {
            CategoryOverflows(m0, st - st0 + 1, Log2(u));
          }
          return false, st, m;
        }
        st := st + 1;
        v2 := if v2 == 1 then 1 else v2 / 2;
      }
    }

    // The bits below the leading bit m0. In the source they are or-ed into v; the bit being
    // set is always clear there, as v is a multiple of 2 * m.
    method ReadLowBits(st: nat, m0: nat, ghost j0: nat, ghost u: nat, ghost rest: seq<Decision>)
      returns (v: nat)
      requires Valid() && st < AREA_SIZE && m0 == Pow2(j0)
      modifies coder, coder.stats
      ensures Valid() && m0 <= v < 2 * m0
      ensures coder.Fixed() == old(coder.Fixed())
      ensures old(coder.Ahead(LowBits(st, u, j0) + rest)) && m0 <= u < 2 * m0 ==> coder.Ahead(rest) && v == u
    {
      hide ArithDecoder.Decoder.Valid, ArithDecoder.Decoder.Ahead, ValidScan, ValidDc, ShiftRight;
      ghost var following := coder.Ahead(LowBits(st, u, j0) + rest) && m0 <= u < 2 * m0;
      var m := m0;
      v := m0;
      ghost var j, w := j0, 1;
      if following {
        ShiftRightIs(u, j0, 1, u - m0);
      }
      while m / 2 != 0
        invariant Valid() && m == Pow2(j) && v == w * m && m0 <= v && v + m <= 2 * m0
        invariant coder.Fixed() == old(coder.Fixed())
        invariant following ==> coder.Ahead(LowBits(st, u, j) + rest) && w == ShiftRight(u, j)
        decreases j
      {
        m := m / 2;
        j := j - 1;
        ShiftRightOnce(u, j);
        MulAssoc(w, 2, m);
        assert LowBits(st, u, j + 1) + rest == [Decision(st, Bit(u, j))] + (LowBits(st, u, j) + rest);
        var bit := Read(st, LowBits(st, u, j + 1) + rest);
        w := 2 * w;
        if bit {
          v := v + m;
          w := w + 1;
        }
      }
      assert j == 0;
      ShiftRightIs(u, 0, u, 0);
      assert LowBits(st, u, 0) + rest == rest;
    }

    // The magnitude of a DC difference, less one.
    method ReadDcMagnitude(area: nat, st0: nat, ghost u: nat, ghost rest: seq<Decision>)
      returns (ok: bool, m: nat, v: nat)
      requires Valid() && area + 64 <= AREA_SIZE && area <= st0 < area + 64
      modifies coder, coder.stats
      ensures Valid()
      ensures coder.Fixed() == old(coder.Fixed())
      ensures ok ==> m <= 0x4000 && v < 0x8000
      ensures old(coder.Ahead(DcMagnitude(area, st0, u) + rest)) ==>
        && (ok <==> u < 0x8000)
        && (ok ==> coder.Ahead(rest) && v == u && m == if u == 0 then 0 else Pow2(Log2(u)))
    {
      hide ArithDecoder.Decoder.Valid, ArithDecoder.Decoder.Ahead, ValidScan, ValidDc;
      hide Category, LowBits, Log2, Pow2, DcMagnitude;
      ghost var all := DcMagnitude(area, st0, u) + rest;
      ghost var bits := if u == 0 then rest else LowBits(area + 20 + Log2(u) + 14, u, Log2(u)) + rest;
      ghost var tail := if u == 0 then rest else Category(area + 20, u) + bits;
      DcMagnitudeBegins(area, st0, u, rest);
      var more := Read(st0, all);
      ok, m, v := true, 0, 0;
      if more {
        var st;
        ghost var u' := if u == 0 then 1 else u;
        ok, st, m := ReadCategory(area + 20, 1, u', bits);
        BelowHalf(u');
        if ok {
          v := ReadLowBits(st + 14, m, st - (area + 20), u', rest);
        }
      }
    }

    // Decode the DC difference of component ci into its prediction (Figure F.19).
    method ReadDc(ci: nat, ghost diff: int, ghost rest: seq<Decision>)
      requires Valid() && !failed && ci < |scan.dcTbl|
      modifies this`lastDcVal, this`dcContext, this`failed, coder, coder.stats
      ensures Valid()
      ensures coder.Fixed() == old(coder.Fixed())
      ensures old(coder.Ahead(DcDecisions(DcArea(scan.dcTbl[ci]), dcContext[ci], diff) + rest)) ==>
        && (failed <==> Abs(diff) > 0x8000)
        && (!failed ==> coder.Ahead(rest) && Dc() == AfterDc(scan, old(Dc()), ci, old(lastDcVal[ci]) + diff))
    {
      hide ArithDecoder.Decoder.Valid, ArithDecoder.Decoder.Ahead, DcMagnitude, Log2, Pow2, DcDecisions;
      var tbl := scan.dcTbl[ci];
      var area := DcArea(tbl);
      var st := area + dcContext[ci];
      ghost var all := DcDecisions(area, dcContext[ci], diff) + rest;
      ghost var u := if diff == 0 then 0 else Abs(diff) - 1;
      ghost var magnitude := DcMagnitude(area, st + (if diff < 0 then 3 else 2), u) + rest;
      ghost var tail := [Decision(st + 1, diff < 0)] + magnitude;
      DifferenceBegins(area, dcContext[ci], diff, rest);
      var nonzero := Read(st, all);
      if !nonzero {
        dcContext := dcContext[ci := 0];
        assert diff == 0 ==> lastDcVal == lastDcVal[ci := lastDcVal[ci] + diff];
      } else {
        var negative := Read(st + 1, tail);
        var ok, m, v := ReadDcMagnitude(area, st + (if negative then 3 else 2), u, rest);
        if !ok {
          failed := true;   // magnitude overflow
          return;
        }
        // Establish the conditioning category.
        if m < Pow2(scan.dcL[tbl]) / 2 {
          dcContext := dcContext[ci := 0];
        } else if m > Pow2(scan.dcU[tbl]) / 2 {
          dcContext := dcContext[ci := if negative then 16 else 12];
        } else {
          dcContext := dcContext[ci := if negative then 8 else 4];
        }
        var value: int := v + 1;
        if negative {
          value := -value;
        }
        lastDcVal := lastDcVal[ci := lastDcVal[ci] + value];
      }
    }

    // The magnitude of an AC coefficient, less one.
    method ReadAcMagnitude(st0: nat, x: nat, ghost u: nat, ghost rest: seq<Decision>)
      returns (ok: bool, v: nat)
      requires Valid() && st0 < AREA_SIZE && x + 28 <= AREA_SIZE
      modifies coder, coder.stats
      ensures Valid()
      ensures coder.Fixed() == old(coder.Fixed())
      ensures ok ==> v < 0x8000
      ensures old(coder.Ahead(AcMagnitude(st0, x, u) + rest)) ==>
        (ok <==> u < 0x8000) && (ok ==> coder.Ahead(rest) && v == u)
    {
      hide ArithDecoder.Decoder.Valid, ArithDecoder.Decoder.Ahead, ValidScan, ValidDc;
      hide Category, LowBits, Log2, Pow2, AcMagnitude;
      ghost var u' := if u < 2 then 2 else u;
      ghost var all := AcMagnitude(st0, x, u) + rest;
      ghost var bits := LowBits(x + Log2(u' / 2) + 14, u', Log2(u')) + rest;
      ghost var tail := Category(x, u' / 2) + bits;
      ghost var more := [Decision(st0, u > 1)] + (if u > 1 then tail else rest);
      MagnitudeBegins(st0, x, u, rest);
      var first := Read(st0, all);
      ok, v := true, 0;
      if first {
        v := 1;
        var second := Read(st0, more);
        if second {
          var st, m;
          ok, st, m := ReadCategory(x, 2, u' / 2, bits);
          BelowHalf(u');
          HalfLog2(u');
          if ok {
            HalfPower(st - x);
            v := ReadLowBits(st + 14, m, st - x + 1, u', rest);
          }
        }
      }
    }

    // The zero decisions up to the next nonzero coefficient; running out of the band is
    // corrupt.
    method ReadZeros(area: nat, kx: nat, k0: nat, ghost t: seq<int>, ghost ke: nat, ghost rest: seq<Decision>)
      returns (ok: bool, k: nat)
      requires Valid() && 0 < k0 <= scan.se && area + 256 <= AREA_SIZE
      requires |t| == scan.se + 1 && ke <= scan.se && (k0 <= ke ==> t[ke] != 0)
      modifies coder, coder.stats
      ensures Valid()
      ensures coder.Fixed() == old(coder.Fixed())
      ensures ok ==> k0 <= k <= scan.se
      ensures k0 <= ke && old(coder.Ahead(AcRun(area, kx, t, k0, ke, scan.se) + rest)) ==>
        && ok && k <= ke && t[k] != 0 && (forall j :: k0 <= j < k ==> t[j] == 0)
        && coder.Ahead(AfterPlace(area, kx, t, k, ke, scan.se) + rest)
    {
      hide ArithDecoder.Decoder.Valid, ArithDecoder.Decoder.Ahead, ValidDc, AcRun, AfterPlace;
      ghost var following := k0 <= ke && coder.Ahead(AcRun(area, kx, t, k0, ke, scan.se) + rest);
      ok, k := true, k0;
      var st := AcBin(area, k);
      while true
        invariant Valid() && ok && k0 <= k <= scan.se && st == AcBin(area, k)
        invariant coder.Fixed() == old(coder.Fixed())
        invariant following ==>
          && k <= ke && (forall j :: k0 <= j < k ==> t[j] == 0)
          && coder.Ahead(AcRun(area, kx, t, k, ke, scan.se) + rest)
        decreases scan.se - k
      {
        ghost var all, tail := [], [];
        if following {
          all := AcRun(area, kx, t, k, ke, scan.se) + rest;
          tail := (if t[k] == 0 then AcRun(area, kx, t, k + 1, ke, scan.se)
                   else AfterPlace(area, kx, t, k, ke, scan.se)) + rest;
          RunBegins(area, kx, t, k, ke, scan.se, rest);
        }
        var nonzero := Read(st + 1, all);
        if nonzero {
          break;
        }
        st := st + 3;
        k := k + 1;
        if k > scan.se {
          ok := false;
          break;
        }
      }
    }

    // The sign and magnitude of a nonzero coefficient, scaled.
    method ReadNonzero(area: nat, kx: nat, k: nat, ghost t: seq<int>, ghost ke: nat, ghost rest: seq<Decision>)
      returns (ok: bool, value: int)
      requires Valid() && 0 < k <= scan.se && area + 256 <= AREA_SIZE
      requires |t| == scan.se + 1 && ke <= scan.se && (k <= ke ==> t[ke] != 0)
      modifies coder, coder.stats
      ensures Valid()
      ensures coder.Fixed() == old(coder.Fixed())
      ensures ok ==> InShort(value)
      ensures
        (k <= ke && t[k] != 0 && Fits(scan, t)
         && old(coder.Ahead(AfterPlace(area, kx, t, k, ke, scan.se) + rest))) ==>
        && ok && value == Scaled(t[k], scan.al)
        && coder.Ahead(AcBlock(area, kx, t, k + 1, ke, scan.se) + rest)
    {
      hide ArithDecoder.Decoder.Valid, ArithDecoder.Decoder.Ahead, ValidDc, AcMagnitude, AcBlock, Pow2;
      ScaledBound(t[k], scan.al);
      var st, x := AcBin(area, k) + 2, AcX(area, k, kx);
      ghost var all, magnitude, tail, u := [], [], [], 0;
      if k <= ke && t[k] != 0 {
        u := Abs(t[k]) - 1;
        tail := AcBlock(area, kx, t, k + 1, ke, scan.se) + rest;
        magnitude := AcMagnitude(st, x, u) + tail;
        all := [Decision(FIXED_BIN, t[k] < 0)] + magnitude;
        assert AfterPlace(area, kx, t, k, ke, scan.se) + rest == all;
      }
      var negative := Read(FIXED_BIN, all);
      var v;
      ok, v := ReadAcMagnitude(st, x, u, tail);
      var w: int := v + 1;
      if negative {
        w := -w;
      }
      value := Short(Scaled(w, scan.al));
    }

    // The end-of-block decision.
    method ReadEnd(area: nat, kx: nat, k: nat, ghost t: seq<int>, ghost ke: nat, ghost rest: seq<Decision>)
      returns (endOfBlock: bool)
      requires Valid() && 0 < k <= scan.se && area + 256 <= AREA_SIZE
      requires |t| == scan.se + 1 && ke <= scan.se && (ke > 0 ==> t[ke] != 0)
      modifies coder, coder.stats
      ensures Valid()
      ensures coder.Fixed() == old(coder.Fixed())
      ensures old(coder.Ahead(AcBlock(area, kx, t, k, ke, scan.se) + rest)) ==>
        && (endOfBlock <==> k > ke)
        && coder.Ahead((if k > ke then [] else AcRun(area, kx, t, k, ke, scan.se)) + rest)
    {
      hide ArithDecoder.Decoder.Valid, ArithDecoder.Decoder.Ahead, ValidDc, AcRun;
      ghost var run := (if k > ke then [] else AcRun(area, kx, t, k, ke, scan.se)) + rest;
      assert AcBlock(area, kx, t, k, ke, scan.se) + rest == [Decision(AcBin(area, k), k > ke)] + run;
      endOfBlock := Read(AcBin(area, k), [Decision(AcBin(area, k), k > ke)] + run);
    }

    // Decode the AC coefficients from first on (Figure F.20) into a block whose band is zero.
    method ReadAcBand(block: array<int>, ci: nat, first: nat, ghost t: seq<int>, ghost rest: seq<Decision>)
      requires Valid() && !failed && block.Length == 64 && block != coder.stats as object
      requires ci < |scan.acTbl| && 0 < first <= scan.se + 1 && |t| == scan.se + 1
      modifies block, this`failed, coder, coder.stats
      ensures Valid()
      ensures coder.Fixed() == old(coder.Fixed())
      ensures
        (Fits(scan, t) && ZeroBand(scan, old(block[..]), first)
         && old(coder.Ahead(AcDecisions(AcArea(scan.acTbl[ci]), scan.acK[scan.acTbl[ci]], t, first, scan.se) + rest))) ==>
        !failed && coder.Ahead(rest) && Restored(scan, old(block[..]), block[..], t, first, scan.se)
    {
      hide ArithDecoder.Decoder.Valid, ArithDecoder.Decoder.Ahead, ValidDc, AcRun, Pow2, LastNonzero;
      hide Restored, Fits, AcBlock, AfterPlace, Leads, InBins, Contains, Zigzag, Scaled;
      var tbl := scan.acTbl[ci];
      var area, kx := AcArea(tbl), scan.acK[tbl];
      ghost var ke, se := LastNonzero(t, scan.se), scan.se;
      ghost var before := block[..];
      ghost var following := Fits(scan, t) && ZeroBand(scan, before, first)
        && coder.Ahead(AcBlock(area, kx, t, first, ke, se) + rest);
      BandEnds(area, kx, t, ke, se);
      RestoredNone(scan, before, t, first);
      var k := first;
      while k <= scan.se
        invariant Valid() && !failed && 0 < first <= k <= scan.se + 1
        invariant coder.Fixed() == old(coder.Fixed())
        invariant following ==>
          && coder.Ahead(AcBlock(area, kx, t, k, ke, se) + rest)
          && Restored(scan, before, block[..], t, first, k - 1)
      {
        var endOfBlock := ReadEnd(area, kx, k, t, ke, rest);
        if endOfBlock {
          if following {
            RestoredZeros(scan, before, block[..], t, first, k - 1, se);
            assert [] + rest == rest;
          }
          break;
        }
        ghost var from, mid := k, block[..];
        var ok;
        ok, k := ReadZeros(area, kx, k, t, ke, rest);
        if !ok {
          failed := true;   // spectral overflow
          return;
        }
        var value;
        ok, value := ReadNonzero(area, kx, k, t, ke, rest);
        if !ok {
          failed := true;   // magnitude overflow
          return;
        }
        block[scan.order[k]] := value;
        if following {
          RestoredNext(scan, before, mid, block[..], t, first, from, k);
        }
        k := k + 1;
      }
      assert [] + rest == rest;
    }

    // The inner loop of a refinement: find and refine the next coefficient that is nonzero
    // at the new precision; running out of the band is corrupt.
    method RefineNext(block: array<int>, area: nat, k0: nat, ghost t: seq<int>, ghost ke: nat, ghost kex: nat,
                      ghost rest: seq<Decision>)
      returns (ok: bool, k: nat)
      requires Valid() && block.Length == 64 && block != coder.stats as object
      requires 0 < k0 <= scan.se && area + 256 <= AREA_SIZE
      requires |t| == scan.se + 1 && kex <= ke <= scan.se && (k0 <= ke ==> t[ke] != 0)
      modifies block, coder, coder.stats
      ensures Valid()
      ensures coder.Fixed() == old(coder.Fixed())
      ensures ok ==> k0 <= k <= scan.se && block[..] == old(block[..])[scan.order[k] := block[scan.order[k]]]
      ensures
        (k0 <= ke && Fits(scan, t)
         && KnownFrom(scan, old(block[..]), t, k0)
         && old(coder.Ahead(RefineRun(area, t, k0, ke, kex, scan.se) + rest))) ==>
        && ok && k <= ke && (forall j :: k0 <= j < k ==> t[j] == 0)
        && block[scan.order[k]] == Scaled(t[k], scan.al)
        && coder.Ahead(RefineBlock(area, t, k + 1, ke, kex, scan.se) + rest)
    {
      hide ArithDecoder.Decoder.Valid, ArithDecoder.Decoder.Ahead, ValidDc, RefineBlock, RefineRun, Scaled, Coarser;
      hide Corrected, Newborn;
      ghost var following := k0 <= ke && Fits(scan, t)
        && KnownFrom(scan, block[..], t, k0)
        && coder.Ahead(RefineRun(area, t, k0, ke, kex, scan.se) + rest);
      ok, k := true, k0;
      var st := AcBin(area, k);
      while true
        invariant Valid() && ok && k0 <= k <= scan.se && st == AcBin(area, k)
        invariant coder.Fixed() == old(coder.Fixed())
        invariant block[..] == old(block[..])
        invariant following ==>
          && k <= ke && (forall j :: k0 <= j < k ==> t[j] == 0)
          && coder.Ahead(RefineRun(area, t, k, ke, kex, scan.se) + rest)
        decreases scan.se - k
      {
        ghost var all, tail, more := [], [], [];
        if following {
          RefinedValue(t[k], scan.al);
          all := RefineRun(area, t, k, ke, kex, scan.se) + rest;
          more := if t[k] == 0 then RefineRun(area, t, k + 1, ke, kex, scan.se) + rest
                  else RefineBlock(area, t, k + 1, ke, kex, scan.se) + rest;
          tail := if Abs(t[k]) == 1 then [Decision(FIXED_BIN, t[k] < 0)] + more else more;
          RefineRunBegins(area, t, k, ke, kex, scan.se, rest);
        }
        var coef := block[scan.order[k]];
        if coef != 0 {
          // Previously nonzero.
          var bit := Read(st + 2, all);
          block[scan.order[k]] := Corrected(coef, bit, scan.al);
          break;
        }
        var nonzero := Read(st + 1, all);
        if nonzero {
          // Newly nonzero.
          var negative := Read(FIXED_BIN, tail);
          block[scan.order[k]] := Newborn(negative, scan.al);
          break;
        }
        st := st + 3;
        k := k + 1;
        if k > scan.se {
          ok := false;
          break;
        }
      }
    }

    // Establish the end-of-block index of the previous stage.
    method FindKnown(block: array<int>) returns (kex: nat)
      requires block.Length == 64 && ValidScan(scan)
      ensures kex == LastNonzero(Zigzag(block[..], scan.order, scan.se), scan.se)
    {
      ghost var zz := Zigzag(block[..], scan.order, scan.se);
      kex := scan.se;
      while kex > 0
        invariant kex <= scan.se
        invariant LastNonzero(zz, kex) == LastNonzero(zz, scan.se)
      {
        if block[scan.order[kex]] != 0 {
          break;
        }
        kex := kex - 1;
      }
    }

    // The end-of-block decision, needed only past the end of the previous stage.
    method RefineEnd(area: nat, k: nat, kex: nat, ghost t: seq<int>, ghost ke: nat, ghost known: nat,
                     ghost rest: seq<Decision>)
      returns (endOfBlock: bool)
      requires Valid() && 0 < k <= scan.se && area + 256 <= AREA_SIZE
      requires |t| == scan.se + 1 && known <= ke <= scan.se && (ke > 0 ==> t[ke] != 0)
      modifies coder, coder.stats
      ensures Valid()
      ensures coder.Fixed() == old(coder.Fixed())
      ensures
        ((k > kex <==> k > known) && old(coder.Ahead(RefineBlock(area, t, k, ke, known, scan.se) + rest))) ==>
        && (endOfBlock <==> k > ke)
        && coder.Ahead((if k > ke then [] else RefineRun(area, t, k, ke, known, scan.se)) + rest)
    {
      hide ArithDecoder.Decoder.Valid, ArithDecoder.Decoder.Ahead, ValidDc, RefineRun;
      ghost var run := (if k > ke then [] else RefineRun(area, t, k, ke, known, scan.se)) + rest;
      assert RefineBlock(area, t, k, ke, known, scan.se) + rest
          == if k > known then [Decision(AcBin(area, k), k > ke)] + run else run;
      endOfBlock := false;
      if k > kex {
        endOfBlock := Read(AcBin(area, k), [Decision(AcBin(area, k), k > ke)] + run);
      }
    }

    // Refine the AC coefficients of the band (Figure G.10), starting from what the scan
    // before left.
    method ReadAcRefinement(block: array<int>, ci: nat, ghost t: seq<int>, ghost rest: seq<Decision>)
      requires Valid() && !failed && block.Length == 64 && block != coder.stats as object
      requires ci < |scan.acTbl| && 0 < scan.ss <= scan.se && |t| == scan.se + 1
      modifies block, this`failed, coder, coder.stats
      ensures Valid()
      ensures coder.Fixed() == old(coder.Fixed())
      ensures
        (Fits(scan, t) && KnownFrom(scan, old(block[..]), t, scan.ss)
         && old(coder.Ahead(RefineDecisions(AcArea(scan.acTbl[ci]), t, scan.ss, scan.se) + rest))) ==>
        !failed && coder.Ahead(rest) && Restored(scan, old(block[..]), block[..], t, scan.ss, scan.se)
    {
      hide ArithDecoder.Decoder.Valid, ArithDecoder.Decoder.Ahead, ValidDc, RefineRun, Pow2, LastNonzero, LastKnown;
      hide Restored, Fits, Scaled, Coarser, KnownFrom, Leads, InBins, Contains, Zigzag, RefineBlock;
      var area := AcArea(scan.acTbl[ci]);
      ghost var before, se, ke := block[..], scan.se, LastNonzero(t, scan.se);
      ghost var known := LastKnown(t, ke);
      ghost var following := Fits(scan, t) && KnownFrom(scan, before, t, scan.ss)
        && coder.Ahead(RefineBlock(area, t, scan.ss, ke, known, se) + rest);
      RestoredNone(scan, before, t, scan.ss);
      var kex := FindKnown(block);
      if following {
        SameKnown(scan, before, t, kex);
      }
      var k := scan.ss;
      var done := false;
      while !done && k <= scan.se
        invariant Valid() && !failed && scan.ss <= k <= scan.se + 1
        invariant coder.Fixed() == old(coder.Fixed())
        invariant following ==> Refining(block[..], before, t, k, ke, known, rest, area, done)
        decreases !done, scan.se - k
      {
        done, k := RefineStep(block, area, kex, k, t, ke, known, rest, before, following);
        if failed {
          return;
        }
      }
      if following {
        BandRefined(block[..], before, t, k, ke, known, rest, area, done);
      }
    }

    // Up to coefficient k the block is refined and the rest is as before, or all is done.
    ghost predicate Refining(now: seq<int>, before: seq<int>, t: seq<int>, k: nat, ke: nat, known: nat, rest: seq<Decision>,
                             area: nat, done: bool)
      requires ValidScan(scan) && |t| == scan.se + 1 && |now| == |before| == 64
      reads this, coder
    {
      && 0 < scan.ss <= k <= scan.se + 1 && known <= ke <= scan.se && (ke > 0 ==> t[ke] != 0)
      && if done then coder.Ahead(rest) && Restored(scan, before, now, t, scan.ss, scan.se)
         else
           && KnownFrom(scan, now, t, k) && Restored(scan, before, now, t, scan.ss, k - 1)
           && coder.Ahead(RefineBlock(area, t, k, ke, known, scan.se) + rest)
    }

    lemma BandRefined(now: seq<int>, before: seq<int>, t: seq<int>, k: nat, ke: nat, known: nat, rest: seq<Decision>,
                      area: nat, done: bool)
      requires ValidScan(scan) && |t| == scan.se + 1 && |now| == |before| == 64
      requires Refining(now, before, t, k, ke, known, rest, area, done) && (done || k == scan.se + 1)
      ensures coder.Ahead(rest) && Restored(scan, before, now, t, scan.ss, scan.se)
    {
      hide ArithDecoder.Decoder.Ahead, Restored, KnownFrom, RefineBlock;
      if !done {
        RefinementEnds(area, t, ke, known, scan.se);
        assert [] + rest == rest;
      }
    }

    // The end of the block, or one coefficient.
    method RefineStep(block: array<int>, area: nat, kex: nat, k0: nat, ghost t: seq<int>, ghost ke: nat, ghost known: nat,
                      ghost rest: seq<Decision>, ghost before: seq<int>, ghost following: bool)
      returns (done: bool, k: nat)
      requires Valid() && !failed && block.Length == 64 && block != coder.stats as object && |before| == 64
      requires 0 < scan.ss <= k0 <= scan.se && area + 256 <= AREA_SIZE && |t| == scan.se + 1
      requires known <= ke == LastNonzero(t, scan.se)
      requires following ==>
        && Fits(scan, t) && KnownFrom(scan, before, t, scan.ss) && (k0 > kex <==> k0 > known)
        && Refining(block[..], before, t, k0, ke, known, rest, area, false)
      modifies block, this`failed, coder, coder.stats
      ensures Valid() && coder.Fixed() == old(coder.Fixed())
      ensures scan.ss <= k <= scan.se + 1 && (!done && !failed ==> k > k0)
      ensures following ==> !failed && Refining(block[..], before, t, k, ke, known, rest, area, done)
    {
      hide ArithDecoder.Decoder.Valid, ArithDecoder.Decoder.Ahead, ValidDc, RefineRun, Pow2, RefineBlock;
      hide Restored, Fits, Scaled, Coarser, KnownFrom, Leads, InBins, Contains, Zigzag;
      k := k0;
      done := RefineEnd(area, k, kex, t, ke, known, rest);
      if done {
        if following {
          RefinedEnd(scan, before, block[..], t, scan.ss, k);
          assert [] + rest == rest;
        }
        return;
      }
      ghost var mid := block[..];
      var ok;
      ok, k := RefineNext(block, area, k, t, ke, known, rest);
      if !ok {
        failed := true;   // spectral overflow
        k := k0;
        return;
      }
      if following {
        RefinedNext(scan, before, mid, block[..], t, scan.ss, k0, k);
      }
      k := k + 1;
    }

    // The DC coefficient of a sequential block or a first DC scan.
    method DecodeDc(block: array<int>, ci: nat, ghost t: seq<int>, ghost rest: seq<Decision>)
      requires Valid() && !failed && block.Length == 64 && block != coder.stats as object
      requires ci < |scan.dcTbl| && |t| == scan.se + 1
      modifies block, this`lastDcVal, this`dcContext, this`failed, coder, coder.stats
      ensures Valid()
      ensures coder.Fixed() == old(coder.Fixed())
      ensures
        (Fits(scan, t)
         && old(coder.Ahead(DcDecisions(DcArea(scan.dcTbl[ci]), dcContext[ci], t[0] - lastDcVal[ci]) + rest))) ==>
        && (failed <==> Abs(t[0] - old(lastDcVal[ci])) > 0x8000)
        && (!failed ==>
            && coder.Ahead(rest) && Dc() == AfterDc(scan, old(Dc()), ci, t[0])
            && block[..] == old(block[..])[0 := Scaled(t[0], scan.al)])
    {
      hide ArithDecoder.Decoder.Valid, ArithDecoder.Decoder.Ahead, DcDecisions, DcContext, Scaled;
      ReadDc(ci, t[0] - lastDcVal[ci], rest);
      if failed {
        return;
      }
      block[0] := Short(Scaled(lastDcVal[ci], scan.al));
    }

    // One bit of a DC coefficient.
    method RefineDc(block: array<int>, ghost t: seq<int>, ghost rest: seq<Decision>)
      requires Valid() && block.Length == 64 && block != coder.stats as object && |t| == scan.se + 1
      modifies block, coder, coder.stats
      ensures Valid()
      ensures coder.Fixed() == old(coder.Fixed())
      ensures
        old(coder.Ahead([Decision(FIXED_BIN, t[0] % 2 == 1)] + rest)) ==>
        && coder.Ahead(rest)
        && block[..] == old(block[..])[0 := if t[0] % 2 == 1 then WithBit(old(block[0]), scan.al) else old(block[0])]
    {
      hide ArithDecoder.Decoder.Valid, ArithDecoder.Decoder.Ahead, WithBit;
      var bit := Read(FIXED_BIN, [Decision(FIXED_BIN, t[0] % 2 == 1)] + rest);
      if bit {
        block[0] := WithBit(block[0], scan.al);
      }
    }

    // One block of component ci, by the routine the scan selects.
    method DecodeBlock(block: array<int>, ci: nat, ghost t: seq<int>, ghost rest: seq<Decision>)
      requires Valid() && !failed && block.Length == 64 && block != coder.stats as object
      requires ci < |scan.dcTbl| && (ModeOf(scan) == AcFirst || ModeOf(scan) == AcRefine ==> ci == 0)
      requires |t| == scan.se + 1
      modifies block, this`lastDcVal, this`dcContext, this`failed, coder, coder.stats
      ensures Valid()
      ensures coder.Fixed() == old(coder.Fixed())
      ensures
        (Fits(scan, t) && Ready(scan, old(block[..]), t)
         && old(coder.Ahead(BlockDecisions(scan, Dc(), ci, t) + rest))) ==>
        && (failed <==> !DiffFits(scan, old(Dc()), ci, t))
        && (!failed ==>
            && coder.Ahead(rest) && Dc() == AfterBlock(scan, old(Dc()), ci, t)
            && Received(scan, old(block[..]), block[..], t))
    {
      hide ArithDecoder.Decoder.Valid, ArithDecoder.Decoder.Ahead, DcDecisions, AcDecisions, RefineDecisions;
      hide Fits, Scaled, Restored, KnownFrom, AfterDc, Floor, WithBit;
      ghost var before := block[..];
      match ModeOf(scan)
      case Sequential =>
        ghost var tbl := scan.acTbl[ci];
        ghost var ac := AcDecisions(AcArea(tbl), scan.acK[tbl], t, 1, scan.se) + rest;
        ghost var dc := DcDecisions(DcArea(scan.dcTbl[ci]), dcContext[ci], t[0] - lastDcVal[ci]);
        assert BlockDecisions(scan, Dc(), ci, t) + rest == dc + ac;
        DecodeDc(block, ci, t, ac);
        if failed {
          return;
        }
        ghost var mid := block[..];
        ReadAcBand(block, ci, 1, t, rest);
        BlockRestored(scan, before, mid, block[..], t);
      case DcFirst =>
        DecodeDc(block, ci, t, rest);
        DcRestored(scan, before, block[..], t);
      case AcFirst => ReadAcBand(block, ci, scan.ss, t, rest);
      case DcRefine => RefineDc(block, t, rest);
      case AcRefine => ReadAcRefinement(block, ci, t, rest);
    }

    // The blocks of one MCU (the MCU routines, without the restart check at their head).
    method DecodeBlocks(mcu: seq<array<int>>, ghost ts: seq<seq<int>>, ghost rest: seq<Decision>)
      requires Valid() && !failed && Separate(mcu, coder.stats) && |mcu| == |scan.membership|
      requires ValidMcu(scan, Dc(), ts)
      modifies mcu, this`lastDcVal, this`dcContext, this`failed, coder, coder.stats
      ensures Valid()
      ensures coder.Fixed() == old(coder.Fixed())
      ensures
        (McuReady(scan, old(Contents(mcu)), ts)
         && old(coder.Ahead(McuDecisions(scan, Dc(), ts, 0) + rest))) ==>
        && (failed <==> !DiffsFit(scan, old(Dc()), ts, 0))
        && (!failed ==>
            && coder.Ahead(rest) && Dc() == AfterMcu(scan, old(Dc()), ts, 0)
            && McuReceived(scan, old(Contents(mcu)), Contents(mcu), ts))
    {
      hide ArithDecoder.Decoder.Valid, ArithDecoder.Decoder.Ahead, BlockDecisions, AfterBlock, DiffFits;
      hide Fits, Ready, Received, Leads, InBins, Contains;
      hide McuDecisions, AfterMcu, DiffsFit;
      ghost var dc := Dc();
      ghost var following := McuReady(scan, Contents(mcu), ts) && coder.Ahead(McuDecisions(scan, dc, ts, 0) + rest);
      for blkn := 0 to |mcu|
        invariant Valid() && !failed
        invariant coder.Fixed() == old(coder.Fixed())
        invariant forall i :: blkn <= i < |mcu| ==> mcu[i][..] == old(mcu[i][..])
        invariant following ==>
          && coder.Ahead(McuDecisions(scan, Dc(), ts, blkn) + rest)
          && AfterMcu(scan, Dc(), ts, blkn) == AfterMcu(scan, dc, ts, 0)
          && DiffsFit(scan, Dc(), ts, blkn) == DiffsFit(scan, dc, ts, 0)
        invariant following ==>
          forall i :: 0 <= i < blkn ==> Received(scan, old(mcu[i][..]), mcu[i][..], ts[i])
      {
        var ci := scan.membership[blkn];
        ghost var tail := McuDecisions(scan, AfterBlock(scan, Dc(), ci, ts[blkn]), ts, blkn + 1) + rest;
        NextBlock(scan, Dc(), ts, blkn, rest);
        DecodeBlock(mcu[blkn], ci, ts[blkn], tail);
        if failed {
          return;
        }
      }
      LastBlock(scan, Dc(), ts, rest);
    }

    // A segment has been started at the place t.
    ghost method Enter(t: Track)
      requires Valid() && Started() && nextRestartNum == t.g % 8
      requires Recorded(scan, t.first, t.segments) && StartsWithMarker(t.tail) && t.g < |t.segments| && t.done == 0
      requires coder.src[coder.pos..] == StreamFrom(t.segments, t.g, t.tail)
      requires coder.start == t.segments[t.g].start
      modifies this`track, coder`goal
      ensures Valid() && OnTrack() && track == t && Remaining(track) == McusAhead(t.segments, t.g)
    {
      hide ArithDecoder.Decoder.Valid, Unstuff, Marker, Behind, StreamFrom, McusFrom, Recorded, Run, Follows;
      hide Leads, Tracking, Remaining, ValidScan;
      SegmentAhead(scan, t);
      coder.Expect(SegmentDecisions(scan, t.segments[t.g]));
      TrackStarts(scan, t, coder.Fixed());
      track := t;
    }

    // The scan has been started where the source holds the recorded segments.
    ghost method Follow(segments: seq<Segment>, tail: seq<byte>)
      requires Valid() && Started() && nextRestartNum == 0
      requires Recorded(scan, coder.start, segments) && StartsWithMarker(tail)
      requires coder.src[coder.pos..] == StreamFrom(segments, 0, tail)
      modifies this`track, coder`goal
      ensures Valid() && OnTrack() && track.segments == segments && Remaining(track) == AllMcus(segments)
      ensures scan.restart > 0 ==> restartsToGo == scan.restart
    {
      hide ArithDecoder.Decoder.Valid, Unstuff, Marker, Behind, StreamFrom, McusFrom, Run, Follows, OnTrack;
      hide GoodSegment, Chain, McusAhead, Remaining, ValidScan, ValidDc;
      RecordedAt(scan, coder.start, segments, 0);
      AllMcusAhead(segments, 0);
      Enter(Track(coder.start, segments, tail, 0, 0));
    }

    // Reset the DC predictions of the components in the scan.
    method ResetDc()
      requires ValidScan(scan) && ValidDc(Dc())
      modifies this`lastDcVal, this`dcContext
      ensures ValidDc(Dc())
      ensures old(Confined(scan, Dc())) ==> Dc() == InitialDc()
    {
      ghost var confined := Confined(scan, Dc());
      SameTablesCleared(scan);
      if DecoderClearsDc(scan) {
        for ci := 0 to |scan.dcTbl|
          invariant ValidDc(Dc()) && (confined ==> Confined(scan, Dc()))
          invariant forall i :: 0 <= i < ci ==> lastDcVal[i] == 0 && dcContext[i] == 0
        {
          lastDcVal := lastDcVal[ci := 0];
          dcContext := dcContext[ci := 0];
        }
      }
    }

    // Re-initialize statistics areas, DC predictions and the coder.
    method Restart()
      requires ValidScan(scan) && ValidDc(Dc()) && nextRestartNum < 8
      requires coder.stats.Length == AREA_SIZE && coder.pos <= |coder.src| && coder.unreadMarker == 0
      modifies this`lastDcVal, this`dcContext, this`failed, this`restartsToGo, coder, coder.stats
      ensures Valid() && coder.stats[..] == Fresh(scan, old(coder.stats[..]))
      ensures old(Confined(scan, Dc())) ==> Started()
      ensures restartsToGo == scan.restart
      ensures coder.src == old(coder.src) && coder.pos == old(coder.pos)
    {
      hide ArithDecoder.Decoder.Valid, Cleared, Confined, Unstuff, Marker, Behind, ValidScan;
      ClearTables(coder.stats, scan, DecoderClearsDc(scan), DecoderClearsAc(scan));
      SameTablesCleared(scan);
      ResetDc();
      coder.Reset();
      failed, restartsToGo := false, scan.restart;
    }

    // Start the next segment behind its restart marker. False when another marker is
    // found: the recovery from that (resync_to_restart) is not modelled.
    method ProcessRestart() returns (ok: bool)
      requires Valid()
      modifies this`lastDcVal, this`dcContext, this`failed, this`restartsToGo, this`nextRestartNum
      modifies this`track, coder, coder.stats
      ensures ok ==> Valid() && restartsToGo == scan.restart
      ensures (old(OnTrack()) && AtRestart(old(track))) ==>
        && ok && OnTrack() && Remaining(track) == Remaining(old(track)) && Dc() == InitialDc()
        && track.segments == old(track).segments
    {
      ghost var t := track;
      ghost var following := OnTrack() && AtRestart(t);
      hide ArithDecoder.Decoder.Valid, ArithDecoder.Decoder.Fed, ArithDecoder.Decoder.Ahead, Remaining, Tracking;
      hide Unstuff, Marker, Behind, StreamFrom, McusFrom, Recorded, Run, Follows, Confined, ValidScan, Fresh, Cleared;
      if following {
        TrackRestarts(scan, track, coder.Fixed(), coder.history, Dc());
        coder.StatsOfHistory();
      }
      coder.SourceIsFed();
      ok := coder.ReadRestartMarker(nextRestartNum);
      if !ok {
        return;
      }
      NextNumber(t.g);
      nextRestartNum := (nextRestartNum + 1) % 8;
      Restart();
      if following {
        Enter(t.(g := t.g + 1, done := 0));
      }
    }

    // The restart check at the head of every MCU routine.
    method CheckRestart() returns (ok: bool)
      requires Valid()
      modifies this`lastDcVal, this`dcContext, this`failed, this`restartsToGo, this`nextRestartNum
      modifies this`track, coder, coder.stats
      ensures ok ==> Valid()
      ensures (old(OnTrack()) && Remaining(old(track)) != []) ==>
        && ok && Within(1) && Remaining(track) == Remaining(old(track)) && track.segments == old(track).segments
        && track.g < |track.segments| && track.done < |track.segments[track.g].mcus|
        && Dc() == Predicted(scan, old(restartsToGo), old(Dc()))
        && restartsToGo == NextToGo(scan, old(restartsToGo))
    {
      hide ArithDecoder.Decoder.Valid, Leads, McusFrom, Recorded, Remaining, StreamFrom, StartsWithMarker;
      hide GoodSegment, Confined, ValidScan, ValidDc;
      ghost var following := OnTrack() && Remaining(track) != [];
      if following {
        MoreToRead(scan, track, restartsToGo);
      }
      ok := true;
      if scan.restart != 0 {
        if restartsToGo == 0 {
          ok := ProcessRestart();
          if !ok {
            return;
          }
          if following {
            MoreToRead(scan, track, restartsToGo);
          }
        }
        restartsToGo := restartsToGo - 1;
      }
    }

    // After the last MCU the statistics are those the encoder ended with.
    lemma AtEnd()
      requires OnTrack() && Remaining(track) == []
      ensures track.segments != [] && GoodSegment(scan, track.segments[|track.segments| - 1])
      ensures coder.stats[..] == StatsAfter(scan, track.segments[|track.segments| - 1])
    {
      hide ArithDecoder.Decoder.Valid, Tracking, Remaining, GoodSegment;
      coder.StatsOfHistory();
      TrackEnds(scan, track, coder.Fixed(), coder.history, Dc());
    }

    // Decode one MCU (decode_mcu and its progressive variants).
    method DecodeMcu(mcu: seq<array<int>>, ghost ts: Mcu) returns (ok: bool)
      requires Valid() && Separate(mcu, coder.stats) && |mcu| == |scan.membership| && ValidMcu(scan, InitialDc(), ts)
      modifies mcu, this`lastDcVal, this`dcContext, this`failed, this`restartsToGo, this`nextRestartNum
      modifies this`track, coder, coder.stats
      ensures ok ==> Valid()
      ensures
        (old(OnTrack()) && Remaining(old(track)) != [] && Remaining(old(track))[0] == ts
         && McuReady(scan, old(Contents(mcu)), ts)) ==>
        var dc := Predicted(scan, old(restartsToGo), old(Dc()));
        && ok && (failed <==> !McuFits(scan, dc, ts))
        && (!failed ==>
            && OnTrack() && Remaining(track) == Remaining(old(track))[1..] && track.segments == old(track).segments
            && McuLeadsTo(scan, dc, ts, Dc()) && restartsToGo == NextToGo(scan, old(restartsToGo))
            && McuReceived(scan, old(Contents(mcu)), Contents(mcu), ts))
    {
      hide ArithDecoder.Decoder.Valid, Leads, McusFrom, McuDecisions, AfterMcu, Recorded, Remaining, StreamFrom;
      hide DiffsFit, McuReady, McuReceived, Tracking;
      ghost var following := OnTrack() && Remaining(track) != [] && Remaining(track)[0] == ts
        && McuReady(scan, Contents(mcu), ts);
      ok := CheckRestart();
      if !ok || failed {
        return;   // if error do nothing
      }
      ghost var dc, fixture, before, rest := Dc(), coder.Fixed(), coder.history, [];
      if following {
        TrackNext(scan, track, fixture, before, dc);
        RemainingNext(track);
        rest := McusFrom(scan, AfterMcu(scan, dc, ts, 0), track.segments[track.g].mcus, track.done + 1);
      }
      DecodeBlocks(mcu, ts, rest);
      if following && !failed {
        TrackAdvances(scan, track, fixture, before, coder.history, dc);
        track := track.(done := track.done + 1);
      }
    }
  }

  lemma NextNumber(g: nat)
    ensures (g % 8 + 1) % 8 == (g + 1) % 8
  {
  }

  lemma HalfLog2(u: nat)
    requires u >= 2
    ensures Log2(u) == 1 + Log2(u / 2) && Pow2(Log2(u)) == 2 * Pow2(Log2(u / 2))
  {
  }

  lemma HalfPower(e: nat)
    ensures Pow2(e + 1) == 2 * Pow2(e)
  {
  }

  // The category overflows exactly for magnitudes that do not fit.
  lemma BelowHalf(u: nat)
    requires u > 0
    ensures Pow2(Log2(u)) <= u < 2 * Pow2(Log2(u))
    ensures Pow2(Log2(u)) < 0x8000 <==> u < 0x8000
  {
    Log2Bounds(u);
    if Pow2(Log2(u)) < 0x8000 {
      SmallPower(Log2(u));
    }
  }

  lemma NoBits(m0: nat)
    ensures m0 * Pow2(0) == m0
  {
  }

  // A category that has not overflown has at most 15 - m0 bits, and one more doubles it.
  lemma OneMoreBit(m0: nat, e: nat)
    requires 1 <= m0 <= 2 && m0 * Pow2(e) < 0x8000
    ensures e <= 15 - m0 && m0 * Pow2(e) <= 0x4000
    ensures m0 * Pow2(e + 1) == 2 * (m0 * Pow2(e))
  {
    SmallPower(if m0 == 1 then e else e + 1);
  }

  lemma Log2Step(u: nat)
    requires u > 0
    ensures Log2(u) == if u == 1 then 0 else 1 + Log2(u / 2)
  {
  }

  lemma CategoryOverflows(m0: nat, e: nat, f: nat)
    requires 1 <= m0 <= 2 && e <= f && m0 * Pow2(e) >= 0x8000
    ensures m0 * Pow2(f) >= 0x8000
  {
    Pow2Monotonic(e, f);
  }

  lemma SmallPower(e: nat)
    requires Pow2(e) < 0x8000
    ensures e <= 14 && Pow2(e) <= 0x4000
  {
    Pow2Values();
    if e >= 15 {
      Pow2Monotonic(15, e);
    } else {
      Pow2Monotonic(e, 14);
    }
  }
}
