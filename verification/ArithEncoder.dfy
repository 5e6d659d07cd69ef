// The arithmetic encoder of libs/jpeg/jcarith.c: the registers, the deferred-carry output
// stage and the termination, proved against the exact coder.
module ArithEncoder {
  import opened Powers
  import opened Bytes
  import opened ProbabilityTable
  import opened ExactCoder
  import opened Termination

  class Encoder {
    var c: nat          // low end of the interval, as far as it is in the register
    var a: nat          // normalized size of the coding interval
    var sc: nat         // stacked 0xFF bytes which might overflow
    var zc: nat         // zero bytes held back until something else follows
    var ct: nat         // shifts until the next byte is written
    var buffer: int     // the held byte, never 0xFF; -1 when there is none
    const stats: array<Stat>
    var out: seq<byte>  // the destination

    ghost var closed: seq<byte>        // what was written before the current segment
    ghost var sent: seq<byte>          // the bytes of the segment already out, unstuffed
    ghost var start: seq<Stat>         // the statistics when the segment was opened
    ghost var history: seq<Decision>   // the decisions coded since then

    // All bytes taken from the register so far, with the ones held back.
    ghost function Digits(): seq<byte>
      reads this
    {
      Assembled(sent, zc, buffer, sc)
    }

    // The exact interval the registers stand for.
    ghost function Coder(): Interval
      requires ct <= 11
      reads this
    {
      Exact(Digits(), c, a, ct)
    }

    // The output stage: stuffing is right, no zero byte is sent before something nonzero
    // follows it, the held byte can absorb a carry.
    ghost predicate Written()
      reads this
    {
      && out == closed + Stuff(sent)
      && (sent != [] ==> sent[|sent| - 1] != 0)
      && -1 <= buffer < 0xFF
      && (buffer == -1 ==> sent == [] && zc == 0)
    }

    ghost predicate Bounded()
      reads this
    {
      Written() && 1 <= ct && RegistersFit(Digits(), c, a, ct)
    }

    ghost predicate Valid()
      reads this, stats
    {
      && Bounded()
      && a >= 0x8000
      && InBins(history, |start|)
      && Run(Initial(start), history) == State()
    }

    ghost function State(): ExactCoder.State
      requires ct <= 11
      reads this, stats
    {
      ExactCoder.State(Coder(), stats[..])
    }

    lemma StatsOfHistory()
      requires Valid()
      ensures InBins(history, |start|) && stats[..] == Run(Initial(start), history).stats
    {
    }

    constructor (area: array<Stat>)
      ensures Valid() && stats == area
      ensures out == [] && closed == [] && history == [] && start == area[..]
    {
      c, a, sc, zc, ct, buffer := 0, 0x10000, 0, 0, 11, -1;
      stats := area;
      out, closed, sent, history := [], [], [], [];
      start := area[..];
      new;
      EmptyRegisters();
    }

    // Start a new segment behind whatever is in the destination (start_pass, emit_restart).
    method Reset()
      modifies this
      ensures Valid() && out == old(out) && closed == out
      ensures history == [] && start == stats[..]
    {
      hide Pow2, Assembled, Exact, RegistersFit, Value;
      c, a, sc, zc, ct, buffer := 0, 0x10000, 0, 0, 11, -1;
      closed, sent, history := out, [], [];
      start := stats[..];
      EmptyRegisters();
    }

    method EmitByte(val: byte)
      modifies this`out
      ensures out == old(out) + [val]
    {
      out := out + [val];
    }

    // A data byte with its stuffed zero.
    method EmitData(val: byte)
      requires out == closed + Stuff(sent)
      modifies this`out, this`sent
      ensures out == closed + Stuff(sent)
      ensures sent == old(sent) + [val]
    {
      SegmentByte(closed, sent, val);
      EmitByte(val);
      if val == 0xFF {
        EmitByte(0x00);
      }
      sent := sent + [val];
    }

    method EmitRun(val: byte, count: nat)
      requires out == closed + Stuff(sent)
      modifies this`out, this`sent
      ensures out == closed + Stuff(sent)
      ensures sent == old(sent) + Repeat(val, count)
    {
      RepeatSnoc(sent, val, 0);
      for i := 0 to count
        invariant out == closed + Stuff(sent)
        invariant sent == old(sent) + Repeat(val, i)
      {
        RepeatSnoc(old(sent), val, i);
        EmitData(val);
      }
    }

    method EmitPendingZeros()
      requires out == closed + Stuff(sent)
      modifies this`out, this`zc, this`sent
      ensures out == closed + Stuff(sent)
      ensures zc == 0 && sent == old(sent) + Repeat(0, old(zc))
    {
      EmitRun(0x00, zc);
      zc := 0;
    }

    // The held byte takes the carry; the stacked 0xFF bytes become pending zeros.
    method CarryOver()
      requires Written() && buffer >= 0
      modifies this`out, this`zc, this`sc, this`sent
      ensures out == closed + Stuff(sent)
      ensures sent != [] && sent[|sent| - 1] != 0
      ensures sc == 0 && |sent| + zc == |old(Digits())|
      ensures Value(sent + Repeat(0, zc)) == Value(old(Digits())) + 1
    {
      ValueCarry(sent + Repeat(0, zc), buffer, sc);
      EmitPendingZeros();
      EmitData(buffer + 1);
      zc := zc + sc;
      sc := 0;
    }

    // No carry can reach the held bytes any more.
    method SendHeld()
      requires Written()
      modifies this`out, this`zc, this`sc, this`sent
      ensures out == closed + Stuff(sent)
      ensures sent != [] ==> sent[|sent| - 1] != 0
      ensures sc == 0 && sent + Repeat(0, zc) == old(Digits())
    {
      RepeatSnoc(sent, 0, zc);
      if buffer == 0 {
        zc := zc + 1;
      } else if buffer >= 0 {
        EmitPendingZeros();
        EmitData(buffer);
      }
      assert sent + Repeat(0, zc) + Repeat(0xFF, sc) == old(Digits());
      if sc > 0 {
        EmitPendingZeros();
        EmitRun(0xFF, sc);
        sc := 0;
      }
    }

    // Append a byte that may exceed 0xFF by a carry.
    method TakeByte(temp: nat)
      requires Written() && temp < 0x120
      requires temp > 0xFF ==> buffer >= 0
      modifies this`buffer, this`out, this`zc, this`sc, this`sent
      ensures Written()
      ensures |Digits()| == |old(Digits())| + 1
      ensures Value(Digits()) == Value(old(Digits())) * 256 + temp
    {
      hide Value, Stuff, Repeat;
      if temp > 0xFF {
        CarryOver();
        // With the bound on c + a, a byte with a carry is at most 0x11F.
        buffer := temp % 256;
        JoinHeld(sent, zc, buffer);
      } else if temp == 0xFF {
        JoinStacked(sent, zc, buffer, sc);
        sc := sc + 1;
      } else {
        SendHeld();
        buffer := temp;
        JoinHeld(sent, zc, buffer);
      }
    }

    // Eight bits above the spacer bits are settled but for a carry.
    method ByteOut()
      requires Written() && ct == 0 && RegistersFit(Digits(), c, a, 0)
      modifies this`c, this`ct, this`buffer, this`out, this`zc, this`sc, this`sent
      ensures Bounded()
      ensures Coder() == old(Coder())
    {
      ByteFits(sent, zc, buffer, sc, c, a);
      ghost var digits := Digits();
      TakeByte(c / 0x80000);
      ByteTaken(digits, Digits(), c, a);
      c := c % 0x80000;
      ct := ct + 8;
    }

    // One round of the renormalization loop (section D.1.6).
    method ShiftOnce()
      requires Bounded() && a < 0x8000
      modifies this`c, this`a, this`ct, this`buffer, this`out, this`zc, this`sc, this`sent
      ensures Bounded()
      ensures Coder() == Double(old(Coder()))
    {
      RegistersAreSmall(Digits(), c, a, ct);
      hide RegistersFit, Assembled, Exact, Double, Stuff;
      ShiftDoubles(Digits(), c, a, ct);
      a := 2 * a;
      c := 2 * c;
      ct := ct - 1;
      if ct == 0 {
        ByteOut();
      }
    }

    // Every path of the source reaches its do-while loop with a < 0x8000.
    method Renormalize()
      requires Bounded()
      modifies this`c, this`a, this`ct, this`buffer, this`out, this`zc, this`sc, this`sent
      ensures Bounded() && a >= 0x8000
      ensures Coder() == Renorm(old(Coder()))
    {
      ghost var target := Renorm(Coder());
      while a < 0x8000
        invariant Bounded()
        invariant Renorm(Coder()) == target
        decreases 0x8000 - a
      {
        ShiftOnce();
      }
    }

    ghost method Record(before: ExactCoder.State, d: Decision)
      requires Bounded() && a >= 0x8000 && Normalized(before.i)
      requires InBins(history, |start|) && Run(Initial(start), history) == before
      requires d.bin < |start| == |before.stats| && State() == Step(before, d)
      modifies this`history
      ensures Valid() && history == old(history) + [d]
    {
      RunAppend(Initial(start), history, [d]);
      assert Run(before, [d]) == Step(before, d);
      history := history + [d];
    }

    // Narrow the interval to the part that stands for the symbol (section D.1.4).
    method Subdivide(qe: nat, isMps: bool)
      requires Bounded() && 0 < qe < 0x8000 <= a
      modifies this`c, this`a
      ensures Bounded()
      ensures Coder() == Split(old(Coder()), qe, TakesUpper(old(a), qe, isMps))
    {
      PartInRange(Digits(), c, a, ct, qe, TakesUpper(a, qe, isMps));
      a := a - qe;
      if !isMps {
        if a >= qe {
          c := c + a;
          a := qe;
        }
      } else if a < 0x8000 {
        if a < qe {
          c := c + a;
          a := qe;
        }
      }
    }

    // Code one binary decision (arith_encode).
    method Encode(st: nat, val: bool)
      requires Valid() && st < stats.Length
      modifies this`c, this`a, this`ct, this`buffer, this`out, this`zc, this`sc, this`sent
      modifies this`history, stats
      ensures Valid()
      ensures history == old(history) + [Decision(st, val)]
    {
      hide Value, Pow2, Aritab, Assembled, Stuff;
      ghost var before := State();
      var sv := stats[st];
      var isMps := val == Mps(sv);
      var qe := Lookup(sv).qe;
      var part := a - qe;
      Subdivide(qe, isMps);
      if !isMps {
        stats[st] := AfterLps(sv);
      } else if part < 0x8000 {
        stats[st] := AfterMps(sv);
      }
      assert stats[..] == before.stats[st := NextStat(sv, isMps, part)];
      Renormalize();
      assert State() == Step(before, Decision(st, val));
      Record(before, Decision(st, val));
    }

    // Everything held back, with the final carry.
    method SendRest()
      requires Written() && c < 0x10000000
      requires buffer < 0 ==> c < 0x8000000
      modifies this`out, this`zc, this`sc, this`sent
      ensures out == closed + Stuff(sent)
      ensures sent != [] ==> sent[|sent| - 1] != 0
      ensures |sent| + zc == |old(Digits())|
      ensures Value(sent + Repeat(0, zc)) == Value(old(Digits())) + c / 0x8000000
    {
      if c >= 0x8000000 {
        // The last carry.
        CarryOver();
      } else {
        SendHeld();
      }
    }

    // The last two bytes of the register, unless they are zero.
    method SendLast() returns (ghost dropped: nat)
      requires out == closed + Stuff(sent)
      requires sent != [] ==> sent[|sent| - 1] != 0
      modifies this`out, this`zc, this`sent
      ensures out == closed + Stuff(sent)
      ensures sent != [] ==> sent[|sent| - 1] != 0
      ensures old(sent) + Repeat(0, old(zc)) + [c / 0x80000 % 256] + [c / 0x800 % 256]
           == sent + Repeat(0, dropped)
    {
      var b1, b2 := c / 0x80000 % 256, c / 0x800 % 256;
      RepeatSnoc(sent, 0, zc);
      RepeatSnoc(sent, 0, zc + 1);
      dropped := zc + 2;
      // A zero byte is no more sent here than elsewhere.
      if b1 != 0 || b2 != 0 {
        EmitPendingZeros();
        EmitData(b1);
        RepeatSnoc(sent, 0, 0);
        dropped := 1;
        if b2 != 0 {
          EmitData(b2);
          RepeatSnoc(sent, 0, 0);
          dropped := 0;
        }
      }
    }

    // Termination of encoding (section D.1.8).
    method Terminate()
      requires Bounded() && a >= 0x8000
      modifies this`c, this`out, this`zc, this`sc, this`sent
      ensures out == closed + Stuff(sent)
      ensures sent != [] ==> sent[|sent| - 1] != 0
      ensures IsShortestCode(old(Coder()), sent)
    {
      hide Value, Pow2, Stuff, FinalCode, IsRoundest, IsShortestCode, Repeat;
      ghost var digits, c0 := Digits(), c;
      // The roundest value of the interval.
      var code := FinalCode(c, a);
      FinalCodeIsRoundest(c, a);
      FinalRegister(sent, zc, buffer, sc, c, a, ct, code);
      // Everything held back, except zeros at the end.
      c := Shifted(code, ct);
      SendRest();
      ghost var body := sent + Repeat(0, zc);
      ghost var full := body + [c / 0x80000 % 256] + [c / 0x800 % 256];
      FinalFull(body, Value(digits), c);
      ghost var dropped := SendLast();
      FinalIsCode(digits, c0, a, ct, code, full, sent, dropped);
    }

    // Close a segment (finish_pass).
    method FinishPass()
      requires Valid()
      modifies this`c, this`out, this`zc, this`sc, this`sent
      ensures out == closed + Stuff(sent)
      ensures sent != [] ==> sent[|sent| - 1] != 0
      ensures IsShortestCode(Run(Initial(start), history).i, sent)
    {
      Terminate();
    }
  }

  ghost function Exact(digits: seq<byte>, c: nat, a: nat, ct: nat): Interval
    requires ct <= 11
  {
    Interval(Shifted(Value(digits), 27 - ct) + c, a, 8 * |digits| + 11 - ct)
  }

  // The register bounds. Once a byte has been taken, three spacer bits separate it from the
  // fraction, so the next byte taken is below 0x120; and the interval stays in the unit.
  ghost predicate RegistersFit(digits: seq<byte>, c: nat, a: nat, ct: nat) {
    && ct <= 11
    && 0 < a <= 0x10000
    && (|digits| > 0 ==> ct <= 8 && c + a < 0x90000 * Pow2(8 - ct))
    && Exact(digits, c, a, ct).low + a <= Pow2(8 * |digits| + 27 - ct)
  }

  lemma EmptyRegisters()
    ensures Assembled([], 0, -1, 0) == [] && RegistersFit([], 0, 0x10000, 11)
    ensures Exact([], 0, 0x10000, 11) == Interval(0, 0x10000, 0)
  {
    Pow2Values();
  }

  lemma RegistersAreSmall(digits: seq<byte>, c: nat, a: nat, ct: nat)
    requires RegistersFit(digits, c, a, ct)
    ensures ct <= 11 && 0 < a <= 0x10000
  {
  }

  // One shift of the registers doubles the exact interval.
  lemma ShiftDoubles(digits: seq<byte>, c: nat, a: nat, ct: nat)
    requires 1 <= ct && RegistersFit(digits, c, a, ct) && a < 0x8000
    ensures ct <= 11 && RegistersFit(digits, 2 * c, 2 * a, ct - 1)
    ensures Exact(digits, 2 * c, 2 * a, ct - 1)
         == Double(Exact(digits, c, a, ct))
  {
    var v, p := Value(digits), Pow2(27 - ct);
    assert v * (2 * p) == 2 * (v * p);
  }

  // Moving a byte out of the register does not change the exact interval.
  lemma ByteTaken(before: seq<byte>, after: seq<byte>, c: nat, a: nat)
    requires RegistersFit(before, c, a, 0)
    requires |after| == |before| + 1 && Value(after) == Value(before) * 256 + c / 0x80000
    ensures Exact(after, c % 0x80000, a, 8) == Exact(before, c, a, 0)
    ensures RegistersFit(after, c % 0x80000, a, 8)
  {
    var v := Value(before);
    Pow2Values();
    assert c == c / 0x80000 * 0x80000 + c % 0x80000;
    assert (v * 256 + c / 0x80000) * 0x80000 == v * 0x8000000 + c / 0x80000 * 0x80000;
  }

  // The bytes sent, followed by the ones held back.
  ghost function Assembled(sent: seq<byte>, zc: nat, buffer: int, sc: nat): seq<byte> {
    sent + Repeat(0, zc) + (if 0 <= buffer < 0xFF then [buffer] else []) + Repeat(0xFF, sc)
  }

  lemma JoinHeld(sent: seq<byte>, zc: nat, b: byte)
    requires b < 0xFF
    ensures Assembled(sent, zc, b, 0) == sent + Repeat(0, zc) + [b]
    ensures Value(Assembled(sent, zc, b, 0)) == Value(sent + Repeat(0, zc)) * 256 + b
  {
    RepeatSnoc(sent + Repeat(0, zc) + [b], 0xFF, 0);
    ValueSnoc(sent + Repeat(0, zc), b);
  }

  lemma JoinStacked(sent: seq<byte>, zc: nat, buffer: int, sc: nat)
    ensures |Assembled(sent, zc, buffer, sc + 1)| == |Assembled(sent, zc, buffer, sc)| + 1
    ensures Value(Assembled(sent, zc, buffer, sc + 1)) == Value(Assembled(sent, zc, buffer, sc)) * 256 + 0xFF
  {
    RepeatSnoc(Assembled(sent, zc, buffer, 0), 0xFF, sc);
    RepeatSnoc(Assembled(sent, zc, buffer, 0), 0xFF, 0);
    ValueSnoc(Assembled(sent, zc, buffer, sc), 0xFF);
    assert Assembled(sent, zc, buffer, sc + 1) == Assembled(sent, zc, buffer, sc) + [0xFF];
  }

  // The spacer bits bound the byte; and while nothing but 0xFF has been taken, the unit
  // interval bounds the register, so that no carry can occur without a held byte.
  lemma ByteFits(sent: seq<byte>, zc: nat, buffer: int, sc: nat, c: nat, a: nat)
    requires RegistersFit(Assembled(sent, zc, buffer, sc), c, a, 0)
    requires buffer < 0 ==> sent == [] && zc == 0
    ensures c / 0x80000 < 0x120
    ensures buffer < 0 ==> c / 0x80000 <= 0xFF
  {
    Pow2Values();
    if buffer < 0 {
      assert Assembled(sent, zc, buffer, sc) == Repeat(0xFF, sc);
      ValueOnes(sc);
      Pow2Add(8 * sc, 27);
      assert c + a <= 0x8000000;
    }
  }

  // The part chosen by a decision stays in range.
  lemma PartInRange(digits: seq<byte>, c: nat, a: nat, ct: nat, qe: nat, upper: bool)
    requires RegistersFit(digits, c, a, ct) && 0 < qe < a
    ensures var part := Split(Exact(digits, c, a, ct), qe, upper);
      var c' := if upper then c + (a - qe) else c;
      RegistersFit(digits, c', part.a, ct) && Exact(digits, c', part.a, ct) == part
  {
  }

  lemma ShiftBelow(x: nat, b: nat, m: nat, ct: nat)
    requires x < b * Pow2(m)
    ensures x * Pow2(ct) < b * Pow2(m + ct)
  {
    Pow2Add(m, ct);
    MulAssoc(b, Pow2(m), Pow2(ct));
    var p := Pow2(ct);
    assert x * p < (b * Pow2(m)) * p;
  }

  // The final shift leaves at most a carry and two bytes in the register, and no carry
  // while nothing but 0xFF has been taken.
  lemma FinalRegister(sent: seq<byte>, zc: nat, buffer: int, sc: nat, c: nat, a: nat, ct: nat, code: nat)
    requires 1 <= ct && RegistersFit(Assembled(sent, zc, buffer, sc), c, a, ct) && IsRoundest(code, c, a)
    requires -1 <= buffer < 0xFF && (buffer < 0 ==> sent == [] && zc == 0)
    ensures Shifted(code, ct) < 0x10000000 && Round(Shifted(code, ct))
    ensures buffer < 0 ==> Shifted(code, ct) < 0x8000000
  {
    FinalRegisterIsRound(code, ct);
    if buffer < 0 {
      assert Assembled(sent, zc, buffer, sc) == Repeat(0xFF, sc);
      EmptyHasNoCarry(sc, c, a, ct, code);
    } else {
      assert |Assembled(sent, zc, buffer, sc)| > 0;
      assert Shifted(code, ct) < 0x90000 * Pow2(8) by {
        ShiftBelow(code, 0x90000, 8 - ct, ct);
      }
      Pow2Values();
    }
  }

  lemma FinalRegisterIsRound(code: nat, ct: nat)
    requires 1 <= ct && code % 0x8000 == 0
    ensures Round(Shifted(code, ct))
  {
    var m, p := code / 0x8000, Pow2(ct - 1);
    assert code == m * 0x8000;
    var w := Shifted(m, ct - 1);
    assert code * (2 * p) == w * 0x10000;
  }

  // While nothing but 0xFF has been taken, the final value does not overflow either.
  lemma EmptyHasNoCarry(sc: nat, c: nat, a: nat, ct: nat, code: nat)
    requires 1 <= ct && RegistersFit(Repeat(0xFF, sc), c, a, ct) && code < c + a
    ensures Shifted(code, ct) < 0x8000000
  {
    var v, p := Value(Repeat(0xFF, sc)), Pow2(27 - ct);
    assert c + a <= p by {
      ValueOnes(sc);
      Pow2Add(8 * sc, 27 - ct);
      MulDistrib(v, 1, p);
    }
    ShiftBelow(code, 1, 27 - ct, ct);
    Pow2Values();
  }

  // The bytes sent, with the zeros dropped at the end put back, are the final code value.
  lemma FinalIsCode(digits: seq<byte>, c: nat, a: nat, ct: nat, code: nat, full: seq<byte>, sent: seq<byte>, dropped: nat)
    requires ct <= 11 && IsRoundest(code, c, a)
    requires full == sent + Repeat(0, dropped) && |full| == |digits| + 2
    requires Value(full) * 0x800 == Value(digits) * 0x8000000 + Shifted(code, ct)
    requires sent != [] ==> sent[|sent| - 1] != 0
    ensures IsShortestCode(Exact(digits, c, a, ct), sent)
  {
    hide Value, Prefix, Pow2, Shifted, Round, Repeat, IsShortestCode, IsRoundest;
    FinalDigits(digits, ct, code, full, sent, dropped);
    FinalLow(digits, c, a, ct, code);
    var low := Shifted(Value(digits), 27 - ct) + code;
    FinalIsShortestCode(Exact(digits, c, a, ct), low, sent, |digits| + 4);
  }

  lemma FinalLow(digits: seq<byte>, c: nat, a: nat, ct: nat, code: nat)
    requires ct <= 11 && IsRoundest(code, c, a)
    ensures var i, z := Exact(digits, c, a, ct), Shifted(Value(digits), 27 - ct);
      IsRoundest(z + code, i.low, i.a) && i.low <= z + code < i.low + i.a
  {
    hide Value, Pow2, Round;
    PowerIsRound(Value(digits), 27 - ct);
    RoundestAbove(code, c, a, Shifted(Value(digits), 27 - ct));
  }

  lemma FinalFull(body: seq<byte>, v: nat, r: nat)
    requires r < 0x10000000 && Round(r) && Value(body) == v + r / 0x8000000
    ensures Value(body + [r / 0x80000 % 256] + [r / 0x800 % 256]) * 0x800 == v * 0x8000000 + r
  {
    FinalBytes(r);
    ValueSnoc(body, r / 0x80000 % 256);
    ValueSnoc(body + [r / 0x80000 % 256], r / 0x800 % 256);
  }

  lemma FinalDigits(digits: seq<byte>, ct: nat, code: nat, full: seq<byte>, sent: seq<byte>, dropped: nat)
    requires ct <= 11
    requires full == sent + Repeat(0, dropped) && |full| == |digits| + 2
    requires Value(full) * 0x800 == Value(digits) * 0x8000000 + Shifted(code, ct)
    ensures Prefix(sent, |digits| + 4) == Shifted(Shifted(Value(digits), 27 - ct) + code, 5 + ct)
  {
    hide Value, Prefix, Pow2, Shifted;
    assert Prefix(sent, |digits| + 4) == Value(full) * Pow2(16) by {
      PrefixPastEnd(sent, |digits| + 4);
      assert sent + Repeat(0, |digits| + 4 - |sent|) == full + Repeat(0, 2);
      ValueZeros(full, 2);
    }
    FinalScale(Value(digits), ct, code, Value(full));
  }

  lemma FinalScale(v: nat, ct: nat, code: nat, f: nat)
    requires ct <= 11 && f * 0x800 == v * 0x8000000 + Shifted(code, ct)
    ensures f * Pow2(16) == Shifted(Shifted(v, 27 - ct) + code, 5 + ct)
  {
    hide Pow2;
    Pow2Add(27 - ct, ct);
    Pow2Add(ct, 5);
    Pow2Values();
    ScaleUp(v, Pow2(27 - ct), Pow2(ct), code, f);
  }

  lemma ScaleUp(v: nat, q: nat, p: nat, code: nat, f: nat)
    requires q * p == 0x8000000 && f * 0x800 == v * 0x8000000 + code * p
    ensures f * 0x10000 == (v * q + code) * (p * 32)
  {
    MulAssoc(v, q, p);
    MulDistrib(v * q, code, p);
    MulAssoc(v * q + code, p, 32);
  }
}
