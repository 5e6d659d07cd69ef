// The arithmetic decoder of libs/jpeg/jdarith.c: a register whose cut-point floats with ct,
// fed from a stuffed byte source, proved against the exact coder for every input.
module ArithDecoder {
  import opened Powers
  import opened Bytes
  import opened ProbabilityTable
  import opened ExactCoder

  class Decoder {
    var c: nat              // base of coding interval and input bit buffer
    var a: nat              // size of the coding interval
    var ct: int             // how far c is shifted against a; negative before the first bytes
    var src: seq<byte>      // the source, as far as it has been supplied
    var pos: nat            // next byte to read
    var unreadMarker: byte  // marker that ended the data, 0 if none was seen
    const stats: array<Stat>

    ghost var data: seq<byte>          // what the source holds up to the next marker, unstuffed
    ghost var mark: byte               // that marker
    ghost var behind: seq<byte>        // the source behind it
    ghost var got: nat                 // bytes inserted into c, counting made-up zeros
    ghost var low: nat                 // the exact interval is [low, low + a) / 2^n
    ghost var n: nat
    ghost var start: seq<Stat>         // the statistics when the segment was opened
    ghost var history: seq<Decision>   // the decisions decoded since then
    ghost var goal: ExactCoder.State   // the state its encoder ended in, if there was one

    // The source position agrees with the data bytes already taken.
    ghost predicate Fed()
      reads this`src, this`pos, this`unreadMarker, this`data, this`mark, this`behind, this`got
    {
      && pos <= |src|
      && (unreadMarker == 0 ==>
          && got <= |data| && Unstuff(src[pos..]) == data[got..]
          && Marker(src[pos..]) == mark && Behind(src[pos..]) == behind)
      && (unreadMarker != 0 ==> got >= |data| && unreadMarker == mark && src[pos..] == behind)
    }

    // Before both initial bytes are in.
    ghost predicate Filling()
      reads this`a, this`low, this`n, this`got, this`ct, this`c, this`data
    {
      && a == 0 && low == 0 && n == 0
      && got <= 1 && ct == 8 * got - 16 && c == Prefix(data, got)
    }

    // c is the distance of the code value from the base of the interval.
    ghost predicate Running()
      reads this`a, this`low, this`n, this`got, this`ct, this`c, this`data
    {
      && 0 <= ct <= 7
      && 0 < a <= 0x10000
      && InRegister(data, got, c, a, ct, low, n)
    }

    ghost predicate Valid()
      reads this, stats
    {
      && Fed()
      && ((Filling() && got == 0) || Running())
      && InBins(history, |start|)
      && Run(Initial(start), history) == State()
    }

    // The decoder renormalizes late: the state is the one after the pending shifts.
    ghost function State(): ExactCoder.State
      reads this, stats
    {
      if a == 0 then Initial(stats[..]) else ExactCoder.State(Renorm(Interval(low, a, n)), stats[..])
    }

    // The source holds the decisions ds ahead of the ones already read, and they lead to
    // the goal.
    ghost predicate Ahead(ds: seq<Decision>)
      reads this`history, this`start, this`data, this`mark, this`behind, this`goal
    {
      Leads(Fixed(), history, ds)
    }

    // What stays the same while a segment is read.
    ghost function Fixed(): Fixture
      reads this`start, this`data, this`mark, this`behind, this`goal
    {
      Fixture(start, data, mark, behind, goal)
    }

    ghost method Expect(ds: seq<Decision>)
      requires Valid() && history == [] && Follows(Initial(start), ds, data)
      modifies this`goal
      ensures Valid() && Ahead(ds) && goal == Run(Initial(start), ds)
    {
      goal := Run(Initial(start), ds);
    }

    lemma StatsOfHistory()
      requires Valid()
      ensures InBins(history, |start|) && stats[..] == Run(Initial(start), history).stats
    {
    }

    lemma SourceIsFed()
      requires Valid()
      ensures Fed() && pos <= |src|
    {
    }

    // Whatever the source holds, its code value is in the interval of the decisions read.
    lemma InInterval()
      requires Valid()
      ensures Contains(Run(Initial(start), history).i, data)
    {
      if a == 0 {
        UnitContains(stats[..], data);
      } else {
        RegisterContains(data, got, c, a, ct, low, n);
        ContainsRenorm(Interval(low, a, n), data);
      }
    }

    constructor (area: array<Stat>, source: seq<byte>)
      ensures Valid() && stats == area
      ensures data == Unstuff(source) && mark == Marker(source) && behind == Behind(source)
      ensures history == [] && start == area[..]
      ensures src == source && pos == 0 && unreadMarker == 0
    {
      c, a, ct := 0, 0, -16;
      src, pos, unreadMarker := source, 0, 0;
      stats := area;
      data, mark, behind := Unstuff(source), Marker(source), Behind(source);
      got, low, n := 0, 0, 0;
      start, history := area[..], [];
      goal := Initial(area[..]);
    }

    // The source manager makes up an end-of-image marker when it runs dry.
    method GetByte() returns (b: byte)
      requires pos <= |src|
      modifies this`src, this`pos
      ensures pos <= |src|
      ensures if old(pos == |src|) then b == 0xFF && src[pos..] == [0xD9]
              else b == old(src[pos]) && src[pos..] == old(src[pos + 1..])
    {
      if pos == |src| {
        src := src + [0xFF, 0xD9];
      }
      b := src[pos];
      pos := pos + 1;
    }

    // The byte after a run of 0xFF bytes.
    method SwallowFF() returns (d: byte)
      requires pos <= |src|
      modifies this`src, this`pos
      ensures pos <= |src| && d != 0xFF
      ensures d == 0 ==> |src[pos..]| < old(|src[pos..]|)
      ensures old(src[pos..]) == [0xD9] ==> d == 0xD9
      ensures d == 0 ==>
        && old(AfterFF(src[pos..])) == [0xFF] + Unstuff(src[pos..])
        && old(MarkerAfterFF(src[pos..])) == Marker(src[pos..])
        && old(BehindAfterFF(src[pos..])) == Behind(src[pos..])
      ensures d != 0 ==>
        && old(AfterFF(src[pos..])) == [] && old(MarkerAfterFF(src[pos..])) == d
        && old(BehindAfterFF(src[pos..])) == src[pos..]
    {
      ghost var s := src[pos..];
      d := GetByte();
      while d == 0xFF
        invariant pos <= |src|
        invariant s == [0xD9] ==> d == 0xD9
        invariant |src[pos..]| < |s| || (src[pos..] == [0xD9] && d == 0xFF) || d == 0xD9
        invariant d == 0xFF ==>
          && AfterFF(src[pos..]) == AfterFF(s) && MarkerAfterFF(src[pos..]) == MarkerAfterFF(s)
          && BehindAfterFF(src[pos..]) == BehindAfterFF(s)
        invariant d == 0 ==>
          && AfterFF(s) == [0xFF] + Unstuff(src[pos..]) && MarkerAfterFF(s) == Marker(src[pos..])
          && BehindAfterFF(s) == Behind(src[pos..])
        invariant d != 0 && d != 0xFF ==>
          AfterFF(s) == [] && MarkerAfterFF(s) == d && BehindAfterFF(s) == src[pos..]
        decreases if d == 0xFF then 1 + LeadingOnes(src[pos..]) else 0
      {
        d := GetByte();
      }
    }

    // Fetch the next data byte: unstuff it, or stop at a marker and supply zeros.
    method NextData() returns (d: byte)
      requires Fed()
      modifies this`src, this`pos, this`unreadMarker, this`got
      ensures Fed() && got == old(got) + 1 && d == DataAt(data, old(got))
    {
      if unreadMarker != 0 {
        d := 0;
      } else {
        d := GetByte();
        if d == 0xFF {
          // 0xFF: any number of them count as one.
          d := SwallowFF();
          if d == 0 {
            d := 0xFF;
          } else {
            unreadMarker := d;
            d := 0;
          }
        }
      }
      assert got < |data| ==> data[got + 1..] == data[got..][1..];
      got := got + 1;
    }

    // Skip to the next 0xFF byte.
    method SkipToFF()
      requires pos <= |src|
      modifies this`src, this`pos
      ensures pos <= |src|
      ensures old(Marker(src[pos..])) == MarkerAfterFF(src[pos..])
      ensures old(Behind(src[pos..])) == BehindAfterFF(src[pos..])
      ensures |src[pos..]| < |old(src[pos..])| || src[pos..] == [0xD9]
    {
      ghost var s := src[pos..];
      var c := GetByte();
      while c != 0xFF
        invariant pos <= |src|
        invariant if c == 0xFF then Marker(s) == MarkerAfterFF(src[pos..]) && Behind(s) == BehindAfterFF(src[pos..])
                  else Marker(s) == Marker(src[pos..]) && Behind(s) == Behind(src[pos..])
        invariant |src[pos..]| < |s| || (c == 0xFF && src[pos..] == [0xD9])
        decreases if c == 0xFF then 0 else 1 + |src[pos..]|
      {
        c := GetByte();
      }
    }

    // Find the next marker (next_marker of jdmarker.c).
    method NextMarker()
      requires Fed() && unreadMarker == 0
      modifies this`src, this`pos, this`unreadMarker
      ensures pos <= |src| && unreadMarker == mark && mark != 0 && src[pos..] == behind
    {
      ghost var s := src[pos..];
      var c := 0;
      while c == 0
        invariant pos <= |src| && c != 0xFF
        invariant if c == 0 then Marker(s) == Marker(src[pos..]) && Behind(s) == Behind(src[pos..])
                  else Marker(s) == c && Behind(s) == src[pos..]
        decreases if c == 0 then 1 + |src[pos..]| else 0
      {
        SkipToFF();
        c := SwallowFF();
      }
      unreadMarker := c;
    }

    // Advance past the restart marker that should come next (read_restart_marker of
    // jdmarker.c). False when another marker is found: resynchronization is not modelled.
    method ReadRestartMarker(num: nat) returns (ok: bool)
      requires Fed() && num < 8
      modifies this`src, this`pos, this`unreadMarker
      ensures ok <==> mark == 0xD0 + num
      ensures ok ==> unreadMarker == 0 && pos <= |src| && src[pos..] == behind
    {
      // A marker met while reading data is not looked for again.
      if unreadMarker == 0 {
        NextMarker();
      }
      ok := unreadMarker == 0xD0 + num;
      if ok {
        unreadMarker := 0;
      }
    }

    lemma StartIsFed()
      requires pos <= |src| && unreadMarker == 0 && got == 0
      requires data == Unstuff(src[pos..]) && mark == Marker(src[pos..]) && behind == Behind(src[pos..])
      ensures Fed()
    {
      hide Unstuff, Marker, Behind;
      assert data[0..] == data;
    }

    lemma StartIsFilling()
      requires c == 0 && a == 0 && ct == -16 && got == 0 && low == 0 && n == 0
      ensures Filling()
    {
    }

    lemma StartIsValid()
      requires c == 0 && a == 0 && ct == -16 && got == 0 && low == 0 && n == 0
      requires pos <= |src| && unreadMarker == 0 && history == [] && start == stats[..]
      requires data == Unstuff(src[pos..]) && mark == Marker(src[pos..]) && behind == Behind(src[pos..])
      ensures Valid()
    {
      hide Fed, Filling, Running, Prefix, Unstuff, Marker, Behind;
      StartIsFed();
      StartIsFilling();
      RunNone(Initial(start));
    }

    // Start reading a new segment (start_pass, process_restart).
    method Reset()
      requires pos <= |src| && unreadMarker == 0
      modifies this`c, this`a, this`ct, this`data, this`mark, this`behind
      modifies this`got, this`low, this`n, this`start, this`history
      ensures Valid() && history == [] && start == stats[..]
      ensures data == Unstuff(src[pos..]) && mark == Marker(src[pos..]) && behind == Behind(src[pos..])
    {
      hide Valid, Unstuff, Marker, Behind, Running, Run, InBins, Contains, Follows, Leads, Prefix, Fed, Filling;
      OpenSegment();
      c, a, ct := 0, 0, -16;   // -16: two bytes are missing
      StartIsValid();
    }

    // What the segment ahead holds, of which nothing has been read.
    ghost method OpenSegment()
      requires pos <= |src|
      modifies this`data, this`mark, this`behind, this`got, this`low, this`n, this`start, this`history
      ensures got == 0 && low == 0 && n == 0 && history == [] && start == stats[..]
      ensures data == Unstuff(src[pos..]) && mark == Marker(src[pos..]) && behind == Behind(src[pos..])
    {
      hide Unstuff, Marker, Behind;
      data, mark, behind := Unstuff(src[pos..]), Marker(src[pos..]), Behind(src[pos..]);
      got, low, n := 0, 0, 0;
      start, history := stats[..], [];
    }

    // One round of the renormalization loop (section D.2.6).
    method ShiftIn()
      requires Fed() && (Filling() || Running()) && a < 0x8000
      modifies this`c, this`a, this`ct, this`src, this`pos, this`unreadMarker
      modifies this`got, this`low, this`n
      ensures Fed() && (Filling() || Running())
      ensures old(Filling()) ==> got == old(got) + 1 && (Running() ==> a == 0x10000 && low == 0 && n == 0)
      ensures old(Running()) ==> Running() && Interval(low, a, n) == Double(old(Interval(low, a, n)))
    {
      hide Fed, Pow2, DataAt;
      ghost var running := Running();
      ct := ct - 1;
      if ct < 0 {
        // The register has run dry.
        var d := NextData();
        c := c * 256 + d;
        ct := ct + 8;
        if ct < 0 {
          // Need more initial bytes.
          ct := ct + 1;
          if ct == 0 {
            // Both bytes are in; the loop doubles a to the unit interval.
            a := 0x8000;
          }
        }
      }
      a := 2 * a;
      if running {
        low, n := 2 * low, n + 1;
        RegisterShifts(data, old(got), old(c), old(a), old(ct), old(low), old(n));
      } else {
        TwoBytes(data);
      }
    }

    method Renormalize()
      requires Fed() && ((Filling() && got == 0) || Running())
      modifies this`c, this`a, this`ct, this`src, this`pos, this`unreadMarker
      modifies this`got, this`low, this`n
      ensures Fed() && Running() && a >= 0x8000
      ensures Interval(low, a, n) == (if old(a) == 0 then Initial(start).i else Renorm(old(Interval(low, a, n))))
    {
      ghost var filling := a == 0;
      ghost var target := if filling then Initial(start).i else Renorm(Interval(low, a, n));
      while a < 0x8000
        invariant Fed() && (Filling() || Running())
        invariant Filling() ==> filling
        invariant Running() ==> Renorm(Interval(low, a, n)) == target
        decreases if Filling() then 2 - got else 0, 0x8000 - a
      {
        ShiftIn();
      }
    }

    // Which part of the split interval holds the code value (section D.2.4).
    method Select(qe: nat) returns (upper: bool)
      requires Running() && qe < 0x8000 <= a
      modifies this`c, this`low, this`a
      ensures Running()
      ensures Interval(low, a, n) == Split(old(Interval(low, a, n)), qe, upper)
    {
      RegisterSplits(data, got, c, a, ct, low, n, qe);
      var temp := Shifted(a - qe, ct);
      upper := c >= temp;
      if upper {
        c := c - temp;
        low := low + (a - qe);
        a := qe;
      } else {
        a := a - qe;
      }
    }

    ghost method Record(before: ExactCoder.State, d: Decision, ahead: seq<Decision>)
      requires Fed() && Running() && Normalized(before.i)
      requires InBins(history, |start|) && Run(Initial(start), history) == before
      requires d.bin < |start| == |before.stats| && State() == Step(before, d)
      modifies this`history
      ensures Valid() && history == old(history) + [d]
      ensures old(Ahead(ahead)) && ahead != [] && ahead[0].bin == d.bin ==> ahead[0] == d && Ahead(ahead[1..])
    {
      RunAppend(Initial(start), history, [d]);
      assert Run(before, [d]) == Step(before, d);
      history := history + [d];
      InInterval();
      if old(Ahead(ahead)) && ahead != [] && ahead[0].bin == d.bin {
        FollowStep(before, d, ahead, data);
      }
    }

    // The bit that goes with the part, and its estimate. With the conditional exchange the
    // larger part stands for the more probable symbol.
    method Exchange(st: nat, upper: bool, qe: nat, part: nat) returns (val: bool)
      requires st < stats.Length && qe < 0x8000
      modifies stats
      ensures var sv := old(stats[st]);
        && upper == ((val == Mps(sv)) == (part < qe))
        && stats[..] == old(stats[..])[st := NextStat(sv, val == Mps(sv), part)]
    {
      hide Aritab;
      var sv := stats[st];
      if upper {
        if part < qe {
          stats[st] := AfterMps(sv);
          val := Mps(sv);
        } else {
          stats[st] := AfterLps(sv);
          val := !Mps(sv);
        }
      } else if part < 0x8000 {
        if part < qe {
          stats[st] := AfterLps(sv);
          val := !Mps(sv);
        } else {
          stats[st] := AfterMps(sv);
          val := Mps(sv);
        }
      } else {
        val := Mps(sv);
      }
    }

    // The split, the choice of a part, and the bit it stands for.
    method Choose(st: nat) returns (val: bool)
      requires Running() && Normalized(Interval(low, a, n)) && st < stats.Length
      modifies this`c, this`low, this`a, stats
      ensures Running()
      ensures ExactCoder.State(Renorm(Interval(low, a, n)), stats[..])
           == Step(old(ExactCoder.State(Interval(low, a, n), stats[..])), Decision(st, val))
    {
      hide Running, Pow2, Aritab, Step, NextStat, ExactCoder.Split, Renorm;
      ghost var before := ExactCoder.State(Interval(low, a, n), stats[..]);
      var qe := Lookup(stats[st]).qe;
      var part := a - qe;
      var upper := Select(qe);
      val := Exchange(st, upper, qe, part);
      PartIsStep(before, st, val, upper, Interval(low, a, n), stats[..]);
    }

    // Decode one binary decision (arith_decode). If the decision recorded next in the
    // source is for the same bin, its bit is the one returned.
    method Decode(st: nat, ghost ahead: seq<Decision> := []) returns (val: bool)
      requires Valid() && st < stats.Length
      modifies this`c, this`a, this`ct, this`src, this`pos, this`unreadMarker
      modifies this`got, this`low, this`n, this`history, stats
      ensures Valid()
      ensures history == old(history) + [Decision(st, val)]
      ensures old(Ahead(ahead)) && ahead != [] && ahead[0].bin == st ==>
        ahead[0] == Decision(st, val) && Ahead(ahead[1..])
    {
      hide Fed, Pow2, Aritab, Prefix, Ahead, InRegister, Run, Contains, Leads, Step, Renorm;
      ghost var before := State();
      Renormalize();
      assert before == ExactCoder.State(Interval(low, a, n), stats[..]);
      val := Choose(st);
      Record(before, Decision(st, val), ahead);
    }
  }

  // The part chosen and the statistics adapted to it make the step.
  lemma PartIsStep(s: State, st: nat, val: bool, upper: bool, part: Interval, stats: seq<Stat>)
    requires Normalized(s.i) && st < |s.stats|
    requires var sv := s.stats[st]; var qe := Lookup(sv).qe;
      && s.i.a >= qe && part == Split(s.i, qe, upper)
      && upper == ((val == Mps(sv)) == (s.i.a - qe < qe))
      && stats == s.stats[st := NextStat(sv, val == Mps(sv), s.i.a - qe)]
    ensures Step(s, Decision(st, val)) == State(Renorm(part), stats)
  {
    hide Renorm, NextStat, Split, Aritab;
  }

  // How long a run of 0xFF bytes the source can still deliver.
  ghost function LeadingOnes(s: seq<byte>): nat {
    if s == [] then 1 else if s[0] == 0xFF then 1 + LeadingOnes(s[1..]) else 0
  }

  ghost predicate InRegister(data: seq<byte>, got: nat, c: nat, a: nat, ct: nat, low: nat, n: nat) {
    && 8 * got == 16 + n + ct
    && c + low * Pow2(ct) == Prefix(data, got)
    && c < a * Pow2(ct)
  }

  // One shift of the register, with a byte inserted when the bit buffer is empty.
  lemma RegisterShifts(data: seq<byte>, got: nat, c: nat, a: nat, ct: nat, low: nat, n: nat)
    requires ct <= 7 && 0 < a < 0x8000 && InRegister(data, got, c, a, ct, low, n)
    ensures ct > 0 ==> InRegister(data, got, c, 2 * a, ct - 1, 2 * low, n + 1)
    ensures ct == 0 ==>
      InRegister(data, got + 1, c * 256 + DataAt(data, got), 2 * a, 7, 2 * low, n + 1)
  {
    if ct > 0 {
      var p := Pow2(ct - 1);
      assert Pow2(ct) == 2 * p;
      MulAssoc(low, 2, p);
      MulAssoc(a, 2, p);
    } else {
      Pow2Values();
      assert 2 * low * 128 == low * 256;
    }
  }

  // The first two bytes fill the register for the unit interval.
  lemma TwoBytes(data: seq<byte>)
    ensures Prefix(data, 1) == DataAt(data, 0)
    ensures Prefix(data, 2) == Prefix(data, 1) * 256 + DataAt(data, 1)
    ensures InRegister(data, 2, Prefix(data, 2), 0x10000, 0, 0, 0)
  {
    Pow2Values();
  }

  lemma RegisterSplits(data: seq<byte>, got: nat, c: nat, a: nat, ct: nat, low: nat, n: nat, qe: nat)
    requires qe <= a && InRegister(data, got, c, a, ct, low, n)
    ensures var temp := Shifted(a - qe, ct);
      if c >= temp then InRegister(data, got, c - temp, qe, ct, low + (a - qe), n)
      else InRegister(data, got, c, a - qe, ct, low, n)
  {
    hide Pow2, Prefix;
    MulDistrib(low, a - qe, Pow2(ct));
    MulDistrib(qe, a - qe, Pow2(ct));
  }

  // The register invariant says that the code value lies in the interval.
  lemma RegisterContains(data: seq<byte>, got: nat, c: nat, a: nat, ct: nat, low: nat, n: nat)
    requires InRegister(data, got, c, a, ct, low, n)
    ensures Contains(Interval(low, a, n), data)
  {
    MulDistrib(low, a, Pow2(ct));
    ContainsFromOne(Interval(low, a, n), data, got);
  }

  lemma {:induction false} UnitContains(stats: seq<Stat>, data: seq<byte>)
    ensures Contains(Initial(stats).i, data)
  {
    TwoBytes(data);
    RegisterContains(data, 2, Prefix(data, 2), 0x10000, 0, 0, 0);
  }
}
