// The binary arithmetic coder of sections D.1 and D.2 of ITU-T T.81 on exact numbers:
// the coding interval is [low, low + a) / 2^n in units of 2^-16, with no finite registers,
// no byte output and no carries. Both register machines are proved against it.
module ExactCoder {
  import opened Bytes
  import opened Powers
  import opened ProbabilityTable

  datatype Interval = Interval(low: nat, a: nat, n: nat)

  // A coded binary decision: which statistics byte (an index into the statistics area)
  // and the bit.
  datatype Decision = Decision(bin: nat, bit: bool)

  datatype State = State(i: Interval, stats: seq<Stat>)

  ghost predicate Normalized(i: Interval) {
    0x8000 <= i.a <= 0x10000 && i.low + i.a <= Pow2(16 + i.n)
  }

  // The start of a segment: the whole unit interval.
  function Initial(stats: seq<Stat>): (s: State)
    ensures Normalized(s.i)
  {
    Pow2Values();
    State(Interval(0, 0x10000, 0), stats)
  }

  // Whether the decision takes the upper part of the split interval: the upper part has
  // size qe, and the larger part always stands for the more probable symbol.
  predicate TakesUpper(a: nat, qe: nat, isMps: bool)
    requires qe <= a
  {
    isMps == (a - qe < qe)
  }

  function Split(i: Interval, qe: nat, upper: bool): Interval
    requires qe <= i.a
  {
    if upper then Interval(i.low + (i.a - qe), qe, i.n)
    else Interval(i.low, i.a - qe, i.n)
  }

  function Double(i: Interval): Interval {
    Interval(2 * i.low, 2 * i.a, i.n + 1)
  }

  // Renormalization: double until the size is at least 0x8000.
  function Renorm(i: Interval): (r: Interval)
    requires 0 < i.a
    ensures r.a >= 0x8000 && r.n >= i.n
    ensures i.a <= 0x10000 ==> r.a <= 0x10000
    decreases 0x8000 - i.a
  {
    if i.a >= 0x8000 then i else Renorm(Double(i))
  }

  // The estimate changes exactly when the decision renormalizes.
  function NextStat(st: Stat, isMps: bool, part: nat): Stat {
    if !isMps then AfterLps(st) else if part >= 0x8000 then st else AfterMps(st)
  }

  function Mps(st: Stat): bool {
    st >= 128
  }

  function Step(s: State, d: Decision): (r: State)
    requires Normalized(s.i) && d.bin < |s.stats|
    ensures |r.stats| == |s.stats| && Normalized(r.i)
  {
    var st := s.stats[d.bin];
    var qe := Lookup(st).qe;
    var isMps := d.bit == Mps(st);
    var part := Split(s.i, qe, TakesUpper(s.i.a, qe, isMps));
    RenormFits(part);
    State(Renorm(part), s.stats[d.bin := NextStat(st, isMps, s.i.a - qe)])
  }

  ghost predicate InBins(ds: seq<Decision>, bins: nat) {
    forall d :: d in ds ==> d.bin < bins
  }

  // A whole sequence of decisions.
  function Run(s: State, ds: seq<Decision>): (r: State)
    requires Normalized(s.i) && InBins(ds, |s.stats|)
    ensures |r.stats| == |s.stats| && Normalized(r.i)
    decreases ds
  {
    if ds == [] then s else Run(Step(s, ds[0]), ds[1..])
  }

  lemma RunNone(s: State)
    requires Normalized(s.i)
    ensures Run(s, []) == s
  {
  }

  lemma {:induction false} RunAppend(s: State, ds: seq<Decision>, es: seq<Decision>)
    requires Normalized(s.i) && InBins(ds, |s.stats|) && InBins(es, |s.stats|)
    ensures InBins(ds + es, |s.stats|)
    ensures Run(s, ds + es) == Run(Run(s, ds), es)
    decreases ds
  {
    if ds == [] {
      assert ds + es == es;
    } else {
      assert (ds + es)[1..] == ds[1..] + es;
      RunAppend(Step(s, ds[0]), ds[1..], es);
    }
  }

  lemma {:induction false} RenormFits(i: Interval)
    requires 0 < i.a <= 0x10000 && i.low + i.a <= Pow2(16 + i.n)
    ensures Normalized(Renorm(i))
    decreases 0x8000 - i.a
  {
    if i.a < 0x8000 {
      RenormFits(Double(i));
    }
  }

  // ----- Code values -----

  // The fraction written out by data lies in the interval, read with k bytes.
  ghost predicate ContainsAt(i: Interval, data: seq<byte>, k: nat)
    requires 8 * k >= 16 + i.n
  {
    i.low * Pow2(8 * k - 16 - i.n) <= Prefix(data, k) < (i.low + i.a) * Pow2(8 * k - 16 - i.n)
  }

  ghost predicate Contains(i: Interval, data: seq<byte>) {
    forall k: nat :: 8 * k >= 16 + i.n ==> ContainsAt(i, data, k)
  }

  lemma ContainsNext(i: Interval, data: seq<byte>, k: nat)
    requires 8 * k >= 16 + i.n
    ensures ContainsAt(i, data, k) <==> ContainsAt(i, data, k + 1)
  {
    var p, v := Pow2(8 * k - 16 - i.n), Prefix(data, k);
    assert Pow2(8 * (k + 1) - 16 - i.n) == p * 256 by {
      Pow2Add(8 * k - 16 - i.n, 8);
      Pow2Values();
    }
    assert i.low * (p * 256) == i.low * p * 256;
    assert (i.low + i.a) * (p * 256) == (i.low + i.a) * p * 256;
    assert v * 256 <= Prefix(data, k + 1) < (v + 1) * 256;
  }

  lemma {:induction false} ContainsUp(i: Interval, data: seq<byte>, k: nat, m: nat)
    requires 8 * k >= 16 + i.n && k <= m
    ensures ContainsAt(i, data, k) <==> ContainsAt(i, data, m)
    decreases m - k
  {
    if k < m {
      ContainsNext(i, data, k);
      ContainsUp(i, data, k + 1, m);
    }
  }

  // Any one number of bytes that reaches the interval's last bit decides.
  lemma ContainsFromOne(i: Interval, data: seq<byte>, k: nat)
    requires 8 * k >= 16 + i.n && ContainsAt(i, data, k)
    ensures Contains(i, data)
  {
    forall m: nat | 8 * m >= 16 + i.n
      ensures ContainsAt(i, data, m)
    {
      if k <= m {
        ContainsUp(i, data, k, m);
      } else {
        ContainsUp(i, data, m, k);
      }
    }
  }

  lemma ContainsDoubled(i: Interval, data: seq<byte>)
    ensures Contains(i, data) <==> Contains(Double(i), data)
  {
    var j := Double(i);
    var k := i.n + 3;
    var p := Pow2(8 * k - 16 - j.n);
    assert Pow2(8 * k - 16 - i.n) == 2 * p;
    assert i.low * (2 * p) == j.low * p;
    assert (i.low + i.a) * (2 * p) == (j.low + j.a) * p;
    assert ContainsAt(i, data, k) <==> ContainsAt(j, data, k);
    if Contains(i, data) {
      assert ContainsAt(i, data, k);
      ContainsFromOne(j, data, k);
    }
    if Contains(j, data) {
      assert ContainsAt(j, data, k);
      ContainsFromOne(i, data, k);
    }
  }

  lemma {:induction false} ContainsRenorm(i: Interval, data: seq<byte>)
    requires 0 < i.a
    ensures Contains(i, data) <==> Contains(Renorm(i), data)
    decreases 0x8000 - i.a
  {
    if i.a < 0x8000 {
      ContainsDoubled(i, data);
      ContainsRenorm(Double(i), data);
    }
  }

  // The two parts partition the interval.
  lemma ContainsSplit(i: Interval, qe: nat, data: seq<byte>)
    requires qe <= i.a
    ensures Contains(Split(i, qe, true), data) ==> Contains(i, data)
    ensures Contains(Split(i, qe, false), data) ==> Contains(i, data)
    ensures !(Contains(Split(i, qe, true), data) && Contains(Split(i, qe, false), data))
  {
    hide Pow2, Prefix;
    var k := i.n + 3;
    var p, v := Pow2(8 * k - 16 - i.n), Prefix(data, k);
    var u, l := Split(i, qe, true), Split(i, qe, false);
    assert i.low * p <= (i.low + (i.a - qe)) * p <= (i.low + i.a) * p;
    assert ContainsAt(u, data, k) ==> ContainsAt(i, data, k);
    assert ContainsAt(l, data, k) ==> ContainsAt(i, data, k);
    if ContainsAt(i, data, k) {
      ContainsFromOne(i, data, k);
    }
    assert Contains(u, data) ==> ContainsAt(u, data, k);
    assert Contains(l, data) ==> ContainsAt(l, data, k);
  }

  // Nesting: a code value that survives a decision was in the interval before it.
  lemma ContainsStep(s: State, d: Decision, data: seq<byte>)
    requires Normalized(s.i) && d.bin < |s.stats|
    requires Contains(Step(s, d).i, data)
    ensures Contains(s.i, data)
  {
    var st := s.stats[d.bin];
    var qe := Lookup(st).qe;
    var part := Split(s.i, qe, TakesUpper(s.i.a, qe, d.bit == Mps(st)));
    ContainsRenorm(part, data);
    ContainsSplit(s.i, qe, data);
  }

  lemma {:induction false} ContainsRun(s: State, ds: seq<Decision>, data: seq<byte>)
    requires Normalized(s.i) && InBins(ds, |s.stats|)
    requires Contains(Run(s, ds).i, data)
    ensures Contains(s.i, data)
    decreases ds
  {
    if ds != [] {
      ContainsRun(Step(s, ds[0]), ds[1..], data);
      ContainsStep(s, ds[0], data);
    }
  }

  // Unique decodability of one decision: in a given state, a code value leaves room for
  // one bit only.
  lemma BitIsDetermined(s: State, bin: nat, b: bool, c: bool, data: seq<byte>)
    requires Normalized(s.i) && bin < |s.stats|
    requires Contains(Step(s, Decision(bin, b)).i, data)
    requires Contains(Step(s, Decision(bin, c)).i, data)
    ensures b == c
  {
    var st := s.stats[bin];
    var qe := Lookup(st).qe;
    if b != c {
      ContainsRenorm(Split(s.i, qe, TakesUpper(s.i.a, qe, b == Mps(st))), data);
      ContainsRenorm(Split(s.i, qe, TakesUpper(s.i.a, qe, c == Mps(st))), data);
      ContainsSplit(s.i, qe, data);
    }
  }

  // ----- Following a recorded sequence -----

  // From state s, the code value still has the decisions ds ahead of it.
  ghost predicate Follows(s: State, ds: seq<Decision>, data: seq<byte>) {
    Normalized(s.i) && InBins(ds, |s.stats|) && Contains(Run(s, ds).i, data)
  }

  // A decoder that is asked for the bin of the next recorded decision and keeps the code
  // value in its interval has read the recorded bit.
  lemma FollowStep(s: State, d: Decision, ds: seq<Decision>, data: seq<byte>)
    requires Follows(s, ds, data) && ds != [] && ds[0].bin == d.bin
    requires Contains(Step(s, d).i, data)
    ensures d == ds[0] && Follows(Step(s, d), ds[1..], data)
  {
    assert ds[0] in ds;
    assert InBins(ds[1..], |s.stats|);
    ContainsRun(Step(s, ds[0]), ds[1..], data);
    BitIsDetermined(s, d.bin, d.bit, ds[0].bit, data);
  }

  // How a segment started, what it holds, the marker behind it, the source behind the
  // marker, and the state its encoder ended in.
  datatype Fixture = Fixture(start: seq<Stat>, data: seq<byte>, mark: byte, behind: seq<byte>, goal: State)

  // After the decisions in history, the decisions ds are ahead and lead to the goal.
  ghost predicate Leads(f: Fixture, history: seq<Decision>, ds: seq<Decision>) {
    && InBins(history, |f.start|) && Follows(Run(Initial(f.start), history), ds, f.data)
    && Run(Run(Initial(f.start), history), ds) == f.goal
  }

  lemma LeadsNowhere(f: Fixture, history: seq<Decision>)
    requires Leads(f, history, [])
    ensures InBins(history, |f.start|) && Run(Initial(f.start), history) == f.goal
  {
  }
}
