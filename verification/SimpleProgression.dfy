// The recommended progressive script (jpeg_simple_progression of libs/jpeg/jcparam.c): it is
// accepted, and sends every bit of every coefficient.
module SimpleProgression {
  import opened ScanScript

  function OneScan(c: int, ss: int, se: int, ah: int, al: int): ScanInfo {
    ScanInfo([c], ss, se, ah, al)
  }

  function FirstComps(n: nat): (r: seq<int>)
    ensures |r| == n
  {
    seq(n, c => c)
  }

  // One scan for each component from c on.
  function PerComponent(c: nat, n: nat, ss: int, se: int, ah: int, al: int): (r: seq<ScanInfo>)
    requires c <= n
    ensures |r| == n - c
    decreases n - c
  {
    if c == n then [] else [OneScan(c, ss, se, ah, al)] + PerComponent(c + 1, n, ss, se, ah, al)
  }

  function DcScans(n: nat, ah: int, al: int): (r: seq<ScanInfo>)
    ensures |r| == if n <= MAX_COMPS_IN_SCAN then 1 else n
  {
    if n <= MAX_COMPS_IN_SCAN then [ScanInfo(FirstComps(n), 0, 0, ah, al)] else PerComponent(0, n, 0, 0, ah, al)
  }

  function ScriptFor(n: nat, ycc: bool): (r: seq<ScanInfo>)
    ensures |r| == if n == 3 && ycc then 10 else if n > MAX_COMPS_IN_SCAN then 6 * n else 2 + 4 * n
  {
    if n == 3 && ycc then
      DcScans(n, 0, 1)
      + [OneScan(0, 1, 5, 0, 2)] + [OneScan(2, 1, 63, 0, 1)] + [OneScan(1, 1, 63, 0, 1)]
      + [OneScan(0, 6, 63, 0, 2)] + [OneScan(0, 1, 63, 2, 1)]
      + DcScans(n, 1, 0)
      + [OneScan(2, 1, 63, 1, 0)] + [OneScan(1, 1, 63, 1, 0)] + [OneScan(0, 1, 63, 1, 0)]
    else
      DcScans(n, 0, 1)
      + PerComponent(0, n, 1, 5, 0, 2) + PerComponent(0, n, 6, 63, 0, 2)
      + PerComponent(0, n, 1, 63, 2, 1)
      + DcScans(n, 1, 0)
      + PerComponent(0, n, 1, 63, 1, 0)
  }

  // ----- Writing the script -----

  method FillAScan(space: array<ScanInfo>, at: nat, c: int, ss: int, se: int, ah: int, al: int) returns (next: nat)
    requires at < space.Length
    modifies space
    ensures next == at + 1 && space[..next] == old(space[..at]) + [OneScan(c, ss, se, ah, al)]
  {
    space[at] := ScanInfo([c], ss, se, ah, al);
    next := at + 1;
  }

  method FillScans(space: array<ScanInfo>, at: nat, ncomps: nat, ss: int, se: int, ah: int, al: int) returns (next: nat)
    requires at + ncomps <= space.Length
    modifies space
    ensures next == at + ncomps && space[..next] == old(space[..at]) + PerComponent(0, ncomps, ss, se, ah, al)
  {
    next := at;
    for ci := 0 to ncomps
      invariant next == at + ci
      invariant space[..next] + PerComponent(ci, ncomps, ss, se, ah, al)
        == old(space[..at]) + PerComponent(0, ncomps, ss, se, ah, al)
    {
      ghost var done := space[..next];
      space[next] := ScanInfo([ci], ss, se, ah, al);
      next := next + 1;
      assert space[..next] == done + [OneScan(ci, ss, se, ah, al)];
    }
  }

  method FillDcScans(space: array<ScanInfo>, at: nat, ncomps: nat, ah: int, al: int) returns (next: nat)
    requires at + (if ncomps <= MAX_COMPS_IN_SCAN then 1 else ncomps) <= space.Length
    modifies space
    ensures next == at + |DcScans(ncomps, ah, al)| && space[..next] == old(space[..at]) + DcScans(ncomps, ah, al)
  {
    next := at;
    if ncomps <= MAX_COMPS_IN_SCAN {
      // Single interleaved DC scan.
      var comps := [];
      for ci := 0 to ncomps
        invariant comps == FirstComps(ci)
      {
        comps := comps + [ci];
      }
      space[next] := ScanInfo(comps, 0, 0, ah, al);
      next := next + 1;
    } else {
      next := FillScans(space, next, ncomps, 0, 0, ah, al);
    }
  }

  // The script for YCbCr: some luma data first, the bottom bit of luma last.
  method FillColorScript(space: array<ScanInfo>) returns (at: nat)
    requires space.Length >= 10
    modifies space
    ensures at == 10 && space[..at] == ScriptFor(3, true)
  {
    hide DcScans, ScriptFor, OneScan;
    ColorScript();
    at := FillDcScans(space, 0, 3, 0, 1);
    at := FillAScan(space, at, 0, 1, 5, 0, 2);
    at := FillAScan(space, at, 2, 1, 63, 0, 1);
    at := FillAScan(space, at, 1, 1, 63, 0, 1);
    at := FillAScan(space, at, 0, 6, 63, 0, 2);
    at := FillAScan(space, at, 0, 1, 63, 2, 1);
    at := FillDcScans(space, at, 3, 1, 0);
    at := FillAScan(space, at, 2, 1, 63, 1, 0);
    at := FillAScan(space, at, 1, 1, 63, 1, 0);
    at := FillAScan(space, at, 0, 1, 63, 1, 0);
  }

  lemma ColorScript()
    ensures |DcScans(3, 0, 1)| == |DcScans(3, 1, 0)| == 1
    ensures ScriptFor(3, true) ==
      [] + DcScans(3, 0, 1)
      + [OneScan(0, 1, 5, 0, 2)] + [OneScan(2, 1, 63, 0, 1)] + [OneScan(1, 1, 63, 0, 1)]
      + [OneScan(0, 6, 63, 0, 2)] + [OneScan(0, 1, 63, 2, 1)]
      + DcScans(3, 1, 0)
      + [OneScan(2, 1, 63, 1, 0)] + [OneScan(1, 1, 63, 1, 0)] + [OneScan(0, 1, 63, 1, 0)]
  {
    hide DcScans;
  }

  method FillGeneralScript(space: array<ScanInfo>, ncomps: nat) returns (at: nat)
    requires space.Length >= |ScriptFor(ncomps, false)|
    modifies space
    ensures at == |ScriptFor(ncomps, false)| && space[..at] == ScriptFor(ncomps, false)
  {
    hide DcScans, PerComponent, ScriptFor;
    GeneralScript(ncomps);
    at := FillDcScans(space, 0, ncomps, 0, 1);
    at := FillScans(space, at, ncomps, 1, 5, 0, 2);
    at := FillScans(space, at, ncomps, 6, 63, 0, 2);
    at := FillScans(space, at, ncomps, 1, 63, 2, 1);
    at := FillDcScans(space, at, ncomps, 1, 0);
    at := FillScans(space, at, ncomps, 1, 63, 1, 0);
  }

  lemma GeneralScript(n: nat)
    ensures |ScriptFor(n, false)| == 2 * |DcScans(n, 0, 1)| + 4 * n && |DcScans(n, 0, 1)| == |DcScans(n, 1, 0)|
    ensures ScriptFor(n, false) ==
      [] + DcScans(n, 0, 1)
      + PerComponent(0, n, 1, 5, 0, 2) + PerComponent(0, n, 6, 63, 0, 2)
      + PerComponent(0, n, 1, 63, 2, 1)
      + DcScans(n, 1, 0)
      + PerComponent(0, n, 1, 63, 1, 0)
  {
  }

  // The space computed beforehand is what the script takes.
  method SimpleProgression(ncomps: nat, ycc: bool) returns (space: array<ScanInfo>, nscans: nat)
    ensures fresh(space) && nscans <= space.Length && space[..nscans] == ScriptFor(ncomps, ycc)
  {
    if ncomps == 3 && ycc {
      nscans := 10;
    } else if ncomps > MAX_COMPS_IN_SCAN {
      nscans := 6 * ncomps;   // DC scans cannot be interleaved
    } else {
      nscans := 2 + 4 * ncomps;
    }
    space := new ScanInfo[if nscans < 10 then 10 else nscans](_ => ScanInfo([], 0, 0, 0, 0));
    hide ScriptFor;
    if ncomps == 3 && ycc {
      var _ := FillColorScript(space);
    } else {
      var _ := FillGeneralScript(space, ncomps);
      assert ScriptFor(ncomps, false) == ScriptFor(ncomps, ycc) by {
        SameScript(ncomps, ycc);
      }
    }
  }

  lemma SameScript(n: nat, ycc: bool)
    requires n != 3 || !ycc
    ensures ScriptFor(n, ycc) == ScriptFor(n, false)
  {
  }

  // ----- What the script sends -----

  // DC at level d, the first AC coefficients at level x, the others at level y.
  function Levels(d: int, x: int, y: int): (row: seq<int>)
    ensures |row| == DCTSIZE2
  {
    seq(DCTSIZE2, k => if k == 0 then d else if k <= 5 then x else y)
  }

  // The first i components have moved on from one row of levels to the next.
  function MovedOn(n: nat, i: nat, before: seq<int>, after: seq<int>): (bits: Progress)
    ensures |bits| == n
  {
    seq(n, c => if c < i then after else before)
  }

  function All(n: nat, row: seq<int>): (bits: Progress)
    ensures |bits| == n && forall c :: 0 <= c < n ==> bits[c] == row
  {
    seq(n, _ => row)
  }

  // A script leads from one state of the transmission to another.
  ghost predicate LeadsTo(n: nat, a: Progress, script: seq<ScanInfo>, b: Progress) {
    LegalFrom(true, n, DCTSIZE2 - 1, a, script) && SentFrom(a, script) == b
  }

  lemma {:induction false} LeadsOn(n: nat, a: Progress, s: seq<ScanInfo>, b: Progress, t: seq<ScanInfo>, c: Progress)
    requires LeadsTo(n, a, s, b) && LeadsTo(n, b, t, c)
    ensures LeadsTo(n, a, s + t, c)
    decreases |s|
  {
    hide LegalScan, SentScan;
    if s == [] {
      assert s + t == t;
    } else {
      LeadsOn(n, SentScan(a, s[0]), s[1..], b, t, c);
      assert (s + t)[1..] == s[1..] + t;
    }
  }

  // A single scan of one component.
  lemma OneLeads(n: nat, a: Progress, c: nat, ss: int, se: int, ah: int, al: int, after: seq<int>)
    requires ForComponents(n, a) && c < n && 0 <= ss <= se < DCTSIZE2 && (ss == 0 ==> se == 0)
    requires 0 <= ah <= MAX_AH_AL && 0 <= al <= MAX_AH_AL
    requires LegalBand(a[c], OneScan(c, ss, se, ah, al)) && after == SentBand(a[c], OneScan(c, ss, se, ah, al))
    ensures LeadsTo(n, a, [OneScan(c, ss, se, ah, al)], a[c := after])
  {
    var s := OneScan(c, ss, se, ah, al);
    assert s.comps[..1] == [c];
    assert SentScan(a, s) == a[c := after];
    assert [s][1..] == [];
  }

  // One scan for each component.
  lemma {:induction false} PerComponentLeads(n: nat, c: nat, ss: int, se: int, ah: int, al: int,
                                             before: seq<int>, after: seq<int>)
    requires c <= n && 0 <= ss <= se < DCTSIZE2 && (ss == 0 ==> se == 0)
    requires 0 <= ah <= MAX_AH_AL && 0 <= al <= MAX_AH_AL && |before| == DCTSIZE2
    requires LegalBand(before, OneScan(0, ss, se, ah, al)) && after == SentBand(before, OneScan(0, ss, se, ah, al))
    ensures LeadsTo(n, MovedOn(n, c, before, after), PerComponent(c, n, ss, se, ah, al), All(n, after))
    decreases n - c
  {
    hide LegalFrom, LeadsTo;
    if c == n {
      assert MovedOn(n, c, before, after) == All(n, after);
      Arrived(n, All(n, after));
    } else {
      var now := MovedOn(n, c, before, after);
      assert now[c := after] == MovedOn(n, c + 1, before, after);
      AnyComponent(before, 0, c, ss, se, ah, al);
      OneLeads(n, now, c, ss, se, ah, al, after);
      PerComponentLeads(n, c + 1, ss, se, ah, al, before, after);
      LeadsOn(n, now, [OneScan(c, ss, se, ah, al)], now[c := after], PerComponent(c + 1, n, ss, se, ah, al), All(n, after));
    }
  }

  lemma AnyComponent(row: seq<int>, b: int, c: int, ss: int, se: int, ah: int, al: int)
    requires LegalBand(row, OneScan(b, ss, se, ah, al))
    ensures LegalBand(row, OneScan(c, ss, se, ah, al))
    ensures SentBand(row, OneScan(b, ss, se, ah, al)) == SentBand(row, OneScan(c, ss, se, ah, al))
  {
    forall k | ss <= k <= se
      ensures Due(row, OneScan(c, ss, se, ah, al), k)
    {
      assert Due(row, OneScan(b, ss, se, ah, al), k);
    }
  }

  lemma Arrived(n: nat, a: Progress)
    ensures LeadsTo(n, a, [], a)
  {
  }

  lemma DcLeads(n: nat, ah: int, al: int, before: seq<int>, after: seq<int>)
    requires 0 < n && 0 <= ah <= MAX_AH_AL && 0 <= al <= MAX_AH_AL && |before| == DCTSIZE2
    requires LegalBand(before, OneScan(0, 0, 0, ah, al)) && after == SentBand(before, OneScan(0, 0, 0, ah, al))
    ensures LeadsTo(n, All(n, before), DcScans(n, ah, al), All(n, after))
  {
    if n <= MAX_COMPS_IN_SCAN {
      var s := ScanInfo(FirstComps(n), 0, 0, ah, al);
      assert forall c :: 0 <= c < n ==> FirstComps(n)[c] == c;
      assert LegalBand(before, s) by {
        assert Due(before, OneScan(0, 0, 0, ah, al), 0);
      }
      assert SentBand(before, s) == after;
      forall c | 0 <= c < n
        ensures SentScan(All(n, before), s)[c] == after
      {
        assert FirstComps(n)[c] in s.comps;
      }
      assert SentScan(All(n, before), s) == All(n, after);
      assert [s][1..] == [];
    } else {
      PerComponentLeads(n, 0, 0, 0, ah, al, before, after);
      assert MovedOn(n, 0, before, after) == All(n, before);
    }
  }

  // A band of one row, from one level to the next.
  lemma BandMoves(c: int, ss: int, se: int, ah: int, al: int, d: int, x: int, y: int, d': int, x': int, y': int)
    requires (ss, se) in {(0, 0), (1, 5), (6, 63), (1, 63)} && (ss == 0 || d >= 0)
    requires ss == 0 ==> d' == al && x' == x && y' == y && DueFrom(d, ah, al)
    requires ss == 1 ==> d' == d && x' == al && DueFrom(x, ah, al)
    requires se == 5 ==> y' == y
    requires se == 63 ==> y' == al && DueFrom(y, ah, al)
    requires ss == 6 ==> d' == d && x' == x
    ensures LegalBand(Levels(d, x, y), OneScan(c, ss, se, ah, al))
    ensures SentBand(Levels(d, x, y), OneScan(c, ss, se, ah, al)) == Levels(d', x', y')
  {
    assert forall k :: ss <= k <= se ==> Due(Levels(d, x, y), OneScan(c, ss, se, ah, al), k);
  }

  predicate DueFrom(level: int, ah: int, al: int) {
    if level < 0 then ah == 0 else ah == level && al == ah - 1
  }

  lemma {:induction false} GeneralScriptLeads(n: nat)
    requires 0 < n
    ensures LeadsTo(n, All(n, Levels(-1, -1, -1)), ScriptFor(n, false), All(n, Levels(0, 0, 0)))
  {
    hide LeadsTo, DcScans, PerComponent, All, Levels, LegalBand, SentBand, MovedOn;
    BandMoves(0, 0, 0, 0, 1, -1, -1, -1, 1, -1, -1);
    DcLeads(n, 0, 1, Levels(-1, -1, -1), Levels(1, -1, -1));
    AllMove(n, 1, 5, 0, 2, 1, -1, -1, 1, 2, -1);
    AllMove(n, 6, 63, 0, 2, 1, 2, -1, 1, 2, 2);
    AllMove(n, 1, 63, 2, 1, 1, 2, 2, 1, 1, 1);
    BandMoves(0, 0, 0, 1, 0, 1, 1, 1, 0, 1, 1);
    DcLeads(n, 1, 0, Levels(1, 1, 1), Levels(0, 1, 1));
    AllMove(n, 1, 63, 1, 0, 0, 1, 1, 0, 0, 0);
    var t := All(n, Levels(-1, -1, -1));
    var s := DcScans(n, 0, 1);
    LeadsOn(n, t, s, All(n, Levels(1, -1, -1)), PerComponent(0, n, 1, 5, 0, 2), All(n, Levels(1, 2, -1)));
    s := s + PerComponent(0, n, 1, 5, 0, 2);
    LeadsOn(n, t, s, All(n, Levels(1, 2, -1)), PerComponent(0, n, 6, 63, 0, 2), All(n, Levels(1, 2, 2)));
    s := s + PerComponent(0, n, 6, 63, 0, 2);
    LeadsOn(n, t, s, All(n, Levels(1, 2, 2)), PerComponent(0, n, 1, 63, 2, 1), All(n, Levels(1, 1, 1)));
    s := s + PerComponent(0, n, 1, 63, 2, 1);
    LeadsOn(n, t, s, All(n, Levels(1, 1, 1)), DcScans(n, 1, 0), All(n, Levels(0, 1, 1)));
    s := s + DcScans(n, 1, 0);
    LeadsOn(n, t, s, All(n, Levels(0, 1, 1)), PerComponent(0, n, 1, 63, 1, 0), All(n, Levels(0, 0, 0)));
  }

  lemma AllMove(n: nat, ss: int, se: int, ah: int, al: int, d: int, x: int, y: int, d': int, x': int, y': int)
    requires 0 <= ah <= 2 && 0 <= al <= 2
    requires (ss, se) in {(1, 5), (6, 63), (1, 63)} && d >= 0 && d' == d
    requires if ss == 1 then x' == al && DueFrom(x, ah, al) else x' == x
    requires if se == 63 then y' == al && DueFrom(y, ah, al) else y' == y
    ensures LeadsTo(n, All(n, Levels(d, x, y)), PerComponent(0, n, ss, se, ah, al), All(n, Levels(d', x', y')))
  {
    hide LegalBand, SentBand, LeadsTo;
    BandMoves(0, ss, se, ah, al, d, x, y, d', x', y');
    PerComponentLeads(n, 0, ss, se, ah, al, Levels(d, x, y), Levels(d', x', y'));
    assert MovedOn(n, 0, Levels(d, x, y), Levels(d', x', y')) == All(n, Levels(d, x, y));
  }

  // One component of three moves on.
  lemma OneMoves(a: Progress, c: nat, ss: int, se: int, ah: int, al: int,
                 d: int, x: int, y: int, d': int, x': int, y': int)
    requires |a| == 3 && (forall i :: 0 <= i < 3 ==> |a[i]| == DCTSIZE2) && c < 3 && a[c] == Levels(d, x, y)
    requires 0 <= ah <= 2 && 0 <= al <= 2
    requires (ss, se) in {(1, 5), (6, 63), (1, 63)} && d >= 0 && d' == d
    requires if ss == 1 then x' == al && DueFrom(x, ah, al) else x' == x
    requires if se == 63 then y' == al && DueFrom(y, ah, al) else y' == y
    ensures LeadsTo(3, a, [OneScan(c, ss, se, ah, al)], a[c := Levels(d', x', y')])
  {
    hide LegalBand, SentBand, LeadsTo, Levels;
    BandMoves(c, ss, se, ah, al, d, x, y, d', x', y');
    OneLeads(3, a, c, ss, se, ah, al, Levels(d', x', y'));
  }

  // The script for YCbCr, scan by scan.
  lemma {:induction false} ColorScriptLeads()
    ensures LeadsTo(3, All(3, Levels(-1, -1, -1)), ScriptFor(3, true), All(3, Levels(0, 0, 0)))
  {
    hide LeadsTo, DcScans, Levels, LegalBand, SentBand;
    var t, s := All(3, Levels(-1, -1, -1)), DcScans(3, 0, 1);
    BandMoves(0, 0, 0, 0, 1, -1, -1, -1, 1, -1, -1);
    DcLeads(3, 0, 1, Levels(-1, -1, -1), Levels(1, -1, -1));
    var a := All(3, Levels(1, -1, -1));
    s, a := ThenOne(t, s, a, 0, 1, 5, 0, 2, 1, -1, -1, 1, 2, -1);
    s, a := ThenOne(t, s, a, 2, 1, 63, 0, 1, 1, -1, -1, 1, 1, 1);
    s, a := ThenOne(t, s, a, 1, 1, 63, 0, 1, 1, -1, -1, 1, 1, 1);
    s, a := ThenOne(t, s, a, 0, 6, 63, 0, 2, 1, 2, -1, 1, 2, 2);
    s, a := ThenOne(t, s, a, 0, 1, 63, 2, 1, 1, 2, 2, 1, 1, 1);
    assert a == All(3, Levels(1, 1, 1));
    BandMoves(0, 0, 0, 1, 0, 1, 1, 1, 0, 1, 1);
    DcLeads(3, 1, 0, Levels(1, 1, 1), Levels(0, 1, 1));
    LeadsOn(3, t, s, a, DcScans(3, 1, 0), All(3, Levels(0, 1, 1)));
    s, a := s + DcScans(3, 1, 0), All(3, Levels(0, 1, 1));
    s, a := ThenOne(t, s, a, 2, 1, 63, 1, 0, 0, 1, 1, 0, 0, 0);
    s, a := ThenOne(t, s, a, 1, 1, 63, 1, 0, 0, 1, 1, 0, 0, 0);
    s, a := ThenOne(t, s, a, 0, 1, 63, 1, 0, 0, 1, 1, 0, 0, 0);
    assert a == All(3, Levels(0, 0, 0));
  }

  lemma ThenOne(t: Progress, s: seq<ScanInfo>, a: Progress, c: nat, ss: int, se: int, ah: int, al: int,
                d: int, x: int, y: int, d': int, x': int, y': int) returns (s': seq<ScanInfo>, a': Progress)
    requires LeadsTo(3, t, s, a)
    requires |a| == 3 && (forall i :: 0 <= i < 3 ==> |a[i]| == DCTSIZE2) && c < 3 && a[c] == Levels(d, x, y)
    requires 0 <= ah <= 2 && 0 <= al <= 2
    requires (ss, se) in {(1, 5), (6, 63), (1, 63)} && d >= 0 && d' == d
    requires if ss == 1 then x' == al && DueFrom(x, ah, al) else x' == x
    requires if se == 63 then y' == al && DueFrom(y, ah, al) else y' == y
    ensures s' == s + [OneScan(c, ss, se, ah, al)] && a' == a[c := Levels(d', x', y')] && LeadsTo(3, t, s', a')
  {
    hide LeadsTo, Levels;
    s', a' := s + [OneScan(c, ss, se, ah, al)], a[c := Levels(d', x', y')];
    OneMoves(a, c, ss, se, ah, al, d, x, y, d', x', y');
    LeadsOn(3, t, s, a, [OneScan(c, ss, se, ah, al)], a');
  }

  // The script is accepted as a progressive one and sends everything.
  lemma SimpleProgressionIsAccepted(n: nat, ycc: bool)
    requires 0 < n
    ensures Accepted(n, ScriptFor(n, ycc)) && IsProgressive(ScriptFor(n, ycc))
    ensures AllSent(DCTSIZE2 - 1, SentFrom(NothingSent(n), ScriptFor(n, ycc)))
  {
    hide LegalFrom, SentFrom, PerComponent;
    assert All(n, Levels(-1, -1, -1)) == NothingSent(n) by {
      assert forall c, k :: 0 <= c < n && 0 <= k < DCTSIZE2 ==> Levels(-1, -1, -1)[k] == NothingSent(n)[c][k];
      assert forall c :: 0 <= c < n ==> Levels(-1, -1, -1) == NothingSent(n)[c];
    }
    if n == 3 && ycc {
      ColorScriptLeads();
    } else {
      GeneralScriptLeads(n);
    }
    assert ScriptFor(n, ycc)[0] == DcScans(n, 0, 1)[0];
    FirstIsDc(n);
  }

  lemma FirstIsDc(n: nat)
    requires 0 < n
    ensures DcScans(n, 0, 1)[0].ss == 0 && DcScans(n, 0, 1)[0].se == 0
  {
  }
}
