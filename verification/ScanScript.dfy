// Scan scripts: which ones validate_script of libs/jpeg/jcmaster.c accepts, and what
// reduce_script makes of them for small blocks.
module ScanScript {

  const DCTSIZE := 8
  const DCTSIZE2 := 64
  const MAX_COMPONENTS := 10
  const MAX_COMPS_IN_SCAN := 4
  const MAX_AH_AL := 10   // 8-bit samples

  datatype ScanInfo = ScanInfo(comps: seq<int>, ss: int, se: int, ah: int, al: int)

  // For each component and coefficient, -1 until it has been sent, then the last Al.
  type Progress = seq<seq<int>>

  predicate ForComponents(n: nat, bits: Progress) {
    |bits| == n && forall c :: 0 <= c < n ==> |bits[c]| == DCTSIZE2
  }

  function NothingSent(n: nat): (bits: Progress)
    ensures ForComponents(n, bits) && forall c, k :: 0 <= c < n && 0 <= k < DCTSIZE2 ==> bits[c][k] == -1
  {
    seq(n, _ => seq(DCTSIZE2, _ => -1))
  }

  // ----- Which scans are legal -----

  predicate GoodComps(n: nat, comps: seq<int>) {
    && 0 < |comps| <= MAX_COMPS_IN_SCAN
    && (forall i :: 0 <= i < |comps| ==> 0 <= comps[i] < n)
    && (forall i, j :: 0 <= i < j < |comps| ==> comps[i] < comps[j])
  }

  // The progression parameters, for blocks whose last coefficient is lim. All the coefficients
  // of a sequential scan are sent at once.
  predicate GoodBand(progressive: bool, lim: nat, s: ScanInfo) {
    if progressive then
      && 0 <= s.ss <= s.se <= lim && 0 <= s.ah <= MAX_AH_AL && 0 <= s.al <= MAX_AH_AL
      && (if s.ss == 0 then s.se == 0 else |s.comps| == 1)
    else s.ss == 0 && s.se == lim && s.ah == 0 && s.al == 0
  }

  // Each coefficient is sent for the first time, or refined by one bit.
  predicate Due(row: seq<int>, s: ScanInfo, k: int)
    requires 0 <= k < |row|
  {
    if row[k] < 0 then s.ah == 0 else s.ah == row[k] && s.al == s.ah - 1
  }

  predicate LegalBand(row: seq<int>, s: ScanInfo) {
    && |row| == DCTSIZE2 && 0 <= s.ss && s.se < DCTSIZE2
    && (s.ss != 0 ==> row[0] >= 0)
    && forall k :: s.ss <= k <= s.se ==> Due(row, s, k)
  }

  predicate LegalScan(progressive: bool, n: nat, lim: nat, bits: Progress, s: ScanInfo) {
    && ForComponents(n, bits) && GoodComps(n, s.comps) && GoodBand(progressive, lim, s)
    && forall i :: 0 <= i < |s.comps| ==> LegalBand(bits[s.comps[i]], s)
  }

  function SentBand(row: seq<int>, s: ScanInfo): (r: seq<int>)
    ensures |r| == |row|
  {
    seq(|row|, k requires 0 <= k < |row| => if s.ss <= k <= s.se then s.al else row[k])
  }

  // What has been sent once the first i components of a scan are done.
  function SentComps(bits: Progress, s: ScanInfo, i: nat): (r: Progress)
    requires i <= |s.comps|
    ensures |r| == |bits| && forall c :: 0 <= c < |r| ==> |r[c]| == |bits[c]|
  {
    seq(|bits|, c requires 0 <= c < |bits| => if c in s.comps[..i] then SentBand(bits[c], s) else bits[c])
  }

  function SentScan(bits: Progress, s: ScanInfo): (r: Progress)
    ensures |r| == |bits| && forall c :: 0 <= c < |r| ==> |r[c]| == |bits[c]|
    ensures forall c :: 0 <= c < |r| ==> r[c] == if c in s.comps then SentBand(bits[c], s) else bits[c]
  {
    assert s.comps[..|s.comps|] == s.comps;
    SentComps(bits, s, |s.comps|)
  }

  predicate LegalFrom(progressive: bool, n: nat, lim: nat, bits: Progress, script: seq<ScanInfo>)
    decreases |script|
  {
    script == [] ||
    (LegalScan(progressive, n, lim, bits, script[0])
     && LegalFrom(progressive, n, lim, SentScan(bits, script[0]), script[1..]))
  }

  // What has been sent after a script.
  function SentFrom(bits: Progress, script: seq<ScanInfo>): (r: Progress)
    ensures |r| == |bits| && forall c :: 0 <= c < |r| ==> |r[c]| == |bits[c]|
    decreases |script|
  {
    if script == [] then bits else SentFrom(SentScan(bits, script[0]), script[1..])
  }

  predicate IsProgressive(script: seq<ScanInfo>) {
    script != [] && (script[0].ss != 0 || script[0].se != DCTSIZE2 - 1)
  }

  predicate DcSent(bits: Progress) {
    forall c :: 0 <= c < |bits| ==> bits[c] != [] && bits[c][0] >= 0
  }

  // Every coefficient up to lim has been sent to its last bit.
  predicate AllSent(lim: nat, bits: Progress) {
    forall c, k :: 0 <= c < |bits| && 0 <= k <= lim && k < |bits[c]| ==> bits[c][k] == 0
  }

  // The scripts for n components that make a JPEG file.
  predicate Accepted(n: nat, script: seq<ScanInfo>) {
    && script != []
    && LegalFrom(IsProgressive(script), n, DCTSIZE2 - 1, NothingSent(n), script)
    && DcSent(SentFrom(NothingSent(n), script))
  }

  lemma NewComp(n: nat, comps: seq<int>, i: nat)
    requires GoodComps(n, comps) && i < |comps|
    ensures comps[i] !in comps[..i]
    ensures forall c :: c in comps[..i + 1] <==> c in comps[..i] || c == comps[i]
  {
    assert comps[..i + 1] == comps[..i] + [comps[i]];
  }

  // ----- Validation -----

  function Row(a: array2<int>, c: nat): (r: seq<int>)
    requires c < a.Length0
    reads a
    ensures |r| == a.Length1 && forall k :: 0 <= k < |r| ==> r[k] == a[c, k]
  {
    seq(a.Length1, k requires 0 <= k < a.Length1 reads a => a[c, k])
  }

  ghost predicate Stores(a: array2<int>, bits: Progress)
    reads a
  {
    && a.Length0 == |bits| && a.Length1 == DCTSIZE2
    && forall c :: 0 <= c < |bits| ==> bits[c] == Row(a, c)
  }

  method CheckComps(n: nat, comps: seq<int>) returns (ok: bool)
    ensures ok <==> GoodComps(n, comps)
  {
    if |comps| == 0 || |comps| > MAX_COMPS_IN_SCAN {
      return false;
    }
    for ci := 0 to |comps|
      invariant forall i :: 0 <= i < ci ==> 0 <= comps[i] < n
      invariant forall i, j :: 0 <= i < j < ci ==> comps[i] < comps[j]
    {
      var thisi := comps[ci];
      if thisi < 0 || thisi >= n {
        return false;
      }
      // Also rules out a component that occurs twice.
      if ci > 0 && thisi <= comps[ci - 1] {
        return false;
      }
    }
    ok := true;
  }

  method CheckBand(s: ScanInfo) returns (ok: bool)
    ensures ok <==> GoodBand(true, DCTSIZE2 - 1, s)
  {
    if s.ss < 0 || s.ss >= DCTSIZE2 || s.se < s.ss || s.se >= DCTSIZE2
       || s.ah < 0 || s.ah > MAX_AH_AL || s.al < 0 || s.al > MAX_AH_AL {
      return false;
    }
    if s.ss == 0 {
      ok := s.se == 0;
    } else {
      ok := |s.comps| == 1;
    }
  }

  // One component of a scan against the last bit positions.
  method CheckProgress(s: ScanInfo, c: nat, lastBitpos: array2<int>) returns (ok: bool)
    requires 0 <= s.ss <= s.se < DCTSIZE2 && c < lastBitpos.Length0 && lastBitpos.Length1 == DCTSIZE2
    modifies lastBitpos
    ensures ok <==> LegalBand(old(Row(lastBitpos, c)), s)
    ensures ok ==> Row(lastBitpos, c) == SentBand(old(Row(lastBitpos, c)), s)
    ensures forall d :: 0 <= d < lastBitpos.Length0 && d != c ==> Row(lastBitpos, d) == old(Row(lastBitpos, d))
  {
    ghost var row := Row(lastBitpos, c);
    if s.ss != 0 && lastBitpos[c, 0] < 0 {
      return false;
    }
    for k := s.ss to s.se + 1
      invariant forall i :: 0 <= i < DCTSIZE2 ==> lastBitpos[c, i] == if s.ss <= i < k then s.al else row[i]
      invariant forall i :: s.ss <= i < k ==> Due(row, s, i)
      invariant forall d, i :: 0 <= d < lastBitpos.Length0 && d != c && 0 <= i < DCTSIZE2 ==>
        lastBitpos[d, i] == old(lastBitpos[d, i])
    {
      assert lastBitpos[c, k] == row[k];
      if lastBitpos[c, k] < 0 {
        if s.ah != 0 {
          assert !Due(row, s, k);
          return false;
        }
      } else {
        if s.ah != lastBitpos[c, k] || s.al != s.ah - 1 {
          assert !Due(row, s, k);
          return false;
        }
      }
      lastBitpos[c, k] := s.al;
    }
    ok := true;
  }

  method CheckProgressiveScan(n: nat, s: ScanInfo, lastBitpos: array2<int>, ghost bits: Progress) returns (ok: bool)
    requires Stores(lastBitpos, bits) && |bits| == n
    modifies lastBitpos
    ensures ok <==> LegalScan(true, n, DCTSIZE2 - 1, bits, s)
    ensures ok ==> Stores(lastBitpos, SentScan(bits, s))
  {
    hide LegalBand, SentBand;
    ok := CheckComps(n, s.comps);
    if !ok {
      return;
    }
    ok := CheckBand(s);
    if !ok {
      return;
    }
    for ci := 0 to |s.comps|
      invariant Stores(lastBitpos, SentComps(bits, s, ci))
      invariant forall i :: 0 <= i < ci ==> LegalBand(bits[s.comps[i]], s)
    {
      NewComp(n, s.comps, ci);
      ok := CheckProgress(s, s.comps[ci], lastBitpos);
      if !ok {
        return;
      }
    }
    assert s.comps[..|s.comps|] == s.comps;
    ok := true;
  }

  // componentSent says of each component whether all of it, or nothing of it, has been sent.
  ghost predicate Marks(componentSent: array<bool>, bits: Progress)
    reads componentSent
  {
    && componentSent.Length == |bits| && ForComponents(|bits|, bits)
    && forall c, k :: 0 <= c < |bits| && 0 <= k < DCTSIZE2 ==> bits[c][k] == if componentSent[c] then 0 else -1
  }

  method CheckSequentialScan(n: nat, s: ScanInfo, componentSent: array<bool>, ghost bits: Progress) returns (ok: bool)
    requires Marks(componentSent, bits) && |bits| == n
    modifies componentSent
    ensures ok <==> LegalScan(false, n, DCTSIZE2 - 1, bits, s)
    ensures ok ==> Marks(componentSent, SentScan(bits, s))
  {
    ok := CheckComps(n, s.comps);
    if !ok {
      return;
    }
    if s.ss != 0 || s.se != DCTSIZE2 - 1 || s.ah != 0 || s.al != 0 {
      return false;
    }
    for ci := 0 to |s.comps|
      invariant Marks(componentSent, SentComps(bits, s, ci))
      invariant forall i :: 0 <= i < ci ==> LegalBand(bits[s.comps[i]], s)
    {
      NewComp(n, s.comps, ci);
      var thisi := s.comps[ci];
      assert SentComps(bits, s, ci)[thisi] == bits[thisi];
      if componentSent[thisi] {
        assert !Due(bits[thisi], s, 0);
        return false;
      }
      componentSent[thisi] := true;
    }
    assert s.comps[..|s.comps|] == s.comps;
    ok := true;
  }

  // Validation accepts exactly the scripts in which every scan sends what is due, and some DC
  // data of every component is sent.
  method ValidateScript(n: nat, script: seq<ScanInfo>) returns (ok: bool, progressive: bool)
    requires n <= MAX_COMPONENTS
    ensures ok <==> Accepted(n, script)
    ensures ok ==> progressive == IsProgressive(script)
  {
    hide LegalScan, SentScan;
    progressive := false;
    if |script| == 0 {
      return false, progressive;
    }
    progressive := script[0].ss != 0 || script[0].se != DCTSIZE2 - 1;
    var lastBitpos := new int[n, DCTSIZE2]((_, _) => -1);
    var componentSent := new bool[n](_ => false);
    ghost var bits := NothingSent(n);
    for scanno := 0 to |script|
      invariant |bits| == n && if progressive then Stores(lastBitpos, bits) else Marks(componentSent, bits)
      invariant LegalFrom(progressive, n, DCTSIZE2 - 1, NothingSent(n), script)
        == LegalFrom(progressive, n, DCTSIZE2 - 1, bits, script[scanno..])
      invariant SentFrom(NothingSent(n), script) == SentFrom(bits, script[scanno..])
    {
      assert script[scanno..][0] == script[scanno] && script[scanno..][1..] == script[scanno + 1..];
      if progressive {
        ok := CheckProgressiveScan(n, script[scanno], lastBitpos, bits);
      } else {
        ok := CheckSequentialScan(n, script[scanno], componentSent, bits);
      }
      if !ok {
        return;
      }
      bits := SentScan(bits, script[scanno]);
    }
    ok := true;
    for ci := 0 to n
      invariant ok <==> forall c :: 0 <= c < ci ==> bits[c] != [] && bits[c][0] >= 0
    {
      assert bits[ci] != [] && (bits[ci][0] >= 0 <==> if progressive then lastBitpos[ci, 0] >= 0 else componentSent[ci]);
      if progressive {
        ok := ok && lastBitpos[ci, 0] >= 0;
      } else {
        ok := ok && componentSent[ci];
      }
    }
  }

  // ----- Reduction for small blocks -----

  // The last coefficient of a block.
  function LimSe(blockSize: nat): (lim: nat)
    requires 1 <= blockSize <= 16
    ensures lim < DCTSIZE2 && (lim == DCTSIZE2 - 1 <==> blockSize >= DCTSIZE)
  {
    if blockSize < DCTSIZE then
      assert blockSize * blockSize <= 7 * 7;
      blockSize * blockSize - 1
    else DCTSIZE2 - 1
  }

  function Clipped(s: ScanInfo, lim: nat): ScanInfo {
    if s.se > lim then s.(se := lim) else s
  }

  // The script without what lies beyond coefficient lim.
  function Reduced(script: seq<ScanInfo>, lim: nat): (r: seq<ScanInfo>)
    ensures |r| <= |script|
  {
    if script == [] then []
    else (if script[0].ss > lim then [] else [Clipped(script[0], lim)]) + Reduced(script[1..], lim)
  }

  // Move one entry to the front, and keep it there unless it is out of range.
  method MoveEntry(scans: array<ScanInfo>, idxin: nat, idxout: nat, lim: nat) returns (next: nat)
    requires idxout <= idxin < scans.Length
    modifies scans
    ensures idxout <= next <= idxout + 1
    ensures scans[..next] == old(scans[..idxout]) +
      if old(scans[idxin]).ss > lim then [] else [Clipped(old(scans[idxin]), lim)]
    ensures forall i :: idxin < i < scans.Length ==> scans[i] == old(scans[i])
  {
    // Behind a skipped entry there is a gap to close.
    if idxin != idxout {
      scans[idxout] := scans[idxin];
    }
    if scans[idxout].ss > lim {
      return idxout;
    }
    if scans[idxout].se > lim {
      scans[idxout] := scans[idxout].(se := lim);
    }
    next := idxout + 1;
  }

  // The script is compacted in place.
  method ReduceScript(scans: array<ScanInfo>, numScans: nat, lim: nat) returns (count: nat)
    requires numScans <= scans.Length
    modifies scans
    ensures count <= numScans && scans[..count] == Reduced(old(scans[..numScans]), lim)
    ensures scans[numScans..] == old(scans[numScans..])
  {
    ghost var script := scans[..numScans];
    hide Reduced, Clipped;
    assert script[0..] == script;
    count := 0;
    for idxin := 0 to numScans
      invariant count <= idxin
      invariant forall i :: idxin <= i < scans.Length ==> scans[i] == old(scans[i])
      invariant scans[..count] + Reduced(script[idxin..], lim) == Reduced(script, lim)
    {
      ReducedNext(script, lim, idxin, scans[..count]);
      count := MoveEntry(scans, idxin, count, lim);
    }
    ReducedEnd(script, lim, scans[..count]);
  }

  lemma ReducedNext(script: seq<ScanInfo>, lim: nat, i: nat, done: seq<ScanInfo>)
    requires i < |script|
    ensures done + Reduced(script[i..], lim)
         == done + (if script[i].ss > lim then [] else [Clipped(script[i], lim)]) + Reduced(script[i + 1..], lim)
  {
    assert script[i..][1..] == script[i + 1..];
  }

  lemma ReducedEnd(script: seq<ScanInfo>, lim: nat, done: seq<ScanInfo>)
    ensures done + Reduced(script[|script|..], lim) == done
  {
  }

  // The same has been sent of the coefficients up to lim.
  predicate Agree(lim: nat, a: Progress, b: Progress) {
    && ForComponents(|a|, a) && ForComponents(|a|, b)
    && forall c, k :: 0 <= c < |a| && 0 <= k <= lim && k < DCTSIZE2 ==> a[c][k] == b[c][k]
  }

  lemma ReducedScan(progressive: bool, n: nat, lim: nat, a: Progress, b: Progress, s: ScanInfo)
    requires lim < DCTSIZE2 && LegalScan(progressive, n, DCTSIZE2 - 1, a, s) && Agree(lim, a, b)
    ensures s.ss <= lim ==> LegalScan(progressive, n, lim, b, Clipped(s, lim))
    ensures Agree(lim, SentScan(a, s), if s.ss > lim then b else SentScan(b, Clipped(s, lim)))
  {
    if s.ss <= lim {
      forall i | 0 <= i < |s.comps|
        ensures LegalBand(b[s.comps[i]], Clipped(s, lim))
      {
        var c := s.comps[i];
        assert LegalBand(a[c], s);
        assert a[c][0] == b[c][0];
        forall k | s.ss <= k <= Clipped(s, lim).se
          ensures Due(b[c], Clipped(s, lim), k)
        {
          assert a[c][k] == b[c][k] && Due(a[c], s, k);
        }
      }
    }
  }

  // A legal script stays legal when it is reduced, and sends the same up to lim.
  lemma {:induction false} ReducedIsLegal(progressive: bool, n: nat, lim: nat, a: Progress, b: Progress, script: seq<ScanInfo>)
    requires lim < DCTSIZE2 && LegalFrom(progressive, n, DCTSIZE2 - 1, a, script) && Agree(lim, a, b)
    ensures LegalFrom(progressive, n, lim, b, Reduced(script, lim))
    ensures Agree(lim, SentFrom(a, script), SentFrom(b, Reduced(script, lim)))
    decreases |script|
  {
    hide LegalScan, SentScan, Agree, Clipped;
    if script != [] {
      var s := script[0];
      ReducedScan(progressive, n, lim, a, b, s);
      if s.ss > lim {
        ReducedIsLegal(progressive, n, lim, SentScan(a, s), b, script[1..]);
        assert [] + Reduced(script[1..], lim) == Reduced(script[1..], lim);
      } else {
        ReducedIsLegal(progressive, n, lim, SentScan(a, s), SentScan(b, Clipped(s, lim)), script[1..]);
        assert ([Clipped(s, lim)] + Reduced(script[1..], lim))[1..] == Reduced(script[1..], lim);
      }
    }
  }

  // The script that a compression with this block size follows.
  function Followed(script: seq<ScanInfo>, blockSize: nat): seq<ScanInfo>
    requires 1 <= blockSize <= 16
  {
    if blockSize < DCTSIZE then Reduced(script, LimSe(blockSize)) else script
  }

  lemma {:induction false} FollowedIsLegal(n: nat, script: seq<ScanInfo>, blockSize: nat)
    requires Accepted(n, script) && 1 <= blockSize <= 16
    ensures LegalFrom(IsProgressive(script), n, LimSe(blockSize), NothingSent(n), Followed(script, blockSize))
    ensures DcSent(SentFrom(NothingSent(n), Followed(script, blockSize)))
  {
    if blockSize < DCTSIZE {
      ReducedIsLegal(IsProgressive(script), n, LimSe(blockSize), NothingSent(n), NothingSent(n), script);
      var all, less := SentFrom(NothingSent(n), script), SentFrom(NothingSent(n), Followed(script, blockSize));
      forall c | 0 <= c < |less|
        ensures less[c] != [] && less[c][0] >= 0
      {
        assert all[c][0] == less[c][0];
      }
    }
  }

  // ----- The decoder's checks -----

  // The parameters a scan header carries (select_scan_parameters).
  function Header(progressive: bool, blockSize: nat, s: ScanInfo): ScanInfo {
    if progressive then s else s.(ss := 0, se := blockSize * blockSize - 1, ah := 0, al := 0)
  }

  // The parameters a progressive decoder does not give up on.
  predicate Tolerated(lim: nat, s: ScanInfo) {
    && (if s.ss == 0 then s.se == 0 else s.ss <= s.se <= lim && |s.comps| == 1)
    && (s.ah != 0 ==> s.al == s.ah - 1)
    && s.al <= 13
  }

  // No coefficient of the band comes with an unexpected Ah, nor before the DC data.
  predicate Expected(row: seq<int>, s: ScanInfo) {
    && (s.ss != 0 ==> |row| > 0 && row[0] >= 0)
    && forall k :: s.ss <= k <= s.se ==> ExpectedAt(row, s, k)
  }

  predicate ExpectedAt(row: seq<int>, s: ScanInfo, k: int) {
    0 <= k < |row| && s.ah == if row[k] < 0 then 0 else row[k]
  }

  // A scan that makes the decoder neither stop nor warn.
  predicate Quiet(progressive: bool, lim: nat, bits: Progress, s: ScanInfo) {
    if progressive then
      && Tolerated(lim, s)
      && forall i :: 0 <= i < |s.comps| ==>
        && 0 <= s.comps[i] < |bits|
        && Expected(SentComps(bits, s, i)[s.comps[i]], s)
    else s.ss == 0 && s.ah == 0 && s.al == 0 && (s.se < DCTSIZE2 ==> s.se == lim)
  }

  predicate QuietFrom(progressive: bool, lim: nat, bits: Progress, script: seq<ScanInfo>)
    decreases |script|
  {
    script == [] ||
    (Quiet(progressive, lim, bits, script[0]) && QuietFrom(progressive, lim, SentScan(bits, script[0]), script[1..]))
  }

  // One component of a scan: how many coefficients come in an order the decoder warns about.
  method CountBogus(s: ScanInfo, cindex: nat, coefBits: array2<int>) returns (warnings: nat)
    requires 0 <= s.ss <= s.se < DCTSIZE2 && cindex < coefBits.Length0 && coefBits.Length1 == DCTSIZE2
    modifies coefBits
    ensures warnings == 0 <==> Expected(old(Row(coefBits, cindex)), s)
    ensures Row(coefBits, cindex) == SentBand(old(Row(coefBits, cindex)), s)
    ensures forall d :: 0 <= d < coefBits.Length0 && d != cindex ==> Row(coefBits, d) == old(Row(coefBits, d))
  {
    ghost var row := Row(coefBits, cindex);
    warnings := 0;
    if s.ss != 0 && coefBits[cindex, 0] < 0 {
      warnings := warnings + 1;
    }
    for k := s.ss to s.se + 1
      invariant forall i :: 0 <= i < DCTSIZE2 ==> coefBits[cindex, i] == if s.ss <= i < k then s.al else row[i]
      invariant warnings == 0 <==> (s.ss != 0 ==> row[0] >= 0) && forall i :: s.ss <= i < k ==> ExpectedAt(row, s, i)
      invariant forall d, i :: 0 <= d < coefBits.Length0 && d != cindex && 0 <= i < DCTSIZE2 ==>
        coefBits[d, i] == old(coefBits[d, i])
    {
      assert coefBits[cindex, k] == row[k];
      var expected := if coefBits[cindex, k] < 0 then 0 else coefBits[cindex, k];
      assert ExpectedAt(row, s, k) <==> s.ah == expected;
      if s.ah != expected {
        warnings := warnings + 1;
      }
      coefBits[cindex, k] := s.al;
    }
  }

  // All the components of a scan.
  method CountAllBogus(s: ScanInfo, coefBits: array2<int>, ghost bits: Progress) returns (warnings: nat)
    requires Stores(coefBits, bits) && 0 <= s.ss <= s.se < DCTSIZE2
    requires forall i :: 0 <= i < |s.comps| ==> 0 <= s.comps[i] < |bits|
    modifies coefBits
    ensures warnings == 0 <==> forall i :: 0 <= i < |s.comps| ==> Expected(SentComps(bits, s, i)[s.comps[i]], s)
    ensures Stores(coefBits, SentScan(bits, s))
  {
    hide SentBand, Expected, SentComps;
    warnings := 0;
    SentAll(bits, s);
    for ci := 0 to |s.comps|
      invariant Stores(coefBits, SentComps(bits, s, ci))
      invariant warnings == 0 <==> forall i :: 0 <= i < ci ==> Expected(SentComps(bits, s, i)[s.comps[i]], s)
    {
      SentAgain(bits, s, ci);
      var more := CountBogus(s, s.comps[ci], coefBits);
      warnings := warnings + more;
    }
  }

  lemma SentAll(bits: Progress, s: ScanInfo)
    ensures SentComps(bits, s, 0) == bits
    ensures SentComps(bits, s, |s.comps|) == SentScan(bits, s)
  {
    assert s.comps[..|s.comps|] == s.comps;
  }

  // The checks before a scan is decoded; its parameters are unsigned bytes, its components
  // have been found in the frame.
  method StartPass(progressive: bool, lim: nat, s: ScanInfo, coefBits: array2<int>, ghost bits: Progress)
    returns (bad: bool, warnings: nat)
    requires Stores(coefBits, bits) && lim < DCTSIZE2
    requires 0 <= s.ss && 0 <= s.se && 0 <= s.ah && 0 <= s.al
    requires forall i :: 0 <= i < |s.comps| ==> 0 <= s.comps[i] < |bits|
    modifies coefBits
    ensures bad <==> progressive && !Tolerated(lim, s)
    ensures !bad && warnings == 0 <==> Quiet(progressive, lim, bits, s)
    ensures Stores(coefBits, if progressive && !bad then SentScan(bits, s) else bits)
  {
    hide SentBand, Expected;
    bad, warnings := false, 0;
    if progressive {
      if s.ss == 0 {
        bad := s.se != 0;
      } else {
        bad := s.se < s.ss || s.se > lim || |s.comps| != 1;
      }
      if s.ah != 0 && s.ah - 1 != s.al {
        bad := true;
      }
      if s.al > 13 {
        bad := true;
      }
      if bad {
        return;
      }
      warnings := CountAllBogus(s, coefBits, bits);
    } else if s.ss != 0 || s.ah != 0 || s.al != 0 || (s.se < DCTSIZE2 && s.se != lim) {
      warnings := 1;
    }
  }

  lemma SentAgain(bits: Progress, s: ScanInfo, i: nat)
    requires i < |s.comps| && 0 <= s.comps[i] < |bits|
    ensures SentComps(bits, s, i + 1) == SentComps(bits, s, i)[s.comps[i] := SentBand(SentComps(bits, s, i)[s.comps[i]], s)]
  {
    assert s.comps[..i + 1] == s.comps[..i] + [s.comps[i]];
    assert SentBand(SentBand(bits[s.comps[i]], s), s) == SentBand(bits[s.comps[i]], s);
  }

  lemma {:induction false} LegalIsQuiet(progressive: bool, n: nat, blockSize: nat, bits: Progress, s: ScanInfo)
    requires 1 <= blockSize <= 16 && LegalScan(progressive, n, LimSe(blockSize), bits, s)
    ensures Quiet(progressive, LimSe(blockSize), bits, Header(progressive, blockSize, s))
  {
    if progressive {
      assert LegalBand(bits[s.comps[0]], s) && Due(bits[s.comps[0]], s, s.ss);
      forall i | 0 <= i < |s.comps|
        ensures Expected(SentComps(bits, s, i)[s.comps[i]], s)
      {
        NewComp(n, s.comps, i);
        assert LegalBand(bits[s.comps[i]], s);
        forall k | s.ss <= k <= s.se
          ensures ExpectedAt(bits[s.comps[i]], s, k)
        {
          assert Due(bits[s.comps[i]], s, k);
        }
      }
    }
  }

  function Headers(progressive: bool, blockSize: nat, script: seq<ScanInfo>): (r: seq<ScanInfo>)
    ensures |r| == |script|
  {
    seq(|script|, i requires 0 <= i < |script| => Header(progressive, blockSize, script[i]))
  }

  lemma {:induction false} LegalScriptIsQuiet(progressive: bool, n: nat, blockSize: nat, bits: Progress, seen: Progress,
                                              script: seq<ScanInfo>)
    requires 1 <= blockSize <= 16 && LegalFrom(progressive, n, LimSe(blockSize), bits, script)
    requires progressive ==> seen == bits
    ensures QuietFrom(progressive, LimSe(blockSize), seen, Headers(progressive, blockSize, script))
    decreases |script|
  {
    hide LegalScan, SentScan, SentComps;
    if script != [] {
      var s, headers := script[0], Headers(progressive, blockSize, script);
      LegalIsQuiet(progressive, n, blockSize, bits, s);
      assert Quiet(progressive, LimSe(blockSize), seen, headers[0]);
      LegalScriptIsQuiet(progressive, n, blockSize, SentScan(bits, s), SentScan(seen, headers[0]), script[1..]);
      assert headers[1..] == Headers(progressive, blockSize, script[1..]);
    }
  }

  // The decoder neither stops nor warns at any scan of an accepted script.
  lemma AcceptedIsQuiet(n: nat, script: seq<ScanInfo>, blockSize: nat)
    requires Accepted(n, script) && 1 <= blockSize <= 16
    ensures var progressive := IsProgressive(script);
      QuietFrom(progressive, LimSe(blockSize), NothingSent(n), Headers(progressive, blockSize, Followed(script, blockSize)))
  {
    FollowedIsLegal(n, script, blockSize);
    LegalScriptIsQuiet(IsProgressive(script), n, blockSize, NothingSent(n), NothingSent(n), Followed(script, blockSize));
  }
}
