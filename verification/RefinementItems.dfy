// AC successive approximation refinement with Huffman codes (section G.1.2.3 of T.81): how a
// decoder reads the items of a run of blocks, and what moves it forward. Coefficients are in
// units of the bit position being coded.
module RefinementItems {
  import opened Powers
  import opened DecisionModel
  import opened HuffmanItems

  type Block = seq<int>   // by zigzag index, up to the end of the band

  // The block as the scan before left it.
  function Known(t: Block): (u: Block)
    ensures |u| == |t| && forall k :: 0 <= k < |u| ==> u[k] == 2 * Coarser(t[k])
  {
    seq(|t|, k requires 0 <= k < |t| => 2 * Coarser(t[k]))
  }

  // The block refined below coefficient k.
  function Mixed(t: Block, k: nat): (v: Block)
    ensures |v| == |t| && forall i :: 0 <= i < |v| ==> v[i] == if i < k then t[i] else 2 * Coarser(t[i])
  {
    seq(|t|, i requires 0 <= i < |t| => if i < k then t[i] else 2 * Coarser(t[i]))
  }

  // ----- The decoder -----

  // Whether a correction bit adds to the magnitude.
  function CorrectedBy(v: int, bit: nat): int {
    if bit == 0 || v % 2 != 0 then v else if v >= 0 then v + 1 else v - 1
  }

  predicate BitNext(items: seq<Item>) {
    items != [] && items[0].Extra? && items[0].n == 1
  }

  datatype Place = Place(v: Block, k: nat, rest: seq<Item>) | Bad

  // Advance over already-nonzero coefficients and r still-zero ones.
  function Advance(v: Block, k: nat, r: nat, items: seq<Item>): (p: Place)
    ensures p.Place? ==> |p.v| == |v| && p.k >= k
    decreases |v| - k
  {
    if k >= |v| then Place(v, k, items)
    else if v[k] != 0 then
      if BitNext(items) then Advance(v[k := CorrectedBy(v[k], items[0].v)], k + 1, r, items[1..]) else Bad
    else if r == 0 then Place(v, k, items)
    else Advance(v, k + 1, r - 1, items)
  }

  // Correct the rest of a block.
  function Tail(v: Block, k: nat, items: seq<Item>): (p: Place)
    ensures p.Place? ==> |p.v| == |v|
    decreases |v| - k
  {
    if k >= |v| then Place(v, k, items)
    else if v[k] != 0 then
      if BitNext(items) then Tail(v[k := CorrectedBy(v[k], items[0].v)], k + 1, items[1..]) else Bad
    else Tail(v, k + 1, items)
  }

  // The blocks decoded from block j on, which is at coefficient k with no end-of-band run;
  // decoding stops at the first thing that is out of place.
  function FromCoef(us: seq<Block>, ss: nat, j: nat, v: Block, k: nat, items: seq<Item>): seq<Block>
    decreases |us| - j, 1 + |v| - k
  {
    if j >= |us| then []
    else if k >= |v| then [v] + FromBlock(us, ss, j + 1, items)
    else if items == [] || !items[0].Symbol? then []
    else
      var r, n, rest := items[0].s / 16, items[0].s % 16, items[1..];
      if n != 0 then
        if !BitNext(rest) then []
        else
          var p := Advance(v, k, r, rest[1..]);
          if p.Bad? || p.k >= |v| then []
          else FromCoef(us, ss, j, p.v[p.k := if rest[0].v == 1 then 1 else -1], p.k + 1, p.rest)
      else if r == 15 then
        var p := Advance(v, k, 15, rest);
        if p.Bad? then [] else FromCoef(us, ss, j, p.v, p.k + 1, p.rest)
      else if r == 0 then InRun(us, ss, j, v, k, 1, rest)
      else if rest == [] || !rest[0].Extra? || rest[0].n != r then []
      else InRun(us, ss, j, v, k, Pow2(r) + rest[0].v, rest[1..])
  }

  function FromBlock(us: seq<Block>, ss: nat, j: nat, items: seq<Item>): seq<Block>
    decreases |us| - j, if j < |us| then 2 + |us[j]| else 0
  {
    if j >= |us| then [] else FromCoef(us, ss, j, us[j], ss, items)
  }

  // Block j ends at coefficient k, as do the run - 1 blocks after it at their start.
  function InRun(us: seq<Block>, ss: nat, j: nat, v: Block, k: nat, run: nat, items: seq<Item>): seq<Block>
    requires run > 0
    decreases |us| - j, 0
  {
    if j >= |us| then []
    else
      var p := Tail(v, k, items);
      if p.Bad? then []
      else
        [p.v]
        + (if run > 1 && j + 1 < |us| then InRun(us, ss, j + 1, us[j + 1], ss, run - 1, p.rest)
           else FromBlock(us, ss, j + 1, p.rest))
  }

  // ----- What is in a stretch of a block -----

  // The correction bits of the coefficients from a up to b.
  function Corrections(t: Block, a: nat, b: nat): seq<Item>
    requires a <= b <= |t|
    decreases b - a
  {
    if a == b then []
    else (if Abs(t[a]) > 1 then [Extra(Abs(t[a]) % 2, 1)] else []) + Corrections(t, a + 1, b)
  }

  function ZerosIn(t: Block, a: nat, b: nat): nat
    requires a <= b <= |t|
    decreases b - a
  {
    if a == b then 0 else (if t[a] == 0 then 1 else 0) + ZerosIn(t, a + 1, b)
  }

  // No coefficient becomes nonzero.
  predicate NoneNew(t: Block, a: nat, b: nat)
    requires a <= b <= |t|
  {
    forall i :: a <= i < b ==> Abs(t[i]) != 1
  }

  lemma CorrectionsAt(t: Block, a: nat, b: nat)
    requires a < b <= |t|
    ensures Corrections(t, a, b)
         == if Abs(t[a]) > 1 then [Extra(Abs(t[a]) % 2, 1)] + Corrections(t, a + 1, b) else Corrections(t, a + 1, b)
  {
  }

  lemma Assoc(a: seq<Item>, b: seq<Item>, c: seq<Item>)
    ensures a + (b + c) == a + b + c
  {
  }

  lemma {:induction false} CorrectionsSnoc(t: Block, a: nat, b: nat)
    requires a <= b < |t|
    ensures Corrections(t, a, b + 1) == Corrections(t, a, b) + (if Abs(t[b]) > 1 then [Extra(Abs(t[b]) % 2, 1)] else [])
    ensures ZerosIn(t, a, b + 1) == ZerosIn(t, a, b) + (if t[b] == 0 then 1 else 0)
    decreases b - a
  {
    if a < b {
      CorrectionsAt(t, a, b + 1);
      CorrectionsAt(t, a, b);
      CorrectionsSnoc(t, a + 1, b);
      hide Corrections;
      var last := if Abs(t[b]) > 1 then [Extra(Abs(t[b]) % 2, 1)] else [];
      Assoc([Extra(Abs(t[a]) % 2, 1)], Corrections(t, a + 1, b), last);
    }
  }

  lemma {:induction false} CorrectionsSplit(t: Block, a: nat, b: nat, c: nat)
    requires a <= b <= c <= |t|
    ensures Corrections(t, a, c) == Corrections(t, a, b) + Corrections(t, b, c)
    ensures ZerosIn(t, a, c) == ZerosIn(t, a, b) + ZerosIn(t, b, c)
    decreases b - a
  {
    if a == b {
      assert [] + Corrections(t, b, c) == Corrections(t, b, c);
    } else {
      CorrectionsSplit(t, a + 1, b, c);
      var one := if Abs(t[a]) > 1 then [Extra(Abs(t[a]) % 2, 1)] else [];
      assert one + (Corrections(t, a + 1, b) + Corrections(t, b, c))
          == one + Corrections(t, a + 1, b) + Corrections(t, b, c);
    }
  }

  lemma CorrectionsFirst(t: Block, a: nat, b: nat, z: seq<Item>)
    requires a < b <= |t|
    ensures var items := Corrections(t, a, b) + z;
      if Abs(t[a]) > 1 then
        items != [] && items[0] == Extra(Abs(t[a]) % 2, 1) && items[1..] == Corrections(t, a + 1, b) + z
      else items == Corrections(t, a + 1, b) + z
  {
    var rest := Corrections(t, a + 1, b);
    hide Corrections;
    CorrectionsAt(t, a, b);
    if Abs(t[a]) > 1 {
      HeadOf(Extra(Abs(t[a]) % 2, 1), rest, z);
    }
  }

  lemma HeadOf(x: Item, s: seq<Item>, z: seq<Item>)
    ensures ([x] + s + z)[0] == x && ([x] + s + z)[1..] == s + z
  {
  }

  lemma MixedNext(t: Block, a: nat)
    requires a < |t|
    ensures Mixed(t, a)[a] == 2 * Coarser(t[a])
    ensures Mixed(t, a)[a := t[a]] == Mixed(t, a + 1)
    ensures t[a] == 0 ==> Mixed(t, a) == Mixed(t, a + 1)
  {
  }

  lemma {:induction false} CorrectionsAreFew(t: Block, a: nat, b: nat)
    requires a <= b <= |t|
    ensures |Corrections(t, a, b)| + ZerosIn(t, a, b) <= b - a
    decreases b - a
  {
    if a < b {
      CorrectionsAreFew(t, a + 1, b);
    }
  }

  lemma CorrectedIs(t: int)
    ensures Abs(t) > 1 ==> 2 * Coarser(t) != 0 && CorrectedBy(2 * Coarser(t), Abs(t) % 2) == t
    ensures Abs(t) <= 1 ==> 2 * Coarser(t) == 0
  {
  }

  // The decoder crosses a stretch without new coefficients: over r zeros, up to one more.
  lemma {:induction false} AdvanceReads(t: Block, a: nat, b: nat, z: seq<Item>)
    requires a <= b < |t| && NoneNew(t, a, b) && Abs(t[b]) <= 1
    ensures Advance(Mixed(t, a), a, ZerosIn(t, a, b), Corrections(t, a, b) + z) == Place(Mixed(t, b), b, z)
    decreases b - a
  {
    hide Mixed, Coarser, CorrectedBy;
    CorrectedIs(t[a]);
    MixedNext(t, a);
    if a == b {
      assert [] + z == z;
    } else {
      hide Corrections;
      CorrectionsFirst(t, a, b, z);
      AdvanceReads(t, a + 1, b, z);
    }
  }

  lemma {:induction false} TailReads(t: Block, a: nat, z: seq<Item>)
    requires a <= |t| && NoneNew(t, a, |t|)
    ensures Tail(Mixed(t, a), a, Corrections(t, a, |t|) + z) == Place(t, |t|, z)
    decreases |t| - a
  {
    if a == |t| {
      assert [] + z == z;
      assert Mixed(t, a) == t;
    } else {
      hide Corrections, Mixed, Coarser, CorrectedBy;
      CorrectedIs(t[a]);
      MixedNext(t, a);
      CorrectionsFirst(t, a, |t|, z);
      TailReads(t, a + 1, z);
    }
  }

  // ----- Progress -----

  function Knowns(ts: seq<Block>): (us: seq<Block>)
    ensures |us| == |ts| && forall j :: 0 <= j < |us| ==> us[j] == Known(ts[j])
  {
    seq(|ts|, j requires 0 <= j < |ts| => Known(ts[j]))
  }

  // The bands all start at ss.
  ghost predicate Bands(ts: seq<Block>, ss: nat) {
    forall j, k :: 0 <= j < |ts| && 0 <= k < ss ==> k < |ts[j]| && ts[j][k] == 0
  }

  // What the decoder makes of the items z when it is at coefficient k of block j.
  ghost function Onward(ts: seq<Block>, ss: nat, j: nat, k: nat, z: seq<Item>): seq<Block> {
    if j < |ts| then FromCoef(Knowns(ts), ss, j, Mixed(ts[j], k), k, z) else []
  }

  lemma OnwardFromStart(ts: seq<Block>, ss: nat, j: nat, z: seq<Item>)
    requires Bands(ts, ss)
    ensures FromBlock(Knowns(ts), ss, j, z) == Onward(ts, ss, j, ss, z)
  {
    hide FromCoef;
    if j < |ts| {
      assert Knowns(ts)[j] == Mixed(ts[j], ss);
    }
  }

  // Whatever follows them, the items take the decoder from one place to another and make it
  // refine the blocks in between.
  ghost predicate Moves(ts: seq<Block>, ss: nat, j: nat, k: nat, items: seq<Item>, j2: nat, k2: nat) {
    j <= j2 <= |ts|
    && forall z :: Onward(ts, ss, j, k, items + z) == ts[j..j2] + Onward(ts, ss, j2, k2, z)
  }

  lemma MovesOn(ts: seq<Block>, ss: nat, a: seq<Item>, b: seq<Item>, j: nat, k: nat, j1: nat, k1: nat, j2: nat, k2: nat)
    requires Moves(ts, ss, j, k, a, j1, k1) && Moves(ts, ss, j1, k1, b, j2, k2)
    ensures Moves(ts, ss, j, k, a + b, j2, k2)
  {
    hide Onward;
    forall z
      ensures Onward(ts, ss, j, k, a + b + z) == ts[j..j2] + Onward(ts, ss, j2, k2, z)
    {
      assert a + b + z == a + (b + z);
      assert Onward(ts, ss, j, k, a + (b + z)) == ts[j..j1] + Onward(ts, ss, j1, k1, b + z);
      assert ts[j..j2] == ts[j..j1] + ts[j1..j2];
    }
  }

  lemma MovesNowhere(ts: seq<Block>, ss: nat, j: nat, k: nat)
    requires j <= |ts|
    ensures Moves(ts, ss, j, k, [], j, k)
  {
    forall z
      ensures Onward(ts, ss, j, k, [] + z) == ts[j..j] + Onward(ts, ss, j, k, z)
    {
      assert [] + z == z;
    }
  }

  // A block that is refined to its last coefficient is finished.
  lemma MovesToNext(ts: seq<Block>, ss: nat, j: nat)
    requires Bands(ts, ss) && j < |ts|
    ensures Moves(ts, ss, j, |ts[j]|, [], j + 1, ss)
  {
    hide FromBlock;
    forall z
      ensures Onward(ts, ss, j, |ts[j]|, [] + z) == ts[j..j + 1] + Onward(ts, ss, j + 1, ss, z)
    {
      assert [] + z == z;
      assert Mixed(ts[j], |ts[j]|) == ts[j];
      OnwardFromStart(ts, ss, j + 1, z);
      assert ts[j..j + 1] == [ts[j]];
    }
  }

  // A code for 16 zeros.
  lemma MovesZrl(ts: seq<Block>, ss: nat, j: nat, a: nat, b: nat, tbl: nat)
    requires j < |ts| && a <= b < |ts[j]| && NoneNew(ts[j], a, b) && ts[j][b] == 0 && ZerosIn(ts[j], a, b) == 15
    ensures Moves(ts, ss, j, a, [Symbol(false, tbl, 0xF0)] + Corrections(ts[j], a, b), j, b + 1)
  {
    hide Advance, Corrections, Mixed, ZerosIn;
    var t, sym := ts[j], Symbol(false, tbl, 0xF0);
    forall z
      ensures Onward(ts, ss, j, a, [sym] + Corrections(t, a, b) + z) == ts[j..j] + Onward(ts, ss, j, b + 1, z)
    {
      var items := [sym] + Corrections(t, a, b) + z;
      assert items[0] == sym && items[1..] == Corrections(t, a, b) + z;
      AdvanceReads(t, a, b, z);
      MixedNext(t, b);
    }
  }

  // A coefficient that becomes nonzero.
  lemma MovesNew(ts: seq<Block>, ss: nat, j: nat, a: nat, b: nat, tbl: nat)
    requires j < |ts| && a <= b < |ts[j]| && NoneNew(ts[j], a, b) && Abs(ts[j][b]) == 1 && ZerosIn(ts[j], a, b) < 16
    ensures var t := ts[j];
      Moves(ts, ss, j, a,
            [Symbol(false, tbl, 16 * ZerosIn(t, a, b) + 1), Extra(if t[b] < 0 then 0 else 1, 1)] + Corrections(t, a, b),
            j, b + 1)
  {
    hide Advance, Corrections, Mixed, ZerosIn;
    var t, r := ts[j], ZerosIn(ts[j], a, b);
    var sym, sign := Symbol(false, tbl, 16 * r + 1), Extra(if t[b] < 0 then 0 else 1, 1);
    RunAndSize(r, 1);
    forall z
      ensures Onward(ts, ss, j, a, [sym, sign] + Corrections(t, a, b) + z) == ts[j..j] + Onward(ts, ss, j, b + 1, z)
    {
      var items := [sym, sign] + Corrections(t, a, b) + z;
      assert items[0] == sym && items[1..][0] == sign && items[1..][1..] == Corrections(t, a, b) + z;
      AdvanceReads(t, a, b, z);
      MixedNext(t, b);
    }
  }

  // ----- End-of-band runs -----

  function EobItems(tbl: nat, run: nat): seq<Item>
    requires run > 0
  {
    var n := Log2(run);
    [Symbol(false, tbl, 16 * n)] + (if n > 0 then [Extra(run % Pow2(n), n)] else [])
  }

  // The bands all reach up to their start, and a run of them has no new coefficients.
  ghost predicate BandsAligned(ts: seq<Block>, ss: nat) {
    Bands(ts, ss) && forall i :: 0 <= i < |ts| ==> ss <= |ts[i]|
  }

  ghost predicate OnlyCorrections(ts: seq<Block>, ss: nat, j: nat, a: nat, run: nat) {
    && BandsAligned(ts, ss) && j + run <= |ts|
    && (run > 0 ==> a <= |ts[j]| && NoneNew(ts[j], a, |ts[j]|))
    && (forall i :: j < i < j + run ==> NoneNew(ts[i], ss, |ts[i]|))
  }

  // The correction bits of a run of blocks, the first from coefficient a on.
  function RunCorrections(ts: seq<Block>, ss: nat, j: nat, a: nat, run: nat): seq<Item>
    requires j + run <= |ts| && (run > 0 ==> a <= |ts[j]|) && forall i :: 0 <= i < |ts| ==> ss <= |ts[i]|
    decreases run
  {
    if run == 0 then []
    else Corrections(ts[j], a, |ts[j]|) + RunCorrections(ts, ss, j + 1, ss, run - 1)
  }

  lemma {:induction false} RunSnoc(ts: seq<Block>, ss: nat, j: nat, a: nat, run: nat)
    requires 0 < run && j + run < |ts| && a <= |ts[j]| && forall i :: 0 <= i < |ts| ==> ss <= |ts[i]|
    ensures RunCorrections(ts, ss, j, a, run + 1)
         == RunCorrections(ts, ss, j, a, run) + Corrections(ts[j + run], ss, |ts[j + run]|)
    decreases run
  {
    hide Corrections;
    RunFirst(ts, ss, j, a, run);
    RunFirst(ts, ss, j, a, run + 1);
    hide RunCorrections;
    var first, last := Corrections(ts[j], a, |ts[j]|), Corrections(ts[j + run], ss, |ts[j + run]|);
    if run == 1 {
      OneBlockRun(ts, ss, j, a);
      OneBlockRun(ts, ss, j + 1, ss);
    } else {
      RunSnoc(ts, ss, j + 1, ss, run - 1);
      assert first + (RunCorrections(ts, ss, j + 1, ss, run - 1) + last)
          == first + RunCorrections(ts, ss, j + 1, ss, run - 1) + last;
    }
  }

  lemma RunFirst(ts: seq<Block>, ss: nat, j: nat, a: nat, run: nat)
    requires 0 < run && j + run <= |ts| && a <= |ts[j]| && forall i :: 0 <= i < |ts| ==> ss <= |ts[i]|
    ensures RunCorrections(ts, ss, j, a, run)
         == Corrections(ts[j], a, |ts[j]|) + RunCorrections(ts, ss, j + 1, ss, run - 1)
  {
  }

  lemma OneBlockRun(ts: seq<Block>, ss: nat, j: nat, a: nat)
    requires j < |ts| && a <= |ts[j]| && forall i :: 0 <= i < |ts| ==> ss <= |ts[i]|
    ensures RunCorrections(ts, ss, j, a, 1) == Corrections(ts[j], a, |ts[j]|)
  {
    assert RunCorrections(ts, ss, j + 1, ss, 0) == [];
  }

  lemma RunNext(us: seq<Block>, ss: nat, j: nat, v: Block, k: nat, run: nat, items: seq<Item>, t: Block, rest: seq<Item>)
    requires run > 0 && j < |us| && Tail(v, k, items) == Place(t, |t|, rest)
    ensures InRun(us, ss, j, v, k, run, items)
         == [t] + (if run > 1 && j + 1 < |us| then InRun(us, ss, j + 1, us[j + 1], ss, run - 1, rest)
                   else FromBlock(us, ss, j + 1, rest))
  {
    hide Tail, FromBlock;
  }

  lemma {:induction false} RunReads(ts: seq<Block>, ss: nat, j: nat, a: nat, run: nat, z: seq<Item>)
    requires run > 0 && OnlyCorrections(ts, ss, j, a, run)
    ensures InRun(Knowns(ts), ss, j, Mixed(ts[j], a), a, run, RunCorrections(ts, ss, j, a, run) + z)
         == ts[j..j + run] + Onward(ts, ss, j + run, ss, z)
    decreases run
  {
    hide Tail, Corrections, Onward, RunCorrections, FromBlock, Mixed, InRun;
    var t := ts[j];
    var more := RunCorrections(ts, ss, j + 1, ss, run - 1) + z;
    RunFirst(ts, ss, j, a, run);
    assert RunCorrections(ts, ss, j, a, run) + z == Corrections(t, a, |t|) + more;
    TailReads(t, a, more);
    RunNext(Knowns(ts), ss, j, Mixed(t, a), a, run, Corrections(t, a, |t|) + more, t, more);
    if run > 1 {
      RunReads(ts, ss, j + 1, ss, run - 1, z);
      KnownIsMixed(ts, ss, j + 1);
      FirstOf(ts, j, run, Onward(ts, ss, j + run, ss, z));
    } else {
      NoRunCorrections(ts, ss, j + 1);
      assert more == z;
      OnwardFromStart(ts, ss, j + 1, z);
      FirstOf(ts, j, 1, Onward(ts, ss, j + 1, ss, z));
    }
  }

  lemma FirstOf(ts: seq<Block>, j: nat, n: nat, rest: seq<Block>)
    requires 0 < n && j + n <= |ts|
    ensures [ts[j]] + (ts[j + 1..j + n] + rest) == ts[j..j + n] + rest
  {
  }

  lemma NoRunCorrections(ts: seq<Block>, ss: nat, j: nat)
    requires j <= |ts| && forall i :: 0 <= i < |ts| ==> ss <= |ts[i]|
    ensures RunCorrections(ts, ss, j, ss, 0) == []
  {
  }

  lemma KnownIsMixed(ts: seq<Block>, ss: nat, j: nat)
    requires Bands(ts, ss) && j < |ts|
    ensures Knowns(ts)[j] == Mixed(ts[j], ss)
  {
    assert Known(ts[j]) == Mixed(ts[j], ss);
  }

  // An end-of-band run is read back as its length.
  lemma EobReads(tbl: nat, run: nat, more: seq<Item>)
    requires 0 < run <= 0x7FFF
    ensures var n, items := Log2(run), EobItems(tbl, run) + more;
      && n <= 14 && items != [] && items[0] == Symbol(false, tbl, 16 * n)
      && 16 * n / 16 == n && 16 * n % 16 == 0
      && (n == 0 ==> run == 1 && items[1..] == more)
      && (n > 0 ==>
          && items[1..] != [] && items[1..][0].Extra? && items[1..][0].n == n
          && Pow2(n) + items[1..][0].v == run && items[1..][1..] == more)
  {
    hide Pow2;
    Pow2Values();
    Log2Below(run, 15);
    Log2Bounds(run);
    var n := Log2(run);
    LowPart(run, Pow2(n));
  }

  lemma LowPart(x: nat, d: nat)
    requires 0 < d <= x < 2 * d
    ensures d + x % d == x
  {
    assert x - d == x % d by {
      assert x == 1 * d + (x - d);
      QuotientIs(x, d, 1, x - d);
    }
  }

  // An end-of-band run takes the decoder to the block behind it.
  lemma MovesRun(ts: seq<Block>, ss: nat, j: nat, a: nat, run: nat, tbl: nat)
    requires 0 < run <= 0x7FFF && OnlyCorrections(ts, ss, j, a, run) && a < |ts[j]|
    ensures Moves(ts, ss, j, a, EobItems(tbl, run) + RunCorrections(ts, ss, j, a, run), j + run, ss)
  {
    hide InRun, RunCorrections, EobItems, Mixed, Log2, Pow2;
    var bits := RunCorrections(ts, ss, j, a, run);
    forall z
      ensures Onward(ts, ss, j, a, EobItems(tbl, run) + bits + z) == ts[j..j + run] + Onward(ts, ss, j + run, ss, z)
    {
      assert EobItems(tbl, run) + bits + z == EobItems(tbl, run) + (bits + z);
      EobReads(tbl, run, bits + z);
      RunReads(ts, ss, j, a, run, z);
    }
  }
}
