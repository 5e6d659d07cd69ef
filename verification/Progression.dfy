// Successive approximation over a whole script of scans (section G.1.1 of ITU-T T.81): which
// precision each coefficient has reached, and that scans in a legal order hand over to each
// other exactly what they need.
module Progression {
  import opened Powers
  import opened DecisionModel

  // What a scan codes of a block.
  function BandOf(p: Scan, block: seq<int>): (t: seq<int>)
    requires ValidScan(p) && |block| == 64
    ensures |t| == p.se + 1
  {
    PointTransform(Zigzag(block, p.order, p.se), p.al)
  }

  // A coefficient as it looks after a scan with point transform level; -1 means not yet sent.
  function Shown(v: int, k: nat, level: int): int {
    if level < 0 then 0 else Scaled(Transformed(v, k, level), level)
  }

  // The copy of a block shows every coefficient at its level.
  ghost predicate Shows(order: seq<nat>, level: seq<int>, block: seq<int>, copy: seq<int>) {
    && |level| > 0 && ValidOrder(order, |level| - 1) && |block| == |copy| == 64
    && forall k :: 0 <= k < |level| ==> copy[order[k]] == Shown(block[order[k]], k, level[k])
  }

  // The scan sends what has not been sent, or refines by one bit what has
  // (validate_script of jcmaster.c).
  predicate Legal(p: Scan, level: seq<int>) {
    && p.se < |level|
    && forall k :: p.ss <= k <= p.se ==> level[k] == if p.ah == 0 then -1 else p.ah
  }

  function Raised(p: Scan, level: seq<int>): (r: seq<int>)
    ensures |r| == |level|
  {
    seq(|level|, k requires 0 <= k < |level| => if p.ss <= k <= p.se then p.al else level[k])
  }

  predicate AllShort(block: seq<int>) {
    forall i :: 0 <= i < |block| ==> InShort(block[i])
  }

  // ----- One bit more precision -----

  lemma FloorOnce(v: int, al: nat)
    ensures Floor(Floor(v, al), 1) == Floor(v, al + 1)
  {
    var d := Pow2(al);
    var q, r := v / d, v % d;
    var h, b := q / 2, q % 2;
    assert Pow2(1) == 2;
    FloorIs(v, 2 * d, h, b * d + r) by {
      assert v == q * d + r && q == 2 * h + b;
      assert (2 * h + b) * d == h * (2 * d) + b * d;
    }
  }

  lemma FloorIs(v: int, d: nat, q: int, r: int)
    requires d > 0 && v == q * d + r && 0 <= r < d
    ensures v / d == q
  {
    var x, y := v / d, v % d;
    assert (x - q) * d == r - y;
    if x > q {
      MulGrows(d, x - q);
    } else if x < q {
      MulGrows(d, q - x);
    }
  }

  lemma CoarserIsNextLevel(v: int, al: nat)
    ensures Coarser(Truncate(v, al)) == Truncate(v, al + 1)
  {
    hide ShiftRight;
    ShiftRightOnce(Abs(v), al);
  }

  // The transformed coefficients, scaled back, stay in the range.
  lemma ScaledBackFits(v: int, k: nat, al: nat)
    requires InShort(v) && al <= 13
    ensures InShort(Scaled(Transformed(v, k, al), al))
  {
    hide Pow2;
    Pow2Values();
    Pow2Add(al, 15 - al);
    MultipleBelow(v, Pow2(al), Pow2(15 - al));
    MultipleBelow(Abs(v), Pow2(al), Pow2(15 - al));
    assert (0 - ShiftRight(Abs(v), al)) * Pow2(al) == 0 - ShiftRight(Abs(v), al) * Pow2(al);
  }

  // Rounding down to a multiple of d does not leave the range.
  lemma MultipleBelow(v: int, d: nat, n: nat)
    requires d > 0 && d * n == 0x8000 && -0x8000 <= v
    ensures -0x8000 <= v / d * d <= v
    ensures v >= 0 ==> v / d * d >= 0
  {
    var q, r := v / d, v % d;
    assert v == q * d + r;
    assert (0 - n - q) * d == 0 - d * n - q * d;
    if q < 0 - n {
      MulGrows(d, 0 - n - q);
    }
  }

  lemma FullPrecision(v: int, k: nat)
    ensures Shown(v, k, 0) == v
  {
    assert Pow2(0) == 1;
  }

  // What is shown is the multiple of 2^level next to the coefficient: next below for DC, next towards
  // zero for AC, with the sign kept.
  lemma ShownIsNear(v: int, k: nat, level: nat)
    ensures var d, r := Pow2(level), Shown(v, k, level);
      && r % d == 0
      && (k == 0 ==> r <= v < r + d)
      && (k > 0 ==> Abs(r) <= Abs(v) < Abs(r) + d && (r == 0 || (r < 0 <==> v < 0)))
  {
    hide Pow2;
    var d := Pow2(level);
    DownToMultiple(v, d);
    DownToMultiple(Abs(v), d);
    var q := Abs(v) / d;
    assert (0 - q) * d == 0 - q * d;
    MultipleIs(v / d, d);
    MultipleIs(q, d);
    MultipleIs(0 - q, d);
  }

  lemma DownToMultiple(v: int, d: nat)
    requires d > 0
    ensures v / d * d <= v < v / d * d + d
  {
  }

  lemma MultipleIs(q: int, d: nat)
    requires d > 0
    ensures q * d % d == 0
  {
    FloorIs(q * d, d, q, 0);
  }

  // ----- One scan over one block -----

  lemma {:induction false} BlockReady(p: Scan, level: seq<int>, block: seq<int>, copy: seq<int>)
    requires ValidScan(p) && Legal(p, level) && Shows(p.order, level, block, copy) && AllShort(block)
    ensures Fits(p, BandOf(p, block)) && Ready(p, copy, BandOf(p, block)) && Primed(p, copy, BandOf(p, block))
  {
    hide Floor, Truncate, Scaled, Coarser;
    var t := BandOf(p, block);
    forall k | 0 <= k <= p.se
      ensures InShort(Scaled(t[k], p.al))
    {
      ScaledBackFits(block[p.order[k]], k, p.al);
    }
    if p.ah > 0 {
      forall k | p.ss <= k <= p.se
        ensures k == 0 ==> Floor(t[k], 1) == Floor(block[p.order[k]], p.al + 1)
        ensures k > 0 ==> Coarser(t[k]) == Truncate(block[p.order[k]], p.al + 1)
      {
        FloorOnce(block[p.order[k]], p.al);
        CoarserIsNextLevel(block[p.order[k]], p.al);
      }
    }
  }

  lemma {:induction false} BlockShows(p: Scan, level: seq<int>, block: seq<int>, before: seq<int>, after: seq<int>)
    requires ValidScan(p) && Legal(p, level) && Shows(p.order, level, block, before) && |after| == 64
    requires Restored(p, before, after, BandOf(p, block), p.ss, p.se)
    ensures Shows(p.order, Raised(p, level), block, after)
  {
    hide Scaled, Transformed;
    forall k | 0 <= k < |level|
      ensures after[p.order[k]] == Shown(block[p.order[k]], k, Raised(p, level)[k])
    {
      if !(p.ss <= k <= p.se) {
        assert forall j :: p.ss <= j <= p.se ==> p.order[j] != p.order[k];
      }
    }
  }

  // ----- Dummy blocks -----

  // A dummy block is visited only by interleaved scans, so some of its DC scans may be missing.
  // What has not been sent of it is zero.
  ghost predicate Pending(order: seq<nat>, level: seq<int>, copy: seq<int>) {
    && |level| > 0 && ValidOrder(order, |level| - 1) && |copy| == 64
    && forall k :: 0 <= k < |level| && level[k] < 0 ==> copy[order[k]] == 0
  }

  // A DC refinement does not mind what came before it; any other scan sends what has not been sent.
  predicate Loose(p: Scan, level: seq<int>) {
    && p.se < |level|
    && (ModeOf(p) == DcRefine || (p.ah == 0 && Legal(p, level)))
  }

  lemma DummyReady(p: Scan, level: seq<int>, block: seq<int>, copy: seq<int>)
    requires ValidScan(p) && Loose(p, level) && Pending(p.order, level, copy) && |block| == 64 && AllShort(block)
    ensures Fits(p, BandOf(p, block)) && Ready(p, copy, BandOf(p, block))
  {
    hide Floor, Truncate, Scaled;
    var t := BandOf(p, block);
    forall k | 0 <= k <= p.se
      ensures InShort(Scaled(t[k], p.al))
    {
      ScaledBackFits(block[p.order[k]], k, p.al);
    }
  }

  lemma {:induction false} DummyPending(p: Scan, level: seq<int>, before: seq<int>, after: seq<int>, t: seq<int>)
    requires ValidScan(p) && Loose(p, level) && Pending(p.order, level, before) && |after| == 64 && |t| == p.se + 1
    requires Received(p, before, after, t)
    ensures Pending(p.order, Raised(p, level), after)
  {
    hide Scaled, WithBit;
    forall k | 0 <= k < |level| && Raised(p, level)[k] < 0
      ensures after[p.order[k]] == 0
    {
      assert forall j :: p.ss <= j <= p.se ==> p.order[j] != p.order[k];
    }
  }
}
