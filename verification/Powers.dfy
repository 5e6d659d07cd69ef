// Powers of two and the two facts about them that the register layouts rely on.
module Powers {

  function Pow2(n: nat): (p: nat)
    ensures p > 0
  {
    if n == 0 then 1 else 2 * Pow2(n - 1)
  }

  lemma {:induction false} Pow2Add(m: nat, n: nat)
    ensures Pow2(m + n) == Pow2(m) * Pow2(n)
  {
    if m == 0 {
    } else {
      Pow2Add(m - 1, n);
      var a, b := Pow2(m - 1), Pow2(n);
      assert 2 * (a * b) == (2 * a) * b;
    }
  }

  lemma {:induction false} Pow2Monotonic(m: nat, n: nat)
    requires m <= n
    ensures Pow2(m) <= Pow2(n)
  {
    if m < n {
      Pow2Monotonic(m, n - 1);
    }
  }

  // v shifted left by e bits.
  function Shifted(v: nat, e: nat): nat {
    v * Pow2(e)
  }

  // v shifted right by e bits.
  function ShiftRight(v: nat, e: nat): (r: nat)
    ensures r <= v
  {
    QuotientBounds(v, Pow2(e));
    v / Pow2(e)
  }

  lemma Pow2Values()
    ensures Pow2(0) == 1 && Pow2(1) == 2 && Pow2(2) == 4 && Pow2(3) == 8 && Pow2(4) == 16
    ensures Pow2(5) == 32 && Pow2(6) == 64 && Pow2(7) == 128 && Pow2(8) == 256
    ensures Pow2(11) == 2048 && Pow2(15) == 0x8000 && Pow2(16) == 0x10000
    ensures Pow2(19) == 0x80000 && Pow2(27) == 0x8000000
  {
    assert Pow2(8) == 256;
    Pow2Add(8, 3);
    Pow2Add(8, 7);
    Pow2Add(8, 8);
    Pow2Add(16, 3);
    Pow2Add(16, 11);
  }

  lemma MulAssoc(x: nat, y: nat, z: nat)
    ensures x * (y * z) == (x * y) * z
  {
  }

  lemma MulDistrib(x: nat, y: nat, z: nat)
    ensures (x + y) * z == x * z + y * z
  {
  }

  lemma MulCancel(x: nat, y: nat, z: nat)
    requires x * z == y * z && z > 0
    ensures x == y
  {
  }

  lemma MulOrder(x: nat, y: nat, w: nat, z: nat)
    requires x * z <= y * z < w * z && z > 0
    ensures x <= y < w
  {
  }

  lemma QuotientBounds(v: nat, d: nat)
    requires d > 0
    ensures 0 <= v / d <= v
  {
    if v < d {
      assert v / d == 0;
    } else {
      var q, r := v / d, v % d;
      MulGrows(q, d);
    }
  }

  lemma MulGrows(q: int, d: nat)
    requires d > 0
    ensures q > 0 ==> q * d >= q
  {
  }

  lemma ShiftRightOnce(v: nat, e: nat)
    ensures ShiftRight(v, e + 1) == ShiftRight(v, e) / 2
  {
    var d := Pow2(e);
    var q, r := v / d, v % d;
    var h, b := q / 2, q % 2;
    assert v == h * (2 * d) + (b * d + r) by {
      assert q == 2 * h + b;
      assert v == q * d + r;
    }
    QuotientIs(v, 2 * d, h, b * d + r);
  }

  lemma ShiftRightIs(v: nat, e: nat, q: nat, r: nat)
    requires v == q * Pow2(e) + r && r < Pow2(e)
    ensures ShiftRight(v, e) == q
  {
    QuotientIs(v, Pow2(e), q, r);
  }

  lemma QuotientIs(v: nat, d: nat, q: nat, r: nat)
    requires v == q * d + r && r < d
    ensures v / d == q
  {
    var x, y := v / d, v % d;
    assert x * d + y == q * d + r;
    assert (x - q) * d == r - y;
    if x > q {
      MulGrows(d, x - q);
    } else if x < q {
      MulGrows(d, q - x);
    }
  }
}
