// The end of an arithmetic-coded segment (section D.1.8 of ITU-T T.81): which code value is
// chosen, that it lies in the final interval, and that no shorter data does.
module Termination {
  import opened Powers
  import opened Bytes
  import opened ExactCoder

  // The value in [c, c + a) that finish_pass picks: the multiple of 0x10000 if there is one,
  // else the odd multiple of 0x8000.
  function FinalCode(c: nat, a: nat): nat
    requires a > 0
  {
    var temp := (a - 1 + c) - (a - 1 + c) % 0x10000;
    if temp < c then temp + 0x8000 else temp
  }

  predicate Round(x: nat) {
    x % 0x10000 == 0
  }

  // code is a value in [low, low + a) with the most trailing zero bits.
  ghost predicate IsRoundest(code: nat, low: nat, a: nat) {
    && low <= code < low + a
    && code % 0x8000 == 0
    && forall x: nat :: low <= x < low + a && Round(x) ==> x == code
  }

  lemma FinalCodeIsRoundest(c: nat, a: nat)
    requires 0x8000 <= a <= 0x10000
    ensures IsRoundest(FinalCode(c, a), c, a)
  {
    hide IsRoundest;
    var t := (a - 1 + c) / 0x10000;
    assert (a - 1 + c) - (a - 1 + c) % 0x10000 == t * 0x10000;
    RoundestChoice(c, a, t);
  }

  lemma RoundestChoice(c: nat, a: nat, t: nat)
    requires 0x8000 <= a <= 0x10000 && t * 0x10000 <= a - 1 + c < t * 0x10000 + 0x10000
    ensures IsRoundest(if t * 0x10000 < c then t * 0x10000 + 0x8000 else t * 0x10000, c, a)
  {
    forall x: nat | c <= x < c + a && Round(x)
      ensures x == t * 0x10000
    {
      RoundIsUnique(x, t);
    }
    HalfRound(t);
  }

  lemma RoundIsUnique(x: nat, t: nat)
    requires Round(x) && t * 0x10000 - 0x10000 < x < t * 0x10000 + 0x10000
    ensures x == t * 0x10000
  {
    var u := x / 0x10000;
    assert x == u * 0x10000;
  }

  lemma HalfRound(t: nat)
    ensures t * 0x10000 % 0x8000 == 0 && (t * 0x10000 + 0x8000) % 0x8000 == 0
  {
    assert t * 0x10000 == (2 * t) * 0x8000;
    assert t * 0x10000 + 0x8000 == (2 * t + 1) * 0x8000;
  }

  lemma RoundestAbove(code: nat, c: nat, a: nat, z: nat)
    requires IsRoundest(code, c, a) && Round(z)
    ensures IsRoundest(z + code, z + c, a)
  {
    RoundPlus(z, code);
    forall x: nat | z + c <= x < z + c + a && Round(x)
      ensures x == z + code
    {
      RoundPlus(z, x - z);
      assert Round(x - z);
    }
  }

  lemma RoundPlus(z: nat, y: nat)
    requires Round(z)
    ensures Round(z + y) <==> Round(y)
    ensures (z + y) % 0x8000 == y % 0x8000
  {
    assert z == z / 0x10000 * 0x10000;
  }

  // The register after the final shift, split into a carry and two bytes: nothing is left.
  lemma FinalBytes(c: nat)
    requires Round(c)
    ensures c == c / 0x8000000 * 0x8000000 + c / 0x80000 % 256 * 0x80000 + c / 0x800 % 256 * 0x800
  {
    LowByte(c);
    HighByte(c);
  }

  lemma LowByte(c: nat)
    requires Round(c)
    ensures c == c / 0x80000 * 0x80000 + c / 0x800 % 256 * 0x800
  {
    var w := c / 0x10000;
    var q := w * 32;
    assert c == q * 0x800;
    assert c / 0x800 == q;
    var t, d := q / 256, q % 256;
    assert q == t * 256 + d;
    assert c == t * 0x80000 + d * 0x800;
  }

  lemma HighByte(c: nat)
    ensures c / 0x80000 == c / 0x8000000 * 256 + c / 0x80000 % 256
  {
    var q, r := c / 0x80000, c % 0x80000;
    var t, d := q / 256, q % 256;
    assert q == t * 256 + d;
    assert c == t * 0x8000000 + d * 0x80000 + r;
  }

  // sent is the final code value of the interval [low, low + a) / 2^n, where the registers
  // were at a bit position that makes low a multiple of 0x10000 plus c.
  ghost predicate IsFinal(i: Interval, code: nat, sent: seq<byte>, k: nat) {
    && i.low <= code < i.low + i.a
    && 8 * k >= 16 + i.n && k >= |sent|
    && Prefix(sent, k) == Shifted(code, 8 * k - 16 - i.n)
  }

  lemma MulPositive(x: nat, y: nat)
    requires x > 0 && y > 0
    ensures x * y > 0
  {
  }

  lemma FinalContains(i: Interval, code: nat, sent: seq<byte>, k: nat)
    requires IsFinal(i, code, sent, k)
    ensures Contains(i, sent)
  {
    var p := Pow2(8 * k - 16 - i.n);
    MulDistrib(i.low, code - i.low, p);
    MulDistrib(code, i.low + i.a - code, p);
    MulPositive(i.low + i.a - code, p);
    hide Pow2, Prefix;
    ContainsFromOne(i, sent, k);
  }

  ghost predicate Multiple(x: nat, m: nat) {
    exists q: nat :: x == q * m
  }

  lemma MultipleOfPower(x: nat, q: nat, m: nat, e: nat)
    requires m <= e && x == q * Pow2(e)
    ensures Multiple(x, Pow2(m))
  {
    Pow2Add(e - m, m);
    MulAssoc(q, Pow2(e - m), Pow2(m));
    assert x == (q * Pow2(e - m)) * Pow2(m);
  }

  lemma PrefixFactor(data: seq<byte>, k: nat)
    requires k >= |data|
    ensures Prefix(data, k) == Value(data) * Pow2(8 * (k - |data|))
  {
    PrefixPastEnd(data, k);
    ValueZeros(data, k - |data|);
  }

  // A nonzero last byte shows in the code value.
  lemma LastByteShows(data: seq<byte>, k: nat)
    requires data != [] && data[|data| - 1] != 0 && k >= |data|
    ensures !Multiple(Prefix(data, k), Pow2(8 * (k - |data|) + 8))
  {
    PrefixFactor(data, k);
    var p, v := Pow2(8 * (k - |data|)), Value(data);
    Pow2Add(8, 8 * (k - |data|));
    Pow2Values();
    assert v % 256 != 0 by {
      assert v == Value(data[..|data| - 1]) * 256 + data[|data| - 1];
    }
    if Multiple(Prefix(data, k), Pow2(8 * (k - |data|) + 8)) {
      var q: nat :| Prefix(data, k) == q * Pow2(8 * (k - |data|) + 8);
      MulAssoc(q, 256, p);
      MulCancel(v, q * 256, p);
    }
  }

  // A code value with no bits below the 16 the registers keep is the chosen one.
  lemma RoundIsFinal(i: Interval, code: nat, g: nat, x: nat, q: nat, e: nat)
    requires forall x: nat :: i.low <= x < i.low + i.a && Round(x) ==> x == code
    requires i.low * Pow2(g) <= x < (i.low + i.a) * Pow2(g)
    requires e >= g + 16 && x == q * Pow2(e)
    ensures x == code * Pow2(g)
  {
    hide Pow2, Round;
    var y := q * Pow2(e - g);
    assert x == y * Pow2(g) by {
      Pow2Add(e - g, g);
      MulAssoc(q, Pow2(e - g), Pow2(g));
    }
    PowerIsRound(q, e - g);
    MulOrder(i.low, y, i.low + i.a, Pow2(g));
  }

  lemma PowerIsRound(q: nat, m: nat)
    requires m >= 16
    ensures Round(q * Pow2(m))
  {
    Pow2Add(m - 16, 16);
    Pow2Values();
    MulAssoc(q, Pow2(m - 16), 0x10000);
    var w := q * Pow2(m - 16);
    assert Round(w * 0x10000);
  }

  // Pacman termination: no shorter data lies in the final interval.
  lemma FinalIsShortest(i: Interval, code: nat, sent: seq<byte>, k: nat, other: seq<byte>)
    requires IsFinal(i, code, sent, k) && (sent != [] ==> sent[|sent| - 1] != 0)
    requires IsRoundest(code, i.low, i.a)
    requires Contains(i, other)
    ensures |sent| <= |other|
  {
    if |other| < |sent| {
      var g := 8 * k - 16 - i.n;
      var e := 8 * (k - |other|);
      var m := 8 * (k - |sent|) + 8;
      if e >= g + 16 {
        PrefixFactor(other, k);
        assert ContainsAt(i, other, k);
        RoundIsFinal(i, code, g, Prefix(other, k), Value(other), e);
        MultipleOfPower(Prefix(sent, k), Value(other), m, e);
      } else {
        Pow2Add(15, g);
        Pow2Values();
        MulAssoc(code / 0x8000, 0x8000, Pow2(g));
        MultipleOfPower(Prefix(sent, k), code / 0x8000, m, 15 + g);
      }
      LastByteShows(sent, k);
    }
  }

  // sent reads as a number in the interval, and no shorter data does.
  ghost predicate IsShortestCode(i: Interval, sent: seq<byte>) {
    Contains(i, sent) && forall other :: Contains(i, other) ==> |sent| <= |other|
  }

  lemma FinalIsShortestCode(i: Interval, code: nat, sent: seq<byte>, k: nat)
    requires IsFinal(i, code, sent, k) && (sent != [] ==> sent[|sent| - 1] != 0)
    requires IsRoundest(code, i.low, i.a)
    ensures IsShortestCode(i, sent)
  {
    FinalContains(i, code, sent, k);
    forall other | Contains(i, other)
      ensures |sent| <= |other|
    {
      FinalIsShortest(i, code, sent, k, other);
    }
  }
}
