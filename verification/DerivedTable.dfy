// jpeg_make_c_derived_tbl of libs/jpeg/jchuff.c: the codes of a Huffman table (Annex C of
// T.81). Which tables it accepts, and that the codes of an accepted one are prefix-free and
// not all ones.
module DerivedTable {
  import opened Powers
  import opened Bytes
  import opened HuffmanCost
  import opened HuffmanMerge
  import opened HuffmanTable
  import opened HuffmanDepth

  // ----- Code lengths and codes, in the order of huffval -----

  // Figure C.1.
  function SizesOf(bits: seq<nat>, l: nat): (hs: seq<nat>)
    requires l < |bits|
    ensures |hs| == Words(bits, l)
  {
    if l == 0 then [] else SizesOf(bits, l - 1) + seq(bits[l], _ => l)
  }

  predicate Ascending(hs: seq<nat>) {
    forall p, q :: 0 <= p <= q < |hs| ==> hs[p] <= hs[q]
  }

  lemma {:induction false} SizesAscend(bits: seq<nat>, l: nat)
    requires l < |bits|
    ensures Ascending(SizesOf(bits, l)) && Below(SizesOf(bits, l), l)
    ensures forall p :: 0 <= p < |SizesOf(bits, l)| ==> SizesOf(bits, l)[p] > 0
  {
    if l > 0 {
      SizesAscend(bits, l - 1);
    }
  }

  lemma {:induction false} KraftOfEqual(l: nat, k: nat, m: nat)
    requires l <= m
    ensures Below(seq(k, _ => l), m) && Kraft(seq(k, _ => l), m) == k * Pow2(m - l)
  {
    if k > 0 {
      assert seq(k, _ => l)[1..] == seq(k - 1, _ => l);
      KraftOfEqual(l, k - 1, m);
      MulDistrib(k - 1, 1, Pow2(m - l));
    }
  }

  lemma {:induction false} SizesKraft(bits: seq<nat>, l: nat, m: nat)
    requires l < |bits| && l <= m
    ensures Below(SizesOf(bits, l), m) && Kraft(SizesOf(bits, l), m) == KraftOf(bits, l, m)
  {
    if l == 0 {
    } else {
      SizesKraft(bits, l - 1, m);
      KraftOfEqual(l, bits[l], m);
      KraftConcat(SizesOf(bits, l - 1), seq(bits[l], _ => l), m);
    }
  }

  // Figure C.2: the next code is the last one plus one, extended to the new length.
  function CodeAt(hs: seq<nat>, p: nat): nat
    requires p < |hs| && Ascending(hs)
  {
    if p == 0 then 0 else Shifted(CodeAt(hs, p - 1) + 1, hs[p] - hs[p - 1])
  }

  lemma ShiftedTwice(v: nat, d: nat, e: nat)
    ensures Shifted(Shifted(v, d), e) == Shifted(v, d + e)
  {
    Pow2Add(d, e);
    MulAssoc(v, Pow2(d), Pow2(e));
  }

  lemma ShiftedOrder(v: nat, w: nat, d: nat)
    ensures v <= w ==> Shifted(v, d) <= Shifted(w, d)
    ensures v < w <==> Shifted(v, d) < Shifted(w, d)
  {
    if v < w {
      MulDistrib(v, w - v, Pow2(d));
      MulGrows(w - v, Pow2(d));
    } else {
      MulDistrib(w, v - w, Pow2(d));
    }
  }

  // A later code begins beyond every earlier one.
  lemma {:induction false} LaterCode(hs: seq<nat>, p: nat, q: nat)
    requires Ascending(hs) && p < q < |hs|
    ensures CodeAt(hs, q) >= Shifted(CodeAt(hs, p) + 1, hs[q] - hs[p])
  {
    hide Shifted;
    if p + 1 < q {
      LaterCode(hs, p, q - 1);
      var e := hs[q] - hs[q - 1];
      ShiftedTwice(CodeAt(hs, p) + 1, hs[q - 1] - hs[p], e);
      ShiftedOrder(Shifted(CodeAt(hs, p) + 1, hs[q - 1] - hs[p]), CodeAt(hs, q - 1) + 1, e);
    }
  }

  // The codes up to position p take up the space their lengths claim.
  lemma {:induction false} CodeFillsKraft(hs: seq<nat>, p: nat, m: nat)
    requires Ascending(hs) && Below(hs, m) && p < |hs|
    ensures Below(hs[..p + 1], m) && Kraft(hs[..p + 1], m) == Shifted(CodeAt(hs, p) + 1, m - hs[p])
  {
    hide Kraft;
    var c := CodeAt(hs, p);
    assert hs[..p + 1] == hs[..p] + [hs[p]];
    KraftAppend(hs[..p], hs[p], m);
    if p == 0 {
      EmptyKraft(m);
    } else {
      CodeFillsKraft(hs, p - 1, m);
      ShiftedTwice(CodeAt(hs, p - 1) + 1, hs[p] - hs[p - 1], m - hs[p]);
    }
    MulDistrib(c, 1, Pow2(m - hs[p]));
  }

  lemma EmptyKraft(m: nat)
    ensures Kraft([], m) == 0
  {
  }

  // ----- What is accepted -----

  predicate Distinct(s: seq<byte>) {
    forall p, q :: 0 <= p < q < |s| ==> s[p] != s[q]
  }

  // A table that leaves room in Kraft's sum and lists distinct symbols of the right kind.
  ghost predicate Acceptable(isDC: bool, bits: seq<nat>, huffval: seq<byte>)
    requires |bits| == 17 && |huffval| == 256
  {
    && Words(bits, 16) <= 256
    && KraftOf(bits, 16, 16) < Pow2(16)
    && Distinct(huffval[..Words(bits, 16)])
    && forall p :: 0 <= p < Words(bits, 16) ==> huffval[p] <= if isDC then 15 else 255
  }

  // No code so far is too large for its length.
  ghost predicate CodesFit(hs: seq<nat>, p: nat)
    requires p <= |hs| && Ascending(hs)
  {
    forall i :: 0 <= i < p ==> CodeAt(hs, i) + 1 < Pow2(hs[i])
  }

  lemma OneCodeTooLarge(hs: seq<nat>, p: nat, q: nat)
    requires Ascending(hs) && p <= q < |hs| && CodeAt(hs, p) + 1 >= Pow2(hs[p])
    ensures CodeAt(hs, q) + 1 >= Pow2(hs[q])
  {
    if p < q {
      LaterCode(hs, p, q);
      ShiftedOrder(Pow2(hs[p]), CodeAt(hs, p) + 1, hs[q] - hs[p]);
      Pow2Add(hs[p], hs[q] - hs[p]);
    }
  }

  // The codes fit exactly when Kraft's sum is below 1.
  lemma CodesFitKraft(bits: seq<nat>)
    requires |bits| == 17
    ensures Ascending(SizesOf(bits, 16)) && Below(SizesOf(bits, 16), 16)
    ensures CodesFit(SizesOf(bits, 16), Words(bits, 16)) <==> KraftOf(bits, 16, 16) < Pow2(16)
  {
    hide Pow2, Shifted, KraftOf, Kraft, CodeAt;
    var hs := SizesOf(bits, 16);
    SizesAscend(bits, 16);
    SizesKraft(bits, 16, 16);
    if hs == [] {
      EmptyKraft(16);
    } else {
      var last := |hs| - 1;
      assert hs[..last + 1] == hs;
      CodeFillsKraft(hs, last, 16);
      Pow2Add(hs[last], 16 - hs[last]);
      ShiftedOrder(CodeAt(hs, last) + 1, Pow2(hs[last]), 16 - hs[last]);
      assert Shifted(Pow2(hs[last]), 16 - hs[last]) == Pow2(16) by {
        ShiftedIs(Pow2(hs[last]), 16 - hs[last]);
      }
      forall p | 0 <= p < |hs| && CodeAt(hs, p) + 1 >= Pow2(hs[p])
        ensures CodeAt(hs, last) + 1 >= Pow2(hs[last])
      {
        OneCodeTooLarge(hs, p, last);
      }
    }
  }

  lemma ShiftedIs(v: nat, e: nat)
    ensures Shifted(v, e) == v * Pow2(e)
  {
  }

  // ----- The construction -----

  // By symbol. Size 0 means that there is no code.
  datatype Derived = Derived(ehufco: seq<nat>, ehufsi: seq<nat>)

  datatype Result = Accepted(table: Derived) | BadTable

  // The procedure of figure C.1, which stops before the table overruns.
  method FillSizes(bits: seq<byte>, huffsize: array<nat>) returns (ok: bool, lastp: nat)
    requires |bits| == 17 && huffsize.Length == 257
    modifies huffsize
    ensures ok <==> Words(bits, 16) <= 256
    ensures ok ==> lastp == Words(bits, 16) && huffsize[..lastp] == SizesOf(bits, 16) && huffsize[lastp] == 0
  {
    var p: nat := 0;
    for l := 1 to 17
      invariant p <= 256 && huffsize[..p] == SizesOf(bits, l - 1)
    {
      var i: nat := bits[l];
      if p + i > 256 {   // protect against table overrun
        WordsAbove(bits, l, 16);
        return false, 0;
      }
      ghost var before := huffsize[..p];
      while i > 0
        invariant i <= bits[l] && p + i <= 256
        invariant huffsize[..p] == before + seq(bits[l] - i, _ => l)
      {
        huffsize[p] := l;
        p := p + 1;
        i := i - 1;
        assert huffsize[..p] == huffsize[..p - 1] + [l];
      }
    }
    huffsize[p] := 0;
    ok, lastp := true, p;
  }

  // The procedure of figure C.2, with the check that makes the counts a legal code.
  method FillCodes(huffsize: array<nat>, huffcode: array<nat>, ghost hs: seq<nat>) returns (ok: bool)
    requires huffsize.Length == huffcode.Length == 257 && huffsize != huffcode
    requires |hs| <= 256 && huffsize[..|hs|] == hs && huffsize[|hs|] == 0
    requires Ascending(hs) && Below(hs, 16) && forall p :: 0 <= p < |hs| ==> hs[p] > 0
    modifies huffcode
    ensures ok <==> CodesFit(hs, |hs|)
    ensures ok ==> forall p :: 0 <= p < |hs| ==> huffcode[p] == CodeAt(hs, p)
  {
    hide CodeAt, Pow2, Shifted, CodesFit;
    NoCodesFit(hs);
    var code, si, p := 0, huffsize[0], 0;
    while huffsize[p] != 0
      invariant p <= |hs| && CodesFit(hs, p)
      invariant p > 0 ==> hs[p - 1] < si && code == Shifted(CodeAt(hs, p - 1) + 1, si - hs[p - 1])
      invariant si <= 17 && (p == 0 ==> code == 0)
      invariant p < |hs| ==> si <= hs[p] && (p == 0 ==> si == hs[p])
      invariant forall i :: 0 <= i < p ==> huffcode[i] == CodeAt(hs, i)
      decreases 17 - si
    {
      assert hs[p] == huffsize[p];
      ghost var p0 := p;
      while huffsize[p] == si
        invariant p0 <= p <= |hs|
        invariant p > p0 ==> hs[p - 1] == si && code == CodeAt(hs, p - 1) + 1
        invariant p == p0 && p > 0 ==> hs[p - 1] < si && code == Shifted(CodeAt(hs, p - 1) + 1, si - hs[p - 1])
        invariant p == p0 == 0 ==> code == 0
        invariant p < |hs| ==> si <= hs[p]
        invariant forall i :: 0 <= i < p ==> huffcode[i] == CodeAt(hs, i)
        decreases |hs| - p
      {
        assert hs[p] == huffsize[p];
        NextCode(hs, p);
        huffcode[p] := code;
        p := p + 1;
        code := code + 1;
      }
      NextCode(hs, p - 1);
      RunFits(hs, p0, p, si, code);
      // All ones is no code, so one past the last code of a length still has that length.
      if code >= Pow2(si) {
        return false;
      }
      ShiftedTwice(CodeAt(hs, p - 1) + 1, si - hs[p - 1], 1);
      DoubledIs(code);
      code := 2 * code;
      si := si + 1;
    }
    ok := true;
  }

  lemma DoubledIs(v: nat)
    ensures Shifted(v, 1) == 2 * v
  {
    assert Pow2(1) == 2;
  }

  lemma NoCodesFit(hs: seq<nat>)
    requires Ascending(hs)
    ensures CodesFit(hs, 0)
  {
  }

  // The check of one code length, whether or not there are codes of that length.
  lemma RunFits(hs: seq<nat>, p0: nat, p: nat, si: nat, code: nat)
    requires Ascending(hs) && p0 <= p <= |hs| && p > 0 && CodesFit(hs, p0)
    requires hs[p - 1] <= si && code == Shifted(CodeAt(hs, p - 1) + 1, si - hs[p - 1])
    requires p > p0 ==> hs[p - 1] == si
    ensures code < Pow2(si) ==> CodesFit(hs, p)
    ensures code >= Pow2(si) ==> p > p0 && !CodesFit(hs, |hs|)
  {
    hide CodeAt, Pow2;
    var d := si - hs[p - 1];
    Pow2Add(hs[p - 1], d);
    ShiftedIs(Pow2(hs[p - 1]), d);
    ShiftedOrder(CodeAt(hs, p - 1) + 1, Pow2(hs[p - 1]), d);
    forall i | 0 <= i < p && CodeAt(hs, i) + 1 >= Pow2(hs[i])
      ensures CodeAt(hs, p - 1) + 1 >= Pow2(hs[p - 1])
    {
      OneCodeTooLarge(hs, i, p - 1);
    }
  }

  lemma NextCode(hs: seq<nat>, p: nat)
    requires Ascending(hs) && p < |hs|
    ensures CodeAt(hs, p) == if p == 0 then 0 else Shifted(CodeAt(hs, p - 1) + 1, hs[p] - hs[p - 1])
    ensures Shifted(CodeAt(hs, p) + 1, 0) == CodeAt(hs, p) + 1
    ensures p > 0 ==> Shifted(CodeAt(hs, p - 1) + 1, 0) == CodeAt(hs, p - 1) + 1
  {
  }

  // The derived table gives the symbols of huffval their codes, and no other.
  ghost predicate Derives(bits: seq<nat>, huffval: seq<byte>, d: Derived) {
    && |bits| == 17 && |huffval| == 256 && Words(bits, 16) <= 256
    && |d.ehufco| == |d.ehufsi| == 256 && Ascending(SizesOf(bits, 16))
    && (forall s :: 0 <= s < 256 ==> (d.ehufsi[s] > 0 <==> s in huffval[..Words(bits, 16)]))
    && (forall p :: 0 <= p < Words(bits, 16) ==>
        d.ehufsi[huffval[p]] == SizesOf(bits, 16)[p] && d.ehufco[huffval[p]] == CodeAt(SizesOf(bits, 16), p))
  }

  // The procedure of figure C.3, which refuses symbols out of range or listed twice.
  method FillTables(isDC: bool, huffval: seq<byte>, lastp: nat, huffsize: array<nat>, huffcode: array<nat>,
                    ehufco: array<nat>, ehufsi: array<nat>)
    returns (ok: bool)
    requires |huffval| == 256 && lastp <= 256 && huffsize.Length == huffcode.Length == 257
    requires ehufco.Length == ehufsi.Length == 256 && ehufco != ehufsi
    requires ehufco != huffsize && ehufco != huffcode && ehufsi != huffsize && ehufsi != huffcode
    requires forall p :: 0 <= p < lastp ==> huffsize[p] > 0
    requires forall s :: 0 <= s < 256 ==> ehufsi[s] == 0
    modifies ehufco, ehufsi
    ensures ok <==> Distinct(huffval[..lastp]) && forall p :: 0 <= p < lastp ==> huffval[p] <= if isDC then 15 else 255
    ensures ok ==>
      && (forall s :: 0 <= s < 256 ==> (ehufsi[s] > 0 <==> s in huffval[..lastp]))
      && (forall p :: 0 <= p < lastp ==> ehufsi[huffval[p]] == huffsize[p] && ehufco[huffval[p]] == huffcode[p])
  {
    var maxsymbol := if isDC then 15 else 255;
    for p := 0 to lastp
      invariant Distinct(huffval[..p]) && forall q :: 0 <= q < p ==> huffval[q] <= maxsymbol
      invariant forall s :: 0 <= s < 256 ==> (ehufsi[s] > 0 <==> s in huffval[..p])
      invariant forall q :: 0 <= q < p ==> ehufsi[huffval[q]] == huffsize[q] && ehufco[huffval[q]] == huffcode[q]
    {
      var i := huffval[p];
      assert huffval[..p + 1] == huffval[..p] + [i];
      if i > maxsymbol || ehufsi[i] != 0 {
        if ehufsi[i] != 0 {
          Repeated(huffval, p, lastp);
        }
        return false;
      }
      assert forall q :: 0 <= q < p ==> huffval[..p][q] == huffval[q];
      ehufco[i] := huffcode[p];
      ehufsi[i] := huffsize[p];
    }
    ok := true;
  }

  lemma Repeated(huffval: seq<byte>, p: nat, n: nat)
    requires p < n <= |huffval| && huffval[p] in huffval[..p]
    ensures !Distinct(huffval[..n])
  {
    var q :| 0 <= q < p && huffval[..p][q] == huffval[p];
    assert huffval[..n][q] == huffval[..n][p];
  }

  // The whole of jpeg_make_c_derived_tbl. BadTable stands for its error exit.
  method MakeDerived(isDC: bool, bits: seq<byte>, huffval: seq<byte>) returns (r: Result)
    requires |bits| == 17 && |huffval| == 256
    ensures r.Accepted? <==> Acceptable(isDC, bits, huffval)
    ensures r.Accepted? ==> Derives(bits, huffval, r.table)
  {
    hide CodeAt, Words, KraftOf, Pow2, SizesOf, CodesFit;
    var huffsize, huffcode := new nat[257](_ => 0), new nat[257](_ => 0);
    var ehufco, ehufsi := new nat[256](_ => 0), new nat[256](_ => 0);
    var ok, lastp := FillSizes(bits, huffsize);
    if !ok {
      return BadTable;
    }
    ghost var hs := SizesOf(bits, 16);
    SizesAscend(bits, 16);
    CodesFitKraft(bits);
    ok := FillCodes(huffsize, huffcode, hs);
    if !ok {
      return BadTable;
    }
    assert forall p :: 0 <= p < lastp ==> huffsize[p] == hs[p];
    ok := FillTables(isDC, huffval, lastp, huffsize, huffcode, ehufco, ehufsi);
    if !ok {
      return BadTable;
    }
    r := Accepted(Derived(ehufco[..], ehufsi[..]));
  }

  // ----- What the codes are worth -----

  // The code word of n bits, most significant bit first.
  function CodeWord(v: nat, n: nat): (w: Code)
    ensures |w| == n
  {
    if n == 0 then [] else CodeWord(v / 2, n - 1) + [v % 2 == 1]
  }

  lemma {:induction false} CodeWordPrefix(v: nat, n: nat, k: nat)
    requires k <= n
    ensures CodeWord(v, n)[..k] == CodeWord(ShiftRight(v, n - k), k)
  {
    if k == n {
      assert Pow2(0) == 1;
      assert CodeWord(v, n)[..n] == CodeWord(v, n);
    } else {
      CodeWordPrefix(v / 2, n - 1, k);
      assert CodeWord(v, n)[..k] == CodeWord(v / 2, n - 1)[..k];
      HalfShift(v, n - 1 - k);
    }
  }

  lemma HalfShift(v: nat, e: nat)
    ensures ShiftRight(v / 2, e) == ShiftRight(v, e + 1)
  {
    var d := Pow2(e);
    var q, r := v / 2 / d, v / 2 % d;
    assert v / 2 == q * d + r;
    assert v == 2 * (v / 2) + v % 2;
    assert v == q * (2 * d) + (2 * r + v % 2) by {
      MulAssoc(q, 2, d);
      assert 2 * (q * d) == q * (2 * d);
    }
    QuotientIs(v, 2 * d, q, 2 * r + v % 2);
  }

  lemma {:induction false} CodeWordIs(v: nat, w: nat, n: nat)
    requires v < Pow2(n) && w < Pow2(n) && CodeWord(v, n) == CodeWord(w, n)
    ensures v == w
  {
    if n > 0 {
      assert CodeWord(v, n)[..n - 1] == CodeWord(v / 2, n - 1);
      assert CodeWord(w, n)[..n - 1] == CodeWord(w / 2, n - 1);
      assert CodeWord(v, n)[n - 1] == CodeWord(w, n)[n - 1];
      CodeWordIs(v / 2, w / 2, n - 1);
    }
  }

  lemma ShiftedBack(v: nat, c: nat, d: nat, n: nat)
    requires v >= Shifted(c, d) && v < Pow2(n + d)
    ensures c <= ShiftRight(v, d) < Pow2(n)
  {
    hide Pow2;
    var p := Pow2(d);
    var q, r := v / p, v % p;
    assert v == q * p + r;
    Pow2Add(n, d);
    if q < c {
      MulDistrib(q + 1, c - q - 1, p);
      MulDistrib(q, 1, p);
    }
    if q >= Pow2(n) {
      MulDistrib(Pow2(n), q - Pow2(n), p);
    }
  }

  // Later code words neither extend earlier ones nor are extended by them.
  lemma PositionsApart(hs: seq<nat>, p: nat, q: nat)
    requires Ascending(hs) && CodesFit(hs, |hs|) && p < q < |hs|
    ensures Apart(CodeWord(CodeAt(hs, p), hs[p]), CodeWord(CodeAt(hs, q), hs[q]))
  {
    hide CodeAt, Pow2, Shifted, ShiftRight, CodeWord;
    var c, e, d := CodeAt(hs, p), CodeAt(hs, q), hs[q] - hs[p];
    var v, w := CodeWord(c, hs[p]), CodeWord(e, hs[q]);
    LaterCode(hs, p, q);
    ShiftedBack(e, c + 1, d, hs[p]);
    CodeWordPrefix(e, hs[q], hs[p]);
    if v <= w || w <= v {
      assert v == w[..hs[p]];
      CodeWordIs(c, ShiftRight(e, d), hs[p]);
    }
  }

  lemma {:induction false} NotAllOnes(v: nat, n: nat)
    requires v + 1 < Pow2(n)
    ensures false in CodeWord(v, n)
  {
    if v % 2 == 1 {
      NotAllOnes(v / 2, n - 1);
    }
  }

  // The code words of an accepted table are prefix-free, and none is all ones.
  lemma CodesArePrefixFree(isDC: bool, bits: seq<byte>, huffval: seq<byte>, d: Derived, s: byte, r: byte)
    requires |bits| == 17 && |huffval| == 256 && Acceptable(isDC, bits, huffval) && Derives(bits, huffval, d)
    requires d.ehufsi[s] > 0 && d.ehufsi[r] > 0
    ensures d.ehufsi[s] <= 16 && false in CodeWord(d.ehufco[s], d.ehufsi[s])
    ensures s != r ==> Apart(CodeWord(d.ehufco[s], d.ehufsi[s]), CodeWord(d.ehufco[r], d.ehufsi[r]))
  {
    hide CodeAt, Pow2, KraftOf, CodeWord, Words, Apart;
    var hs, list := SizesOf(bits, 16), huffval[..Words(bits, 16)];
    CodesFitKraft(bits);
    var p :| 0 <= p < |list| && list[p] == s;
    var q :| 0 <= q < |list| && list[q] == r;
    assert huffval[p] == s && huffval[q] == r;
    NotAllOnes(CodeAt(hs, p), hs[p]);
    if p < q {
      PositionsApart(hs, p, q);
    } else if q < p {
      PositionsApart(hs, q, p);
      ApartIsSymmetric(CodeWord(CodeAt(hs, q), hs[q]), CodeWord(CodeAt(hs, p), hs[p]));
    }
  }

  lemma ApartIsSymmetric(v: Code, w: Code)
    requires Apart(v, w)
    ensures Apart(w, v)
  {
  }

  // The optimal table is always usable: as an AC table, and as a DC table when the symbols
  // are at most 15.
  lemma OptimalIsAcceptable(isDC: bool, w: seq<nat>, sizes: seq<nat>, bits: seq<byte>, huffval: seq<byte>)
    requires CodesFor(w, sizes, bits, huffval)
    requires isDC ==> forall s :: 16 <= s < 256 ==> w[s] == 0
    ensures Acceptable(isDC, bits, huffval)
  {
    hide KraftOf, Pow2, Words;
    var list := huffval[..Words(bits, 16)];
    forall p | 0 <= p < |list|
      ensures huffval[p] <= if isDC then 15 else 255
    {
      assert list[p] in list;
    }
  }

  // The symbols sorted by code size have the code sizes that the counts say.
  lemma {:induction false} ListedSizes(sizes: seq<nat>, l: nat)
    requires |sizes| == SYMBOLS && l <= 16
    ensures |Histogram(sizes, 256)[..17]| == 17
    ensures |Listed(sizes, l)| == |SizesOf(Histogram(sizes, 256)[..17], l)|
    ensures forall p :: 0 <= p < |Listed(sizes, l)| ==>
      sizes[Listed(sizes, l)[p]] == SizesOf(Histogram(sizes, 256)[..17], l)[p]
  {
    hide Symbols, CountOf;
    if l > 0 {
      ListedSizes(sizes, l - 1);
      SymbolsAre(sizes, l, 256);
      var a, b := Listed(sizes, l - 1), Symbols(sizes, l, 256);
      assert Histogram(sizes, 256)[..17][l] == |b|;
      forall p | 0 <= p < |Listed(sizes, l)|
        ensures sizes[Listed(sizes, l)[p]] == SizesOf(Histogram(sizes, 256)[..17], l)[p]
      {
        if p >= |a| {
          assert b[p - |a|] in b;
        }
      }
    }
  }

  lemma {:induction false} NoLonger(sizes: seq<nat>, l: nat, n: nat)
    requires |sizes| == SYMBOLS && l <= n <= MAX_CLEN && forall s :: 0 <= s < SYMBOLS ==> sizes[s] <= l
    ensures Listed(sizes, n) == Listed(sizes, l)
  {
    hide Symbols;
    if l < n {
      NoLonger(sizes, l, n - 1);
      SymbolsAre(sizes, n, 256);
      NoneThatLong(sizes, n, 256);
    }
  }

  // The codes have the sizes of Huffman's procedure.
  ghost predicate KeepsSizes(w: seq<nat>, d: Derived) {
    && |w| == SYMBOLS && |d.ehufsi| == 256
    && forall s :: 0 <= s < 256 && w[s] > 0 ==> d.ehufsi[s] == HuffmanSizes(w)[s]
  }

  // Or at least none that is smaller there has become longer.
  ghost predicate KeepsOrder(w: seq<nat>, d: Derived) {
    && |w| == SYMBOLS && |d.ehufsi| == 256
    && forall s, r ::
      (0 <= s < 256 && 0 <= r < 256 && w[s] > 0 && w[r] > 0 && HuffmanSizes(w)[s] < HuffmanSizes(w)[r]) ==>
      d.ehufsi[s] <= d.ehufsi[r]
  }

  predicate SizesAreShort(sizes: seq<nat>) {
    forall s :: 0 <= s < |sizes| ==> sizes[s] <= 16
  }

  // If no code size exceeds 16, the symbols get codes of exactly those sizes.
  lemma {:induction false} SizesAreKept(w: seq<nat>, sizes: seq<nat>, bits: seq<byte>, huffval: seq<byte>, d: Derived, s: byte)
    requires CodesFor(w, sizes, bits, huffval) && Derives(bits, huffval, d)
    requires forall r :: 0 <= r < SYMBOLS ==> sizes[r] <= sizes[256] <= 16
    requires sizes[256] > 0 && w[s] > 0
    ensures d.ehufsi[s] == sizes[s]
  {
    hide Listed, Histogram, SizesOf, Words, KraftOf, Full, HasRoom, TableCounts, CodeAt;
    CountsAreExact(sizes);
    ListedSizes(sizes, 16);
    NoLonger(sizes, 16, MAX_CLEN);
    var list := huffval[..Words(bits, 16)];
    var p :| 0 <= p < |list| && list[p] == s;
    assert huffval[p] == s;
  }

  // Whatever is limited, symbols with smaller code sizes do not get longer codes.
  lemma {:induction false} SizesStayOrdered(w: seq<nat>, sizes: seq<nat>, bits: seq<byte>, huffval: seq<byte>, d: Derived,
                                            s: byte, r: byte)
    requires CodesFor(w, sizes, bits, huffval) && Derives(bits, huffval, d)
    requires w[s] > 0 && w[r] > 0 && sizes[s] < sizes[r]
    ensures d.ehufsi[s] <= d.ehufsi[r]
  {
    hide Listed, Histogram, SizesOf, Words, KraftOf, Full, HasRoom, TableCounts, CodeAt;
    var list := huffval[..Words(bits, 16)];
    var p :| 0 <= p < |list| && list[p] == s;
    var q :| 0 <= q < |list| && list[q] == r;
    assert huffval[p] == s && huffval[q] == r;
  }

  // From counts to codes: unless the code lengths overflow, exactly the symbols in use get
  // code words, which are prefix-free and not all ones. Optimal code lengths are kept if they are
  // at most 16.
  method OptimalCodes(isDC: bool, freq: array<nat>)
    returns (ok: bool, d: Derived, bits: seq<byte>, huffval: seq<byte>)
    requires freq.Length == SYMBOLS && Countable(freq[..])
    requires isDC ==> forall s :: 16 <= s < 256 ==> freq[s] == 0
    modifies freq
    ensures var w := Weights(old(freq[..]));
      && IsOptimal(w, HuffmanSizes(w))
      && (ok <==> !Overflows(w))
      && (ok ==> KeepsOrder(w, d) && (SizesAreShort(HuffmanSizes(w)) ==> KeepsSizes(w, d)))
    ensures |d.ehufsi| == |d.ehufco| == 256
    ensures ok ==>
      |bits| == 17 && |huffval| == 256 && Acceptable(isDC, bits, huffval) && Derives(bits, huffval, d)
    ensures ok ==> forall s :: 0 <= s < 256 ==> (d.ehufsi[s] > 0 <==> old(freq[s]) > 0)
    ensures ok ==> forall s :: 0 <= s < 256 && d.ehufsi[s] > 0 ==>
      d.ehufsi[s] <= 16 && false in CodeWord(d.ehufco[s], d.ehufsi[s])
    ensures ok ==> forall s, r :: 0 <= s < 256 && 0 <= r < 256 && s != r && d.ehufsi[s] > 0 && d.ehufsi[r] > 0 ==>
      Apart(CodeWord(d.ehufco[s], d.ehufsi[s]), CodeWord(d.ehufco[r], d.ehufsi[r]))
  {
    hide Countable, IsOptimal, CodeWord, Words, KraftOf, CodeAt, SizesOf, Acceptable, Apart, HuffmanSizes, Overflows;
    hide TableCounts, Listed, Full, HasRoom, Histogram, KeepsOrder, KeepsSizes, SizesAreShort;
    ghost var w := Weights(freq[..]);
    ok, bits, huffval := GenOptimalTable(freq);
    d := Derived(seq(256, _ => 0), seq(256, _ => 0));
    if ok {
      OptimalIsAcceptable(isDC, w, HuffmanSizes(w), bits, huffval);
      var r := MakeDerived(isDC, bits, huffval);
      d := r.table;
      forall s, t | 0 <= s < 256 && 0 <= t < 256 && d.ehufsi[s] > 0 && d.ehufsi[t] > 0
        ensures d.ehufsi[s] <= 16 && false in CodeWord(d.ehufco[s], d.ehufsi[s])
        ensures s != t ==> Apart(CodeWord(d.ehufco[s], d.ehufsi[s]), CodeWord(d.ehufco[t], d.ehufsi[t]))
      {
        CodesArePrefixFree(isDC, bits, huffval, d, s, t);
      }
      LengthsAreRight(w, bits, huffval, d);
    }
  }

  lemma UsedHaveCodes(w: seq<nat>, sizes: seq<nat>, bits: seq<byte>, huffval: seq<byte>)
    requires CodesFor(w, sizes, bits, huffval)
    ensures |w| == |sizes| == SYMBOLS && forall s :: 0 <= s < SYMBOLS ==> (w[s] > 0 <==> sizes[s] > 0)
  {
  }

  lemma LengthsAreRight(w: seq<nat>, bits: seq<byte>, huffval: seq<byte>, d: Derived)
    requires |w| == SYMBOLS && w[256] == 1 && |d.ehufsi| == 256
    requires CodesFor(w, HuffmanSizes(w), bits, huffval) && Derives(bits, huffval, d)
    ensures KeepsOrder(w, d) && (SizesAreShort(HuffmanSizes(w)) ==> KeepsSizes(w, d))
  {
    hide CodesFor, Derives, HuffmanSizes;
    var sizes := HuffmanSizes(w);
    forall s, r | 0 <= s < 256 && 0 <= r < 256 && w[s] > 0 && w[r] > 0 && sizes[s] < sizes[r]
      ensures d.ehufsi[s] <= d.ehufsi[r]
    {
      SizesStayOrdered(w, sizes, bits, huffval, d, s, r);
    }
    PseudoIsDeepest(w);
    UsedHaveCodes(w, sizes, bits, huffval);
    if SizesAreShort(sizes) {
      forall s | 0 <= s < 256 && w[s] > 0
        ensures d.ehufsi[s] == sizes[s]
      {
        SizesAreKept(w, sizes, bits, huffval, d, s);
      }
    }
  }
}
