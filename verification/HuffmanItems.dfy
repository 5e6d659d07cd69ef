// What the sequential Huffman coder of libs/jpeg/jchuff.c emits for a block (sections F.1.2.1
// and F.1.2.2 of T.81), and that the decoding procedures of section F.2.2 recover the block.
module HuffmanItems {
  import opened Powers
  import opened Bytes
  import opened DecisionModel
  import opened HuffmanTable
  import opened DerivedTable
  import opened BitStream

  // A Huffman-coded symbol of a DC or AC table, or additional bits.
  datatype Item = Symbol(isDc: bool, tbl: nat, s: nat) | Extra(v: nat, n: nat)

  const MAX_COEF_BITS := 10   // 8-bit sample precision

  // How many bits a magnitude has.
  function NBits(a: nat): nat {
    if a == 0 then 0 else 1 + NBits(a / 2)
  }

  lemma {:induction false} NBitsBounds(a: nat)
    ensures a < Pow2(NBits(a))
    ensures a > 0 ==> Pow2(NBits(a) - 1) <= a
  {
    if a > 1 {
      NBitsBounds(a / 2);
    }
  }

  // The additional bits of a value: itself if positive, else the complement of its magnitude.
  function ExtraOf(v: int): (x: nat)
    ensures x < Pow2(NBits(Abs(v)))
  {
    NBitsBounds(Abs(v));
    if v >= 0 then v else Pow2(NBits(Abs(v))) - 1 + v
  }

  // Figure F.12.
  function Extend(x: nat, n: nat): int
    requires n > 0
  {
    if x < Pow2(n - 1) then x - (Pow2(n) - 1) else x
  }

  lemma ExtendExtra(v: int)
    requires v != 0
    ensures NBits(Abs(v)) > 0 && Extend(ExtraOf(v), NBits(Abs(v))) == v
  {
    NBitsBounds(Abs(v));
  }

  function ValueItems(v: int): seq<Item> {
    if v == 0 then [] else [Extra(ExtraOf(v), NBits(Abs(v)))]
  }

  function DcItems(tbl: nat, diff: int): seq<Item> {
    [Symbol(true, tbl, NBits(Abs(diff)))] + ValueItems(diff)
  }

  // Codes for runs of 16 zeros.
  function Zrls(tbl: nat, n: nat): (items: seq<Item>)
    ensures |items| == n && forall i :: i in items ==> i == Symbol(false, tbl, 0xF0)
  {
    if n == 0 then [] else [Symbol(false, tbl, 0xF0)] + Zrls(tbl, n - 1)
  }

  // From coefficient k on, with r zeros before it.
  function AcItems(tbl: nat, t: seq<int>, k: nat, r: nat): seq<Item>
    requires k <= |t|
    decreases |t| - k
  {
    if k == |t| then (if r > 0 then [Symbol(false, tbl, 0)] else [])
    else if t[k] == 0 then AcItems(tbl, t, k + 1, r + 1)
    else Zrls(tbl, r / 16) + [Symbol(false, tbl, 16 * (r % 16) + NBits(Abs(t[k])))] + ValueItems(t[k])
         + AcItems(tbl, t, k + 1, 0)
  }

  function BlockItems(dcTbl: nat, acTbl: nat, t: seq<int>, last: int): seq<Item>
    requires t != []
  {
    DcItems(dcTbl, t[0] - last) + AcItems(acTbl, t, 1, 0)
  }

  // The coefficients the coder accepts.
  ghost predicate InRange(t: seq<int>, last: int)
    requires t != []
  {
    NBits(Abs(t[0] - last)) <= MAX_COEF_BITS + 1 && AcInRange(t, 1)
  }

  ghost predicate AcInRange(t: seq<int>, k: nat) {
    forall j :: k <= j < |t| ==> NBits(Abs(t[j])) <= MAX_COEF_BITS
  }

  // ----- Bits -----

  // The derived tables, by table number.
  datatype Tables = Tables(dc: seq<Derived>, ac: seq<Derived>)

  predicate GoodTable(d: Derived) {
    |d.ehufco| == |d.ehufsi| == 256 && forall s :: 0 <= s < 256 ==> d.ehufsi[s] <= 16
  }

  predicate GoodTables(ts: Tables) {
    && (forall i :: 0 <= i < |ts.dc| ==> GoodTable(ts.dc[i]))
    && (forall i :: 0 <= i < |ts.ac| ==> GoodTable(ts.ac[i]))
  }

  // The item refers to a table of the set, and the table has a code for it.
  predicate HasCode(ts: Tables, i: Item) {
    i.Symbol? ==>
      i.s < 256
      && (if i.isDc then i.tbl < |ts.dc| && GoodTable(ts.dc[i.tbl]) && ts.dc[i.tbl].ehufsi[i.s] > 0
          else i.tbl < |ts.ac| && GoodTable(ts.ac[i.tbl]) && ts.ac[i.tbl].ehufsi[i.s] > 0)
  }

  predicate HaveCodes(ts: Tables, items: seq<Item>) {
    forall i :: i in items ==> HasCode(ts, i)
  }

  function TableOf(ts: Tables, i: Item): Derived
    requires i.Symbol? && HasCode(ts, i)
  {
    if i.isDc then ts.dc[i.tbl] else ts.ac[i.tbl]
  }

  function ItemBits(ts: Tables, i: Item): seq<bool>
    requires HasCode(ts, i)
  {
    if i.Symbol? then
      CodeWord(TableOf(ts, i).ehufco[i.s] % Pow2(TableOf(ts, i).ehufsi[i.s]), TableOf(ts, i).ehufsi[i.s])
    else CodeWord(i.v, i.n)
  }

  function BitsOf(ts: Tables, items: seq<Item>): seq<bool>
    requires HaveCodes(ts, items)
  {
    if items == [] then [] else ItemBits(ts, items[0]) + BitsOf(ts, items[1..])
  }

  lemma {:induction false} BitsOfJoin(ts: Tables, a: seq<Item>, b: seq<Item>)
    ensures HaveCodes(ts, a + b) <==> HaveCodes(ts, a) && HaveCodes(ts, b)
    ensures HaveCodes(ts, a + b) ==> BitsOf(ts, a + b) == BitsOf(ts, a) + BitsOf(ts, b)
  {
    assert HaveCodes(ts, a + b) ==> HaveCodes(ts, a) && HaveCodes(ts, b) by {
      assert forall i :: i in a ==> i in a + b;
      assert forall i :: i in b ==> i in a + b;
    }
    if HaveCodes(ts, a + b) {
      if a == [] {
        assert a + b == b;
      } else {
        assert (a + b)[1..] == a[1..] + b;
        assert HaveCodes(ts, a[1..] + b);
        BitsOfJoin(ts, a[1..], b);
        assert ItemBits(ts, a[0]) + (BitsOf(ts, a[1..]) + BitsOf(ts, b))
            == ItemBits(ts, a[0]) + BitsOf(ts, a[1..]) + BitsOf(ts, b);
      }
    }
  }

  lemma BitsOfOne(ts: Tables, i: Item)
    requires HasCode(ts, i)
    ensures BitsOf(ts, [i]) == ItemBits(ts, i)
  {
    assert BitsOf(ts, [i][1..]) == [];
  }

  // ----- Decoding (section F.2.2) -----

  // A Huffman table as the decoder has it.
  datatype Book = Book(bits: seq<byte>, huffval: seq<byte>)

  ghost predicate GoodBook(b: Book) {
    && |b.bits| == 17 && |b.huffval| == 256 && Words(b.bits, 16) <= 256
    && KraftOf(b.bits, 16, 16) < Pow2(16) && Ascending(SizesOf(b.bits, 16))
  }

  // The next bit; dummy zeros are inserted past the end of the data.
  function FirstBit(s: seq<bool>): bool {
    s != [] && s[0]
  }

  function RestBits(s: seq<bool>): seq<bool> {
    if s == [] then [] else s[1..]
  }

  // Figure F.15: the largest code of length l, -1 if there is none.
  ghost function MaxCode(b: Book, l: nat): int
    requires GoodBook(b) && 0 < l <= 16
  {
    if b.bits[l] == 0 then -1
    else
      WordsAbove(b.bits, l, 16);
      CodeAt(SizesOf(b.bits, 16), Words(b.bits, l) - 1)
  }

  // Figure F.16, with l bits read whose value is code. A code that is not in the table counts
  // as symbol 0.
  ghost function DecodeSymbol(b: Book, s: seq<bool>, l: nat, code: nat): (byte, seq<bool>)
    requires GoodBook(b) && l > 0
    decreases 17 - l
  {
    if l > 16 then (0, s)
    else if code > MaxCode(b, l) then
      DecodeSymbol(b, RestBits(s), l + 1, 2 * code + (if FirstBit(s) then 1 else 0))
    else
      var first := Words(b.bits, l - 1);
      WordsAbove(b.bits, l - 1, 16);
      var index: int := if first < Words(b.bits, 16) then first + code - CodeAt(SizesOf(b.bits, 16), first) else -1;
      (if 0 <= index < 256 then b.huffval[index] else 0, s)
  }

  ghost function NextSymbol(b: Book, s: seq<bool>): (byte, seq<bool>)
    requires GoodBook(b)
  {
    DecodeSymbol(b, RestBits(s), 1, if FirstBit(s) then 1 else 0)
  }

  // The next n bits, as a number.
  function Receive(s: seq<bool>, n: nat, v: nat): (nat, seq<bool>) {
    if n == 0 then (v, s) else Receive(RestBits(s), n - 1, 2 * v + (if FirstBit(s) then 1 else 0))
  }

  // ----- Codes are found -----

  lemma {:induction false} SizeAt(bits: seq<nat>, l: nat, n: nat, p: nat)
    requires 0 < l <= n < |bits| && Words(bits, l - 1) <= p < Words(bits, l)
    ensures p < Words(bits, n) && SizesOf(bits, n)[p] == l
  {
    if l < n {
      SizeAt(bits, l, n - 1, p);
    }
  }

  lemma {:induction false} PositionOf(bits: seq<nat>, n: nat, p: nat)
    requires n < |bits| && p < Words(bits, n)
    ensures var l := SizesOf(bits, n)[p]; 0 < l <= n && Words(bits, l - 1) <= p < Words(bits, l)
  {
    if p < Words(bits, n - 1) {
      PositionOf(bits, n - 1, p);
    }
  }

  // Codes of one length are consecutive.
  lemma {:induction false} RunOfCodes(hs: seq<nat>, p: nat, q: nat)
    requires Ascending(hs) && p <= q < |hs| && hs[p] == hs[q]
    ensures CodeAt(hs, q) == CodeAt(hs, p) + (q - p)
  {
    if p < q {
      RunOfCodes(hs, p, q - 1);
      assert Shifted(CodeAt(hs, q - 1) + 1, 0) == CodeAt(hs, q - 1) + 1;
    }
  }

  // A proper prefix of a code word is larger than every code of its length.
  lemma PrefixIsTooLarge(b: Book, p: nat, l: nat)
    requires GoodBook(b) && p < Words(b.bits, 16) && 0 < l < SizesOf(b.bits, 16)[p]
    ensures var hs := SizesOf(b.bits, 16); hs[p] <= 16 && ShiftRight(CodeAt(hs, p), hs[p] - l) > MaxCode(b, l)
  {
    hide CodeAt, ShiftRight, Shifted, KraftOf, Pow2;
    var hs := SizesOf(b.bits, 16);
    PositionOf(b.bits, 16, p);
    if b.bits[l] > 0 {
      var q := Words(b.bits, l) - 1;
      SizeAt(b.bits, l, 16, q);
      LaterCode(hs, q, p);
      CodesFitKraft(b.bits);
      ShiftedBack(CodeAt(hs, p), CodeAt(hs, q) + 1, hs[p] - l, l) by {
        assert CodeAt(hs, p) + 1 < Pow2(hs[p]);
      }
    }
  }

  lemma BitOfCode(c: nat, n: nat, l: nat)
    requires l < n
    ensures CodeWord(c, n)[l] == (ShiftRight(c, n - l - 1) % 2 == 1)
    ensures ShiftRight(c, n - l - 1) == 2 * ShiftRight(c, n - l) + (if CodeWord(c, n)[l] then 1 else 0)
  {
    hide ShiftRight;
    CodeWordPrefix(c, n, l + 1);
    assert CodeWord(c, n)[..l + 1][l] == CodeWord(c, n)[l];
    ShiftRightOnce(c, n - l - 1);
  }

  // While the bits read are a proper prefix of the code word, another bit is taken.
  lemma DecodeMore(b: Book, p: nat, l: nat, rest: seq<bool>)
    requires GoodBook(b) && p < Words(b.bits, 16) && 0 < l < SizesOf(b.bits, 16)[p]
    ensures var hs := SizesOf(b.bits, 16); var c, n := CodeAt(hs, p), hs[p]; var w := CodeWord(c, n);
      DecodeSymbol(b, w[l..] + rest, l, ShiftRight(c, n - l))
      == DecodeSymbol(b, w[l + 1..] + rest, l + 1, ShiftRight(c, n - l - 1))
  {
    hide CodeAt, ShiftRight, KraftOf, Pow2, SizesOf, CodeWord, Words, MaxCode;
    var hs := SizesOf(b.bits, 16);
    var c, n := CodeAt(hs, p), hs[p];
    var w := CodeWord(c, n);
    PositionOf(b.bits, 16, p);
    PrefixIsTooLarge(b, p, l);
    BitOfCode(c, n, l);
    var s := w[l..] + rest;
    assert FirstBit(s) == w[l] && RestBits(s) == w[l + 1..] + rest;
  }

  lemma DecodeLast(b: Book, p: nat, rest: seq<bool>)
    requires GoodBook(b) && p < Words(b.bits, 16)
    ensures var hs := SizesOf(b.bits, 16); var c, n := CodeAt(hs, p), hs[p];
      && 0 < n <= 16
      && DecodeSymbol(b, CodeWord(c, n)[n..] + rest, n, ShiftRight(c, 0)) == (b.huffval[p], rest)
  {
    hide CodeAt, ShiftRight, KraftOf, Pow2, SizesOf, CodeWord, Words, MaxCode;
    CodeInTable(b, p);
    var n := SizesOf(b.bits, 16)[p];
    assert CodeWord(CodeAt(SizesOf(b.bits, 16), p), n)[n..] + rest == rest;
  }

  lemma {:induction false} DecodeFrom(b: Book, p: nat, l: nat, rest: seq<bool>)
    requires GoodBook(b) && p < Words(b.bits, 16) && 0 < l <= SizesOf(b.bits, 16)[p]
    ensures var hs := SizesOf(b.bits, 16); var c, n := CodeAt(hs, p), hs[p];
      DecodeSymbol(b, CodeWord(c, n)[l..] + rest, l, ShiftRight(c, n - l)) == (b.huffval[p], rest)
    decreases SizesOf(b.bits, 16)[p] - l
  {
    hide CodeAt, ShiftRight, KraftOf, Pow2, SizesOf, CodeWord, Words, DecodeSymbol;
    if l < SizesOf(b.bits, 16)[p] {
      DecodeMore(b, p, l, rest);
      DecodeFrom(b, p, l + 1, rest);
    } else {
      DecodeLast(b, p, rest);
    }
  }

  lemma CodeInTable(b: Book, p: nat)
    requires GoodBook(b) && p < Words(b.bits, 16)
    ensures var hs := SizesOf(b.bits, 16); var c, n := CodeAt(hs, p), hs[p];
      && 0 < n <= 16 && ShiftRight(c, 0) == c <= MaxCode(b, n)
      && Words(b.bits, n - 1) < Words(b.bits, 16)
      && Words(b.bits, n - 1) + c - CodeAt(hs, Words(b.bits, n - 1)) == p
  {
    hide CodeAt, KraftOf, SizesOf;
    var hs := SizesOf(b.bits, 16);
    PositionOf(b.bits, 16, p);
    var n := hs[p];
    var first, last := Words(b.bits, n - 1), Words(b.bits, n) - 1;
    SizeAt(b.bits, n, 16, first);
    SizeAt(b.bits, n, 16, last);
    RunOfCodes(hs, first, p);
    RunOfCodes(hs, p, last);
    assert Pow2(0) == 1;
  }

  // The decoder finds the symbol whose code word comes next.
  lemma SymbolIsFound(b: Book, p: nat, rest: seq<bool>)
    requires GoodBook(b) && p < Words(b.bits, 16)
    ensures var hs := SizesOf(b.bits, 16);
      NextSymbol(b, CodeWord(CodeAt(hs, p), hs[p]) + rest) == (b.huffval[p], rest)
  {
    hide CodeAt, KraftOf, SizesOf, CodeWord, DecodeSymbol, ShiftRight, Pow2, Words;
    var hs := SizesOf(b.bits, 16);
    var c, n := CodeAt(hs, p), hs[p];
    var w := CodeWord(c, n);
    PositionOf(b.bits, 16, p);
    CodesFitKraft(b.bits);
    assert c + 1 < Pow2(n);
    BitOfCode(c, n, 0);
    TopIsZero(c, n);
    assert FirstBit(w + rest) == w[0] && RestBits(w + rest) == w[1..] + rest;
    DecodeFrom(b, p, 1, rest);
  }

  lemma TopIsZero(c: nat, n: nat)
    requires c < Pow2(n)
    ensures ShiftRight(c, n) == 0
  {
    ShiftRightIs(c, n, 0, c);
  }

  lemma LeadingBit(x: nat, n: nat) returns (top: nat, low: nat)
    requires n > 0 && x < Pow2(n)
    ensures top < 2 && low < Pow2(n - 1) && x == Shifted(top, n - 1) + low
    ensures CodeWord(x, n) == [top == 1] + CodeWord(low, n - 1)
  {
    hide CodeWord;
    top, low := x / Pow2(n - 1), x % Pow2(n - 1);
    assert x == top * Pow2(n - 1) + low;
    if top >= 2 {
      MulDistrib(2, top - 2, Pow2(n - 1));
    }
    CodeWordJoin(top, 1, low, n - 1);
    OneBit(top);
  }

  lemma ShiftIn(v: nat, top: nat, low: nat, n: nat)
    requires n > 0
    ensures Shifted(2 * v + top, n - 1) + low == Shifted(v, n) + (Shifted(top, n - 1) + low)
  {
    MulAssoc(v, 2, Pow2(n - 1));
    MulDistrib(2 * v, top, Pow2(n - 1));
  }

  lemma {:induction false} ReceiveExtra(x: nat, n: nat, v: nat, rest: seq<bool>)
    requires x < Pow2(n)
    ensures Receive(CodeWord(x, n) + rest, n, v) == (Shifted(v, n) + x, rest)
  {
    hide CodeWord, Pow2, Shifted;
    if n == 0 {
      Pow2Values();
      ShiftedIs(v, 0);
      assert CodeWord(x, 0) + rest == rest;
    } else {
      var top, low := LeadingBit(x, n);
      var s := CodeWord(x, n) + rest;
      assert FirstBit(s) == (top == 1) && RestBits(s) == CodeWord(low, n - 1) + rest;
      ReceiveExtra(low, n - 1, 2 * v + top, rest);
      ShiftIn(v, top, low, n);
    }
  }

  lemma OneBit(b: nat)
    requires b < 2
    ensures CodeWord(b, 1) == [b == 1]
  {
    assert CodeWord(b, 1) == CodeWord(b / 2, 0) + [b % 2 == 1];
  }

  // ----- Blocks -----

  datatype Books = Books(dc: seq<Book>, ac: seq<Book>)

  // The derived tables come from the tables the decoder has.
  ghost predicate Matches(ts: Tables, bs: Books) {
    && |ts.dc| == |bs.dc| && |ts.ac| == |bs.ac|
    && (forall i :: 0 <= i < |bs.dc| ==> GoodBook(bs.dc[i]) && Derives(bs.dc[i].bits, bs.dc[i].huffval, ts.dc[i]))
    && (forall i :: 0 <= i < |bs.ac| ==> GoodBook(bs.ac[i]) && Derives(bs.ac[i].bits, bs.ac[i].huffval, ts.ac[i]))
  }

  ghost function BookOf(bs: Books, i: Item): Book
    requires i.Symbol? && (if i.isDc then i.tbl < |bs.dc| else i.tbl < |bs.ac|)
  {
    if i.isDc then bs.dc[i.tbl] else bs.ac[i.tbl]
  }

  lemma EntryOf(b: Book, d: Derived, s: byte) returns (p: nat)
    requires GoodBook(b) && Derives(b.bits, b.huffval, d) && d.ehufsi[s] > 0
    ensures p < Words(b.bits, 16) && b.huffval[p] == s
    ensures var hs := SizesOf(b.bits, 16);
      d.ehufsi[s] == hs[p] && d.ehufco[s] % Pow2(hs[p]) == CodeAt(hs, p)
  {
    hide CodeAt, KraftOf, Words, SizesOf, Pow2;
    var list := b.huffval[..Words(b.bits, 16)];
    assert s in list;
    var q :| 0 <= q < |list| && list[q] == s;
    assert b.huffval[q] == s;
    CodeIsMasked(b, q);
    p := q;
  }

  lemma CodeIsMasked(b: Book, p: nat)
    requires GoodBook(b) && p < Words(b.bits, 16)
    ensures var hs := SizesOf(b.bits, 16); CodeAt(hs, p) % Pow2(hs[p]) == CodeAt(hs, p)
  {
    hide CodeAt, KraftOf, Words, SizesOf, Pow2;
    CodesFitKraft(b.bits);
    var c, m := CodeAt(SizesOf(b.bits, 16), p), Pow2(SizesOf(b.bits, 16)[p]);
    assert c + 1 < m;
    SmallModulus(c, m);
  }

  lemma SmallModulus(c: nat, m: nat)
    requires c < m
    ensures c % m == c
  {
  }

  lemma SymbolDecodes(ts: Tables, bs: Books, i: Item, rest: seq<bool>)
    requires Matches(ts, bs) && i.Symbol? && HasCode(ts, i)
    ensures GoodBook(BookOf(bs, i)) && NextSymbol(BookOf(bs, i), ItemBits(ts, i) + rest) == (i.s, rest)
  {
    hide CodeAt, KraftOf, Words, CodeWord, SizesOf, NextSymbol, Pow2, Derives, GoodBook;
    var b := BookOf(bs, i);
    var p := EntryOf(b, TableOf(ts, i), i.s);
    SymbolIsFound(b, p, rest);
  }

  // The AC coefficients of a block (T.81, F.2.2.2). Past the end of the block, which only corrupt
  // data reaches, the last coefficient is overwritten.
  ghost function DecodeAc(b: Book, t: seq<int>, k: nat, s: seq<bool>): (seq<int>, seq<bool>)
    requires GoodBook(b)
    decreases |t| - k
  {
    if k >= |t| then (t, s)
    else
      var (sym, s2) := NextSymbol(b, s);
      var r, n := sym / 16, sym % 16;
      if n != 0 then
        var (x, s3) := Receive(s2, n, 0);
        var at := if k + r < |t| then k + r else |t| - 1;
        DecodeAc(b, t[at := Short(Extend(x, n))], k + r + 1, s3)
      else if r != 15 then (t, s2)
      else DecodeAc(b, t, k + 16, s2)
  }

  // Sections F.2.2.1 and F.2.2.2: a block of the given size, against the last DC value.
  ghost function DecodeBlock(dc: Book, ac: Book, last: int, size: nat, s: seq<bool>): (seq<int>, seq<bool>)
    requires GoodBook(dc) && GoodBook(ac) && size > 0
  {
    var (sym, s2) := NextSymbol(dc, s);
    var (x, s3) := Receive(s2, sym, 0);
    var v := last + if sym == 0 then 0 else Extend(x, sym);
    DecodeAc(ac, Zeros(size)[0 := Short(v)], 1, s3)
  }

  function Zeros(n: nat): (z: seq<int>)
    ensures |z| == n && forall i :: 0 <= i < n ==> z[i] == 0
  {
    seq(n, _ => 0)
  }

  lemma {:induction false} ZrlsDecode(ts: Tables, bs: Books, tbl: nat, acc: seq<int>, k: nat, z: nat, s: seq<bool>)
    requires Matches(ts, bs) && tbl < |bs.ac| && HaveCodes(ts, Zrls(tbl, z)) && k + 16 * z <= |acc|
    ensures DecodeAc(bs.ac[tbl], acc, k, BitsOf(ts, Zrls(tbl, z)) + s) == DecodeAc(bs.ac[tbl], acc, k + 16 * z, s)
    decreases z
  {
    hide NextSymbol, HasCode, ItemBits, Derives;
    if z == 0 {
      assert BitsOf(ts, Zrls(tbl, 0)) + s == s;
    } else {
      var zrl := Symbol(false, tbl, 0xF0);
      assert Zrls(tbl, z)[0] == zrl && Zrls(tbl, z)[1..] == Zrls(tbl, z - 1);
      assert HasCode(ts, zrl);
      var more := BitsOf(ts, Zrls(tbl, z - 1)) + s;
      assert BitsOf(ts, Zrls(tbl, z)) + s == ItemBits(ts, zrl) + more;
      SymbolDecodes(ts, bs, zrl, more);
      ZrlsDecode(ts, bs, tbl, acc, k + 16, z - 1, s);
    }
  }

  // A nonzero coefficient after fewer than 16 zeros.
  lemma CoefDecodes(ts: Tables, bs: Books, tbl: nat, acc: seq<int>, k: nat, r: nat, v: int, s: seq<bool>)
    requires Matches(ts, bs) && tbl < |bs.ac| && GoodBook(bs.ac[tbl]) && r < 16 && k + r < |acc|
    requires v != 0 && NBits(Abs(v)) <= MAX_COEF_BITS
    requires HasCode(ts, Symbol(false, tbl, 16 * r + NBits(Abs(v))))
    ensures DecodeAc(bs.ac[tbl], acc, k,
                     ItemBits(ts, Symbol(false, tbl, 16 * r + NBits(Abs(v))))
                     + (CodeWord(ExtraOf(v), NBits(Abs(v))) + s))
         == DecodeAc(bs.ac[tbl], acc[k + r := v], k + r + 1, s)
  {
    hide NextSymbol, HasCode, ItemBits, Matches, CodeWord, Receive, Extend, ExtraOf, Pow2, NBits, GoodBook;
    var n, i := NBits(Abs(v)), Symbol(false, tbl, 16 * r + NBits(Abs(v)));
    RunAndSize(r, n);
    var more := CodeWord(ExtraOf(v), n) + s;
    SymbolDecodes(ts, bs, i, more);
    ReceiveExtra(ExtraOf(v), n, 0, s);
    assert Shifted(0, n) == 0;
    ExtendExtra(v);
    SmallIsShort(v);
  }

  lemma RunAndSize(r: nat, n: nat)
    requires n < 16
    ensures (16 * r + n) / 16 == r && (16 * r + n) % 16 == n
  {
  }

  lemma SmallIsShort(v: int)
    requires NBits(Abs(v)) <= MAX_COEF_BITS
    ensures InShort(v)
  {
    NBitsBounds(Abs(v));
    Pow2Monotonic(NBits(Abs(v)), 11);
    Pow2Values();
  }

  // What the decoder has when r of the zeros before coefficient k are still ahead of it.
  ghost predicate Reached(t: seq<int>, acc: seq<int>, k: nat, r: nat) {
    && 1 + r <= k <= |t| == |acc|
    && (forall j :: 0 <= j < k - r ==> acc[j] == t[j])
    && (forall j :: k - r <= j < |t| ==> acc[j] == 0)
    && (forall j :: k - r <= j < k ==> t[j] == 0)
  }

  lemma ReachedNext(t: seq<int>, acc: seq<int>, k: nat, r: nat)
    requires Reached(t, acc, k, r)
    ensures k == |t| && r == 0 ==> acc == t
    ensures k == |t| ==> acc == t
    ensures k < |t| ==> if t[k] == 0 then Reached(t, acc, k + 1, r + 1) else Reached(t, acc[k := t[k]], k + 1, 0)
  {
  }

  lemma AcEnds(ts: Tables, bs: Books, tbl: nat, acc: seq<int>, k: nat, r: nat, rest: seq<bool>)
    requires Matches(ts, bs) && tbl < |bs.ac| && GoodBook(bs.ac[tbl]) && r <= k == |acc|
    requires var items := if r > 0 then [Symbol(false, tbl, 0)] else []; HaveCodes(ts, items)
    ensures var items := if r > 0 then [Symbol(false, tbl, 0)] else [];
      DecodeAc(bs.ac[tbl], acc, k - r, BitsOf(ts, items) + rest) == (acc, rest)
  {
    hide NextSymbol, HasCode, ItemBits, Derives, Matches, Receive, Extend;
    if r > 0 {
      EndDecodes(ts, bs, tbl, acc, k - r, rest);
    } else {
      assert [] + rest == rest;
    }
  }

  lemma {:induction false} AcDecodes(ts: Tables, bs: Books, tbl: nat, t: seq<int>, acc: seq<int>, k: nat, r: nat,
                                     rest: seq<bool>)
    requires Matches(ts, bs) && tbl < |bs.ac| && Reached(t, acc, k, r) && AcInRange(t, 1)
    requires HaveCodes(ts, AcItems(tbl, t, k, r))
    ensures DecodeAc(bs.ac[tbl], acc, k - r, BitsOf(ts, AcItems(tbl, t, k, r)) + rest) == (t, rest)
    decreases |t| - k
  {
    hide NextSymbol, HasCode, ItemBits, Derives, Receive, CodeWord, NBits, ExtraOf, BitsOf, DecodeAc, HaveCodes;
    ReachedNext(t, acc, k, r);
    if k == |t| {
      AcEnds(ts, bs, tbl, acc, k, r, rest);
    } else if t[k] == 0 {
      AcDecodes(ts, bs, tbl, t, acc, k + 1, r + 1, rest);
    } else {
      var n, tail := NBits(Abs(t[k])), AcItems(tbl, t, k + 1, 0);
      NonzeroItems(ts, tbl, t[k], r, tail, rest);
      var more := BitsOf(ts, tail) + rest;
      ZrlsDecode(ts, bs, tbl, acc, k - r, r / 16,
                 ItemBits(ts, Symbol(false, tbl, 16 * (r % 16) + n)) + (CodeWord(ExtraOf(t[k]), n) + more));
      CoefDecodes(ts, bs, tbl, acc, k - r % 16, r % 16, t[k], more);
      AcDecodes(ts, bs, tbl, t, acc[k := t[k]], k + 1, 0, rest);
    }
  }

  lemma EndDecodes(ts: Tables, bs: Books, tbl: nat, acc: seq<int>, k: nat, rest: seq<bool>)
    requires Matches(ts, bs) && tbl < |bs.ac| && GoodBook(bs.ac[tbl]) && k < |acc| && HaveCodes(ts, [Symbol(false, tbl, 0)])
    ensures DecodeAc(bs.ac[tbl], acc, k, BitsOf(ts, [Symbol(false, tbl, 0)]) + rest) == (acc, rest)
  {
    hide NextSymbol, HasCode, ItemBits, Derives;
    assert HasCode(ts, Symbol(false, tbl, 0));
    BitsOfOne(ts, Symbol(false, tbl, 0));
    SymbolDecodes(ts, bs, Symbol(false, tbl, 0), rest);
  }

  // The bits of a nonzero coefficient and what follows it, taken apart.
  lemma NonzeroItems(ts: Tables, tbl: nat, v: int, r: nat, tail: seq<Item>, rest: seq<bool>)
    requires v != 0
    requires var n := NBits(Abs(v));
      HaveCodes(ts, Zrls(tbl, r / 16) + [Symbol(false, tbl, 16 * (r % 16) + n)] + ValueItems(v) + tail)
    ensures var n := NBits(Abs(v)); var sym := Symbol(false, tbl, 16 * (r % 16) + n);
      && HaveCodes(ts, Zrls(tbl, r / 16)) && HaveCodes(ts, tail) && HasCode(ts, sym)
      && BitsOf(ts, Zrls(tbl, r / 16) + [sym] + ValueItems(v) + tail) + rest
         == BitsOf(ts, Zrls(tbl, r / 16)) + (ItemBits(ts, sym) + (CodeWord(ExtraOf(v), n) + (BitsOf(ts, tail) + rest)))
  {
    hide NBits, ExtraOf, CodeWord, BitsOf, Zrls;
    var n := NBits(Abs(v));
    var sym, extra, zrls := Symbol(false, tbl, 16 * (r % 16) + n), Extra(ExtraOf(v), n), Zrls(tbl, r / 16);
    BitsOfJoin(ts, zrls + [sym] + [extra], tail);
    BitsOfJoin(ts, zrls + [sym], [extra]);
    BitsOfJoin(ts, zrls, [sym]);
    assert sym in [sym] && extra in [extra];
    BitsOfOne(ts, sym);
    BitsOfOne(ts, extra);
    Regroup(BitsOf(ts, zrls), ItemBits(ts, sym), CodeWord(ExtraOf(v), n), BitsOf(ts, tail), rest);
  }

  lemma Regroup(a: seq<bool>, b: seq<bool>, c: seq<bool>, d: seq<bool>, e: seq<bool>)
    ensures a + b + c + d + e == a + (b + (c + (d + e)))
  {
  }

  // The DC difference.
  lemma DcDecodes(ts: Tables, bs: Books, tbl: nat, diff: int, more: seq<bool>)
    requires Matches(ts, bs) && tbl < |bs.dc| && HaveCodes(ts, DcItems(tbl, diff))
    ensures var (sym, s2) := NextSymbol(bs.dc[tbl], BitsOf(ts, DcItems(tbl, diff)) + more);
      var (x, s3) := Receive(s2, sym, 0);
      s3 == more && diff == if sym == 0 then 0 else Extend(x, sym)
  {
    hide NextSymbol, Derives, CodeWord, ExtraOf, Extend, Pow2;
    var n := NBits(Abs(diff));
    var sym := Symbol(true, tbl, n);
    var value := CodeWord(ExtraOf(diff), n);
    assert HasCode(ts, sym);
    BitsOfOne(ts, sym);
    if diff == 0 {
      assert DcItems(tbl, diff) == [sym];
      SymbolDecodes(ts, bs, sym, more);
    } else {
      BitsOfJoin(ts, [sym], ValueItems(diff));
      BitsOfOne(ts, Extra(ExtraOf(diff), n));
      assert BitsOf(ts, DcItems(tbl, diff)) + more == ItemBits(ts, sym) + (value + more);
      SymbolDecodes(ts, bs, sym, value + more);
      ReceiveExtra(ExtraOf(diff), n, 0, more);
      assert Shifted(0, n) == 0;
      ExtendExtra(diff);
    }
  }

  // The block stream is decodable: whatever follows, the decoder recovers every coefficient.
  lemma BlockDecodes(ts: Tables, bs: Books, dcTbl: nat, acTbl: nat, t: seq<int>, last: int, rest: seq<bool>)
    requires Matches(ts, bs) && dcTbl < |bs.dc| && acTbl < |bs.ac| && t != []
    requires InRange(t, last) && InShort(t[0]) && HaveCodes(ts, BlockItems(dcTbl, acTbl, t, last))
    ensures DecodeBlock(bs.dc[dcTbl], bs.ac[acTbl], last, |t|, BitsOf(ts, BlockItems(dcTbl, acTbl, t, last)) + rest)
         == (t, rest)
  {
    hide NextSymbol, HasCode, ItemBits, Derives, Receive, CodeWord, NBits, ExtraOf, BitsOf, AcItems, DecodeAc, DcItems;
    var dc, ac := DcItems(dcTbl, t[0] - last), AcItems(acTbl, t, 1, 0);
    BitsOfJoin(ts, dc, ac);
    var more := BitsOf(ts, ac) + rest;
    assert BitsOf(ts, dc + ac) + rest == BitsOf(ts, dc) + more;
    DcDecodes(ts, bs, dcTbl, t[0] - last, more);
    AcDecodes(ts, bs, acTbl, t, Zeros(|t|)[0 := t[0]], 1, 0, rest);
  }
}
