// The bit emitter of libs/jpeg/jchuff.c: code words packed into bytes, most significant bit
// first, with zero-byte stuffing.
module BitStream {
  import opened Powers
  import opened Bytes
  import opened DerivedTable

  // The bits of the bytes.
  function Unpack(s: seq<byte>): seq<bool> {
    if s == [] then [] else Unpack(s[..|s| - 1]) + CodeWord(s[|s| - 1], 8)
  }

  lemma UnpackByte(s: seq<byte>, b: byte)
    ensures Unpack(s + [b]) == Unpack(s) + CodeWord(b, 8)
  {
    assert (s + [b])[..|s|] == s;
  }

  lemma {:induction false} CodeWordJoin(v: nat, n: nat, c: nat, k: nat)
    requires c < Pow2(k)
    ensures CodeWord(Shifted(v, k) + c, n + k) == CodeWord(v, n) + CodeWord(c, k)
  {
    if k == 0 {
      assert CodeWord(v, n) + [] == CodeWord(v, n);
    } else {
      CodeWordJoin(v, n, c / 2, k - 1);
      ShiftedEven(v, k - 1);
      assert CodeWord(v, n) + CodeWord(c / 2, k - 1) + [c % 2 == 1] == CodeWord(v, n) + (CodeWord(c / 2, k - 1) + [c % 2 == 1]);
    }
  }

  lemma ShiftedEven(v: nat, k: nat)
    ensures Shifted(v, k + 1) == 2 * Shifted(v, k)
  {
    MulAssoc(v, 2, Pow2(k));
  }

  // The n valid bits of the buffer, left-justified in its right 24 bits, have value v.
  ghost predicate Holds(buffer: nat, n: nat, v: nat) {
    n <= 24 && v < Pow2(n) && buffer % 0x1000000 == Shifted(v, 24 - n)
  }

  lemma HoldsNothing(buffer: nat)
    requires buffer % 0x1000000 == 0
    ensures Holds(buffer, 0, 0)
  {
    assert Pow2(0) == 1;
  }

  // Merging aligned bits into the free part of the buffer.
  lemma HoldsMore(buffer: nat, n: nat, v: nat, c: nat, k: nat)
    requires Holds(buffer, n, v) && n + k <= 24 && c < Pow2(k)
    ensures Holds((Shifted(c, 24 - n - k) + buffer) % 0x1_0000_0000, n + k, Shifted(v, k) + c)
    ensures Shifted(c, 24 - n - k) < Pow2(24 - n)
  {
    hide Pow2;
    var m := 24 - n - k;
    Pow2Add(n, k);
    Pow2Add(k, m);
    Pow2Add(n + k, m);
    Pow24();
    JoinFits(v, n, c, k);
    ShiftedTwice(v, k, m);
    MulDistrib(Shifted(v, k), c, Pow2(m));
    MulOrderStrict(c, Pow2(k), Pow2(m));
    MulOrderStrict(Shifted(v, k) + c, Pow2(n + k), Pow2(m));
    assert Shifted(Shifted(v, k) + c, m) == Shifted(v, 24 - n) + Shifted(c, m);
    SameLow(Shifted(c, m) + buffer);
    LowSum(Shifted(c, m), buffer);
  }

  lemma Pow24()
    ensures Pow2(24) == 0x1000000
  {
    Pow2Add(16, 8);
    Pow2Values();
  }

  lemma JoinFits(v: nat, n: nat, c: nat, k: nat)
    requires v < Pow2(n) && c < Pow2(k)
    ensures Shifted(v, k) + c < Pow2(n + k)
  {
    Pow2Add(n, k);
    MulDistrib(v + 1, Pow2(n) - v - 1, Pow2(k));
    MulDistrib(v, 1, Pow2(k));
  }

  lemma MulOrderStrict(x: nat, y: nat, z: nat)
    requires x < y && z > 0
    ensures x * z < y * z
  {
    MulDistrib(x, y - x, z);
    MulGrows(y - x, z);
  }

  lemma SameLow(x: nat)
    ensures x % 0x1_0000_0000 % 0x1000000 == x % 0x1000000
  {
  }

  lemma LowSum(x: nat, y: nat)
    ensures x + y % 0x1000000 < 0x1000000 ==> (x + y) % 0x1000000 == x + y % 0x1000000
  {
  }

  lemma TopQuotient(v: nat, e: nat)
    requires v < Pow2(e + 8)
    ensures ShiftRight(v, e) < 256 && v == Shifted(ShiftRight(v, e), e) + v % Pow2(e)
  {
    hide Pow2;
    var p := Pow2(e);
    var q := v / p;
    assert v == q * p + v % p;
    Pow2Add(8, e);
    Pow2Values();
    if q >= 256 {
      MulDistrib(256, q - 256, p);
    }
  }

  lemma SplitTop(v: nat, e: nat)
    requires e <= 16 && v < Pow2(e + 8)
    ensures var q, r := ShiftRight(v, e), v % Pow2(e);
      && q < 256 && v == Shifted(q, e) + r
      && Shifted(v, 16 - e) == q * 0x10000 + Shifted(r, 16 - e) && Shifted(r, 16 - e) < 0x10000
  {
    hide Pow2, ShiftRight;
    TopQuotient(v, e);
    var q, r, w := ShiftRight(v, e), v % Pow2(e), Pow2(16 - e);
    Pow2Add(e, 16 - e);
    Pow2Values();
    MulOrderStrict(r, Pow2(e), w);
    MulDistrib(Shifted(q, e), r, w);
    MulAssoc(q, Pow2(e), w);
  }

  // Taking the top byte.
  lemma HoldsLess(buffer: nat, n: nat, v: nat)
    requires Holds(buffer, n, v) && n >= 8
    ensures buffer / 0x10000 % 256 == ShiftRight(v, n - 8) < 256
    ensures Holds(buffer * 256 % 0x1_0000_0000, n - 8, v % Pow2(n - 8))
    ensures v == Shifted(ShiftRight(v, n - 8), n - 8) + v % Pow2(n - 8)
  {
    hide Pow2, ShiftRight, Shifted;
    var e := n - 8;
    SplitTop(v, e);
    TopByte(buffer, ShiftRight(v, e), Shifted(v % Pow2(e), 16 - e));
    ShiftedTwice(v % Pow2(e), 16 - e, 8);
    ShiftedIs(Shifted(v % Pow2(e), 16 - e), 8);
    Pow2Values();
  }

  lemma TopByte(buffer: nat, q: nat, r: nat)
    requires buffer % 0x1000000 == q * 0x10000 + r && q < 256 && r < 0x10000
    ensures buffer / 0x10000 % 256 == q
    ensures buffer * 256 % 0x1_0000_0000 % 0x1000000 == r * 256
  {
    var h := buffer / 0x1000000;
    assert buffer == h * 0x1000000 + (q * 0x10000 + r);
    HighPart(h, q, r);
    LowPart(h, q, r);
    SameLow(buffer * 256);
  }

  lemma HighPart(h: nat, q: nat, r: nat)
    requires q < 256 && r < 0x10000
    ensures (h * 0x1000000 + (q * 0x10000 + r)) / 0x10000 % 256 == q
  {
    assert (h * 0x1000000 + (q * 0x10000 + r)) / 0x10000 == h * 256 + q;
  }

  lemma LowPart(h: nat, q: nat, r: nat)
    requires r < 0x10000
    ensures (h * 0x1000000 + (q * 0x10000 + r)) * 256 % 0x1000000 == r * 256
  {
    assert (h * 0x1000000 + (q * 0x10000 + r)) * 256 == (h * 256 + q) * 0x1000000 + r * 256;
  }

  class BitWriter {
    var putBuffer: nat   // current bit accumulation buffer, 32 bits
    var putBits: nat     // how many of its bits are valid
    var out: seq<byte>   // the destination

    ghost var closed: seq<byte>   // what was written before
    ghost var sent: seq<byte>     // the bytes written since then, unstuffed
    ghost var pending: nat        // the value of the bits in the buffer
    ghost var bits: seq<bool>     // all bits emitted since then

    ghost predicate Valid()
      reads this
    {
      && putBits <= 7 && putBuffer < 0x1_0000_0000
      && out == closed + Stuff(sent)
      && Holds(putBuffer, putBits, pending)
      && bits == Unpack(sent) + CodeWord(pending, putBits)
    }

    constructor ()
      ensures Valid() && out == [] && closed == [] && bits == []
    {
      hide Pow2, Holds, Unpack, Stuff, CodeWord;
      putBuffer, putBits, out := 0, 0, [];
      closed, sent, pending, bits := [], [], 0, [];
      new;
      HoldsNothing(0);
      NothingSent();
    }

    method EmitByte(val: byte)
      modifies this`out
      ensures out == old(out) + [val]
    {
      out := out + [val];
    }

    // Take the complete bytes out of the buffer.
    method EmitWhole(buffer: nat, count: nat, ghost value: nat)
      requires out == closed + Stuff(sent) && Holds(buffer, count, value) && buffer < 0x1_0000_0000
      modifies this
      ensures Valid() && closed == old(closed)
      ensures bits == Unpack(old(sent)) + CodeWord(value, count)
    {
      hide Holds, Stuff, CodeWord, Unpack;
      var b: nat, n: nat := buffer, count;
      ghost var v: nat := value;
      ghost var goal := Unpack(sent) + CodeWord(value, count);
      while n >= 8
        invariant out == closed + Stuff(sent) && Holds(b, n, v) && b < 0x1_0000_0000 && closed == old(closed)
        invariant Unpack(sent) + CodeWord(v, n) == goal
      {
        HoldsLess(b, n, v);
        var c := b / 0x10000 % 256;
        ghost var low: nat := v % Pow2(n - 8);
        CodeWordJoin(c, 8, low, n - 8);
        UnpackByte(sent, c);
        SegmentByte(closed, sent, c);
        assert Unpack(sent) + CodeWord(v, n) == Unpack(sent + [c]) + CodeWord(low, n - 8);
        EmitByte(c);
        if c == 0xFF {
          EmitByte(0);
        }
        sent := sent + [c];
        b := b * 256 % 0x1_0000_0000;
        n := n - 8;
        v := low;
      }
      putBuffer, putBits := b, n;
      pending, bits := v, goal;
    }

    // Emit some bits. False stands for the error exit on a symbol without a code. The old
    // buffer is or-ed with the aligned new bits; as they do not overlap, that is addition.
    method EmitBits(code: nat, size: nat) returns (ok: bool)
      requires Valid() && size <= 16
      modifies this
      ensures Valid() && closed == old(closed)
      ensures ok <==> size > 0
      ensures bits == if size > 0 then old(bits) + CodeWord(code % Pow2(size), size) else old(bits)
    {
      hide Holds, Stuff, CodeWord, Unpack;
      if size == 0 {
        return false;
      }
      var c := code % Pow2(size);
      var n := putBits + size;
      HoldsMore(putBuffer, putBits, pending, c, size);
      CodeWordJoin(pending, putBits, c, size);
      ghost var v := Shifted(pending, size) + c;
      assert Unpack(sent) + CodeWord(v, n) == bits + CodeWord(c, size);
      EmitWhole((Shifted(c, 24 - n) + putBuffer) % 0x1_0000_0000, n, v);
      ok := true;
    }

    // What has been written is closed.
    ghost method StartSegment()
      requires putBits == 0 && putBuffer == 0
      modifies this`closed, this`sent, this`pending, this`bits
      ensures Valid() && closed == out && sent == [] && bits == []
    {
      hide Holds, Stuff, Unpack, CodeWord;
      closed, sent, pending, bits := out, [], 0, [];
      HoldsNothing(0);
      NothingSent();
    }

    // Pad to a whole byte with ones.
    method FlushBits()
      requires Valid()
      modifies this
      ensures Valid() && closed == old(closed) && bits == Unpack(sent)
      ensures out == closed + Stuff(sent) && putBits == putBuffer == 0
      ensures exists k :: 0 <= k <= 7 && bits == old(bits) + Ones(k)
    {
      hide Stuff, Unpack, Holds, CodeWord, Pow2, Ones;
      ghost var before := bits;
      SevenOnes();
      var ok := EmitBits(0x7F, 7);
      WholeOnes(before, Unpack(sent), CodeWord(pending, putBits));
      putBuffer, putBits := 0, 0;
      pending, bits := 0, Unpack(sent);
      HoldsNothing(0);
      NoBits(bits);
    }
  }

  function Ones(k: nat): (r: seq<bool>)
    ensures |r| == k
  {
    seq(k, _ => true)
  }

  lemma WholeOnes(before: seq<bool>, whole: seq<bool>, rest: seq<bool>)
    requires whole + rest == before + Ones(7) && |rest| <= 7
    ensures exists k :: 0 <= k <= 7 && whole == before + Ones(k)
  {
    var k := 7 - |rest|;
    assert whole == (whole + rest)[..|whole|];
    assert whole == before + Ones(k);
  }

  lemma NothingSent()
    ensures Stuff([]) == [] && Unpack([]) + CodeWord(0, 0) == []
  {
  }

  lemma NoBits(s: seq<bool>)
    ensures CodeWord(0, 0) == [] && s + CodeWord(0, 0) == s
  {
  }

  lemma SevenOnes()
    ensures CodeWord(0x7F % Pow2(7), 7) == Ones(7)
  {
    Pow2Values();
    assert CodeWord(0x7F, 7) == CodeWord(0x3F, 6) + [true];
    assert CodeWord(0x3F, 6) == CodeWord(0x1F, 5) + [true] && CodeWord(0x1F, 5) == CodeWord(0xF, 4) + [true];
    assert CodeWord(0xF, 4) == CodeWord(7, 3) + [true] && CodeWord(7, 3) == CodeWord(3, 2) + [true];
    assert CodeWord(3, 2) == CodeWord(1, 1) + [true] && CodeWord(1, 1) == [] + [true];
  }
}
