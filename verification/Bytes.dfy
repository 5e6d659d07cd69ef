// Byte strings as big-endian base-256 numerals, and the zero-byte stuffing of entropy-coded
// segments (section B.1.1.5 of ITU-T T.81).
module Bytes {
  import opened Powers

  type byte = b: nat | b < 256

  function Value(s: seq<byte>): nat {
    if s == [] then 0 else Value(s[..|s| - 1]) * 256 + s[|s| - 1]
  }

  function Repeat(b: byte, k: nat): (s: seq<byte>)
    ensures |s| == k && forall i :: 0 <= i < k ==> s[i] == b
  {
    seq(k, _ => b)
  }

  lemma ValueSnoc(s: seq<byte>, b: byte)
    ensures Value(s + [b]) == Value(s) * 256 + b
  {
    assert (s + [b])[..|s|] == s;
  }

  lemma {:induction false} ValueZeros(s: seq<byte>, k: nat)
    ensures Value(s + Repeat(0, k)) == Value(s) * Pow2(8 * k)
  {
    if k == 0 {
      assert s + Repeat(0, 0) == s;
    } else {
      hide Value, Pow2;
      assert s + Repeat(0, k) == s + Repeat(0, k - 1) + [0];
      ValueSnoc(s + Repeat(0, k - 1), 0);
      ValueZeros(s, k - 1);
      Pow2Add(8 * (k - 1), 8);
      Pow2Values();
      MulAssoc(Value(s), Pow2(8 * (k - 1)), 256);
    }
  }

  lemma RepeatSnoc(s: seq<byte>, b: byte, k: nat)
    ensures s + Repeat(b, k) + [b] == s + Repeat(b, k + 1)
    ensures s + Repeat(b, 0) == s
  {
  }

  // A carry into a run of 0xFF bytes turns them into zeros and reaches the byte before.
  lemma {:induction false} ValueCarry(s: seq<byte>, b: byte, k: nat)
    requires b < 0xFF
    ensures Value(s + [b] + Repeat(0xFF, k)) + 1 == Value(s + [b + 1] + Repeat(0, k))
  {
    if k == 0 {
      assert s + [b] + Repeat(0xFF, 0) == s + [b];
      assert s + [b + 1] + Repeat(0, 0) == s + [b + 1];
      ValueSnoc(s, b);
      ValueSnoc(s, b + 1);
    } else {
      var x, y := s + [b] + Repeat(0xFF, k - 1), s + [b + 1] + Repeat(0, k - 1);
      assert s + [b] + Repeat(0xFF, k) == x + [0xFF];
      assert s + [b + 1] + Repeat(0, k) == y + [0];
      ValueSnoc(x, 0xFF);
      ValueSnoc(y, 0);
      ValueCarry(s, b, k - 1);
    }
  }

  lemma {:induction false} ValueOnes(k: nat)
    ensures Value(Repeat(0xFF, k)) + 1 == Pow2(8 * k)
  {
    if k > 0 {
      assert Repeat(0xFF, k) == Repeat(0xFF, k - 1) + [0xFF];
      ValueSnoc(Repeat(0xFF, k - 1), 0xFF);
      ValueOnes(k - 1);
      Pow2Add(8 * (k - 1), 8);
      Pow2Values();
    }
  }

  // The first k bytes of the code value: the data, followed by zeros for ever.
  function Prefix(data: seq<byte>, k: nat): nat {
    if k == 0 then 0 else Prefix(data, k - 1) * 256 + DataAt(data, k - 1)
  }

  function DataAt(data: seq<byte>, i: nat): byte {
    if i < |data| then data[i] else 0
  }

  lemma {:induction false} PrefixIsValue(data: seq<byte>, k: nat)
    requires k <= |data|
    ensures Prefix(data, k) == Value(data[..k])
  {
    if k > 0 {
      PrefixIsValue(data, k - 1);
      assert data[..k] == data[..k - 1] + [data[k - 1]];
      ValueSnoc(data[..k - 1], data[k - 1]);
    }
  }

  lemma {:induction false} PrefixPastEnd(data: seq<byte>, k: nat)
    requires k >= |data|
    ensures Prefix(data, k) == Value(data + Repeat(0, k - |data|))
  {
    if k == |data| {
      PrefixIsValue(data, k);
      assert data[..k] == data == data + Repeat(0, 0);
    } else {
      PrefixPastEnd(data, k - 1);
      assert data + Repeat(0, k - |data|) == data + Repeat(0, k - 1 - |data|) + [0];
      ValueSnoc(data + Repeat(0, k - 1 - |data|), 0);
    }
  }

  // ----- Stuffing -----

  function Stuff(s: seq<byte>): seq<byte> {
    if s == [] then []
    else [s[0]] + (if s[0] == 0xFF then [0] else []) + Stuff(s[1..])
  }

  lemma {:induction false} StuffAppend(s: seq<byte>, t: seq<byte>)
    ensures Stuff(s + t) == Stuff(s) + Stuff(t)
  {
    if s == [] {
      assert s + t == t;
    } else {
      assert (s + t)[1..] == s[1..] + t;
      StuffAppend(s[1..], t);
    }
  }

  lemma StuffByte(s: seq<byte>, b: byte)
    ensures Stuff(s + [b]) == Stuff(s) + [b] + (if b == 0xFF then [0] else [])
  {
    StuffAppend(s, [b]);
    assert Stuff([b]) == [b] + (if b == 0xFF then [0] else []);
  }

  lemma SegmentByte(closed: seq<byte>, sent: seq<byte>, b: byte)
    ensures closed + Stuff(sent + [b]) == closed + Stuff(sent) + [b] + (if b == 0xFF then [0] else [])
  {
    StuffByte(sent, b);
  }

  // What a reader of a stuffed segment gets (jdarith.c, the data input of arith_decode):
  // runs of 0xFF collapse, 0xFF 0x00 is the byte 0xFF, any other 0xFF x is a marker that
  // ends the data. Running out of bytes ends it too.
  function Unstuff(src: seq<byte>): seq<byte> {
    if src == [] then []
    else if src[0] != 0xFF then [src[0]] + Unstuff(src[1..])
    else AfterFF(src[1..])
  }

  function AfterFF(src: seq<byte>): seq<byte> {
    if src == [] then []
    else if src[0] == 0xFF then AfterFF(src[1..])
    else if src[0] == 0 then [0xFF] + Unstuff(src[1..])
    else []
  }

  predicate StartsWithMarker(tail: seq<byte>) {
    |tail| >= 2 && tail[0] == 0xFF && tail[1] != 0 && tail[1] != 0xFF
  }

  lemma {:induction false} UnstuffStuff(s: seq<byte>, tail: seq<byte>)
    requires StartsWithMarker(tail)
    ensures Unstuff(Stuff(s) + tail) == s
  {
    if s == [] {
      assert Stuff(s) + tail == tail;
      assert tail[1..][0] == tail[1];
    } else {
      UnstuffStuff(s[1..], tail);
      var rest := Stuff(s[1..]) + tail;
      if s[0] == 0xFF {
        assert Stuff(s) + tail == [0xFF, 0] + rest;
        assert ([0xFF, 0] + rest)[1..] == [0] + rest;
        assert ([0] + rest)[1..] == rest;
      } else {
        assert Stuff(s) + tail == [s[0]] + rest;
        assert ([s[0]] + rest)[1..] == rest;
      }
    }
  }

  // The marker that ends the data, and the source behind it.
  function Marker(src: seq<byte>): byte {
    if src == [] then 0xD9
    else if src[0] != 0xFF then Marker(src[1..])
    else MarkerAfterFF(src[1..])
  }

  function MarkerAfterFF(src: seq<byte>): byte {
    if src == [] then 0xD9
    else if src[0] == 0xFF then MarkerAfterFF(src[1..])
    else if src[0] == 0 then Marker(src[1..])
    else src[0]
  }

  function Behind(src: seq<byte>): seq<byte> {
    if src == [] then []
    else if src[0] != 0xFF then Behind(src[1..])
    else BehindAfterFF(src[1..])
  }

  function BehindAfterFF(src: seq<byte>): seq<byte> {
    if src == [] then []
    else if src[0] == 0xFF then BehindAfterFF(src[1..])
    else if src[0] == 0 then Behind(src[1..])
    else src[1..]
  }

  lemma {:induction false} MarkerBehindStuff(s: seq<byte>, tail: seq<byte>)
    requires StartsWithMarker(tail)
    ensures Marker(Stuff(s) + tail) == tail[1] && Behind(Stuff(s) + tail) == tail[2..]
  {
    if s == [] {
      assert Stuff(s) + tail == tail;
      assert tail[1..][0] == tail[1] && tail[1..][1..] == tail[2..];
    } else {
      MarkerBehindStuff(s[1..], tail);
      var rest := Stuff(s[1..]) + tail;
      if s[0] == 0xFF {
        assert Stuff(s) + tail == [0xFF, 0] + rest;
        assert ([0xFF, 0] + rest)[1..] == [0] + rest;
        assert ([0] + rest)[1..] == rest;
      } else {
        assert Stuff(s) + tail == [s[0]] + rest;
        assert ([s[0]] + rest)[1..] == rest;
      }
    }
  }
}
