// What the two register machines promise each other: bytes written by the encoder and
// followed by any marker read back as the same decisions.
module CodecRoundTrip {
  import opened Bytes
  import opened ProbabilityTable
  import opened ExactCoder
  import opened Termination
  import ArithEncoder
  import ArithDecoder

  // An adaptive source of decisions: the bits so far choose the next statistics bin.
  type Chooser = seq<bool> -> nat

  function Decisions(choose: Chooser, bits: seq<bool>): (ds: seq<Decision>)
    ensures |ds| == |bits|
  {
    seq(|bits|, i requires 0 <= i < |bits| => Decision(choose(bits[..i]), bits[i]))
  }

  // A finished segment holds the recorded decisions for whoever reads it from the start.
  lemma SegmentFollows(start: seq<Stat>, ds: seq<Decision>, sent: seq<byte>, tail: seq<byte>)
    requires InBins(ds, |start|) && StartsWithMarker(tail)
    requires IsShortestCode(Run(Initial(start), ds).i, sent)
    ensures Unstuff(Stuff(sent) + tail) == sent
    ensures Follows(Initial(start), ds, sent)
  {
    UnstuffStuff(sent, tail);
  }

  method EncodeAll(choose: Chooser, bits: seq<bool>, area: array<Stat>) returns (out: seq<byte>, ghost sent: seq<byte>)
    requires forall h :: choose(h) < area.Length
    modifies area
    ensures InBins(Decisions(choose, bits), area.Length)
    ensures var s := Run(Initial(old(area[..])), Decisions(choose, bits));
      area[..] == s.stats && IsShortestCode(s.i, sent)
    ensures out == Stuff(sent)
  {
    hide ArithEncoder.Encoder.Valid, Run, IsShortestCode, Stuff;
    ghost var ds := Decisions(choose, bits);
    var enc := new ArithEncoder.Encoder(area);
    for i := 0 to |bits|
      invariant enc.Valid() && fresh(enc) && enc.stats == area
      invariant enc.history == ds[..i] && enc.start == old(area[..]) && enc.closed == []
    {
      enc.Encode(choose(bits[..i]), bits[i]);
    }
    assert ds[..|bits|] == ds;
    enc.StatsOfHistory();
    enc.FinishPass();
    out, sent := enc.out, enc.sent;
  }

  method DecodeAll(choose: Chooser, count: nat, area: array<Stat>, source: seq<byte>, ghost bits: seq<bool>)
    returns (decoded: seq<bool>)
    requires forall h :: choose(h) < area.Length
    requires |bits| == count && Follows(Initial(area[..]), Decisions(choose, bits), Unstuff(source))
    modifies area
    ensures decoded == bits
    ensures area[..] == Run(Initial(old(area[..])), Decisions(choose, bits)).stats
  {
    hide ArithDecoder.Decoder.Valid, ArithDecoder.Decoder.Ahead, Run, Unstuff, Follows, Leads, Contains, InBins;
    ghost var ds := Decisions(choose, bits);
    var dec := new ArithDecoder.Decoder(area, source);
    decoded := [];
    assert ds[0..] == ds;
    dec.Expect(ds);
    while |decoded| < count
      invariant dec.Valid() && fresh(dec) && dec.stats == area
      invariant dec.start == old(area[..])
      invariant |decoded| <= count && decoded == bits[..|decoded|]
      invariant dec.history == ds[..|decoded|] && dec.Ahead(ds[|decoded|..])
    {
      var bit := dec.Decode(choose(decoded), ds[|decoded|..]);
      decoded := decoded + [bit];
    }
    assert ds[..count] == ds;
    dec.StatsOfHistory();
  }

  // The codec round trip, for every adaptive choice of bins, every sequence of bits and
  // every initial statistics: arith_encode* and finish_pass, then arith_decode* on the
  // bytes followed by a marker.
  method RoundTrip(choose: Chooser, bits: seq<bool>, start: seq<Stat>, tail: seq<byte>)
    returns (decoded: seq<bool>, encoderStats: seq<Stat>, decoderStats: seq<Stat>)
    requires forall h :: choose(h) < |start|
    requires StartsWithMarker(tail)
    ensures decoded == bits
    ensures encoderStats == decoderStats
  {
    var area := new Stat[|start|](i requires 0 <= i < |start| => start[i]);
    assert area[..] == start;
    var out, sent := EncodeAll(choose, bits, area);
    SegmentFollows(start, Decisions(choose, bits), sent, tail);

    var area2 := new Stat[|start|](i requires 0 <= i < |start| => start[i]);
    assert area2[..] == start;
    decoded := DecodeAll(choose, |bits|, area2, out + tail, bits);
    encoderStats, decoderStats := area[..], area2[..];
  }
}
