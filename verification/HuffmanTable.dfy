// jpeg_gen_optimal_table of libs/jpeg/jchuff.c after its merge loop: counting the code
// lengths, limiting them to 16 bits, dropping the pseudo-symbol, and listing the symbols.
module HuffmanTable {
  import opened Powers
  import opened Bytes
  import opened HuffmanCost
  import opened HuffmanMerge
  import opened HuffmanDepth

  // ----- Length counts -----

  // How many code words there are up to length n, and their Kraft sum in units of 2^-m.
  function Words(bits: seq<nat>, n: nat): nat
    requires n < |bits|
  {
    if n == 0 then 0 else Words(bits, n - 1) + bits[n]
  }

  function KraftOf(bits: seq<nat>, n: nat, m: nat): nat
    requires n < |bits| && n <= m
  {
    if n == 0 then 0 else KraftOf(bits, n - 1, m) + bits[n] * Pow2(m - n)
  }

  lemma {:induction false} WordsUpdate(bits: seq<nat>, l: nat, v: nat, n: nat)
    requires n < |bits| && 0 < l < |bits|
    ensures Words(bits[l := v], n) + (if l <= n then bits[l] else 0) == Words(bits, n) + (if l <= n then v else 0)
  {
    if n > 0 {
      WordsUpdate(bits, l, v, n - 1);
    }
  }

  lemma {:induction false} KraftOfUpdate(bits: seq<nat>, l: nat, v: nat, n: nat, m: nat)
    requires n < |bits| && n <= m && 0 < l < |bits|
    ensures l <= n ==>
      KraftOf(bits[l := v], n, m) + bits[l] * Pow2(m - l) == KraftOf(bits, n, m) + v * Pow2(m - l)
    ensures l > n ==> KraftOf(bits[l := v], n, m) == KraftOf(bits, n, m)
  {
    if n > 0 {
      KraftOfUpdate(bits, l, v, n - 1, m);
    }
  }

  // The same sum in a finer unit.
  lemma {:induction false} KraftOfScales(bits: seq<nat>, n: nat, m: nat, d: nat)
    requires n < |bits| && n <= m
    ensures KraftOf(bits, n, m + d) == KraftOf(bits, n, m) * Pow2(d)
  {
    if n > 0 {
      KraftOfScales(bits, n - 1, m, d);
      Pow2Add(m - n, d);
      MulAssoc(bits[n], Pow2(m - n), Pow2(d));
      MulDistrib(KraftOf(bits, n - 1, m), bits[n] * Pow2(m - n), Pow2(d));
    }
  }

  lemma {:induction false} KraftOfShorter(bits: seq<nat>, n: nat, k: nat, m: nat)
    requires n <= k < |bits| && k <= m && forall l :: n < l <= k ==> bits[l] == 0
    ensures KraftOf(bits, k, m) == KraftOf(bits, n, m) && Words(bits, k) == Words(bits, n)
  {
    if n < k {
      KraftOfShorter(bits, n, k - 1, m);
    }
  }

  lemma {:induction false} WordsAbove(bits: seq<nat>, k: nat, n: nat)
    requires k <= n < |bits|
    ensures Words(bits, k) <= Words(bits, n)
    ensures 0 < k ==> bits[k] <= Words(bits, n)
    ensures 0 < k < n ==> bits[k] + bits[n] <= Words(bits, n)
  {
    if k < n {
      WordsAbove(bits, k, n - 1);
    }
  }

  // ----- Counting -----

  function CountOf(sizes: seq<nat>, l: nat, n: nat): nat
    requires n <= |sizes|
  {
    if n == 0 then 0 else CountOf(sizes, l, n - 1) + (if sizes[n - 1] == l then 1 else 0)
  }

  // The length counts of the first n symbols.
  function Histogram(sizes: seq<nat>, n: nat): (bits: seq<nat>)
    requires n <= |sizes|
    ensures |bits| == MAX_CLEN + 1 && bits[0] == 0
  {
    seq(MAX_CLEN + 1, l requires 0 <= l <= MAX_CLEN => if l == 0 then 0 else CountOf(sizes, l, n))
  }

  lemma HistogramNext(sizes: seq<nat>, n: nat)
    requires n < |sizes| && sizes[n] <= MAX_CLEN
    ensures Histogram(sizes, n + 1)
         == if sizes[n] == 0 then Histogram(sizes, n)
            else Histogram(sizes, n)[sizes[n] := Histogram(sizes, n)[sizes[n]] + 1]
  {
  }

  lemma {:induction false} HistogramKraft(w: seq<nat>, sizes: seq<nat>, n: nat, m: nat)
    requires n <= |sizes| == |w| && MAX_CLEN <= m
    requires forall s :: 0 <= s < |w| ==> sizes[s] <= MAX_CLEN && (w[s] > 0 <==> sizes[s] > 0)
    ensures Below(Used(w, sizes, n), m)
    ensures KraftOf(Histogram(sizes, n), MAX_CLEN, m) == Kraft(Used(w, sizes, n), m)
    ensures Words(Histogram(sizes, n), MAX_CLEN) == |Used(w, sizes, n)|
  {
    hide Pow2, Histogram;
    if n == 0 {
      EmptyHistogram(sizes, MAX_CLEN, m);
    } else {
      HistogramKraft(w, sizes, n - 1, m);
      HistogramNext(sizes, n - 1);
      var h, l := Histogram(sizes, n - 1), sizes[n - 1];
      if l > 0 {
        KraftOfUpdate(h, l, h[l] + 1, MAX_CLEN, m);
        WordsUpdate(h, l, h[l] + 1, MAX_CLEN);
        MulDistrib(h[l], 1, Pow2(m - l));
        KraftAppend(Used(w, sizes, n - 1), l, m);
      } else {
        assert Used(w, sizes, n) == Used(w, sizes, n - 1);
      }
    }
  }

  lemma {:induction false} EmptyHistogram(sizes: seq<nat>, n: nat, m: nat)
    requires n <= MAX_CLEN <= m
    ensures KraftOf(Histogram(sizes, 0), n, m) == 0 && Words(Histogram(sizes, 0), n) == 0
  {
    if n > 0 {
      EmptyHistogram(sizes, n - 1, m);
    }
  }

  lemma {:induction false} CountMonotone(sizes: seq<nat>, l: nat, k: nat, n: nat)
    requires k <= n <= |sizes|
    ensures CountOf(sizes, l, k) <= CountOf(sizes, l, n)
  {
    if k < n {
      CountMonotone(sizes, l, k, n - 1);
    }
  }

  // The length counts. False on a code length overflow.
  method CountLengths(codesize: array<nat>, bits: array<byte>) returns (ok: bool)
    requires codesize.Length == SYMBOLS && bits.Length == MAX_CLEN + 1
    requires forall l :: 0 <= l <= MAX_CLEN ==> bits[l] == 0
    requires forall l :: 0 < l <= MAX_CLEN ==> CountOf(codesize[..], l, SYMBOLS) < 256
    modifies bits
    ensures ok <==> forall s :: 0 <= s < SYMBOLS ==> codesize[s] <= MAX_CLEN
    ensures ok ==> bits[..] == Histogram(codesize[..], SYMBOLS)
  {
    ghost var sizes := codesize[..];
    assert forall l :: 0 <= l <= MAX_CLEN ==> bits[..][l] == Histogram(sizes, 0)[l];
    for i := 0 to SYMBOLS
      invariant bits[..] == Histogram(sizes, i)
      invariant forall s :: 0 <= s < i ==> codesize[s] <= MAX_CLEN
    {
      if codesize[i] != 0 {
        if codesize[i] > MAX_CLEN {
          return false;
        }
        HistogramNext(sizes, i);
        CountMonotone(sizes, codesize[i], i + 1, SYMBOLS);
        bits[codesize[i]] := bits[codesize[i]] + 1;
      } else {
        HistogramNext(sizes, i);
      }
    }
    ok := true;
  }

  // ----- Limiting -----

  // A full code: Kraft's sum is 1, no code word is longer than n, and the number of words is
  // small enough for the counts.
  ghost predicate Full(bits: seq<nat>, n: nat) {
    && |bits| == MAX_CLEN + 1 && n <= MAX_CLEN && bits[0] == 0
    && (forall l :: n < l <= MAX_CLEN ==> bits[l] == 0)
    && KraftOf(bits, MAX_CLEN, MAX_CLEN) == Pow2(MAX_CLEN)
    && Words(bits, MAX_CLEN) < 256
  }

  lemma {:induction false} KraftOfMultiple(bits: seq<nat>, n: nat, m: nat) returns (q: nat)
    requires n < |bits| && n <= m
    ensures KraftOf(bits, n, m) == q * Pow2(m - n)
  {
    if n == 0 {
      q := 0;
    } else {
      var r := KraftOfMultiple(bits, n - 1, m);
      q := 2 * r + bits[n];
      MulAssoc(r, 2, Pow2(m - n));
      MulDistrib(2 * r, bits[n], Pow2(m - n));
    }
  }

  // Kraft's sum of a full code, split off the longest words.
  lemma FullSum(bits: seq<nat>, n: nat) returns (q: nat)
    requires Full(bits, n) && n > 0
    ensures |bits| == MAX_CLEN + 1 && n <= MAX_CLEN
    ensures q * Pow2(MAX_CLEN - n + 1) + bits[n] * Pow2(MAX_CLEN - n) == Pow2(MAX_CLEN)
  {
    hide Pow2, Words;
    KraftOfShorter(bits, n, MAX_CLEN, MAX_CLEN);
    q := KraftOfMultiple(bits, n - 1, MAX_CLEN);
  }

  lemma PowersOf(n: nat)
    requires 0 < n <= MAX_CLEN
    ensures Pow2(MAX_CLEN - n) > 0 && Pow2(MAX_CLEN - n + 1) == Pow2(MAX_CLEN - n) * 2
    ensures Pow2(MAX_CLEN) == Pow2(n - 1) * (Pow2(MAX_CLEN - n) * 2)
  {
    hide Pow2;
    Pow2Add(MAX_CLEN - n, 1);
    Pow2Add(n - 1, MAX_CLEN - n + 1);
    Pow2Values();
  }

  // Code words of the longest length come in pairs.
  lemma LongestArePaired(bits: seq<nat>, n: nat)
    requires Full(bits, n) && n > 0
    ensures |bits| == MAX_CLEN + 1 && n <= MAX_CLEN && bits[n] % 2 == 0
  {
    hide Pow2, KraftOf, Full, Words;
    var q := FullSum(bits, n);
    PowersOf(n);
    EvenPart(q, bits[n], Pow2(n - 1), Pow2(MAX_CLEN - n));
  }

  lemma EvenPart(q: nat, b: nat, p: nat, d: nat)
    requires d > 0 && q * (d * 2) + b * d == p * (d * 2)
    ensures b == 2 * (p - q)
  {
    assert (2 * q + b) * d == 2 * p * d;
    MulCancel(2 * q + b, 2 * p, d);
  }

  lemma TwoLengthsOnly(a: nat, b: nat, p: nat, d: nat)
    requires d > 0 && a * (d * 2) + b * d == p * d
    ensures 2 * a + b == p
  {
    assert (2 * a + b) * d == p * d;
    MulCancel(2 * a + b, p, d);
  }

  // Some code word is at least two bits shorter than the longest, as a code of few words
  // longer than 16 bits cannot be a full tree.
  lemma ShorterWordExists(bits: seq<nat>, n: nat)
    requires Full(bits, n) && n > 16
    ensures exists j :: 0 < j <= n - 2 && bits[j] > 0
  {
    hide Pow2;
    if forall j :: 0 < j <= n - 2 ==> bits[j] == 0 {
      var d := Pow2(MAX_CLEN - n);
      KraftOfShorter(bits, n, MAX_CLEN, MAX_CLEN);
      KraftOfShorter(bits, 0, n - 2, MAX_CLEN);
      WordsAbove(bits, n - 1, n);
      Pow2Add(MAX_CLEN - n, 1);
      Pow2Add(n, MAX_CLEN - n);
      Pow2Values();
      Pow2Monotonic(16, n);
      TwoLengthsOnly(bits[n - 1], bits[n], Pow2(n), d);
    }
  }

  // A pair of length i becomes one word of length i - 1.
  function Shortened(bits: seq<nat>, i: nat): (r: seq<nat>)
    requires 1 < i < |bits| && bits[i] >= 2
    ensures |r| == |bits|
  {
    var one := bits[i := bits[i] - 2];
    one[i - 1 := one[i - 1] + 1]
  }

  // A word of length j becomes a pair of length j + 1.
  function WordSplit(bits: seq<nat>, j: nat): (r: seq<nat>)
    requires j + 1 < |bits| && bits[j] >= 1
    ensures |r| == |bits|
  {
    var two := bits[j + 1 := bits[j + 1] + 2];
    two[j := two[j] - 1]
  }

  // One adjustment: the room that a pair of length i leaves is taken from a word of length j.
  function Adjusted(bits: seq<nat>, i: nat, j: nat): (r: seq<nat>)
    requires 0 < j <= i - 2 && i < |bits| && bits[i] >= 2 && bits[j] >= 1
    ensures |r| == |bits|
  {
    WordSplit(Shortened(bits, i), j)
  }

  // What a code word of length l takes up.
  function Weight(l: nat): nat
    requires l <= MAX_CLEN
  {
    Pow2(MAX_CLEN - l)
  }

  lemma WeightTwice(l: nat)
    requires 0 < l <= MAX_CLEN
    ensures Weight(l - 1) == 2 * Weight(l)
  {
  }

  lemma Raise(bits: seq<nat>, l: nat, k: nat)
    requires |bits| == MAX_CLEN + 1 && 0 < l <= MAX_CLEN
    ensures Words(bits[l := bits[l] + k], MAX_CLEN) == Words(bits, MAX_CLEN) + k
    ensures KraftOf(bits[l := bits[l] + k], MAX_CLEN, MAX_CLEN)
         == KraftOf(bits, MAX_CLEN, MAX_CLEN) + k * Weight(l)
  {
    WordsUpdate(bits, l, bits[l] + k, MAX_CLEN);
    KraftOfUpdate(bits, l, bits[l] + k, MAX_CLEN, MAX_CLEN);
    MulDistrib(bits[l], k, Pow2(MAX_CLEN - l));
  }

  lemma Lower(bits: seq<nat>, l: nat, k: nat)
    requires |bits| == MAX_CLEN + 1 && 0 < l <= MAX_CLEN && k <= bits[l]
    ensures Words(bits[l := bits[l] - k], MAX_CLEN) + k == Words(bits, MAX_CLEN)
    ensures KraftOf(bits[l := bits[l] - k], MAX_CLEN, MAX_CLEN) + k * Weight(l)
         == KraftOf(bits, MAX_CLEN, MAX_CLEN)
  {
    hide Pow2, KraftOf, Words, Weight;
    Raise(bits[l := bits[l] - k], l, k);
    assert bits[l := bits[l] - k][l := bits[l]] == bits;
  }

  lemma AdjustedIsFull(bits: seq<nat>, i: nat, j: nat)
    requires Full(bits, i) && 0 < j <= i - 2 && bits[i] >= 2 && bits[j] >= 1
    ensures Full(Adjusted(bits, i, j), i)
    ensures Words(Adjusted(bits, i, j), MAX_CLEN) == Words(bits, MAX_CLEN)
  {
    hide Pow2, KraftOf, Words;
    ShortenedSums(bits, i);
    SplitSums(Shortened(bits, i), j);
  }

  lemma PairShortens(bits: seq<nat>, i: nat)
    requires |bits| == MAX_CLEN + 1 && 1 < i <= MAX_CLEN && bits[i] >= 2
    ensures var one := bits[i := bits[i] - 2]; var r := one[i - 1 := one[i - 1] + 1];
      && Words(r, MAX_CLEN) + 1 == Words(bits, MAX_CLEN)
      && KraftOf(r, MAX_CLEN, MAX_CLEN) == KraftOf(bits, MAX_CLEN, MAX_CLEN)
  {
    hide KraftOf, Words, Weight;
    Lower(bits, i, 2);
    Raise(bits[i := bits[i] - 2], i - 1, 1);
    WeightTwice(i);
  }

  lemma WordSplits(bits: seq<nat>, j: nat)
    requires |bits| == MAX_CLEN + 1 && 0 < j < MAX_CLEN && bits[j] >= 1
    ensures var two := bits[j + 1 := bits[j + 1] + 2]; var r := two[j := two[j] - 1];
      && Words(r, MAX_CLEN) == Words(bits, MAX_CLEN) + 1
      && KraftOf(r, MAX_CLEN, MAX_CLEN) == KraftOf(bits, MAX_CLEN, MAX_CLEN)
  {
    hide KraftOf, Words, Weight;
    Raise(bits, j + 1, 2);
    Lower(bits[j + 1 := bits[j + 1] + 2], j, 1);
    WeightTwice(j + 1);
  }

  lemma ShortenedIs(bits: seq<nat>, i: nat)
    requires 1 < i < |bits| && bits[i] >= 2
    ensures Shortened(bits, i) == var one := bits[i := bits[i] - 2]; one[i - 1 := one[i - 1] + 1]
  {
  }

  lemma SplitIs(bits: seq<nat>, j: nat)
    requires j + 1 < |bits| && bits[j] >= 1
    ensures WordSplit(bits, j) == var two := bits[j + 1 := bits[j + 1] + 2]; two[j := two[j] - 1]
  {
  }

  lemma ShortenedSums(bits: seq<nat>, i: nat)
    requires |bits| == MAX_CLEN + 1 && 1 < i <= MAX_CLEN && bits[i] >= 2
    ensures Words(Shortened(bits, i), MAX_CLEN) + 1 == Words(bits, MAX_CLEN)
    ensures KraftOf(Shortened(bits, i), MAX_CLEN, MAX_CLEN) == KraftOf(bits, MAX_CLEN, MAX_CLEN)
  {
    hide KraftOf, Words, Shortened;
    PairShortens(bits, i);
    ShortenedIs(bits, i);
  }

  lemma SplitSums(bits: seq<nat>, j: nat)
    requires |bits| == MAX_CLEN + 1 && 0 < j < MAX_CLEN && bits[j] >= 1
    ensures Words(WordSplit(bits, j), MAX_CLEN) == Words(bits, MAX_CLEN) + 1
    ensures KraftOf(WordSplit(bits, j), MAX_CLEN, MAX_CLEN) == KraftOf(bits, MAX_CLEN, MAX_CLEN)
  {
    hide KraftOf, Words, WordSplit;
    WordSplits(bits, j);
    SplitIs(bits, j);
  }

  lemma {:induction false} ThreeLengths(bits: seq<nat>, i: nat, j: nat, k: nat, n: nat)
    requires 0 < i < j < k <= n < |bits|
    ensures bits[i] + bits[j] + bits[k] <= Words(bits, n)
  {
    if k < n {
      ThreeLengths(bits, i, j, k, n - 1);
    } else {
      WordsAbove(bits, i, j);
      WordsAbove(bits, j, n - 1);
    }
  }

  // No count exceeds a byte on the way.
  lemma AdjustedFits(bits: seq<nat>, i: nat, j: nat)
    requires Full(bits, i) && 0 < j <= i - 2 && bits[i] >= 2 && bits[j] >= 1
    ensures bits[i - 1] + 3 < 256 && bits[j + 1] + 2 < 256
  {
    ThreeLengths(bits, j, i - 1, i, MAX_CLEN);
    if j + 1 < i {
      ThreeLengths(bits, j, j + 1, i, MAX_CLEN);
    }
  }

  // The greatest length up to j that has words.
  function Longest(bits: seq<nat>, j: nat): (l: nat)
    requires j < |bits|
    ensures l <= j && (l > 0 ==> bits[l] > 0) && forall k :: l < k <= j ==> bits[k] == 0
  {
    if j == 0 || bits[j] > 0 then j else Longest(bits, j - 1)
  }

  // The adjustment of section K.2 of T.81, repeated for the lengths from i down to 17: a pair of
  // the longest length makes room at the expense of the longest word at least two bits shorter.
  ghost function Limited(bits: seq<nat>, i: nat): (r: seq<nat>)
    requires Full(bits, i)
    ensures Full(r, 16) && Words(r, MAX_CLEN) == Words(bits, MAX_CLEN)
    decreases i, if i < |bits| then bits[i] else 0
  {
    hide Pow2, KraftOf, Words;
    if i <= 16 then bits
    else if bits[i] == 0 then Limited(bits, i - 1)
    else
      LongestArePaired(bits, i);
      ShorterWordExists(bits, i);
      AdjustedIsFull(bits, i, Longest(bits, i - 2));
      Limited(Adjusted(bits, i, Longest(bits, i - 2)), i)
  }

  // Short codes are left alone.
  lemma {:induction false} LimitedIsSame(bits: seq<nat>, i: nat)
    requires Full(bits, i) && Full(bits, 16)
    ensures Limited(bits, i) == bits
  {
    hide Pow2, KraftOf, Words;
    if i > 16 {
      LimitedIsSame(bits, i - 1);
    }
  }

  // The greatest length with words, from j downwards.
  method FindLongest(bits: array<byte>, j0: nat) returns (j: nat)
    requires j0 < bits.Length
    ensures j == Longest(bits[..], j0)
  {
    j := j0;
    while j > 0 && bits[j] == 0
      invariant j <= j0 && Longest(bits[..], j) == Longest(bits[..], j0)
    {
      j := j - 1;
    }
  }

  method Adjust(bits: array<byte>, i: nat, j: nat)
    requires bits.Length == MAX_CLEN + 1 && Full(bits[..], i) && 0 < j <= i - 2 && bits[i] >= 2 && bits[j] >= 1
    modifies bits
    ensures bits[..] == Adjusted(old(bits[..]), i, j)
  {
    hide Pow2, KraftOf, Words;
    AdjustedFits(bits[..], i, j);
    bits[i] := bits[i] - 2;
    bits[i - 1] := bits[i - 1] + 1;
    bits[j + 1] := bits[j + 1] + 2;
    bits[j] := bits[j] - 1;
  }

  lemma NextAdjustment(bits: seq<nat>, i: nat)
    requires Full(bits, i) && 16 < i
    ensures |bits| == MAX_CLEN + 1 && i <= MAX_CLEN
    ensures bits[i] == 0 ==> Full(bits, i - 1) && Limited(bits, i) == Limited(bits, i - 1)
    ensures bits[i] > 0 ==>
      && bits[i] >= 2 && 0 < Longest(bits, i - 2) && bits[Longest(bits, i - 2)] >= 1
      && Full(Adjusted(bits, i, Longest(bits, i - 2)), i)
      && Limited(bits, i) == Limited(Adjusted(bits, i, Longest(bits, i - 2)), i)
      && Adjusted(bits, i, Longest(bits, i - 2))[i] < bits[i]
  {
    hide Pow2, KraftOf, Words, Longest;
    if bits[i] > 0 {
      LongestArePaired(bits, i);
      ShorterWordExists(bits, i);
      AdjustedIsFull(bits, i, Longest(bits, i - 2));
    }
  }

  method LimitLengths(bits: array<byte>)
    requires bits.Length == MAX_CLEN + 1 && Full(bits[..], MAX_CLEN)
    modifies bits
    ensures bits[..] == Limited(old(bits[..]), MAX_CLEN)
  {
    hide Pow2, KraftOf, Words, Full, Limited, Adjusted, Longest;
    ghost var goal := Limited(bits[..], MAX_CLEN);
    var i := MAX_CLEN;
    while i > 16
      invariant 16 <= i <= MAX_CLEN && Full(bits[..], i) && Limited(bits[..], i) == goal
    {
      NextAdjustment(bits[..], i);
      while bits[i] > 0
        invariant Full(bits[..], i) && Limited(bits[..], i) == goal
        decreases bits[i]
      {
        NextAdjustment(bits[..], i);
        ghost var b := bits[..];
        var j := FindLongest(bits, i - 2);
        Adjust(bits, i, j);
        assert bits[i] == bits[..][i] < b[i];
      }
      NextAdjustment(bits[..], i);
      i := i - 1;
    }
    LimitedDone(bits[..]);
  }

  lemma LimitedDone(bits: seq<nat>)
    requires Full(bits, 16)
    ensures Limited(bits, 16) == bits
  {
  }

  // ----- Dropping the pseudo-symbol -----

  // Kraft's sum leaves room for one more word of length l.
  ghost predicate HasRoom(bits: seq<nat>, l: nat) {
    |bits| > 16 && 0 < l <= 16 && KraftOf(bits, 16, 16) + Pow2(16 - l) == Pow2(16)
  }

  lemma DropOne(bits: seq<nat>, l: nat)
    requires Full(bits, 16) && 0 < l <= 16 && bits[l] > 0 && forall k :: l < k <= MAX_CLEN ==> bits[k] == 0
    ensures HasRoom(bits[l := bits[l] - 1], l)
    ensures Words(bits[l := bits[l] - 1], 16) == Words(bits, MAX_CLEN) - 1
  {
    hide Pow2;
    var after := bits[l := bits[l] - 1];
    KraftOfShorter(bits, 16, MAX_CLEN, MAX_CLEN);
    KraftOfScales(bits, 16, 16, 16);
    Pow2Add(16, 16);
    MulCancel(KraftOf(bits, 16, 16), Pow2(16), Pow2(16));
    KraftOfUpdate(bits, l, bits[l] - 1, 16, 16);
    WordsUpdate(bits, l, bits[l] - 1, 16);
    MulDistrib(bits[l] - 1, 1, Pow2(16 - l));
  }

  lemma SomeWord(bits: seq<nat>)
    requires Full(bits, 16)
    ensures exists l :: 0 < l <= 16 && bits[l] > 0
  {
    if forall l :: 0 < l <= 16 ==> bits[l] == 0 {
      KraftOfShorter(bits, 0, MAX_CLEN, MAX_CLEN);
    }
  }

  // The counts without one word of the longest length still in use.
  ghost function Dropped(bits: seq<nat>): (r: seq<nat>)
    requires Full(bits, 16)
    ensures |r| == |bits|
  {
    SomeWord(bits);
    var l := Longest(bits, 16);
    bits[l := bits[l] - 1]
  }

  lemma DroppedHasRoom(bits: seq<nat>)
    requires Full(bits, 16)
    ensures HasRoom(Dropped(bits), Longest(bits, 16)) && Words(Dropped(bits), 16) == Words(bits, MAX_CLEN) - 1
  {
    hide Pow2, KraftOf, Words;
    SomeWord(bits);
    DropOne(bits, Longest(bits, 16));
  }

  method RemovePseudo(bits: array<byte>)
    requires bits.Length == MAX_CLEN + 1 && Full(bits[..], 16)
    modifies bits
    ensures bits[..] == Dropped(old(bits[..]))
  {
    hide Pow2, KraftOf, Words;
    ghost var b := bits[..];
    SomeWord(b);
    var i := FindLongest(bits, 16);
    bits[i] := bits[i] - 1;
    assert bits[..] == b[i := b[i] - 1];
  }

  // ----- Listing the symbols -----

  // The symbols below n with code length l, in order.
  function Symbols(sizes: seq<nat>, l: nat, n: nat): (r: seq<byte>)
    requires n <= |sizes| && n <= 256
  {
    if n == 0 then [] else Symbols(sizes, l, n - 1) + (if sizes[n - 1] == l then [n - 1] else [])
  }

  // The symbols with code lengths up to l, by code length.
  function Listed(sizes: seq<nat>, l: nat): (r: seq<byte>)
    requires |sizes| >= 256
  {
    if l == 0 then [] else Listed(sizes, l - 1) + Symbols(sizes, l, 256)
  }

  lemma {:induction false} SymbolsAre(sizes: seq<nat>, l: nat, n: nat)
    requires n <= |sizes| && n <= 256
    ensures forall s :: s in Symbols(sizes, l, n) <==> 0 <= s < n && sizes[s] == l
    ensures forall j, k :: 0 <= j < k < |Symbols(sizes, l, n)| ==> Symbols(sizes, l, n)[j] < Symbols(sizes, l, n)[k]
    ensures |Symbols(sizes, l, n)| == CountOf(sizes, l, n)
  {
    if n > 0 {
      SymbolsAre(sizes, l, n - 1);
      var a := Symbols(sizes, l, n - 1);
      assert forall j :: 0 <= j < |a| ==> a[j] in a;
    }
  }

  lemma {:induction false} ListedMembers(sizes: seq<nat>, l: nat)
    requires |sizes| >= 256
    ensures forall s :: s in Listed(sizes, l) <==> 0 <= s < 256 && 0 < sizes[s] <= l
  {
    hide Symbols;
    if l > 0 {
      ListedMembers(sizes, l - 1);
      SymbolsAre(sizes, l, 256);
    }
  }

  // The list holds each symbol that has a code once, the shorter codes first, and within a
  // code length the smaller symbols first.
  ghost predicate InOrder(sizes: seq<nat>, list: seq<byte>) {
    forall j, k :: 0 <= j < k < |list| ==>
      list[j] < |sizes| && list[k] < |sizes|
      && (sizes[list[j]] < sizes[list[k]] || (sizes[list[j]] == sizes[list[k]] && list[j] < list[k]))
  }

  lemma {:induction false} ListedOrder(sizes: seq<nat>, l: nat)
    requires |sizes| >= 256
    ensures InOrder(sizes, Listed(sizes, l))
  {
    hide Symbols;
    if l > 0 {
      ListedOrder(sizes, l - 1);
      ListedMembers(sizes, l - 1);
      SymbolsAre(sizes, l, 256);
      var a, b := Listed(sizes, l - 1), Symbols(sizes, l, 256);
      assert forall j :: 0 <= j < |a| ==> a[j] in a;
      assert forall j :: 0 <= j < |b| ==> b[j] in b;
    }
  }

  lemma {:induction false} ListedSize(sizes: seq<nat>, l: nat)
    requires |sizes| >= 256 && l <= MAX_CLEN
    ensures |Listed(sizes, l)| == Words(Histogram(sizes, 256), l)
  {
    hide Symbols;
    if l > 0 {
      ListedSize(sizes, l - 1);
      SymbolsAre(sizes, l, 256);
    }
  }

  lemma {:induction false} ListedMonotone(sizes: seq<nat>, l: nat, n: nat)
    requires |sizes| >= 256 && l <= n
    ensures |Listed(sizes, l)| <= |Listed(sizes, n)|
  {
    if l < n {
      ListedMonotone(sizes, l, n - 1);
    }
  }

  lemma {:induction false} SymbolsMonotone(sizes: seq<nat>, l: nat, n: nat, k: nat)
    requires n <= k <= |sizes| && k <= 256
    ensures |Symbols(sizes, l, n)| <= |Symbols(sizes, l, k)|
  {
    if n < k {
      SymbolsMonotone(sizes, l, n, k - 1);
    }
  }

  // The symbols in the order of their codes.
  method SortSymbols(codesize: array<nat>, huffval: array<byte>) returns (p: nat)
    requires codesize.Length == SYMBOLS && huffval.Length == 256
    requires |Listed(codesize[..], MAX_CLEN)| <= 256
    modifies huffval
    ensures p <= 256 && huffval[..p] == Listed(codesize[..], MAX_CLEN)
  {
    hide Listed, Symbols;
    ghost var sizes := codesize[..];
    ListedStarts(sizes);
    p := 0;
    for i := 1 to MAX_CLEN + 1
      invariant p <= 256 && huffval[..p] == Listed(sizes, i - 1)
    {
      for j := 0 to 256
        invariant p <= 256 && huffval[..p] == Listed(sizes, i - 1) + Symbols(sizes, i, j)
      {
        ListedNext(sizes, i, j);
        if codesize[j] == i {
          huffval[p] := j;
          p := p + 1;
          assert huffval[..p] == huffval[..p - 1] + [j];
        }
      }
    }
  }

  lemma ListedStarts(sizes: seq<nat>)
    requires |sizes| >= 256
    ensures Listed(sizes, 0) == []
    ensures forall l :: 0 < l ==> Symbols(sizes, l, 0) == []
    ensures forall l :: 0 < l ==> Listed(sizes, l) == Listed(sizes, l - 1) + Symbols(sizes, l, 256)
  {
  }

  lemma ListedNext(sizes: seq<nat>, l: nat, n: nat)
    requires |sizes| >= 256 && 0 < l <= MAX_CLEN && n < 256
    ensures Symbols(sizes, l, n + 1) == Symbols(sizes, l, n) + (if sizes[n] == l then [n] else [])
    ensures sizes[n] == l ==> |Listed(sizes, l - 1) + Symbols(sizes, l, n)| < |Listed(sizes, MAX_CLEN)|
  {
    SymbolsMonotone(sizes, l, n + 1, 256);
    ListedMonotone(sizes, l, MAX_CLEN);
  }

  // ----- The whole -----

  // What the caller has to provide: a symbol in use, at most 254 of them (the length counts
  // are bytes, and the pseudo-symbol takes one), and counts whose sum stays below the
  // sentinel.
  ghost predicate Countable(freq: seq<nat>) {
    && |freq| == SYMBOLS
    && (exists s :: 0 <= s < 256 && freq[s] > 0)
    && |Used(freq, freq, 256)| <= 254
    && Total(freq, 256) < SENTINEL
  }

  // The length counts the table is made of: those of the code sizes, limited, without the
  // pseudo-symbol.
  ghost function TableCounts(sizes: seq<nat>): (bits: seq<nat>)
    requires |sizes| == SYMBOLS && Full(Histogram(sizes, SYMBOLS), MAX_CLEN)
    ensures |bits| == 17
  {
    Dropped(Limited(Histogram(sizes, SYMBOLS), MAX_CLEN))[..17]
  }

  // The table for code sizes: their counts, and the symbols in use by code size.
  ghost predicate CodesFor(w: seq<nat>, sizes: seq<nat>, bits: seq<nat>, huffval: seq<byte>) {
    && |w| == |sizes| == SYMBOLS && |bits| == 17 && |huffval| == 256 && Words(bits, 16) < 256
    && (forall s :: s in huffval[..Words(bits, 16)] <==> 0 <= s < 256 && w[s] > 0)
    && InOrder(sizes, huffval[..Words(bits, 16)])
    && (exists l :: HasRoom(bits, l))
    && Full(Histogram(sizes, SYMBOLS), MAX_CLEN) && bits == TableCounts(sizes)
    && huffval[..Words(bits, 16)] == Listed(sizes, MAX_CLEN)
    && (forall s :: 0 <= s < SYMBOLS ==> (w[s] > 0 <==> sizes[s] > 0))
  }

  lemma {:induction false} CountsAreFew(w: seq<nat>, sizes: seq<nat>, l: nat, n: nat)
    requires n <= |w| == |sizes| && l > 0 && forall s :: 0 <= s < |w| ==> (w[s] > 0 <==> sizes[s] > 0)
    ensures CountOf(sizes, l, n) <= |Used(w, w, n)|
  {
    if n > 0 {
      CountsAreFew(w, sizes, l, n - 1);
    }
  }

  lemma UsedSame(f: seq<nat>, g: seq<nat>, n: nat)
    requires n <= |f| && n <= |g| && forall s :: 0 <= s < n ==> f[s] == g[s]
    ensures Used(f, f, n) == Used(g, g, n) && Total(f, n) == Total(g, n)
  {
  }

  lemma {:induction false} UsedSize(w: seq<nat>, vals: seq<nat>, n: nat)
    requires n <= |w| == |vals|
    ensures |Used(w, vals, n)| == |Used(w, w, n)|
  {
    if n > 0 {
      UsedSize(w, vals, n - 1);
    }
  }

  // The counted lengths are a full code.
  lemma HistogramIsFull(w: seq<nat>, sizes: seq<nat>)
    requires IsOptimal(w, sizes) && |Used(w, w, SYMBOLS)| < 256
    requires forall s :: 0 <= s < SYMBOLS ==> sizes[s] <= MAX_CLEN && (w[s] > 0 <==> sizes[s] > 0)
    ensures Full(Histogram(sizes, SYMBOLS), MAX_CLEN)
    ensures Words(Histogram(sizes, SYMBOLS), MAX_CLEN) == |Used(w, w, SYMBOLS)|
  {
    hide Pow2, Histogram, KraftOf, Words, Used, Kraft, PrefixFree, Dot;
    var bits, d := Histogram(sizes, SYMBOLS), SYMBOLS - MAX_CLEN;
    HistogramKraft(w, sizes, SYMBOLS, SYMBOLS);
    UsedSize(w, sizes, SYMBOLS);
    KraftOfScales(bits, MAX_CLEN, MAX_CLEN, d);
    Pow2Add(MAX_CLEN, d);
    MulCancel(KraftOf(bits, MAX_CLEN, MAX_CLEN), Pow2(MAX_CLEN), Pow2(d));
  }

  lemma {:induction false} FirstLengths(bits: seq<nat>, k: nat, n: nat, m: nat)
    requires n < k <= |bits| && n <= m
    ensures Words(bits[..k], n) == Words(bits, n) && KraftOf(bits[..k], n, m) == KraftOf(bits, n, m)
  {
    if n > 0 {
      FirstLengths(bits, k, n - 1, m);
    }
  }

  // The list is as long as the counts say.
  lemma ListedFits(w: seq<nat>, sizes: seq<nat>)
    requires |w| == |sizes| == SYMBOLS && w[256] > 0
    requires forall s :: 0 <= s < SYMBOLS ==> sizes[s] <= MAX_CLEN && (w[s] > 0 <==> sizes[s] > 0)
    ensures |Listed(sizes, MAX_CLEN)| + 1 == Words(Histogram(sizes, SYMBOLS), MAX_CLEN)
  {
    hide Listed, Histogram, Words;
    ListedSize(sizes, MAX_CLEN);
    HistogramNext(sizes, 256);
    var h, l := Histogram(sizes, 256), sizes[256];
    WordsUpdate(h, l, h[l] + 1, MAX_CLEN);
  }

  lemma TableIsRight(w: seq<nat>, sizes: seq<nat>, bits: seq<nat>, huffval: seq<byte>)
    requires |w| == |sizes| == SYMBOLS && w[256] > 0
    requires forall s :: 0 <= s < SYMBOLS ==> sizes[s] <= MAX_CLEN && (w[s] > 0 <==> sizes[s] > 0)
    requires Full(Histogram(sizes, SYMBOLS), MAX_CLEN)
    requires bits == Dropped(Limited(Histogram(sizes, SYMBOLS), MAX_CLEN))
    requires |huffval| == 256 && Listed(sizes, MAX_CLEN) <= huffval
    ensures CodesFor(w, sizes, bits[..17], huffval)
  {
    hide Listed, Histogram, Words, KraftOf, Pow2, Full, Limited, Dropped, HasRoom, InOrder;
    var limited := Limited(Histogram(sizes, SYMBOLS), MAX_CLEN);
    assert |bits| == MAX_CLEN + 1 && Words(Histogram(sizes, SYMBOLS), MAX_CLEN) < 256 by {
      FullCounts(Histogram(sizes, SYMBOLS), MAX_CLEN);
      FullCounts(limited, 16);
    }
    DroppedHasRoom(limited);
    ListedMembers(sizes, MAX_CLEN);
    ListedOrder(sizes, MAX_CLEN);
    ListedFits(w, sizes);
    FirstRoom(bits, Longest(limited, 16));
    assert huffval[..Words(bits[..17], 16)] == Listed(sizes, MAX_CLEN);
  }

  lemma FullCounts(bits: seq<nat>, i: nat)
    requires Full(bits, i)
    ensures |bits| == MAX_CLEN + 1 && Words(bits, MAX_CLEN) < 256
  {
  }

  lemma FirstRoom(bits: seq<nat>, l: nat)
    requires |bits| == MAX_CLEN + 1 && HasRoom(bits, l)
    ensures HasRoom(bits[..17], l) && Words(bits[..17], 16) == Words(bits, 16)
  {
    FirstLengths(bits, 17, 16, 16);
  }

  // If no code size exceeds 16, the length counts are those of the code sizes. The pseudo-symbol
  // that is dropped has the longest.
  lemma CountsAreExact(sizes: seq<nat>)
    requires |sizes| == SYMBOLS && Full(Histogram(sizes, SYMBOLS), MAX_CLEN)
    requires forall s :: 0 <= s < SYMBOLS ==> sizes[s] <= sizes[256] <= 16
    requires sizes[256] > 0
    ensures TableCounts(sizes) == Histogram(sizes, 256)[..17]
  {
    hide Histogram, Words, KraftOf, Pow2, Limited;
    var h, top := Histogram(sizes, SYMBOLS), sizes[256];
    forall l | top < l <= MAX_CLEN
      ensures h[l] == 0
    {
      NoneThatLong(sizes, l, SYMBOLS);
    }
    LimitedIsSame(h, MAX_CLEN);
    HistogramNext(sizes, 256);
    assert h[top] > 0;
    LongestIs(h, 16, top);
  }

  lemma LongestIs(bits: seq<nat>, j: nat, l: nat)
    requires 0 < l <= j < |bits| && bits[l] > 0 && forall k :: l < k <= j ==> bits[k] == 0
    ensures Longest(bits, j) == l
  {
  }

  lemma {:induction false} NoneThatLong(sizes: seq<nat>, l: nat, n: nat)
    requires n <= |sizes| && 0 < l <= MAX_CLEN && forall s :: 0 <= s < n ==> sizes[s] < l
    ensures CountOf(sizes, l, n) == 0 && Histogram(sizes, n)[l] == 0
  {
    if n > 0 {
      NoneThatLong(sizes, l, n - 1);
    }
  }

  lemma WeightsFit(freq: seq<nat>, w: seq<nat>)
    requires Countable(freq) && w == freq[256 := 1]
    ensures |Used(w, w, SYMBOLS)| < 256 && Total(w, SYMBOLS) <= SENTINEL && w[256] > 0
    ensures exists s :: 0 <= s < 256 && w[s] > 0
  {
    UsedSame(freq, w, 256);
    var s :| 0 <= s < 256 && freq[s] > 0;
    assert w[s] > 0;
  }

  // The counts with the pseudo-symbol.
  function Weights(freq: seq<nat>): (w: seq<nat>)
    requires |freq| == SYMBOLS
    ensures |w| == SYMBOLS && w[256] == 1
  {
    freq[256 := 1]
  }

  // The best table for the counts, except that code lengths are limited. False stands for the
  // error exit on a code length overflow.
  method GenOptimalTable(freq: array<nat>) returns (ok: bool, bits: seq<byte>, huffval: seq<byte>)
    requires freq.Length == SYMBOLS && Countable(freq[..])
    modifies freq
    ensures var w := Weights(old(freq[..]));
      && IsOptimal(w, HuffmanSizes(w))
      && (ok <==> !Overflows(w))
      && (ok ==> CodesFor(w, HuffmanSizes(w), bits, huffval))
  {
    hide Countable, IsOptimal, CodesFor, Used, Total, Listed, Words, KraftOf, Histogram, Full, HuffmanSizes;
    hide Limited, Dropped, CountOf;
    var counts := new byte[MAX_CLEN + 1](_ => 0);
    var codesize := new nat[SYMBOLS](_ => 0);
    var others := new int[SYMBOLS](_ => -1);
    ghost var before := freq[..];
    freq[256] := 1;
    ghost var w := freq[..];
    assert w == Weights(before);
    WeightsFit(before, w);
    Merge(freq, codesize, others);
    ghost var sizes := codesize[..];
    UsedHaveSizes(w, sizes);
    ok := CountLengths(codesize, counts);
    bits, huffval := [], [];
    if ok {
      HistogramIsFull(w, sizes);
      LimitLengths(counts);
      RemovePseudo(counts);
      var list := new byte[256](_ => 0);
      ListedFits(w, sizes);
      HistogramIsSmall(sizes);
      var p := SortSymbols(codesize, list);
      TableIsRight(w, sizes, counts[..], list[..]);
      bits, huffval := counts[..17], list[..];
    }
  }

  lemma HistogramIsSmall(sizes: seq<nat>)
    requires |sizes| == SYMBOLS && Full(Histogram(sizes, SYMBOLS), MAX_CLEN)
    ensures Words(Histogram(sizes, SYMBOLS), MAX_CLEN) < 256
  {
  }

  lemma UsedHaveSizes(w: seq<nat>, sizes: seq<nat>)
    requires IsOptimal(w, sizes) && w[256] > 0 && (exists s :: 0 <= s < 256 && w[s] > 0)
    requires |Used(w, w, SYMBOLS)| < 256
    requires forall s, r :: 0 <= s < SYMBOLS && 0 <= r < SYMBOLS && s != r && w[s] > 0 && w[r] > 0 ==> sizes[s] > 0
    ensures forall s :: 0 <= s < SYMBOLS ==> (w[s] > 0 <==> sizes[s] > 0)
    ensures forall l :: 0 < l ==> CountOf(sizes, l, SYMBOLS) < 256
  {
    hide Used, CountOf, Kraft, PrefixFree, Dot;
    var r :| 0 <= r < 256 && w[r] > 0;
    forall s | 0 <= s < SYMBOLS
      ensures w[s] > 0 <==> sizes[s] > 0
    {
      if w[s] > 0 {
        assert s != 256 ==> sizes[s] > 0;
        assert s == 256 ==> sizes[s] > 0;
      }
    }
    forall l: nat | 0 < l
      ensures CountOf(sizes, l, SYMBOLS) < 256
    {
      CountsAreFew(w, sizes, l, SYMBOLS);
    }
  }
}
