// How deep the trees of Huffman's procedure get: the pseudo-symbol is always at the bottom, and a
// tree so deep that its code lengths overflow takes at least Fibonacci counts.
module HuffmanDepth {
  import opened HuffmanMerge

  const MAX_CLEN := 32   // room for code lengths before they are limited

  // The trees live on: every symbol in use belongs to a tree with a count, which is named after
  // one of its symbols.
  ghost predicate Alive(freq: seq<nat>, owner: seq<int>, sizes: seq<nat>) {
    && |freq| == |owner| == |sizes| == SYMBOLS
    && (forall s :: 0 <= s < SYMBOLS && owner[s] >= 0 ==> owner[s] < SYMBOLS && freq[owner[s]] > 0)
    && (forall c :: 0 <= c < SYMBOLS && freq[c] > 0 ==> owner[c] == c)
  }

  lemma AliveStep(freq: seq<nat>, owner: seq<int>, sizes: seq<nat>, c1: nat, c2: nat)
    requires Alive(freq, owner, sizes) && c1 < SYMBOLS && c2 < SYMBOLS && AreLeast(freq, c1, c2)
    ensures Alive(MergedCounts(freq, c1, c2), Join(owner, c1, c2), Deeper(sizes, owner, c1, c2))
  {
  }

  lemma AliveAtStart(w: seq<nat>)
    requires |w| == SYMBOLS
    ensures Alive(w, Seedling(w).owner, NoCounts(SYMBOLS))
  {
  }

  // ----- The pseudo-symbol is deepest -----

  // A symbol of size h in a tree of count v, against the pseudo-symbol of size deepest in a tree
  // of count t: what keeps the two from changing places. Ties go to the tree of the pseudo-symbol
  // as long as it bears its name.
  predicate Above(v: nat, t: nat, named: bool, h: nat, deepest: nat) {
    && 2 * v >= t && h <= deepest
    && (v < t ==> h + 1 <= deepest)
    && (!named ==> (v == t ==> h + 1 <= deepest) && (2 * v == t ==> h + 2 <= deepest))
  }

  ghost predicate Deepest(freq: seq<nat>, owner: seq<int>, sizes: seq<nat>) {
    && Alive(freq, owner, sizes) && owner[256] >= 0
    && var tree := owner[256];
      forall s :: 0 <= s < SYMBOLS && owner[s] >= 0 ==>
        if owner[s] == tree then sizes[s] <= sizes[256]
        else Above(freq[owner[s]], freq[tree], tree == 256, sizes[s], sizes[256])
  }

  // The choice of the two trees.
  ghost predicate Chosen(freq: seq<nat>, c1: int, c2: int) {
    0 <= c1 < |freq| && 0 <= c2 < |freq| && c1 == Smallest(freq, -1, |freq|) && c2 == Smallest(freq, c1, |freq|)
  }

  lemma ChosenFirst(freq: seq<nat>, c1: int, c2: int, tree: nat)
    requires Chosen(freq, c1, c2) && tree < |freq| && freq[tree] > 0
    ensures AreLeast(freq, c1, c2)
    ensures freq[c1] <= freq[c2] && (tree != c1 ==> freq[c2] <= freq[tree])
    ensures tree == |freq| - 1 && tree != c1 ==> freq[c1] < freq[tree]
    ensures tree == |freq| - 1 && tree != c1 && tree != c2 ==> freq[c2] < freq[tree]
  {
    SmallestIs(freq, -1, |freq|);
    SmallestIs(freq, c1, |freq|);
  }

  lemma DeepestStep(freq: seq<nat>, owner: seq<int>, sizes: seq<nat>, c1: nat, c2: nat)
    requires Deepest(freq, owner, sizes) && Chosen(freq, c1, c2)
    ensures Deepest(MergedCounts(freq, c1, c2), Join(owner, c1, c2), Deeper(sizes, owner, c1, c2))
  {
    hide Smallest;
    var tree := owner[256];
    ChosenFirst(freq, c1, c2, tree);
    AliveStep(freq, owner, sizes, c1, c2);
    var f, o, z := MergedCounts(freq, c1, c2), Join(owner, c1, c2), Deeper(sizes, owner, c1, c2);
    forall s | 0 <= s < SYMBOLS && o[s] >= 0
      ensures if o[s] == o[256] then z[s] <= z[256] else Above(f[o[s]], f[o[256]], o[256] == 256, z[s], z[256])
    {
      TreeIs(freq, owner, sizes, s);
      StepAbove(freq, owner, sizes, c1, c2, s);
    }
  }

  lemma TreeIs(freq: seq<nat>, owner: seq<int>, sizes: seq<nat>, s: nat)
    requires Alive(freq, owner, sizes) && s < SYMBOLS && owner[s] >= 0
    ensures owner[s] < SYMBOLS && freq[owner[s]] > 0 && owner[owner[s]] == owner[s]
  {
  }

  lemma StepAbove(freq: seq<nat>, owner: seq<int>, sizes: seq<nat>, c1: nat, c2: nat, s: nat)
    requires Deepest(freq, owner, sizes) && Chosen(freq, c1, c2) && s < SYMBOLS && owner[s] >= 0
    ensures var f, o, z := MergedCounts(freq, c1, c2), Join(owner, c1, c2), Deeper(sizes, owner, c1, c2);
      && 0 <= o[256] < SYMBOLS && 0 <= o[s] < SYMBOLS
      && if o[s] == o[256] then z[s] <= z[256] else Above(f[o[s]], f[o[256]], o[256] == 256, z[s], z[256])
  {
    hide Smallest;
    var tree := owner[256];
    ChosenFirst(freq, c1, c2, tree);
    assert c1 == 256 ==> owner[256] == 256;
    var v := freq[owner[s]];
    assert owner[s] != c1 && owner[s] != c2 ==> freq[c2] <= v;
  }

  lemma {:induction false} DeepestEnds(freq: seq<nat>, owner: seq<int>, sizes: seq<nat>)
    requires Deepest(freq, owner, sizes)
    ensures |CodeSizes(freq, owner, sizes)| == SYMBOLS
    ensures forall s :: 0 <= s < SYMBOLS && owner[s] >= 0 ==>
      CodeSizes(freq, owner, sizes)[s] <= CodeSizes(freq, owner, sizes)[256]
    decreases |Counts(freq, |freq|)|
  {
    hide Smallest, Counts, Above;
    var c1 := Smallest(freq, -1, |freq|);
    var c2 := Smallest(freq, c1, |freq|);
    if c2 < 0 {
      SmallestIs(freq, c1, |freq|);
    } else {
      ChosenAreLeast(freq);
      MergeShrinks(freq, c1, c2);
      DeepestStep(freq, owner, sizes, c1, c2);
      DeepestEnds(MergedCounts(freq, c1, c2), Join(owner, c1, c2), Deeper(sizes, owner, c1, c2));
    }
  }

  // No code is longer than that of the pseudo-symbol, which is the least of all with its count of
  // one and its large number.
  lemma PseudoIsDeepest(w: seq<nat>)
    requires |w| == SYMBOLS && w[256] == 1
    ensures |HuffmanSizes(w)| == SYMBOLS
    ensures forall s :: 0 <= s < SYMBOLS && w[s] > 0 ==> HuffmanSizes(w)[s] <= HuffmanSizes(w)[256]
  {
    hide CodeSizes;
    AliveAtStart(w);
    DeepestEnds(w, Seedling(w).owner, NoCounts(SYMBOLS));
  }

  // ----- Deep trees are heavy -----

  function Fib(n: nat): (f: nat)
    ensures n > 0 ==> f > 0
  {
    if n < 2 then n else Fib(n - 1) + Fib(n - 2)
  }

  // A symbol of size h: its own tree weighs at least as much as a Fibonacci tree of that depth, any
  // other tree as much as what a Fibonacci tree would be merged with next.
  ghost predicate Heavy(freq: seq<nat>, owner: seq<int>, sizes: seq<nat>) {
    && Alive(freq, owner, sizes)
    && forall s :: 0 <= s < SYMBOLS && owner[s] >= 0 ==>
      && freq[owner[s]] >= Fib(sizes[s] + 2)
      && AllAtLeast(freq, Fib(sizes[s] + 1))
  }

  ghost predicate AllAtLeast(freq: seq<nat>, v: nat) {
    forall c :: 0 <= c < |freq| && freq[c] > 0 ==> freq[c] >= v
  }

  lemma HeavyStep(freq: seq<nat>, owner: seq<int>, sizes: seq<nat>, c1: nat, c2: nat)
    requires Heavy(freq, owner, sizes) && c1 < SYMBOLS && c2 < SYMBOLS && AreLeast(freq, c1, c2)
    ensures Heavy(MergedCounts(freq, c1, c2), Join(owner, c1, c2), Deeper(sizes, owner, c1, c2))
  {
    hide Alive, Fib, AllAtLeast, MergedCounts, Join, Deeper, AreLeast, Heavy;
    HeavyNow(freq, owner, sizes);
    AliveStep(freq, owner, sizes, c1, c2);
    LeastAre(freq, c1, c2);
    var f, o, z := MergedCounts(freq, c1, c2), Join(owner, c1, c2), Deeper(sizes, owner, c1, c2);
    forall s | 0 <= s < SYMBOLS && o[s] >= 0
      ensures o[s] < SYMBOLS && f[o[s]] >= Fib(z[s] + 2) && AllAtLeast(f, Fib(z[s] + 1))
    {
      JoinIs(sizes, owner, c1, c2, s);
      HeavyAt(freq, owner, sizes, s);
      StepHeavy(freq, c1, c2, owner[s], sizes[s]);
    }
    HeavyFrom(f, o, z);
  }

  lemma LeastAre(freq: seq<nat>, c1: nat, c2: nat)
    requires c1 < |freq| && c2 < |freq| && AreLeast(freq, c1, c2)
    ensures c1 != c2 && freq[c1] > 0 && freq[c2] > 0
  {
  }

  lemma HeavyAt(freq: seq<nat>, owner: seq<int>, sizes: seq<nat>, s: nat)
    requires Heavy(freq, owner, sizes) && s < SYMBOLS
    ensures |freq| == |owner| == |sizes| == SYMBOLS
    ensures owner[s] >= 0 ==>
      && owner[s] < SYMBOLS && freq[owner[s]] > 0
      && freq[owner[s]] >= Fib(sizes[s] + 2) && AllAtLeast(freq, Fib(sizes[s] + 1))
  {
  }

  lemma HeavyFrom(f: seq<nat>, o: seq<int>, z: seq<nat>)
    requires Alive(f, o, z) && |f| == |o| == |z| == SYMBOLS
    requires forall s :: 0 <= s < SYMBOLS && o[s] >= 0 ==>
      o[s] < SYMBOLS && f[o[s]] >= Fib(z[s] + 2) && AllAtLeast(f, Fib(z[s] + 1))
    ensures Heavy(f, o, z)
  {
    hide Fib, AllAtLeast, Alive;
  }

  lemma JoinIs(sizes: seq<nat>, owner: seq<int>, c1: nat, c2: nat, s: nat)
    requires s < |owner| == |sizes|
    ensures Join(owner, c1, c2)[s] == if owner[s] == c2 then c1 else owner[s]
    ensures Deeper(sizes, owner, c1, c2)[s] == sizes[s] + if owner[s] == c1 || owner[s] == c2 then 1 else 0
  {
  }

  // One symbol of size h in tree c.
  lemma StepHeavy(freq: seq<nat>, c1: nat, c2: nat, c: nat, h: nat)
    requires c1 < |freq| && c2 < |freq| && c < |freq| && AreLeast(freq, c1, c2) && freq[c] > 0
    requires freq[c] >= Fib(h + 2) && AllAtLeast(freq, Fib(h + 1))
    ensures var f := MergedCounts(freq, c1, c2);
      if c == c1 || c == c2 then f[c1] >= Fib(h + 3) && AllAtLeast(f, Fib(h + 2))
      else f[c] >= Fib(h + 2) && AllAtLeast(f, Fib(h + 1))
  {
    hide Fib;
    FibNext(h + 1);
  }

  lemma FibNext(n: nat)
    ensures Fib(n + 2) == Fib(n + 1) + Fib(n)
  {
  }

  lemma {:induction false} TotalKept(freq: seq<nat>, c1: nat, c2: nat, n: nat)
    requires c1 < |freq| && c2 < |freq| && c1 != c2 && n <= |freq|
    ensures Total(MergedCounts(freq, c1, c2), n) + (if c1 < n then freq[c1] else 0) + (if c2 < n then freq[c2] else 0)
         == Total(freq, n) + (if c1 < n then freq[c1] + freq[c2] else 0)
  {
    if n > 0 {
      TotalKept(freq, c1, c2, n - 1);
    }
  }

  lemma {:induction false} PartOfTotal(freq: seq<nat>, c: nat, n: nat)
    requires c < n <= |freq|
    ensures freq[c] <= Total(freq, n)
  {
    if c < n - 1 {
      PartOfTotal(freq, c, n - 1);
    }
  }

  lemma HeavyNow(freq: seq<nat>, owner: seq<int>, sizes: seq<nat>)
    requires Heavy(freq, owner, sizes)
    ensures |freq| == |owner| == |sizes| == SYMBOLS && Alive(freq, owner, sizes)
    ensures forall s :: 0 <= s < SYMBOLS && owner[s] >= 0 ==> Fib(sizes[s] + 2) <= Total(freq, SYMBOLS)
    ensures forall s :: 0 <= s < SYMBOLS && owner[s] >= 0 ==> owner[s] < SYMBOLS && freq[owner[s]] > 0
  {
    hide Fib, Total;
    forall s | 0 <= s < SYMBOLS && owner[s] >= 0
      ensures Fib(sizes[s] + 2) <= Total(freq, SYMBOLS)
    {
      PartOfTotal(freq, owner[s], SYMBOLS);
    }
  }

  lemma {:induction false} HeavyEnds(freq: seq<nat>, owner: seq<int>, sizes: seq<nat>)
    requires Heavy(freq, owner, sizes) && |freq| == |owner| == |sizes| == SYMBOLS
    ensures |CodeSizes(freq, owner, sizes)| == SYMBOLS
    ensures forall s :: 0 <= s < SYMBOLS && owner[s] >= 0 ==>
      Fib(CodeSizes(freq, owner, sizes)[s] + 2) <= Total(freq, SYMBOLS)
    decreases |Counts(freq, |freq|)|
  {
    hide Smallest, Counts, Fib, Total, Heavy, Alive;
    HeavyNow(freq, owner, sizes);
    var c1 := Smallest(freq, -1, |freq|);
    var c2 := Smallest(freq, c1, |freq|);
    if c2 >= 0 {
      ChosenAreLeast(freq);
      MergeShrinks(freq, c1, c2);
      HeavyStep(freq, owner, sizes, c1, c2);
      TotalKept(freq, c1, c2, SYMBOLS);
      HeavyEnds(MergedCounts(freq, c1, c2), Join(owner, c1, c2), Deeper(sizes, owner, c1, c2));
    }
  }

  // A code of length l takes counts that sum up to at least the Fibonacci number of l + 2.
  lemma {:induction false} DeepIsHeavy(w: seq<nat>, s: nat)
    requires |w| == SYMBOLS && s < SYMBOLS && w[s] > 0
    ensures |HuffmanSizes(w)| == SYMBOLS && Fib(HuffmanSizes(w)[s] + 2) <= Total(w, SYMBOLS)
  {
    hide CodeSizes, Total;
    AliveAtStart(w);
    assert Fib(2) == 1 && Fib(1) == 1;
    HeavyEnds(w, Seedling(w).owner, NoCounts(SYMBOLS));
  }

  lemma {:induction false} FibGrows(a: nat, b: nat)
    requires a <= b
    ensures Fib(a) <= Fib(b)
  {
    if a < b {
      FibGrows(a, b - 1);
      if b == 1 {
        assert a == 0;
      }
    }
  }

  lemma Fib35()
    ensures Fib(31) == 1346269 && Fib(33) == 3524578 && Fib(35) == 9227465
  {
    assert Fib(5) == 5 && Fib(6) == 8;
    assert Fib(7) == 13 && Fib(8) == 21;
    assert Fib(9) == 34 && Fib(10) == 55;
    assert Fib(11) == 89 && Fib(12) == 144;
    assert Fib(13) == 233 && Fib(14) == 377;
    assert Fib(15) == 610 && Fib(16) == 987;
    assert Fib(17) == 1597 && Fib(18) == 2584;
    assert Fib(19) == 4181 && Fib(20) == 6765;
    assert Fib(21) == 10946 && Fib(22) == 17711;
    assert Fib(23) == 28657 && Fib(24) == 46368;
    assert Fib(25) == 75025 && Fib(26) == 121393;
    assert Fib(27) == 196418 && Fib(28) == 317811;
    assert Fib(29) == 514229 && Fib(30) == 832040;
    assert Fib(31) == 1346269 && Fib(32) == 2178309;
    assert Fib(33) == 3524578 && Fib(34) == 5702887;
  }

  // The code length overflow, on which the procedure gives up.
  ghost predicate Overflows(w: seq<nat>) {
    exists s :: 0 <= s < |w| && HuffmanSizes(w)[s] > MAX_CLEN
  }

  lemma {:induction false} OwnerlessStay(freq: seq<nat>, owner: seq<int>, sizes: seq<nat>)
    requires |freq| == |owner| == |sizes|
    ensures |CodeSizes(freq, owner, sizes)| == |owner|
    ensures forall s :: 0 <= s < |owner| && owner[s] < 0 ==> CodeSizes(freq, owner, sizes)[s] == sizes[s]
    decreases |Counts(freq, |freq|)|
  {
    hide Smallest, Counts;
    var c1 := Smallest(freq, -1, |freq|);
    var c2 := Smallest(freq, c1, |freq|);
    if c2 >= 0 {
      ChosenAreLeast(freq);
      MergeShrinks(freq, c1, c2);
      OwnerlessStay(MergedCounts(freq, c1, c2), Join(owner, c1, c2), Deeper(sizes, owner, c1, c2));
    }
  }

  // A symbol that is not counted has no code.
  lemma {:induction false} UnusedHaveNone(w: seq<nat>)
    ensures forall s :: 0 <= s < |w| && w[s] == 0 ==> HuffmanSizes(w)[s] == 0
  {
    hide CodeSizes;
    OwnerlessStay(w, Seedling(w).owner, NoCounts(|w|));
  }

  // Counts whose sum is below the 35th Fibonacci number cannot overflow.
  lemma {:induction false} LightFits(w: seq<nat>)
    requires |w| == SYMBOLS && Total(w, SYMBOLS) < 9227465
    ensures !Overflows(w)
  {
    UnusedHaveNone(w);
    hide HuffmanSizes, Total, Fib;
    forall s | 0 <= s < SYMBOLS && w[s] > 0
      ensures HuffmanSizes(w)[s] <= MAX_CLEN
    {
      DeepIsHeavy(w, s);
      if HuffmanSizes(w)[s] > MAX_CLEN {
        FibGrows(35, HuffmanSizes(w)[s] + 2);
        Fib35();
      }
    }
  }

  // ----- Few symbols make no deep tree -----

  function UnitWeights(n: nat): (r: seq<nat>)
    ensures |r| == n && forall i :: 0 <= i < n ==> r[i] == 1
  {
    seq(n, _ => 1)
  }

  // How many symbols are in trees at all.
  function Population(owner: seq<int>, n: nat): nat
    requires n <= |owner|
  {
    if n == 0 then 0 else Population(owner, n - 1) + (if owner[n - 1] >= 0 then 1 else 0)
  }

  lemma {:induction false} OwnedJoin(owner: seq<int>, c1: nat, c2: nat, n: nat)
    requires n <= |owner|
    ensures Population(Join(owner, c1, c2), n) == Population(owner, n)
  {
    if n > 0 {
      OwnedJoin(owner, c1, c2, n - 1);
    }
  }

  lemma {:induction false} SumIsOwned(owner: seq<int>, c: nat, vals: seq<nat>, n: nat)
    requires n <= |owner| == |vals| && vals == UnitWeights(|vals|)
    ensures Sum(owner, c, vals, n) <= Population(owner, n)
  {
    if n > 0 {
      SumIsOwned(owner, c, vals, n - 1);
    }
  }

  lemma {:induction false} SumHasOne(owner: seq<int>, c: nat, vals: seq<nat>, n: nat)
    requires c < n <= |owner| == |vals| && vals == UnitWeights(|vals|) && owner[c] == c
    ensures Sum(owner, c, vals, n) > 0
  {
    if c < n - 1 {
      SumHasOne(owner, c, vals, n - 1);
    }
  }

  // A symbol is no deeper than its tree has other symbols.
  ghost predicate Roomy(freq: seq<nat>, owner: seq<int>, sizes: seq<nat>) {
    && Alive(freq, owner, sizes)
    && forall s :: 0 <= s < SYMBOLS && owner[s] >= 0 ==> sizes[s] < Sum(owner, owner[s], UnitWeights(SYMBOLS), SYMBOLS)
  }

  lemma RoomyStep(freq: seq<nat>, owner: seq<int>, sizes: seq<nat>, c1: nat, c2: nat)
    requires Roomy(freq, owner, sizes) && c1 < SYMBOLS && c2 < SYMBOLS && AreLeast(freq, c1, c2)
    ensures Roomy(MergedCounts(freq, c1, c2), Join(owner, c1, c2), Deeper(sizes, owner, c1, c2))
  {
    AliveStep(freq, owner, sizes, c1, c2);
    hide Sum, UnitWeights;
    var o, ones := Join(owner, c1, c2), UnitWeights(SYMBOLS);
    SumHasOne(owner, c1, ones, SYMBOLS);
    SumHasOne(owner, c2, ones, SYMBOLS);
    forall s | 0 <= s < SYMBOLS && o[s] >= 0
      ensures Deeper(sizes, owner, c1, c2)[s] < Sum(o, o[s], ones, SYMBOLS)
    {
      SumJoins(owner, c1, c2, owner[s], ones, SYMBOLS);
    }
  }

  lemma {:induction false} RoomyEnds(freq: seq<nat>, owner: seq<int>, sizes: seq<nat>)
    requires Roomy(freq, owner, sizes) && |freq| == |owner| == |sizes| == SYMBOLS
    ensures |CodeSizes(freq, owner, sizes)| == SYMBOLS
    ensures forall s :: 0 <= s < SYMBOLS && owner[s] >= 0 ==> CodeSizes(freq, owner, sizes)[s] < Population(owner, SYMBOLS)
    decreases |Counts(freq, |freq|)|
  {
    hide Smallest, Counts, Roomy, Alive, Population;
    RoomyNow(freq, owner, sizes);
    var c1 := Smallest(freq, -1, |freq|);
    var c2 := Smallest(freq, c1, |freq|);
    if c2 >= 0 {
      ChosenAreLeast(freq);
      MergeShrinks(freq, c1, c2);
      RoomyStep(freq, owner, sizes, c1, c2);
      OwnedJoin(owner, c1, c2, SYMBOLS);
      RoomyEnds(MergedCounts(freq, c1, c2), Join(owner, c1, c2), Deeper(sizes, owner, c1, c2));
    }
  }

  lemma RoomyNow(freq: seq<nat>, owner: seq<int>, sizes: seq<nat>)
    requires Roomy(freq, owner, sizes)
    ensures |freq| == |owner| == |sizes| == SYMBOLS
    ensures forall s :: 0 <= s < SYMBOLS && owner[s] >= 0 ==> sizes[s] < Population(owner, SYMBOLS)
  {
    hide Population, Sum;
    forall s | 0 <= s < SYMBOLS && owner[s] >= 0
      ensures sizes[s] < Population(owner, SYMBOLS)
    {
      SumIsOwned(owner, owner[s], UnitWeights(SYMBOLS), SYMBOLS);
    }
  }

  lemma {:induction false} SeedlingOwned(w: seq<nat>, n: nat)
    requires n <= |w|
    ensures Population(Seedling(w).owner, n) == |Used(w, w, n)|
  {
    if n > 0 {
      SeedlingOwned(w, n - 1);
    }
  }

  // Codes are shorter than there are symbols, so few symbols cannot overflow.
  lemma {:induction false} FewSymbolsFit(w: seq<nat>)
    requires |w| == SYMBOLS && |Used(w, w, SYMBOLS)| <= MAX_CLEN + 1
    ensures !Overflows(w)
  {
    UnusedHaveNone(w);
    hide CodeSizes, Sum, Used, Population;
    AliveAtStart(w);
    forall s | 0 <= s < SYMBOLS && w[s] > 0
      ensures NoCounts(SYMBOLS)[s] < Sum(Seedling(w).owner, s, UnitWeights(SYMBOLS), SYMBOLS)
    {
      SumHasOne(Seedling(w).owner, s, UnitWeights(SYMBOLS), SYMBOLS);
    }
    RoomyEnds(w, Seedling(w).owner, NoCounts(SYMBOLS));
    SeedlingOwned(w, SYMBOLS);
  }

  // ----- The lightest counts that overflow -----

  // 33 symbols of AC coefficients, in increasing order: end of block, then runs of up to three
  // zeros before values of up to ten bits.
  function Label(i: nat): (s: nat)
    requires i <= 32
    ensures s < 64
  {
    if i == 0 then 0 else 16 * ((i - 1) / 10) + (i - 1) % 10 + 1
  }

  // Their places in that order; 33 for all other symbols.
  function IndexOf(s: nat): (i: nat)
    ensures i <= 33
  {
    if s == 0 then 0
    else if 1 <= s % 16 <= 10 && 10 * (s / 16) + s % 16 <= 32 then 10 * (s / 16) + s % 16
    else 33
  }

  lemma LabelIs(i: nat)
    requires i <= 32
    ensures IndexOf(Label(i)) == i
  {
    if i > 0 {
      var r, n := (i - 1) / 10, (i - 1) % 10 + 1;
      assert Label(i) == 16 * r + n && n <= 10;
      assert Label(i) / 16 == r && Label(i) % 16 == n;
    }
  }

  lemma IndexIs(s: nat)
    ensures IndexOf(s) <= 32 ==> Label(IndexOf(s)) == s
  {
    if 0 < IndexOf(s) <= 32 {
      var r, n := s / 16, s % 16;
      assert (10 * r + n - 1) / 10 == r && (10 * r + n - 1) % 10 == n - 1;
    }
  }

  lemma IndexOrder(s: nat, t: nat)
    requires IndexOf(s) <= IndexOf(t) <= 32
    ensures s <= t
  {
  }

  // Fibonacci numbers as counts of these symbols, the larger counts at the smaller symbols.
  function FibonacciCounts(): (w: seq<nat>)
    ensures |w| == SYMBOLS
  {
    seq(SYMBOLS, s requires 0 <= s < SYMBOLS =>
      if s == 256 then 1 else if IndexOf(s) <= 32 then Fib(33 - IndexOf(s)) else 0)
  }

  // The name of the pseudo-symbol's tree after k merges.
  function NameAfter(k: nat): nat
    requires k <= 33
  {
    if k <= 1 then 256 else Label(33 - k)
  }

  // After k merges: the pseudo-symbol with the k smallest counts in one tree, and the symbols of
  // larger counts as they were.
  ghost predicate Merged33(k: nat, freq: seq<nat>, owner: seq<int>, sizes: seq<nat>) {
    && k <= 33 && |freq| == |owner| == |sizes| == SYMBOLS
    && (forall s :: 0 <= s < SYMBOLS ==>
        freq[s] == if s == NameAfter(k) then Fib(k + 2) else LeftAfter(k, s))
    && owner[256] == NameAfter(k) && sizes[256] == k
  }

  function LeftAfter(k: nat, s: nat): nat {
    if IndexOf(s) + k <= 32 then Fib(33 - IndexOf(s)) else 0
  }

  lemma SmallestIsThis(freq: seq<nat>, except: int, c: nat)
    requires c < |freq| && c != except && freq[c] > 0
    requires forall i :: 0 <= i < |freq| && i != except && freq[i] > 0 ==>
      freq[c] <= freq[i] && (freq[c] == freq[i] ==> i <= c)
    ensures Smallest(freq, except, |freq|) == c
  {
    SmallestIs(freq, except, |freq|);
  }

  lemma FibBelow(k: nat, i: nat)
    requires i + k <= 32
    ensures Fib(k + 1) <= Fib(33 - i) && (i + k < 32 ==> Fib(k + 2) <= Fib(33 - i))
    ensures i + k < 32 && k > 0 ==> Fib(k + 1) < Fib(33 - i)
  {
    FibGrows(k + 1, 33 - i);
    if i + k < 32 {
      FibGrows(k + 2, 33 - i);
      FibNext(k);
    }
  }

  lemma NamesApart(k: nat)
    requires k < 33
    ensures NameAfter(k) != Label(32 - k) && NameAfter(k) < SYMBOLS && IndexOf(256) == 33
    ensures IndexOf(NameAfter(k)) == if k <= 1 then 33 else 33 - k
    ensures IndexOf(Label(32 - k)) == 32 - k
  {
    LabelIs(32 - k);
    if k > 1 {
      LabelIs(33 - k);
    }
  }

  // What is left is at least the next count, and but for the next symbol at least what the tree
  // weighs.
  lemma LeftIsLarge(k: nat, s: nat)
    requires k < 33
    ensures LeftAfter(k, s) > 0 ==>
      && LeftAfter(k, s) >= Fib(k + 1)
      && (s != Label(32 - k) ==> LeftAfter(k, s) >= Fib(k + 2) && (k > 0 ==> LeftAfter(k, s) > Fib(k + 1)))
      && s <= Label(32 - k)
  {
    hide Fib;
    if IndexOf(s) + k <= 32 {
      FibBelow(k, IndexOf(s));
      IndexIs(s);
      LabelIs(32 - k);
      IndexOrder(s, Label(32 - k));
    }
  }

  // The tree and the next symbol are the two least, and the tree wins the tie against the symbol
  // after that.
  lemma NextChosen(k: nat, freq: seq<nat>, owner: seq<int>, sizes: seq<nat>) returns (c1: nat, c2: nat)
    requires Merged33(k, freq, owner, sizes) && k < 33
    ensures c1 == (if k == 0 then 256 else Label(32 - k)) && c2 == if k == 0 then Label(32) else NameAfter(k)
    ensures c1 == Smallest(freq, -1, SYMBOLS) && c2 == Smallest(freq, c1, SYMBOLS)
  {
    hide Smallest, Fib, Label, IndexOf, LeftAfter, NameAfter;
    NamesApart(k);
    NamesOrder(k);
    LeftIs(k);
    FirstFib();
    FibGrows(k + 1, k + 2);
    forall s | 0 <= s < SYMBOLS && freq[s] > 0
      ensures s != NameAfter(k) ==>
        && freq[s] >= Fib(k + 1) && s <= Label(32 - k)
        && (s != Label(32 - k) ==> freq[s] >= Fib(k + 2) && (k > 0 ==> freq[s] > Fib(k + 1)))
    {
      LeftIsLarge(k, s);
    }
    c1, c2 := if k == 0 then 256 else Label(32 - k), if k == 0 then Label(32) else NameAfter(k);
    FibNext(k);
    SmallestIsThis(freq, -1, c1);
    SmallestIsThis(freq, c1, c2);
  }

  lemma NamesOrder(k: nat)
    requires k < 33
    ensures Label(32 - k) < NameAfter(k) && (k == 0 ==> NameAfter(k) == 256)
  {
    LabelIs(32 - k);
    if k > 1 {
      LabelIs(33 - k);
      IndexOrder(Label(32 - k), Label(33 - k));
    }
  }

  lemma LeftIs(k: nat)
    requires k < 33
    ensures LeftAfter(k, Label(32 - k)) == Fib(k + 1)
  {
    LabelIs(32 - k);
  }

  // Once merged, the next symbol is no longer left.
  lemma LeftNext(k: nat, s: nat)
    requires k < 33
    ensures s != Label(32 - k) ==> LeftAfter(k + 1, s) == LeftAfter(k, s)
    ensures LeftAfter(k + 1, Label(32 - k)) == 0
  {
    hide Fib;
    LabelIs(32 - k);
    IndexIs(s);
  }

  lemma NextFibonacci(k: nat, freq: seq<nat>, owner: seq<int>, sizes: seq<nat>) returns (c1: nat, c2: nat)
    requires Merged33(k, freq, owner, sizes) && k < 33
    ensures c1 < SYMBOLS && c2 < SYMBOLS && c1 != c2
    ensures c1 == Smallest(freq, -1, SYMBOLS) && c2 == Smallest(freq, c1, SYMBOLS)
    ensures Merged33(k + 1, MergedCounts(freq, c1, c2), Join(owner, c1, c2), Deeper(sizes, owner, c1, c2))
  {
    c1, c2 := NextChosen(k, freq, owner, sizes);
    hide Smallest, Fib, Label, IndexOf, LeftAfter;
    FirstFib();
    NamesApart(k);
    LeftIs(k);
    FibNext(k + 1);
    var f := MergedCounts(freq, c1, c2);
    forall s | 0 <= s < SYMBOLS
      ensures f[s] == if s == NameAfter(k + 1) then Fib(k + 3) else LeftAfter(k + 1, s)
    {
      LeftNext(k, s);
      TreeNotLeft(k + 1);
    }
  }

  // The tree has a symbol that is no longer left.
  lemma TreeNotLeft(k: nat)
    requires k <= 33
    ensures LeftAfter(k, 256) == 0 && (k > 0 ==> LeftAfter(k, NameAfter(k)) == 0 && LeftAfter(k, NameAfter(k - 1)) == 0)
  {
    hide Fib;
    if k > 1 {
      LabelIs(33 - k);
    }
    if k > 2 {
      LabelIs(34 - k);
    }
  }

  lemma FirstFib()
    ensures Fib(1) == 1 && Fib(2) == 1
  {
  }

  // Merging to the end makes the pseudo-symbol's code 33 bits long; the total stays the same, and
  // in the end it is the count of one tree.
  lemma {:induction false} FibonacciDepth(k: nat, freq: seq<nat>, owner: seq<int>, sizes: seq<nat>)
    requires Merged33(k, freq, owner, sizes)
    ensures |CodeSizes(freq, owner, sizes)| == SYMBOLS && CodeSizes(freq, owner, sizes)[256] == 33
    ensures Total(freq, SYMBOLS) == Fib(35)
    decreases 33 - k
  {
    hide Smallest, Fib, Counts, Total;
    if k < 33 {
      var c1, c2 := NextFibonacci(k, freq, owner, sizes);
      TotalKept(freq, c1, c2, SYMBOLS);
      hide Merged33;
      FibonacciDepth(k + 1, MergedCounts(freq, c1, c2), Join(owner, c1, c2), Deeper(sizes, owner, c1, c2));
    } else {
      assert NameAfter(33) == 0;
      SmallestIs(freq, -1, SYMBOLS);
      SmallestIs(freq, Smallest(freq, -1, SYMBOLS), SYMBOLS);
      OneTotal(freq, 0, SYMBOLS);
    }
  }

  lemma {:induction false} OneTotal(freq: seq<nat>, c: nat, n: nat)
    requires n <= |freq| && forall s :: 0 <= s < n && s != c ==> freq[s] == 0
    ensures Total(freq, n) == if c < n then freq[c] else 0
  {
    if n > 0 {
      OneTotal(freq, c, n - 1);
    }
  }

  // The bound is sharp: there are counts with just that sum that overflow.
  lemma {:induction false} FibonacciOverflows()
    ensures var w := FibonacciCounts();
      w[256] == 1 && Total(w, SYMBOLS) == 9227465 && Overflows(w)
  {
    var w := FibonacciCounts();
    hide Fib, CodeSizes, Total;
    FirstFib();
    Fib35();
    assert Fib(2) == 1 && Merged33(0, w, Seedling(w).owner, NoCounts(SYMBOLS));
    hide FibonacciCounts, Merged33;
    FibonacciDepth(0, w, Seedling(w).owner, NoCounts(SYMBOLS));
    assert HuffmanSizes(w)[256] == 33;
  }
}
