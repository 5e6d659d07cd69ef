// Huffman's procedure as jpeg_gen_optimal_table of libs/jpeg/jchuff.c runs it: trees merged
// in place in the arrays freq, codesize and others. The code sizes it leaves satisfy Kraft's
// inequality with equality and cost the least of all.
module HuffmanMerge {
  import opened Powers
  import opened HuffmanCost

  const SYMBOLS := 257          // with the pseudo-symbol 256
  const SENTINEL := 1000000000  // larger than any count

  // ----- Sums over the symbols below n -----

  // The values of the symbols owned by c.
  function Sum(owner: seq<int>, c: int, vals: seq<nat>, n: nat): nat
    requires n <= |owner| && n <= |vals|
  {
    if n == 0 then 0 else Sum(owner, c, vals, n - 1) + (if owner[n - 1] == c then vals[n - 1] else 0)
  }

  function Total(vals: seq<nat>, n: nat): nat
    requires n <= |vals|
  {
    if n == 0 then 0 else Total(vals, n - 1) + vals[n - 1]
  }

  lemma {:induction false} NoTotal(counts: seq<nat>, n: nat)
    requires n <= |counts| && forall s :: 0 <= s < n ==> counts[s] == 0
    ensures Total(counts, n) == 0
  {
    if n > 0 {
      NoTotal(counts, n - 1);
    }
  }

  // Kraft's sum, in units of 2^-m, over the symbols owned by c.
  function Share(owner: seq<int>, c: int, sizes: seq<nat>, m: nat, n: nat): nat
    requires n <= |owner| && n <= |sizes| && Below(sizes, m)
  {
    if n == 0 then 0
    else Share(owner, c, sizes, m, n - 1) + (if owner[n - 1] == c then Pow2(m - sizes[n - 1]) else 0)
  }

  function Cost(w: seq<nat>, sizes: seq<nat>, n: nat): nat
    requires n <= |w| && n <= |sizes|
  {
    if n == 0 then 0 else Cost(w, sizes, n - 1) + Times(w[n - 1], sizes[n - 1])
  }

  // The values of the symbols in use, that is of nonzero weight.
  function Used(w: seq<nat>, vals: seq<nat>, n: nat): (r: seq<nat>)
    requires n <= |w| && n <= |vals|
  {
    if n == 0 then [] else Used(w, vals, n - 1) + (if w[n - 1] > 0 then [vals[n - 1]] else [])
  }

  function One(v: nat): multiset<nat> {
    if v > 0 then multiset{v} else multiset{}
  }

  // The nonzero counts.
  function Counts(f: seq<nat>, n: nat): multiset<nat>
    requires n <= |f|
  {
    if n == 0 then multiset{} else Counts(f, n - 1) + One(f[n - 1])
  }

  lemma UsedNext(f: seq<nat>, n: nat)
    requires n <= |f|
    ensures n == 0 ==> multiset(Used(f, f, n)) == Counts(f, n)
    ensures n > 0 && multiset(Used(f, f, n - 1)) == Counts(f, n - 1) ==> multiset(Used(f, f, n)) == Counts(f, n)
  {
  }

  lemma {:induction false} CountsAreUsed(f: seq<nat>, n: nat)
    requires n <= |f|
    ensures multiset(Used(f, f, n)) == Counts(f, n)
  {
    hide Used, Counts;
    UsedNext(f, n);
    if n > 0 {
      CountsAreUsed(f, n - 1);
    }
  }

  lemma {:induction false} SumBelowTotal(owner: seq<int>, c: int, vals: seq<nat>, n: nat)
    requires n <= |owner| && n <= |vals|
    ensures Sum(owner, c, vals, n) <= Total(vals, n)
  {
    if n > 0 {
      SumBelowTotal(owner, c, vals, n - 1);
    }
  }

  // ----- Two trees become one -----

  function Join(owner: seq<int>, c1: int, c2: int): (r: seq<int>)
    ensures |r| == |owner|
  {
    seq(|owner|, s requires 0 <= s < |owner| => if owner[s] == c2 then c1 else owner[s])
  }

  // One level down for every symbol of the two trees.
  function Deeper(sizes: seq<nat>, owner: seq<int>, c1: int, c2: int): (r: seq<nat>)
    requires |sizes| == |owner|
    ensures |r| == |sizes|
  {
    seq(|sizes|, s requires 0 <= s < |sizes| => sizes[s] + if owner[s] == c1 || owner[s] == c2 then 1 else 0)
  }

  lemma {:induction false} SumJoins(owner: seq<int>, c1: int, c2: int, c: int, vals: seq<nat>, n: nat)
    requires n <= |owner| && n <= |vals| && c1 != c2
    ensures Sum(Join(owner, c1, c2), c1, vals, n) == Sum(owner, c1, vals, n) + Sum(owner, c2, vals, n)
    ensures c != c1 && c != c2 ==> Sum(Join(owner, c1, c2), c, vals, n) == Sum(owner, c, vals, n)
  {
    if n > 0 {
      SumJoins(owner, c1, c2, c, vals, n - 1);
    }
  }

  lemma {:induction false} ShareHalves(owner: seq<int>, c1: int, c2: int, c: int, sizes: seq<nat>, m: nat, n: nat)
    requires n <= |owner| == |sizes| && c1 != c2
    requires Below(sizes, m) && Below(Deeper(sizes, owner, c1, c2), m)
    ensures 2 * Share(Join(owner, c1, c2), c1, Deeper(sizes, owner, c1, c2), m, n)
         == Share(owner, c1, sizes, m, n) + Share(owner, c2, sizes, m, n)
    ensures c != c1 && c != c2 ==>
      Share(Join(owner, c1, c2), c, Deeper(sizes, owner, c1, c2), m, n) == Share(owner, c, sizes, m, n)
  {
    if n > 0 {
      ShareHalves(owner, c1, c2, c, sizes, m, n - 1);
      assert Deeper(sizes, owner, c1, c2)[n - 1] <= m;
    }
  }

  lemma {:induction false} CostDeepens(w: seq<nat>, owner: seq<int>, c1: int, c2: int, sizes: seq<nat>, n: nat)
    requires n <= |owner| == |sizes| == |w| && c1 != c2
    ensures Cost(w, Deeper(sizes, owner, c1, c2), n)
         == Cost(w, sizes, n) + Sum(owner, c1, w, n) + Sum(owner, c2, w, n)
  {
    if n > 0 {
      CostDeepens(w, owner, c1, c2, sizes, n - 1);
    }
  }

  lemma {:induction false} CountsAbove(f: seq<nat>, i: nat, v: nat, n: nat)
    requires n <= i < |f|
    ensures Counts(f[i := v], n) == Counts(f, n)
  {
    if n > 0 {
      CountsAbove(f, i, v, n - 1);
    }
  }

  lemma {:induction false} CountsWithout(f: seq<nat>, i: nat, n: nat)
    requires i < n <= |f|
    ensures Counts(f, n) == Counts(f[i := 0], n) + One(f[i])
  {
    if i == n - 1 {
      CountsAbove(f, i, 0, n - 1);
    } else {
      CountsWithout(f, i, n - 1);
      assert f[i := 0][n - 1] == f[n - 1];
    }
  }

  // The merge replaces the two counts by their sum.
  lemma CountsMerge(f: seq<nat>, c1: nat, c2: nat)
    requires c1 < |f| && c2 < |f| && c1 != c2 && f[c1] > 0 && f[c2] > 0
    ensures f[c1] in Counts(f, |f|) && f[c2] in Counts(f, |f|) - multiset{f[c1]}
    ensures Counts(f[c1 := f[c1] + f[c2]][c2 := 0], |f|) == Merged(Counts(f, |f|), f[c1], f[c2])
  {
    hide Counts, Merged;
    var g, n := f[c1 := f[c1] + f[c2]][c2 := 0], |f|;
    CountsWithout(f, c1, n);
    CountsWithout(f[c1 := 0], c2, n);
    CountsWithout(g, c1, n);
    assert g[c1 := 0] == f[c1 := 0][c2 := 0];
    MergedParts(Counts(f[c1 := 0][c2 := 0], n), f[c1], f[c2], Counts(f, n));
  }

  lemma MergedParts(rest: multiset<nat>, a: nat, b: nat, all: multiset<nat>)
    requires all == rest + multiset{b} + multiset{a}
    ensures a in all && b in all - multiset{a} && Merged(all, a, b) == rest + multiset{a + b}
  {
    assert all - multiset{a} == rest + multiset{b};
    assert rest + multiset{b} - multiset{b} == rest;
  }

  // ----- Branches -----

  function Link(chain: seq<nat>, k: nat): int
    requires k < |chain|
  {
    if k + 1 < |chain| then chain[k + 1] else -1
  }

  // The symbols of a tree, linked through others.
  ghost predicate Branch(others: seq<int>, chain: seq<nat>) {
    && chain != []
    && (forall k :: 0 <= k < |chain| ==> chain[k] < |others|)
    && (forall k :: 0 <= k < |chain| ==> others[chain[k]] == Link(chain, k))
    && (forall j, k :: 0 <= j < k < |chain| ==> chain[j] != chain[k])
  }

  lemma BranchesLink(others: seq<int>, a: seq<nat>, b: seq<nat>)
    requires Branch(others, a) && Branch(others, b)
    requires forall j, k :: 0 <= j < |a| && 0 <= k < |b| ==> a[j] != b[k]
    ensures Branch(others[a[|a| - 1] := b[0]], a + b)
  {
    var r := others[a[|a| - 1] := b[0]];
    forall k | 0 <= k < |a + b|
      ensures r[(a + b)[k]] == Link(a + b, k)
    {
      if k < |a| - 1 {
        assert (a + b)[k] == a[k] != a[|a| - 1];
      } else if k >= |a| {
        assert (a + b)[k] == b[k - |a|] != a[|a| - 1];
        assert k + 1 < |a + b| ==> (a + b)[k + 1] == b[k + 1 - |a|];
      }
    }
  }

  lemma BranchKeeps(others: seq<int>, a: seq<nat>, b: seq<nat>, v: int)
    requires Branch(others, a) && Branch(others, b)
    requires forall j, k :: 0 <= j < |a| && 0 <= k < |b| ==> a[j] != b[k]
    ensures Branch(others[a[|a| - 1] := v], b)
  {
  }

  // ----- The forest -----

  // Which tree each symbol in use belongs to, named by its root; the symbols of each tree in
  // linked order; and the number of merges so far.
  datatype Forest = Forest(owner: seq<int>, chains: seq<seq<nat>>, merges: nat)

  ghost predicate Owned(w: seq<nat>, freq: seq<nat>, t: Forest) {
    && |w| == |freq| == |t.owner| == |t.chains| == SYMBOLS
    && (forall s :: 0 <= s < SYMBOLS ==> (w[s] > 0 <==> t.owner[s] >= 0))
    && (forall s :: 0 <= s < SYMBOLS ==> t.owner[s] < SYMBOLS)
    && (forall s :: 0 <= s < SYMBOLS && t.owner[s] >= 0 ==> freq[t.owner[s]] > 0)
    && (forall c :: 0 <= c < SYMBOLS && freq[c] > 0 ==> t.owner[c] == c && freq[c] == Sum(t.owner, c, w, SYMBOLS))
  }

  ghost predicate Linked(freq: seq<nat>, others: seq<int>, t: Forest) {
    && |freq| == |others| == |t.owner| == |t.chains| == SYMBOLS
    && (forall c :: 0 <= c < SYMBOLS && freq[c] > 0 ==>
        && Branch(others, t.chains[c]) && t.chains[c][0] == c
        && forall s :: 0 <= s < SYMBOLS ==> (t.owner[s] == c <==> s in t.chains[c]))
  }

  // Each tree by itself satisfies Kraft's inequality with equality.
  ghost predicate Balanced(freq: seq<nat>, sizes: seq<nat>, t: Forest) {
    && |freq| == |sizes| == |t.owner| == SYMBOLS
    && t.merges <= SYMBOLS && Below(sizes, t.merges) && Below(sizes, SYMBOLS)
    && (forall c :: 0 <= c < SYMBOLS && freq[c] > 0 ==> Share(t.owner, c, sizes, SYMBOLS, SYMBOLS) == Pow2(SYMBOLS))
    && (forall s :: 0 <= s < SYMBOLS && t.owner[s] < 0 ==> sizes[s] == 0)
  }

  ghost predicate Priced(w: seq<nat>, freq: seq<nat>, sizes: seq<nat>, t: Forest) {
    && |w| == |freq| == |sizes| == SYMBOLS
    && Cost(w, sizes, SYMBOLS) + HuffmanOf(Counts(freq, SYMBOLS)) == HuffmanOf(Counts(w, SYMBOLS))
    && |Counts(freq, SYMBOLS)| + t.merges == |Counts(w, SYMBOLS)|
  }

  // The forest after merging tree c2 into tree c1.
  function Grown(t: Forest, c1: nat, c2: nat): (r: Forest)
    requires c1 < |t.chains| && c2 < |t.chains|
  {
    Forest(Join(t.owner, c1, c2), t.chains[c1 := t.chains[c1] + t.chains[c2]], t.merges + 1)
  }

  function MergedCounts(freq: seq<nat>, c1: nat, c2: nat): (r: seq<nat>)
    requires c1 < |freq| && c2 < |freq| && c1 != c2
    ensures |r| == |freq| && r[c1] == freq[c1] + freq[c2] && r[c2] == 0
    ensures forall c :: 0 <= c < |freq| && c != c1 && c != c2 ==> r[c] == freq[c]
  {
    freq[c1 := freq[c1] + freq[c2]][c2 := 0]
  }

  lemma MergeOwned(w: seq<nat>, freq: seq<nat>, t: Forest, c1: nat, c2: nat)
    requires Owned(w, freq, t) && c1 < SYMBOLS && c2 < SYMBOLS && c1 != c2 && freq[c1] > 0 && freq[c2] > 0
    ensures Owned(w, MergedCounts(freq, c1, c2), Grown(t, c1, c2))
  {
    hide Sum, MergedCounts;
    forall c | 0 <= c < SYMBOLS
      ensures Sum(Join(t.owner, c1, c2), c1, w, SYMBOLS) == freq[c1] + freq[c2]
      ensures c != c1 && c != c2 && freq[c] > 0 ==> Sum(Join(t.owner, c1, c2), c, w, SYMBOLS) == freq[c]
    {
      SumJoins(t.owner, c1, c2, c, w, SYMBOLS);
    }
  }

  lemma MergeLinked(w: seq<nat>, freq: seq<nat>, others: seq<int>, t: Forest, c1: nat, c2: nat)
    requires Owned(w, freq, t) && Linked(freq, others, t)
    requires c1 < SYMBOLS && c2 < SYMBOLS && c1 != c2 && freq[c1] > 0 && freq[c2] > 0
    ensures Branch(others, t.chains[c1])
    ensures Linked(MergedCounts(freq, c1, c2), others[t.chains[c1][|t.chains[c1]| - 1] := c2], Grown(t, c1, c2))
  {
    ChainsApart(freq, others, t, c1, c2);
    var a, b := t.chains[c1], t.chains[c2];
    var r, g := others[a[|a| - 1] := c2], Grown(t, c1, c2);
    hide MergedCounts, Branch;
    BranchesLink(others, a, b);
    forall c | 0 <= c < SYMBOLS && c != c1 && c != c2 && freq[c] > 0
      ensures Branch(r, t.chains[c])
    {
      ChainsApart(freq, others, t, c1, c);
      BranchKeeps(others, a, t.chains[c], c2);
    }
    ChainsJoin(t.owner, c1, c2, a, b);
  }

  lemma ChainsJoin(owner: seq<int>, c1: nat, c2: nat, a: seq<nat>, b: seq<nat>)
    requires c1 != c2
    requires forall s :: 0 <= s < |owner| ==> (owner[s] == c1 <==> s in a) && (owner[s] == c2 <==> s in b)
    ensures forall s :: 0 <= s < |owner| ==> (Join(owner, c1, c2)[s] == c1 <==> s in a + b)
  {
    assert forall s :: s in a + b <==> s in a || s in b;
  }

  lemma ChainsApart(freq: seq<nat>, others: seq<int>, t: Forest, c: nat, d: nat)
    requires Linked(freq, others, t) && c < SYMBOLS && d < SYMBOLS && c != d && freq[c] > 0 && freq[d] > 0
    ensures Branch(others, t.chains[c]) && Branch(others, t.chains[d])
    ensures forall j, k :: 0 <= j < |t.chains[c]| && 0 <= k < |t.chains[d]| ==> t.chains[c][j] != t.chains[d][k]
  {
    forall j, k | 0 <= j < |t.chains[c]| && 0 <= k < |t.chains[d]|
      ensures t.chains[c][j] != t.chains[d][k]
    {
      assert t.owner[t.chains[c][j]] == c;
      assert t.owner[t.chains[d][k]] == d;
    }
  }

  lemma MergeBalanced(freq: seq<nat>, sizes: seq<nat>, t: Forest, c1: nat, c2: nat)
    requires Balanced(freq, sizes, t) && t.merges < SYMBOLS && |t.chains| == SYMBOLS
    requires c1 < SYMBOLS && c2 < SYMBOLS && c1 != c2 && freq[c1] > 0 && freq[c2] > 0
    ensures Balanced(MergedCounts(freq, c1, c2), Deeper(sizes, t.owner, c1, c2), Grown(t, c1, c2))
  {
    hide Share, MergedCounts;
    var g, deeper := Grown(t, c1, c2), Deeper(sizes, t.owner, c1, c2);
    assert Below(deeper, g.merges);
    forall c | 0 <= c < SYMBOLS
      ensures 2 * Share(g.owner, c1, deeper, SYMBOLS, SYMBOLS) == 2 * Pow2(SYMBOLS)
      ensures c != c1 && c != c2 && freq[c] > 0 ==> Share(g.owner, c, deeper, SYMBOLS, SYMBOLS) == Pow2(SYMBOLS)
    {
      ShareHalves(t.owner, c1, c2, c, sizes, SYMBOLS, SYMBOLS);
    }
  }

  lemma MergePriced(w: seq<nat>, freq: seq<nat>, sizes: seq<nat>, t: Forest, c1: nat, c2: nat)
    requires Owned(w, freq, t) && Priced(w, freq, sizes, t)
    requires c1 < SYMBOLS && c2 < SYMBOLS && c1 != c2
    requires AreLeast(freq, c1, c2)
    ensures Priced(w, MergedCounts(freq, c1, c2), Deeper(sizes, t.owner, c1, c2), Grown(t, c1, c2))
  {
    hide Sum, Cost, HuffmanOf, Counts, Merged, Deeper;
    CountsMerge(freq, c1, c2);
    LeastCounts(freq, c1, c2);
    LeastTwo(Counts(freq, SYMBOLS), freq[c1], freq[c2]);
    CostDeepens(w, t.owner, c1, c2, sizes, SYMBOLS);
  }

  // c1 has the smallest nonzero count, c2 the next smallest.
  ghost predicate AreLeast(freq: seq<nat>, c1: nat, c2: nat)
    requires c1 < |freq| && c2 < |freq|
  {
    && freq[c1] > 0 && freq[c2] > 0 && c1 != c2
    && (forall i :: 0 <= i < |freq| && freq[i] > 0 ==> freq[c1] <= freq[i])
    && (forall i :: 0 <= i < |freq| && freq[i] > 0 && i != c1 ==> freq[c2] <= freq[i])
  }

  lemma {:induction false} CountIn(f: seq<nat>, n: nat, x: nat) returns (i: nat)
    requires n <= |f| && x in Counts(f, n)
    ensures i < n && f[i] == x > 0
  {
    if x in One(f[n - 1]) {
      i := n - 1;
    } else {
      i := CountIn(f, n - 1, x);
    }
  }

  lemma LeastCounts(freq: seq<nat>, c1: nat, c2: nat)
    requires c1 < |freq| && c2 < |freq| && AreLeast(freq, c1, c2)
    ensures IsLeast(freq[c1], Counts(freq, |freq|))
    ensures IsLeast(freq[c2], Counts(freq, |freq|) - multiset{freq[c1]})
  {
    hide Counts;
    var all, rest := Counts(freq, |freq|), Counts(freq[c1 := 0], |freq|);
    CountsMerge(freq, c1, c2);
    CountsWithout(freq, c1, |freq|);
    forall x | x in all
      ensures freq[c1] <= x
    {
      var i := CountIn(freq, |freq|, x);
    }
    forall x | x in rest
      ensures freq[c2] <= x
    {
      var i := CountIn(freq[c1 := 0], |freq|, x);
    }
    assert all - multiset{freq[c1]} == rest;
  }

  // ----- The procedure as a function -----

  // The least nonzero count among the first n, leaving out one symbol; the last one if several
  // are equal.
  function Smallest(freq: seq<nat>, except: int, n: nat): (c: int)
    requires n <= |freq|
    ensures c == -1 || (0 <= c < n && c != except)
    ensures c >= 0 ==> freq[c] > 0
  {
    if n == 0 then -1
    else
      var c := Smallest(freq, except, n - 1);
      if freq[n - 1] > 0 && n - 1 != except && (c < 0 || freq[n - 1] <= freq[c]) then n - 1 else c
  }

  lemma {:induction false} SmallestIs(freq: seq<nat>, except: int, n: nat)
    requires n <= |freq|
    ensures var c := Smallest(freq, except, n);
      && (c == -1 ==> forall i :: 0 <= i < n && i != except ==> freq[i] == 0)
      && (c >= 0 ==> forall i :: 0 <= i < n && i != except && freq[i] > 0 ==>
            freq[c] <= freq[i] && (freq[c] == freq[i] ==> i <= c))
  {
    if n > 0 {
      SmallestIs(freq, except, n - 1);
    }
  }

  // The two symbols the procedure merges are the least ones.
  lemma ChosenAreLeast(freq: seq<nat>)
    ensures var c1 := Smallest(freq, -1, |freq|); var c2 := Smallest(freq, c1, |freq|);
      c2 >= 0 ==> c1 >= 0 && AreLeast(freq, c1, c2)
  {
    SmallestIs(freq, -1, |freq|);
    SmallestIs(freq, Smallest(freq, -1, |freq|), |freq|);
  }

  lemma MergeShrinks(freq: seq<nat>, c1: nat, c2: nat)
    requires c1 < |freq| && c2 < |freq| && c1 != c2 && freq[c1] > 0 && freq[c2] > 0
    ensures |Counts(MergedCounts(freq, c1, c2), |freq|)| < |Counts(freq, |freq|)|
  {
    hide Counts;
    CountsMerge(freq, c1, c2);
  }

  // The code sizes that merging to the end leaves.
  ghost function CodeSizes(freq: seq<nat>, owner: seq<int>, sizes: seq<nat>): (r: seq<nat>)
    requires |freq| == |owner| == |sizes|
    ensures |r| == |sizes|
    decreases |Counts(freq, |freq|)|
  {
    hide Counts, Smallest;
    var c1 := Smallest(freq, -1, |freq|);
    var c2 := Smallest(freq, c1, |freq|);
    if c2 < 0 then sizes
    else
      ChosenAreLeast(freq);
      MergeShrinks(freq, c1, c2);
      CodeSizes(MergedCounts(freq, c1, c2), Join(owner, c1, c2), Deeper(sizes, owner, c1, c2))
  }

  // The code sizes of Huffman's procedure for these weights, equal weights taken from the end.
  ghost function HuffmanSizes(w: seq<nat>): (r: seq<nat>)
    ensures |r| == |w|
  {
    CodeSizes(w, Seedling(w).owner, NoCounts(|w|))
  }

  function NoCounts(n: nat): (r: seq<nat>)
    ensures |r| == n && forall i :: 0 <= i < n ==> r[i] == 0
  {
    seq(n, _ => 0)
  }

  // ----- The procedure -----

  // Counts above the sentinel would be overlooked.
  method FindSmallest(freq: array<nat>, except: int) returns (c: int)
    requires freq.Length == SYMBOLS
    requires forall i :: 0 <= i < SYMBOLS ==> freq[i] <= SENTINEL
    ensures c == Smallest(freq[..], except, SYMBOLS)
  {
    c := -1;
    var v := SENTINEL;
    for i := 0 to SYMBOLS
      invariant c == Smallest(freq[..], except, i)
      invariant v == if c < 0 then SENTINEL else freq[c]
    {
      if freq[i] != 0 && freq[i] <= v && i != except {
        v := freq[i];
        c := i;
      }
    }
  }

  lemma ChainStarts(others: seq<int>, chain: seq<nat>)
    requires Branch(others, chain)
    ensures chain[0] < |others| && chain[..1] == [chain[0]]
  {
  }

  // The link from a symbol of a branch leads to the next one, which has not been met yet.
  lemma ChainNext(others: seq<int>, chain: seq<nat>, k: nat)
    requires Branch(others, chain) && k < |chain|
    ensures chain[k] < |others|
    ensures if k + 1 < |chain| then others[chain[k]] == chain[k + 1] < |others| && chain[k + 1] !in chain[..k + 1]
            else others[chain[k]] < 0
    ensures k + 1 < |chain| ==> chain[..k + 2] == chain[..k + 1] + [chain[k + 1]]
  {
    assert others[chain[k]] == Link(chain, k);
  }

  // Increment the code size of everything in a branch; last is its last symbol.
  method DeepenBranch(codesize: array<nat>, others: array<int>, root: nat, ghost chain: seq<nat>) returns (last: nat)
    requires codesize.Length == others.Length && codesize as object != others
    requires Branch(others[..], chain) && chain[0] == root
    modifies codesize
    ensures last == chain[|chain| - 1]
    ensures forall s :: 0 <= s < codesize.Length ==>
      codesize[s] == old(codesize[s]) + if s in chain then 1 else 0
  {
    var c := root;
    codesize[c] := codesize[c] + 1;
    ghost var k, links := 0, others[..];
    ChainStarts(links, chain);
    hide Branch;
    while others[c] >= 0
      invariant k < |chain| && 0 <= c < others.Length && c == chain[k] && others[..] == links && Branch(links, chain)
      invariant forall s :: 0 <= s < codesize.Length ==>
        codesize[s] == old(codesize[s]) + if s in chain[..k + 1] then 1 else 0
      decreases |chain| - k
    {
      ChainNext(links, chain, k);
      c := others[c];
      k := k + 1;
      codesize[c] := codesize[c] + 1;
    }
    ChainNext(links, chain, k);
    assert chain[..k + 1] == chain;
    last := c;
  }

  ghost predicate Merging(w: seq<nat>, freq: seq<nat>, sizes: seq<nat>, others: seq<int>, t: Forest) {
    && Owned(w, freq, t) && Linked(freq, others, t) && Balanced(freq, sizes, t) && Priced(w, freq, sizes, t)
    && w[SYMBOLS - 1] > 0 && Total(w, SYMBOLS) <= SENTINEL
  }

  lemma CountsAreBounded(w: seq<nat>, freq: seq<nat>, sizes: seq<nat>, others: seq<int>, t: Forest)
    requires Merging(w, freq, sizes, others, t)
    ensures forall i :: 0 <= i < SYMBOLS ==> freq[i] <= SENTINEL
    ensures exists i :: 0 <= i < SYMBOLS && freq[i] > 0
  {
    assert freq[t.owner[SYMBOLS - 1]] > 0;
    forall i | 0 <= i < SYMBOLS && freq[i] > 0
      ensures freq[i] <= SENTINEL
    {
      SumBelowTotal(t.owner, i, w, SYMBOLS);
    }
  }

  lemma {:induction false} CountsSize(f: seq<nat>, n: nat)
    requires n <= |f|
    ensures |Counts(f, n)| <= n
    ensures (exists i :: 0 <= i < n && f[i] > 0) ==> |Counts(f, n)| > 0
  {
    if n > 0 {
      CountsSize(f, n - 1);
    }
  }

  lemma MergesAreBounded(w: seq<nat>, freq: seq<nat>, sizes: seq<nat>, others: seq<int>, t: Forest, c: nat)
    requires Merging(w, freq, sizes, others, t) && c < SYMBOLS && freq[c] > 0
    ensures t.merges < SYMBOLS
  {
    CountsSize(w, SYMBOLS);
    CountsSize(freq, SYMBOLS);
  }

  lemma MergeStep(w: seq<nat>, freq: seq<nat>, sizes: seq<nat>, others: seq<int>, t: Forest, c1: nat, c2: nat)
    requires Merging(w, freq, sizes, others, t)
    requires c1 < SYMBOLS && c2 < SYMBOLS && AreLeast(freq, c1, c2)
    ensures |t.chains| == |t.owner| == SYMBOLS
    ensures Branch(others, t.chains[c1]) && t.chains[c1][0] == c1
    ensures t.chains[c1] != [] && t.chains[c1][|t.chains[c1]| - 1] < SYMBOLS
    ensures var linked := others[t.chains[c1][|t.chains[c1]| - 1] := c2];
      && Merging(w, MergedCounts(freq, c1, c2), Deeper(sizes, t.owner, c1, c2), linked, Grown(t, c1, c2))
      && Branch(linked, t.chains[c2]) && t.chains[c2][0] == c2
    ensures forall s :: 0 <= s < SYMBOLS ==> (s in t.chains[c1] || s in t.chains[c2] <==> t.owner[s] == c1 || t.owner[s] == c2)
    ensures forall s :: 0 <= s < SYMBOLS ==> !(s in t.chains[c1] && s in t.chains[c2])
  {
    hide Owned, Balanced, Priced;
    MergesAreBounded(w, freq, sizes, others, t, c1);
    MergeOwned(w, freq, t, c1, c2);
    MergeLinked(w, freq, others, t, c1, c2);
    MergeBalanced(freq, sizes, t, c1, c2);
    MergePriced(w, freq, sizes, t, c1, c2);
    ChainsApart(freq, others, t, c1, c2);
    BranchKeeps(others, t.chains[c1], t.chains[c2], c2);
  }

  // Merge the trees of the two smallest counts.
  method MergeTrees(freq: array<nat>, codesize: array<nat>, others: array<int>, c1: nat, c2: nat,
                    ghost w: seq<nat>, ghost t: Forest)
    returns (ghost g: Forest)
    requires freq.Length == codesize.Length == others.Length == SYMBOLS
    requires freq != codesize && freq as object != others && codesize as object != others
    requires Merging(w, freq[..], codesize[..], others[..], t)
    requires c1 < SYMBOLS && c2 < SYMBOLS && AreLeast(freq[..], c1, c2)
    modifies freq, codesize, others
    ensures Merging(w, freq[..], codesize[..], others[..], g)
    ensures g.merges == t.merges + 1
    ensures |t.owner| == |t.chains| == SYMBOLS && g == Grown(t, c1, c2)
    ensures freq[..] == MergedCounts(old(freq[..]), c1, c2)
    ensures codesize[..] == Deeper(old(codesize[..]), t.owner, c1, c2)
  {
    hide Merging, Branch, Deeper;
    ghost var f, sizes, links := freq[..], codesize[..], others[..];
    MergeStep(w, f, sizes, links, t, c1, c2);
    freq[c1] := freq[c1] + freq[c2];
    freq[c2] := 0;
    var last := DeepenBranch(codesize, others, c1, t.chains[c1]);
    others[last] := c2;
    assert others[..] == links[last := c2];
    last := DeepenBranch(codesize, others, c2, t.chains[c2]);
    g := Grown(t, c1, c2);
    assert freq[..] == MergedCounts(f, c1, c2);
    assert codesize[..] == Deeper(sizes, t.owner, c1, c2) by {
      DeeperIs(sizes, t.owner, c1, c2, codesize[..]);
    }
  }

  lemma DeeperIs(sizes: seq<nat>, owner: seq<int>, c1: int, c2: int, after: seq<nat>)
    requires |sizes| == |owner| == |after|
    requires forall s :: 0 <= s < |sizes| ==>
      after[s] == sizes[s] + if owner[s] == c1 || owner[s] == c2 then 1 else 0
    ensures after == Deeper(sizes, owner, c1, c2)
  {
  }

  // ----- Before the first merge, and after the last -----

  function Seedling(w: seq<nat>): (t: Forest) {
    Forest(seq(|w|, s requires 0 <= s < |w| => if w[s] > 0 then s else -1), seq(|w|, s => [s]), 0)
  }

  lemma {:induction false} SeedSums(w: seq<nat>, sizes: seq<nat>, m: nat, c: nat, n: nat)
    requires n <= |w| == |sizes| && c < |w| && w[c] > 0 && Below(sizes, m) && sizes[c] == 0
    ensures Sum(Seedling(w).owner, c, w, n) == if c < n then w[c] else 0
    ensures Share(Seedling(w).owner, c, sizes, m, n) == if c < n then Pow2(m) else 0
  {
    if n > 0 {
      SeedSums(w, sizes, m, c, n - 1);
    }
  }

  lemma {:induction false} SeedCost(w: seq<nat>, sizes: seq<nat>, n: nat)
    requires n <= |w| == |sizes| && forall s :: 0 <= s < |sizes| ==> sizes[s] == 0
    ensures Cost(w, sizes, n) == 0
  {
    if n > 0 {
      SeedCost(w, sizes, n - 1);
    }
  }

  lemma MergingStarts(w: seq<nat>, sizes: seq<nat>, others: seq<int>)
    requires |w| == |sizes| == |others| == SYMBOLS && w[SYMBOLS - 1] > 0 && Total(w, SYMBOLS) <= SENTINEL
    requires forall s :: 0 <= s < SYMBOLS ==> sizes[s] == 0 && others[s] == -1
    ensures Merging(w, w, sizes, others, Seedling(w))
  {
    hide Sum, Share, Cost, Total, Pow2;
    forall c | 0 <= c < SYMBOLS && w[c] > 0
      ensures Sum(Seedling(w).owner, c, w, SYMBOLS) == w[c]
      ensures Share(Seedling(w).owner, c, sizes, SYMBOLS, SYMBOLS) == Pow2(SYMBOLS)
    {
      SeedSums(w, sizes, SYMBOLS, c, SYMBOLS);
    }
    SeedCost(w, sizes, SYMBOLS);
  }

  lemma KraftAppend(ls: seq<nat>, l: nat, m: nat)
    requires Below(ls, m) && l <= m
    ensures Below(ls + [l], m) && Kraft(ls + [l], m) == Kraft(ls, m) + Pow2(m - l)
  {
    KraftConcat(ls, [l], m);
  }

  lemma {:induction false} DotAppend(ws: seq<nat>, ls: seq<nat>, w: nat, l: nat)
    requires |ws| == |ls|
    ensures Dot(ws + [w], ls + [l]) == Dot(ws, ls) + Times(w, l)
  {
    if ls == [] {
      assert ws + [w] == [w] && ls + [l] == [l];
    } else {
      assert (ls + [l])[1..] == ls[1..] + [l] && (ws + [w])[1..] == ws[1..] + [w];
      DotAppend(ws[1..], ls[1..], w, l);
    }
  }

  lemma {:induction false} UsedCost(w: seq<nat>, sizes: seq<nat>, n: nat)
    requires n <= |w| == |sizes|
    ensures |Used(w, w, n)| == |Used(w, sizes, n)|
    ensures Dot(Used(w, w, n), Used(w, sizes, n)) == Cost(w, sizes, n)
  {
    if n > 0 {
      UsedCost(w, sizes, n - 1);
      if w[n - 1] > 0 {
        DotAppend(Used(w, w, n - 1), Used(w, sizes, n - 1), w[n - 1], sizes[n - 1]);
      } else {
        assert Used(w, w, n) == Used(w, w, n - 1) && Used(w, sizes, n) == Used(w, sizes, n - 1);
        assert Times(w[n - 1], sizes[n - 1]) == 0;
      }
    }
  }

  // One tree that owns all symbols in use.
  lemma {:induction false} UsedShare(w: seq<nat>, owner: seq<int>, c: int, sizes: seq<nat>, m: nat, n: nat)
    requires n <= |w| == |sizes| == |owner| && Below(sizes, m)
    requires forall s :: 0 <= s < |w| ==> (w[s] > 0 <==> owner[s] == c)
    ensures Below(Used(w, sizes, n), m) && Kraft(Used(w, sizes, n), m) == Share(owner, c, sizes, m, n)
  {
    if n > 0 {
      UsedShare(w, owner, c, sizes, m, n - 1);
      if w[n - 1] > 0 {
        KraftAppend(Used(w, sizes, n - 1), sizes[n - 1], m);
      } else {
        assert Used(w, sizes, n) == Used(w, sizes, n - 1);
      }
    }
  }

  lemma {:induction false} ShareOfTwo(owner: seq<int>, c: int, sizes: seq<nat>, m: nat, n: nat, s: nat, r: nat)
    requires n <= |sizes| == |owner| && Below(sizes, m) && s < n && r < n && s != r && owner[s] == owner[r] == c
    ensures Share(owner, c, sizes, m, n) > Pow2(m - sizes[s])
  {
    if s == n - 1 {
      ShareOfOne(owner, c, sizes, m, n - 1, r);
    } else if r == n - 1 {
      ShareOfOne(owner, c, sizes, m, n - 1, s);
    } else {
      ShareOfTwo(owner, c, sizes, m, n - 1, s, r);
    }
  }

  lemma {:induction false} ShareOfOne(owner: seq<int>, c: int, sizes: seq<nat>, m: nat, n: nat, s: nat)
    requires n <= |sizes| == |owner| && Below(sizes, m) && s < n && owner[s] == c
    ensures Share(owner, c, sizes, m, n) >= Pow2(m - sizes[s])
  {
    if s < n - 1 {
      ShareOfOne(owner, c, sizes, m, n - 1, s);
    }
  }

  // The code sizes of the symbols in use fill Kraft's sum, and no prefix code costs less.
  ghost predicate IsOptimal(w: seq<nat>, sizes: seq<nat>) {
    && |w| == |sizes| == SYMBOLS
    && (forall s :: 0 <= s < SYMBOLS && w[s] == 0 ==> sizes[s] == 0)
    && Below(Used(w, sizes, SYMBOLS), SYMBOLS)
    && Kraft(Used(w, sizes, SYMBOLS), SYMBOLS) == Pow2(SYMBOLS)
    && |Used(w, sizes, SYMBOLS)| == |Used(w, w, SYMBOLS)|
    && forall codes :: |codes| == |Used(w, w, SYMBOLS)| && PrefixFree(codes) ==>
         Dot(Used(w, w, SYMBOLS), Used(w, sizes, SYMBOLS)) <= Dot(Used(w, w, SYMBOLS), Lengths(codes))
  }

  lemma CheapestCost(w: seq<nat>, sizes: seq<nat>)
    requires |w| == |sizes| == SYMBOLS && Cost(w, sizes, SYMBOLS) == HuffmanOf(Counts(w, SYMBOLS))
    ensures |Used(w, sizes, SYMBOLS)| == |Used(w, w, SYMBOLS)|
    ensures forall codes :: |codes| == |Used(w, w, SYMBOLS)| && PrefixFree(codes) ==>
      Dot(Used(w, w, SYMBOLS), Used(w, sizes, SYMBOLS)) <= Dot(Used(w, w, SYMBOLS), Lengths(codes))
  {
    hide Cost, Used, Dot, HuffmanOf, Counts, PrefixFree;
    UsedCost(w, sizes, SYMBOLS);
    CountsAreUsed(w, SYMBOLS);
    forall codes | |codes| == |Used(w, w, SYMBOLS)| && PrefixFree(codes)
      ensures Dot(Used(w, w, SYMBOLS), Used(w, sizes, SYMBOLS)) <= Dot(Used(w, w, SYMBOLS), Lengths(codes))
    {
      HuffmanBeatsPrefixCodes(Used(w, w, SYMBOLS), codes);
    }
  }

  lemma MergingEnds(w: seq<nat>, freq: seq<nat>, sizes: seq<nat>, others: seq<int>, t: Forest, c: nat)
    requires Merging(w, freq, sizes, others, t) && c < SYMBOLS && freq[c] > 0
    requires forall i :: 0 <= i < SYMBOLS && i != c ==> freq[i] == 0
    ensures IsOptimal(w, sizes)
    ensures forall s, r :: 0 <= s < SYMBOLS && 0 <= r < SYMBOLS && s != r && w[s] > 0 && w[r] > 0 ==> sizes[s] > 0
  {
    hide Share, Cost, Sum, Used, Pow2, Linked, Dot, Kraft, PrefixFree, Total, Counts, HuffmanOf;
    OneCount(freq, c, SYMBOLS);
    CheapestCost(w, sizes);
    UsedShare(w, t.owner, c, sizes, SYMBOLS, SYMBOLS);
    forall s, r | 0 <= s < SYMBOLS && 0 <= r < SYMBOLS && s != r && w[s] > 0 && w[r] > 0
      ensures sizes[s] > 0
    {
      ShareOfTwo(t.owner, c, sizes, SYMBOLS, SYMBOLS, s, r);
    }
  }

  lemma {:induction false} OneCount(f: seq<nat>, c: nat, n: nat)
    requires c < n <= |f| && f[c] > 0 && forall i :: 0 <= i < n && i != c ==> f[i] == 0
    ensures |Counts(f, n)| == 1 && HuffmanOf(Counts(f, n)) == 0
  {
    if c == n - 1 {
      NoCount(f, n - 1);
    } else {
      OneCount(f, c, n - 1);
      assert Counts(f, n) == Counts(f, n - 1);
    }
  }

  lemma {:induction false} NoCount(f: seq<nat>, n: nat)
    requires n <= |f| && forall i :: 0 <= i < n ==> f[i] == 0
    ensures Counts(f, n) == multiset{}
  {
    if n > 0 {
      NoCount(f, n - 1);
    }
  }

  // The loop leaves the code sizes of Huffman's procedure, and they are optimal.
  method Merge(freq: array<nat>, codesize: array<nat>, others: array<int>)
    requires freq.Length == codesize.Length == others.Length == SYMBOLS
    requires freq != codesize && freq as object != others && codesize as object != others
    requires freq[SYMBOLS - 1] > 0 && Total(freq[..], SYMBOLS) <= SENTINEL
    requires forall s :: 0 <= s < SYMBOLS ==> codesize[s] == 0 && others[s] == -1
    modifies freq, codesize, others
    ensures codesize[..] == HuffmanSizes(old(freq[..]))
    ensures IsOptimal(old(freq[..]), codesize[..])
    ensures forall s, r :: 0 <= s < SYMBOLS && 0 <= r < SYMBOLS && s != r && old(freq[s]) > 0 && old(freq[r]) > 0 ==>
      codesize[s] > 0
  {
    hide Merging, IsOptimal, Total, Smallest, Deeper, Join, Counts;
    ghost var w := freq[..];
    ghost var t := Seedling(w);
    MergingStarts(w, codesize[..], others[..]);
    assert codesize[..] == NoCounts(SYMBOLS);
    while true
      invariant Merging(w, freq[..], codesize[..], others[..], t) && |t.owner| == SYMBOLS
      invariant CodeSizes(freq[..], t.owner, codesize[..]) == HuffmanSizes(w)
      decreases SYMBOLS - t.merges
    {
      CountsAreBounded(w, freq[..], codesize[..], others[..], t);
      var c1 := FindSmallest(freq, -1);
      var c2 := FindSmallest(freq, c1);
      SmallestIs(freq[..], -1, SYMBOLS);
      SmallestIs(freq[..], c1, SYMBOLS);
      if c2 < 0 {   // everything is one tree
        MergingEnds(w, freq[..], codesize[..], others[..], t, c1);
        break;
      }
      ChosenAreLeast(freq[..]);
      MergesAreBounded(w, freq[..], codesize[..], others[..], t, c1);
      t := MergeTrees(freq, codesize, others, c1, c2, w, t);
    }
  }
}
