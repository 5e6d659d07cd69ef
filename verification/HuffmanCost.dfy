// What Huffman's procedure is optimal among: the cost of merging the two smallest weights
// until one is left is the least cost of any assignment of code lengths that satisfies
// Kraft's inequality, and so of any prefix code.
module HuffmanCost {
  import opened Powers

  function Times(x: nat, y: nat): nat {
    x * y
  }

  // The total cost of code lengths ls for weights ws.
  function Dot(ws: seq<nat>, ls: seq<nat>): nat
    requires |ws| == |ls|
  {
    if ws == [] then 0 else Times(ws[0], ls[0]) + Dot(ws[1..], ls[1..])
  }

  predicate Below(ls: seq<nat>, m: nat) {
    forall i :: 0 <= i < |ls| ==> ls[i] <= m
  }

  // Kraft's sum, in units of 2^-m.
  function Kraft(ls: seq<nat>, m: nat): nat
    requires Below(ls, m)
  {
    if ls == [] then 0 else Pow2(m - ls[0]) + Kraft(ls[1..], m)
  }

  ghost predicate IsLeast(a: nat, w: multiset<nat>) {
    a in w && forall x :: x in w ==> a <= x
  }

  lemma {:induction false} LeastExists(w: multiset<nat>)
    requires w != multiset{}
    ensures exists a :: IsLeast(a, w)
    decreases |w|
  {
    var x :| x in w;
    var rest := w - multiset{x};
    assert w == rest + multiset{x};
    if rest == multiset{} {
      assert IsLeast(x, w);
    } else {
      LeastExists(rest);
      var y :| IsLeast(y, rest);
      assert IsLeast(if x <= y then x else y, w);
    }
  }

  ghost function Least(w: multiset<nat>): (a: nat)
    requires w != multiset{}
    ensures IsLeast(a, w)
  {
    LeastExists(w);
    var a :| IsLeast(a, w);
    a
  }

  function Merged(w: multiset<nat>, a: nat, b: nat): (r: multiset<nat>)
    requires a in w && b in w - multiset{a}
    ensures |r| == |w| - 1
  {
    var rest := w - multiset{a} - multiset{b};
    assert w == rest + multiset{b} + multiset{a};
    rest + multiset{a + b}
  }

  // The cost of Huffman's procedure.
  ghost function HuffmanOf(w: multiset<nat>): nat
    decreases |w|
  {
    if |w| <= 1 then 0
    else
      var a := Least(w);
      assert |w - multiset{a}| == |w| - 1;
      var b := Least(w - multiset{a});
      a + b + HuffmanOf(Merged(w, a, b))
  }

  // ----- Exchanging -----

  lemma DotFirst(ws: seq<nat>, ls: seq<nat>)
    requires |ws| == |ls| > 0
    ensures Dot(ws, ls) == Times(ws[0], ls[0]) + Dot(ws[1..], ls[1..])
  {
  }

  lemma {:induction false} DotUpdate(ws: seq<nat>, ls: seq<nat>, i: nat, v: nat)
    requires |ws| == |ls| && i < |ls|
    ensures Dot(ws, ls[i := v]) + ws[i] * ls[i] == Dot(ws, ls) + ws[i] * v
  {
    if i == 0 {
      assert ls[0 := v][1..] == ls[1..];
    } else {
      assert ls[i := v][1..] == ls[1..][i - 1 := v];
      DotUpdate(ws[1..], ls[1..], i - 1, v);
    }
  }

  lemma {:induction false} KraftUpdate(ls: seq<nat>, m: nat, i: nat, v: nat)
    requires Below(ls, m) && i < |ls| && v <= m
    ensures Kraft(ls[i := v], m) + Pow2(m - ls[i]) == Kraft(ls, m) + Pow2(m - v)
  {
    if i == 0 {
      assert ls[0 := v][1..] == ls[1..];
    } else {
      assert ls[i := v][1..] == ls[1..][i - 1 := v];
      KraftUpdate(ls[1..], m, i - 1, v);
    }
  }

  function Extract(s: seq<nat>, i: nat): (r: seq<nat>)
    requires i < |s|
    ensures |r| == |s| && r[0] == s[i]
  {
    [s[i]] + s[..i] + s[i + 1..]
  }

  lemma {:induction false} DotExtract(ws: seq<nat>, ls: seq<nat>, i: nat)
    requires |ws| == |ls| && i < |ls|
    ensures Dot(Extract(ws, i), Extract(ls, i)) == Dot(ws, ls)
  {
    assert Extract(ws, i)[1..] == ws[..i] + ws[i + 1..];
    assert Extract(ls, i)[1..] == ls[..i] + ls[i + 1..];
    if i == 0 {
      assert ws[..0] + ws[1..] == ws[1..] && ls[..0] + ls[1..] == ls[1..];
    } else {
      DotExtract(ws[1..], ls[1..], i - 1);
      var v, k := ws[1..], ls[1..];
      assert Extract(v, i - 1)[1..] == v[..i - 1] + v[i..];
      assert Extract(k, i - 1)[1..] == k[..i - 1] + k[i..];
      assert (ws[..i] + ws[i + 1..])[1..] == v[..i - 1] + v[i..];
      assert (ls[..i] + ls[i + 1..])[1..] == k[..i - 1] + k[i..];
    }
  }

  lemma {:induction false} KraftConcat(a: seq<nat>, b: seq<nat>, m: nat)
    requires Below(a, m) && Below(b, m)
    ensures Below(a + b, m) && Kraft(a + b, m) == Kraft(a, m) + Kraft(b, m)
  {
    if a == [] {
      assert a + b == b;
    } else {
      assert (a + b)[1..] == a[1..] + b;
      KraftConcat(a[1..], b, m);
    }
  }

  lemma KraftExtract(ls: seq<nat>, m: nat, i: nat)
    requires Below(ls, m) && i < |ls|
    ensures Below(Extract(ls, i), m) && Kraft(Extract(ls, i), m) == Kraft(ls, m)
  {
    hide Kraft;
    KraftConcat([ls[i]], ls[..i], m);
    KraftConcat([ls[i]] + ls[..i], ls[i + 1..], m);
    KraftConcat(ls[..i], [ls[i]], m);
    KraftConcat(ls[..i] + [ls[i]], ls[i + 1..], m);
    assert ls == ls[..i] + [ls[i]] + ls[i + 1..];
  }

  lemma ExtractMultiset(s: seq<nat>, i: nat)
    requires i < |s|
    ensures multiset(Extract(s, i)) == multiset(s)
  {
    assert s == s[..i] + [s[i]] + s[i + 1..];
  }

  lemma {:induction false} SmallestAt(s: seq<nat>) returns (i: nat)
    requires s != []
    ensures i < |s| && forall j :: 0 <= j < |s| ==> s[i] <= s[j]
  {
    if |s| == 1 {
      i := 0;
    } else {
      var k := SmallestAt(s[1..]);
      i := if s[0] <= s[k + 1] then 0 else k + 1;
      assert forall j :: 1 <= j < |s| ==> s[j] == s[1..][j - 1];
    }
  }

  lemma {:induction false} LargestAt(s: seq<nat>) returns (i: nat)
    requires s != []
    ensures i < |s| && forall j :: 0 <= j < |s| ==> s[j] <= s[i]
  {
    if |s| == 1 {
      i := 0;
    } else {
      var k := LargestAt(s[1..]);
      i := if s[0] >= s[k + 1] then 0 else k + 1;
      assert forall j :: 1 <= j < |s| ==> s[j] == s[1..][j - 1];
    }
  }

  lemma Exchange(v: nat, w: nat, k: nat, l: nat)
    requires v <= w && k <= l
    ensures v * l + w * k <= v * k + w * l
  {
    assert (w - v) * (l - k) >= 0;
  }

  // Swapping two lengths so that the longer one goes to the smaller weight.
  lemma SwapLengths(ws: seq<nat>, ls: seq<nat>, m: nat, top: nat, i: nat, p: nat) returns (ks: seq<nat>)
    requires |ws| == |ls| && Below(ls, top) && top <= m && i < |ls| && p < |ls|
    requires ws[i] <= ws[p] && forall j :: 0 <= j < |ls| ==> ls[j] <= ls[p]
    ensures |ks| == |ls| && Below(ks, top)
    ensures Kraft(ks, m) == Kraft(ls, m) && Dot(ws, ks) <= Dot(ws, ls)
    ensures forall j :: 0 <= j < |ks| ==> ks[j] <= ks[i]
  {
    hide Dot, Kraft;
    var k, l := ls[i], ls[p];
    ks := ls[i := l];
    DotUpdate(ws, ls, i, l);
    KraftUpdate(ls, m, i, l);
    if i != p {
      DotUpdate(ws, ks, p, k);
      KraftUpdate(ks, m, p, k);
      Exchange(ws[i], ws[p], k, l);
      ks := ks[p := k];
    }
  }

  // A smallest weight may as well have a largest length: both brought to the front.
  lemma Front(ws: seq<nat>, ls: seq<nat>, m: nat, top: nat) returns (vs: seq<nat>, ks: seq<nat>)
    requires |ws| == |ls| > 0 && Below(ls, top) && top <= m
    ensures |vs| == |ks| == |ws| && Below(ks, top) && multiset(vs) == multiset(ws)
    ensures Kraft(ks, m) == Kraft(ls, m) && Dot(vs, ks) <= Dot(ws, ls)
    ensures forall j :: 0 <= j < |vs| ==> vs[0] <= vs[j] && ks[j] <= ks[0]
  {
    hide Dot, Kraft;
    var i := SmallestAt(ws);
    var p := LargestAt(ls);
    ks := SwapLengths(ws, ls, m, top, i, p);
    DotExtract(ws, ks, i);
    KraftExtract(ks, m, i);
    ExtractMultiset(ws, i);
    vs, ks := Extract(ws, i), Extract(ks, i);
  }

  // Kraft's sum of lengths up to l is a multiple of 2^-l.
  lemma {:induction false} KraftMultiple(ls: seq<nat>, m: nat, l: nat) returns (q: nat)
    requires Below(ls, l) && l <= m
    ensures Below(ls, m) && Kraft(ls, m) == q * Pow2(m - l) && (ls != [] ==> q > 0)
  {
    if ls == [] {
      q := 0;
    } else {
      var r := KraftMultiple(ls[1..], m, l);
      q := r + Pow2(l - ls[0]);
      Pow2Add(l - ls[0], m - l);
      MulDistrib(Pow2(l - ls[0]), r, Pow2(m - l));
    }
  }

  lemma Slack(q: nat, p: nat, d: nat, e: nat)
    requires e + q * d <= p * d && e > 0 && d > 0
    ensures q < p && d + q * d <= p * d
  {
    MulOrder(0, q, p, d);
    MulDistrib(q + 1, p - q - 1, d);
    MulDistrib(q, 1, d);
  }

  // A longest code word whose sibling is unused can be shortened to the second longest.
  lemma Shorten(l0: nat, ks: seq<nat>, m: nat)
    requires ks != [] && l0 <= m && Below(ks, ks[0]) && ks[0] <= l0
    requires Pow2(m - l0) + Kraft(ks, m) <= Pow2(m)
    ensures ks[0] > 0 && Kraft(JoinedLengths(ks), m) <= Pow2(m)
  {
    hide Pow2;
    var l := ks[0];
    var d := Pow2(m - l);
    var q := KraftMultiple(ks, m, l);
    Pow2Add(l, m - l);
    Slack(q, Pow2(l), d, Pow2(m - l0));
    Pow2Values();
    assert l > 0;
    assert JoinedLengths(ks)[1..] == ks[1..];
    assert Pow2(m - (l - 1)) == 2 * d by {
      Pow2Add(m - l, 1);
    }
  }

  lemma LeastIs(a: nat, w: multiset<nat>)
    requires IsLeast(a, w)
    ensures w != multiset{} && Least(w) == a
  {
  }

  // The two weights Huffman's procedure merges.
  lemma LeastTwo(w: multiset<nat>, a: nat, b: nat)
    requires IsLeast(a, w) && IsLeast(b, w - multiset{a})
    ensures HuffmanOf(w) == a + b + HuffmanOf(Merged(w, a, b))
  {
    LeastIs(a, w);
    LeastIs(b, w - multiset{a});
    hide Least, IsLeast;
    assert |w - multiset{a}| == |w| - 1;
  }

  lemma FrontIsLeast(vs: seq<nat>)
    requires vs != [] && forall j :: 0 <= j < |vs| ==> vs[0] <= vs[j]
    ensures IsLeast(vs[0], multiset(vs))
    ensures multiset(vs) - multiset{vs[0]} == multiset(vs[1..])
  {
    assert vs == [vs[0]] + vs[1..];
  }

  lemma MergeArithmetic(a: nat, b: nat, k: nat, l: nat)
    requires 0 < l <= k
    ensures Times(a, k) + Times(b, l) >= a + b + Times(a + b, l - 1)
  {
    assert a * (k - l) >= 0;
    assert (a + b) * (l - 1) + (a + b) == a * l + b * l;
  }

  // The sequence after merging the front weights.
  function Joined(a: nat, us: seq<nat>): seq<nat>
    requires us != []
  {
    [a + us[0]] + us[1..]
  }

  function JoinedLengths(js: seq<nat>): seq<nat>
    requires js != [] && js[0] > 0
  {
    [js[0] - 1] + js[1..]
  }

  lemma JoinedDot(a: nat, us: seq<nat>, js: seq<nat>)
    requires |us| == |js| > 0 && js[0] > 0
    ensures |Joined(a, us)| == |JoinedLengths(js)| == |us|
    ensures Dot(Joined(a, us), JoinedLengths(js)) == Times(a + us[0], js[0] - 1) + Dot(us[1..], js[1..])
  {
    hide Times;
    assert Joined(a, us)[1..] == us[1..];
    assert JoinedLengths(js)[1..] == js[1..];
  }

  // Merging the two, with the shorter length less one for the sum, saves at least the sum.
  lemma MergedCost(vs: seq<nat>, ks: seq<nat>, us: seq<nat>, js: seq<nat>)
    requires |vs| == |ks| > 0 && |us| == |js| > 0 && 0 < js[0] <= ks[0]
    requires Dot(us, js) <= Dot(vs[1..], ks[1..])
    ensures |Joined(vs[0], us)| == |JoinedLengths(js)| == |us|
    ensures Dot(vs, ks) >= vs[0] + us[0] + Dot(Joined(vs[0], us), JoinedLengths(js))
  {
    hide Dot, Times, Joined, JoinedLengths;
    DotFirst(vs, ks);
    MergeArithmetic(vs[0], us[0], ks[0], js[0]);
    DotFirst(us, js);
    JoinedDot(vs[0], us, js);
  }

  lemma FirstOut(s: seq<nat>)
    requires s != []
    ensures multiset(s) == multiset{s[0]} + multiset(s[1..])
  {
    assert s == [s[0]] + s[1..];
  }

  lemma MergedIs(w: multiset<nat>, a: nat, b: nat, rest: multiset<nat>)
    requires w == multiset{a} + (multiset{b} + rest)
    ensures a in w && b in w - multiset{a}
    ensures Merged(w, a, b) == multiset{a + b} + rest
  {
    assert w - multiset{a} == multiset{b} + rest;
    assert multiset{b} + rest - multiset{b} == rest;
  }

  lemma JoinedMultiset(vs: seq<nat>, us: seq<nat>)
    requires |vs| >= 2 && us != [] && multiset(us) == multiset(vs[1..])
    ensures us[0] in multiset(vs) - multiset{vs[0]}
    ensures multiset(Joined(vs[0], us)) == Merged(multiset(vs), vs[0], us[0])
  {
    hide Merged;
    FirstOut(vs);
    FirstOut(us);
    MergedIs(multiset(vs), vs[0], us[0], multiset(us[1..]));
    assert multiset(Joined(vs[0], us)) == multiset{vs[0] + us[0]} + multiset(us[1..]);
  }

  lemma MergedWeights(vs: seq<nat>, us: seq<nat>)
    requires |vs| >= 2 && us != [] && multiset(us) == multiset(vs[1..])
    requires forall j :: 0 <= j < |vs| ==> vs[0] <= vs[j]
    requires forall j :: 0 <= j < |us| ==> us[0] <= us[j]
    ensures HuffmanOf(multiset(vs)) == vs[0] + us[0] + HuffmanOf(multiset(Joined(vs[0], us)))
  {
    hide HuffmanOf, IsLeast, Joined, Merged;
    FrontIsLeast(vs);
    FrontIsLeast(us);
    LeastTwo(multiset(vs), vs[0], us[0]);
    JoinedMultiset(vs, us);
  }

  // Huffman's procedure is optimal among all code lengths that satisfy Kraft's inequality.
  lemma {:induction false} HuffmanIsOptimal(ws: seq<nat>, ls: seq<nat>, m: nat)
    requires |ws| == |ls| && Below(ls, m) && Kraft(ls, m) <= Pow2(m)
    ensures HuffmanOf(multiset(ws)) <= Dot(ws, ls)
    decreases |ws|
  {
    hide HuffmanOf, Pow2, Dot, Joined;
    if |ws| >= 2 {
      var vs, ks := Front(ws, ls, m, m);
      var us, js := Front(vs[1..], ks[1..], m, ks[0]);
      Shorten(ks[0], js, m);
      MergedCost(vs, ks, us, js);
      MergedWeights(vs, us);
      HuffmanIsOptimal(Joined(vs[0], us), JoinedLengths(js), m);
    } else {
      NothingToMerge(ws);
    }
  }

  lemma NothingToMerge(ws: seq<nat>)
    requires |ws| <= 1
    ensures HuffmanOf(multiset(ws)) == 0
  {
  }

  // ----- Prefix codes -----

  type Code = seq<bool>

  predicate Apart(v: Code, w: Code) {
    !(v <= w) && !(w <= v)
  }

  // No code word is a prefix of another.
  ghost predicate PrefixFree(codes: seq<Code>) {
    codes == [] || ((forall j :: 1 <= j < |codes| ==> Apart(codes[0], codes[j])) && PrefixFree(codes[1..]))
  }

  function Lengths(codes: seq<Code>): (ls: seq<nat>)
    ensures |ls| == |codes| && forall i :: 0 <= i < |ls| ==> ls[i] == |codes[i]|
  {
    seq(|codes|, i requires 0 <= i < |codes| => |codes[i]|)
  }

  // The code words that start with b, without it.
  function Tails(codes: seq<Code>, b: bool): (ts: seq<Code>) {
    if codes == [] then []
    else (if codes[0] != [] && codes[0][0] == b then [codes[0][1..]] else []) + Tails(codes[1..], b)
  }

  lemma {:induction false} TailsFrom(codes: seq<Code>, b: bool, t: Code)
    requires t in Tails(codes, b)
    ensures [b] + t in codes
  {
    if codes[0] != [] && codes[0][0] == b && t == codes[0][1..] {
      assert codes[0] == [b] + t;
    } else {
      TailsFrom(codes[1..], b, t);
    }
  }

  lemma {:induction false} TailsPrefixFree(codes: seq<Code>, b: bool)
    requires PrefixFree(codes)
    ensures PrefixFree(Tails(codes, b))
  {
    if codes != [] {
      TailsPrefixFree(codes[1..], b);
      if codes[0] != [] && codes[0][0] == b {
        var ts := Tails(codes, b);
        assert ts[1..] == Tails(codes[1..], b);
        forall j | 1 <= j < |ts|
          ensures Apart(ts[0], ts[j])
        {
          TailsFrom(codes[1..], b, ts[1..][j - 1]);
          assert codes[0] == [b] + ts[0];
        }
      } else {
        assert Tails(codes, b) == Tails(codes[1..], b);
      }
    }
  }

  lemma KraftFirst(codes: seq<Code>, m: nat)
    requires codes != [] && |codes[0]| <= m && Below(Lengths(codes[1..]), m)
    ensures Below(Lengths(codes), m)
    ensures Kraft(Lengths(codes), m) == Pow2(m - |codes[0]|) + Kraft(Lengths(codes[1..]), m)
  {
    assert Lengths(codes)[1..] == Lengths(codes[1..]);
  }

  lemma TailsFirst(codes: seq<Code>, b: bool)
    requires codes != [] && codes[0] != []
    ensures codes[0][0] == b ==> Tails(codes, b) == [codes[0][1..]] + Tails(codes[1..], b)
    ensures codes[0][0] != b ==> Tails(codes, b) == Tails(codes[1..], b)
  {
  }

  lemma {:induction false} KraftSplits(codes: seq<Code>, m: nat)
    requires m > 0 && Below(Lengths(codes), m) && [] !in codes
    ensures Below(Lengths(Tails(codes, false)), m - 1) && Below(Lengths(Tails(codes, true)), m - 1)
    ensures Kraft(Lengths(codes), m)
         == Kraft(Lengths(Tails(codes, false)), m - 1) + Kraft(Lengths(Tails(codes, true)), m - 1)
  {
    if codes == [] {
      assert Lengths(codes) == [];
    } else {
      hide Kraft, Tails, Pow2;
      var rest, b := codes[1..], codes[0][0];
      assert Lengths(codes)[0] <= m;
      assert Below(Lengths(rest), m) by {
        assert Lengths(codes)[1..] == Lengths(rest);
      }
      KraftSplits(rest, m);
      KraftFirst(codes, m);
      TailsFirst(codes, false);
      TailsFirst(codes, true);
      assert Tails(codes, b)[1..] == Tails(rest, b);
      KraftFirst(Tails(codes, b), m - 1);
    }
  }

  // Kraft's inequality.
  lemma {:induction false} PrefixCodesSatisfyKraft(codes: seq<Code>, m: nat)
    requires PrefixFree(codes) && Below(Lengths(codes), m)
    ensures Kraft(Lengths(codes), m) <= Pow2(m)
    decreases m
  {
    if |codes| <= 1 {
      if |codes| == 1 {
        Pow2Monotonic(m - |codes[0]|, m);
        assert Lengths(codes)[1..] == [];
      }
    } else {
      NoEmptyWord(codes);
      assert Lengths(codes)[0] > 0;
      KraftSplits(codes, m);
      TailsPrefixFree(codes, false);
      TailsPrefixFree(codes, true);
      PrefixCodesSatisfyKraft(Tails(codes, false), m - 1);
      PrefixCodesSatisfyKraft(Tails(codes, true), m - 1);
    }
  }

  lemma {:induction false} NoEmptyWord(codes: seq<Code>)
    requires PrefixFree(codes) && |codes| >= 2
    ensures [] !in codes
  {
    assert Apart(codes[0], codes[1]);
    if |codes| > 2 {
      NoEmptyWord(codes[1..]);
    }
  }

  // No prefix code for the weights costs less than Huffman's procedure.
  lemma HuffmanBeatsPrefixCodes(ws: seq<nat>, codes: seq<Code>)
    requires |ws| == |codes| && PrefixFree(codes)
    ensures HuffmanOf(multiset(ws)) <= Dot(ws, Lengths(codes))
  {
    if codes != [] {
      var p := LargestAt(Lengths(codes));
      var m := Lengths(codes)[p];
      PrefixCodesSatisfyKraft(codes, m);
      HuffmanIsOptimal(ws, Lengths(codes), m);
    } else {
      NothingToMerge(ws);
    }
  }
}
