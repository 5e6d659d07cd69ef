// A scan whose code lengths overflow: the Fibonacci counts are those of actual blocks.
module OverflowExample {
  import opened Powers
  import opened DecisionModel
  import opened HuffmanMerge
  import opened HuffmanDepth
  import opened HuffmanTable
  import opened HuffmanItems
  import opened HuffmanScan
  import opened HuffmanRoundTrip

  // ----- Blocks for given symbols -----

  // A run of zeros and a positive value make the symbol.
  function Coefs(s: nat): (t: seq<int>)
    requires 0 < s % 16
    ensures |t| == s / 16 + 1
  {
    seq(s / 16, _ => 0) + [Pow2(s % 16 - 1)]
  }

  predicate Writable(symbols: seq<nat>) {
    forall i :: 0 <= i < |symbols| ==> 0 < symbols[i] % 16 <= MAX_COEF_BITS && symbols[i] / 16 < 16
  }

  function AllCoefs(symbols: seq<nat>): seq<int>
    requires Writable(symbols)
  {
    if symbols == [] then [] else Coefs(symbols[0]) + AllCoefs(symbols[1..])
  }

  // A block with these symbols, an end of block, and a DC coefficient of zero.
  function BlockFor(symbols: seq<nat>): (t: seq<int>)
    requires Writable(symbols) && |AllCoefs(symbols)| < 63
    ensures |t| == 64 && t[0] == 0
  {
    [0] + AllCoefs(symbols) + seq(63 - |AllCoefs(symbols)|, _ => 0)
  }

  lemma {:induction false} NBitsOfPower(n: nat)
    ensures Pow2(n) > 0 && NBits(Pow2(n)) == n + 1
  {
    if n > 0 {
      NBitsOfPower(n - 1);
    }
  }

  // A run of zeros is passed over.
  lemma {:induction false} ZerosPass(tbl: nat, t: seq<int>, k: nat, r: nat, n: nat)
    requires k + n <= |t| && forall i :: k <= i < k + n ==> t[i] == 0
    ensures AcItems(tbl, t, k, r) == AcItems(tbl, t, k + n, r + n)
    decreases n
  {
    if n > 0 {
      ZerosPass(tbl, t, k + 1, r + 1, n - 1);
    }
  }

  // How often symbol s of the AC table is among the items.
  ghost function Occurs(items: seq<Item>, tbl: nat, s: nat): nat {
    multiset(items)[Symbol(false, tbl, s)]
  }

  lemma OccursJoin(a: seq<Item>, b: seq<Item>, tbl: nat, s: nat)
    ensures Occurs(a + b, tbl, s) == Occurs(a, tbl, s) + Occurs(b, tbl, s)
  {
  }

  function Among(symbols: seq<nat>, s: nat): nat {
    multiset(symbols)[s]
  }

  // The items from the first of the symbols on.
  lemma {:induction false} SymbolsOf(tbl: nat, t: seq<int>, k: nat, symbols: seq<nat>, s: nat)
    requires Writable(symbols) && k + |AllCoefs(symbols)| < |t|
    requires t[k..] == AllCoefs(symbols) + seq(|t| - k - |AllCoefs(symbols)|, _ => 0)
    ensures Occurs(AcItems(tbl, t, k, 0), tbl, s) == Among(symbols, s) + if s == 0 then 1 else 0
    decreases |symbols|
  {
    hide AcItems, Occurs, Coefs, AllCoefs, Among, Pow2;
    if symbols == [] {
      EndSymbol(tbl, t, k, s);
      AmongNone(s);
    } else {
      FirstCoefs(t, k, symbols);
      var x, rest := symbols[0], symbols[1..];
      OneSymbol(tbl, t, k, x, s);
      SymbolsOf(tbl, t, k + x / 16 + 1, rest, s);
      AmongFirst(symbols, s);
    }
  }

  lemma AmongNone(s: nat)
    ensures Among([], s) == 0
  {
  }

  lemma AmongFirst(symbols: seq<nat>, s: nat)
    requires symbols != []
    ensures Among(symbols, s) == Among(symbols[1..], s) + if symbols[0] == s then 1 else 0
  {
    assert symbols == [symbols[0]] + symbols[1..];
  }

  lemma EndSymbol(tbl: nat, t: seq<int>, k: nat, s: nat)
    requires k < |t| && t[k..] == AllCoefs([]) + seq(|t| - k - |AllCoefs([])|, _ => 0)
    ensures Occurs(AcItems(tbl, t, k, 0), tbl, s) == if s == 0 then 1 else 0
  {
    assert forall i :: k <= i < |t| ==> t[i] == t[k..][i - k];
    ZerosPass(tbl, t, k, 0, |t| - k);
    assert AcItems(tbl, t, k, 0) == [Symbol(false, tbl, 0)];
  }

  lemma OccursNot(items: seq<Item>, tbl: nat, s: nat)
    requires forall i :: i in items ==> i.Extra?
    ensures Occurs(items, tbl, s) == 0
  {
    assert Symbol(false, tbl, s) !in items;
  }

  lemma OccursOnce(tbl: nat, x: nat, s: nat)
    ensures Occurs([Symbol(false, tbl, x)], tbl, s) == if x == s then 1 else 0
  {
  }

  lemma OneSymbol(tbl: nat, t: seq<int>, k: nat, x: nat, s: nat)
    requires 0 < x % 16 <= MAX_COEF_BITS && x / 16 < 16 && k + x / 16 < |t|
    requires (forall i :: k <= i < k + x / 16 ==> t[i] == 0) && t[k + x / 16] == Pow2(x % 16 - 1)
    ensures Occurs(AcItems(tbl, t, k, 0), tbl, s)
         == (if x == s then 1 else 0) + Occurs(AcItems(tbl, t, k + x / 16 + 1, 0), tbl, s)
  {
    hide AcItems, ValueItems, Pow2, Occurs;
    var r, n := x / 16, x % 16;
    ZerosPass(tbl, t, k, 0, r);
    FirstSymbol(tbl, t, k + r, r, n);
    OccursJoin([Symbol(false, tbl, x)] + ValueItems(t[k + r]), AcItems(tbl, t, k + r + 1, 0), tbl, s);
    OccursJoin([Symbol(false, tbl, x)], ValueItems(t[k + r]), tbl, s);
    OccursNot(ValueItems(t[k + r]), tbl, s);
    OccursOnce(tbl, x, s);
    assert 16 * r + n == x;
  }

  lemma FirstCoefs(t: seq<int>, k: nat, symbols: seq<nat>)
    requires Writable(symbols) && symbols != [] && k + |AllCoefs(symbols)| < |t|
    requires t[k..] == AllCoefs(symbols) + seq(|t| - k - |AllCoefs(symbols)|, _ => 0)
    ensures var r, n, rest := symbols[0] / 16, symbols[0] % 16, symbols[1..];
      && k + r + 1 + |AllCoefs(rest)| < |t|
      && (forall i :: k <= i < k + r ==> t[i] == 0) && t[k + r] == Pow2(n - 1)
      && t[k + r + 1..] == AllCoefs(rest) + seq(|t| - (k + r + 1) - |AllCoefs(rest)|, _ => 0)
  {
    hide Pow2, AllCoefs, Coefs;
    var c, rest, zeros := Coefs(symbols[0]), AllCoefs(symbols[1..]), seq(|t| - k - |AllCoefs(symbols)|, _ => 0);
    AllCoefsAre(symbols);
    Front(t, k, c, rest, zeros);
    CoefsAre(symbols[0]);
  }

  lemma AllCoefsAre(symbols: seq<nat>)
    requires Writable(symbols) && symbols != []
    ensures AllCoefs(symbols) == Coefs(symbols[0]) + AllCoefs(symbols[1..])
  {
  }

  lemma CoefsAre(s: nat)
    requires 0 < s % 16
    ensures Coefs(s)[s / 16] == Pow2(s % 16 - 1)
    ensures forall i :: 0 <= i < s / 16 ==> Coefs(s)[i] == 0
  {
  }

  lemma Front(t: seq<int>, k: nat, c: seq<int>, rest: seq<int>, zeros: seq<int>)
    requires k <= |t| && t[k..] == c + rest + zeros
    ensures k + |c| + |rest| + |zeros| == |t| && t[k + |c|..] == rest + zeros
    ensures forall i :: k <= i < k + |c| ==> t[i] == c[i - k]
  {
    forall i | k <= i < |t|
      ensures t[i] == (c + rest + zeros)[i - k]
    {
      assert t[i] == t[k..][i - k];
    }
  }

  lemma FirstSymbol(tbl: nat, t: seq<int>, k: nat, r: nat, n: nat)
    requires k < |t| && 0 < n <= MAX_COEF_BITS && r < 16 && t[k] == Pow2(n - 1)
    ensures AcItems(tbl, t, k, r) == [Symbol(false, tbl, 16 * r + n)] + ValueItems(t[k]) + AcItems(tbl, t, k + 1, 0)
    ensures forall i :: i in ValueItems(t[k]) ==> i.Extra?
  {
    NBitsOfPower(n - 1);
    assert Zrls(tbl, r / 16) == [];
    var items := [Symbol(false, tbl, 16 * r + n)] + ValueItems(t[k]) + AcItems(tbl, t, k + 1, 0);
    assert [] + [Symbol(false, tbl, 16 * r + n)] == [Symbol(false, tbl, 16 * r + n)];
  }

  // ----- Which block has which symbols -----

  // The even symbols come in the first blocks, the odd ones in the last, each as often as it
  // should. As the largest two counts add up to the number of blocks, no block has both kinds.
  function Blocks(): nat {
    3524578
  }

  function EvenBlocks(): nat {
    1346269
  }

  lemma BlocksIs()
    ensures Blocks() == Fib(33) && EvenBlocks() == Fib(31) && Blocks() < SENTINEL
  {
    hide Fib;
    Fib35();
  }

  predicate HasSymbol(b: nat, i: nat)
    requires 0 < i <= 32
  {
    if i % 2 == 0 then b < Fib(33 - i) else b + Fib(33 - i) >= Blocks()
  }

  // The symbols of block b from number i on.
  function SymbolsFrom(b: nat, i: nat): (symbols: seq<nat>)
    requires 0 < i <= 33
    decreases 33 - i
  {
    if i == 33 then [] else (if HasSymbol(b, i) then [Label(i)] else []) + SymbolsFrom(b, i + 1)
  }

  lemma LabelParts(i: nat)
    requires 0 < i <= 32
    ensures Label(i) / 16 == (i - 1) / 10 && Label(i) % 16 == (i - 1) % 10 + 1
  {
  }

  lemma {:induction false} SymbolsAreWritable(b: nat, i: nat)
    requires 0 < i <= 33
    ensures Writable(SymbolsFrom(b, i))
    decreases 33 - i
  {
    hide HasSymbol, Label;
    if i < 33 {
      SymbolsAreWritable(b, i + 1);
      LabelParts(i);
    }
  }

  // Symbol i is of the kind that block b has.
  predicate Kind(b: nat, i: nat) {
    (i % 2 == 0) == (b < EvenBlocks())
  }

  lemma KindsAlternate(b: nat, i: nat)
    ensures Kind(b, i + 1) == !Kind(b, i)
  {
  }

  lemma HasOneKind(b: nat, i: nat)
    requires b < Blocks() && 0 < i <= 32
    ensures HasSymbol(b, i) ==> Kind(b, i)
  {
    hide Fib, Blocks, EvenBlocks;
    BlocksIs();
    FibNext(31);
    if i % 2 == 0 {
      FibGrows(33 - i, 31);
    } else {
      FibGrows(33 - i, 32);
    }
  }

  // How long the symbols from number i on can get: sixteen of one kind, all but the last with
  // runs of at most two zeros.
  function Room(mine: bool, i: nat): nat
    requires i <= 33
  {
    if i == 33 || (i == 32 && !mine) then 0 else 4 + 3 * ((if mine then 32 - i else 31 - i) / 2)
  }

  lemma {:induction false} SymbolsAreShort(b: nat, i: nat)
    requires b < Blocks() && 0 < i <= 33
    ensures Writable(SymbolsFrom(b, i)) && |AllCoefs(SymbolsFrom(b, i))| <= Room(Kind(b, i), i)
    decreases 33 - i
  {
    hide *;
    SymbolsAreWritable(b, i);
    if i < 33 {
      SymbolsAreShort(b, i + 1);
      HasOneKind(b, i);
      LabelParts(i);
      RoomNext(i);
      KindsAlternate(b, i);
      OneMoreSymbol(b, i);
    } else {
      NoSymbol(b);
    }
  }

  lemma OneMoreSymbol(b: nat, i: nat)
    requires 0 < i <= 32
    ensures Writable(SymbolsFrom(b, i)) && Writable(SymbolsFrom(b, i + 1))
    ensures |AllCoefs(SymbolsFrom(b, i))| ==
      |AllCoefs(SymbolsFrom(b, i + 1))| + if HasSymbol(b, i) then Label(i) / 16 + 1 else 0
  {
    hide HasSymbol, Fib, Label;
    SymbolsAreWritable(b, i);
    SymbolsAreWritable(b, i + 1);
    if HasSymbol(b, i) {
      assert SymbolsFrom(b, i)[1..] == SymbolsFrom(b, i + 1);
    } else {
      assert SymbolsFrom(b, i) == SymbolsFrom(b, i + 1);
    }
  }

  lemma NoSymbol(b: nat)
    ensures Writable([]) && SymbolsFrom(b, 33) == [] && AllCoefs([]) == []
  {
  }

  lemma RoomNext(i: nat)
    requires 0 < i <= 32
    ensures Room(true, i) >= Room(false, i + 1) + (i - 1) / 10 + 1 && Room(false, i) >= Room(true, i + 1)
  {
  }

  // ----- How often each symbol comes -----

  lemma {:induction false} SymbolAmong(b: nat, i: nat, s: nat)
    requires 0 < i <= 33
    ensures Among(SymbolsFrom(b, i), s) == if i <= IndexOf(s) <= 32 && HasSymbol(b, IndexOf(s)) then 1 else 0
    decreases 33 - i
  {
    hide HasSymbol, Label, IndexOf, Among;
    if i < 33 {
      var symbols, rest := SymbolsFrom(b, i), SymbolsFrom(b, i + 1);
      SymbolAmong(b, i + 1, s);
      LabelIs(i);
      IndexIs(s);
      if HasSymbol(b, i) {
        assert symbols == [Label(i)] + rest && symbols[1..] == rest;
        AmongFirst(symbols, s);
      } else {
        assert symbols == rest;
      }
    } else {
      AmongNone(s);
    }
  }

  // In how many of the blocks from b on.
  function HasFrom(i: nat, b: nat): nat
    requires 0 < i <= 32 && b <= Blocks()
    decreases Blocks() - b
  {
    if b == Blocks() then 0 else (if HasSymbol(b, i) then 1 else 0) + HasFrom(i, b + 1)
  }

  lemma {:induction false} HasCount(i: nat, b: nat)
    requires 0 < i <= 32 && b <= Blocks()
    ensures Fib(33 - i) <= Blocks()
    ensures HasFrom(i, b) == if i % 2 == 0 then (if b < Fib(33 - i) then Fib(33 - i) - b else 0)
                             else if b + Fib(33 - i) >= Blocks() then Blocks() - b else Fib(33 - i)
    decreases Blocks() - b
  {
    hide Fib, Blocks;
    BlocksIs();
    FibGrows(33 - i, 33);
    if b < Blocks() {
      HasCount(i, b + 1);
    }
  }

  // ----- The scan -----

  // A sequential scan of one component with one block an MCU, no restarts, and whole blocks.
  function ExampleScan(): Scan {
    Scan(false, 0, 63, 0, 0, 0, [0], [0], [0], seq(16, _ => 0), seq(16, _ => 1), seq(16, _ => 5), seq(64, k => k))
  }

  lemma ExampleIsValid()
    ensures ValidHuffmanScan(ExampleScan())
  {
    assert forall k :: 0 <= k <= 63 ==> ExampleScan().order[k] == k;
  }

  function ExampleBlock(b: nat): (t: seq<int>)
    requires b < Blocks()
    ensures |t| == 64 && t[0] == 0
  {
    hide *;
    SymbolsAreShort(b, 1);
    RoomIs();
    BlockFor(SymbolsFrom(b, 1))
  }

  function ExampleMcus(): (mcus: seq<Mcu>)
    ensures |mcus| == Blocks() && forall b :: 0 <= b < |mcus| ==> mcus[b] == [ExampleBlock(b)]
  {
    seq(Blocks(), b requires 0 <= b < Blocks() => [ExampleBlock(b)])
  }

  // No prediction ever differs from zero.
  const NO_DC: seq<int> := [0, 0, 0, 0]

  ghost function ItemsFrom(b: nat): seq<Item>
    requires b <= Blocks()
  {
    ExampleMcusAreValid();
    ScanItems(ExampleScan(), 0, NO_DC, ExampleMcus(), b)
  }

  lemma ExampleMcusAreValid()
    ensures ValidHuffmanScan(ExampleScan()) && McusOfScan(ExampleScan(), ExampleMcus())
  {
    ExampleIsValid();
    hide ExampleBlock;
  }

  lemma ItemsNext(b: nat)
    requires b < Blocks()
    ensures ItemsFrom(b) == [Symbol(true, 0, 0)] + AcItems(0, ExampleBlock(b), 1, 0) + ItemsFrom(b + 1)
  {
    ExampleMcusAreValid();
    hide AcItems, ValidHuffmanScan, ExampleBlock, ScanItems;
    var p, mcus, t := ExampleScan(), ExampleMcus(), ExampleBlock(b);
    McuIs(t);
    ScanNext(b);
    assert DcItems(0, 0) == [Symbol(true, 0, 0)];
  }

  lemma McuIs(t: seq<int>)
    requires |t| == 64 && t[0] == 0
    ensures ValidHuffmanScan(ExampleScan()) && ValidBlocks(ExampleScan(), [t])
    ensures McuItems(ExampleScan(), NO_DC, [t], 0) == DcItems(0, 0) + AcItems(0, t, 1, 0)
    ensures LastAfter(ExampleScan(), NO_DC, [t], 0) == NO_DC
    ensures McuInRange(ExampleScan(), NO_DC, [t], 0) <==> InRange(t, 0)
  {
    ExampleIsValid();
    hide AcItems, ValidHuffmanScan, InRange;
    var items := McuItems(ExampleScan(), NO_DC, [t], 1);
    assert items == [];
    assert BlockItems(0, 0, t, 0) + [] == BlockItems(0, 0, t, 0);
    assert NO_DC[0 := 0] == NO_DC;
    assert LastAfter(ExampleScan(), NO_DC, [t], 1) == NO_DC;
    assert McuInRange(ExampleScan(), NO_DC, [t], 1);
  }

  lemma ScanNext(b: nat)
    requires b < Blocks()
    ensures ValidHuffmanScan(ExampleScan()) && ValidBlocks(ExampleScan(), ExampleMcus()[b])
    ensures ItemsFrom(b) == McuItems(ExampleScan(), NO_DC, ExampleMcus()[b], 0)
      + ScanItems(ExampleScan(), 0, LastAfter(ExampleScan(), NO_DC, ExampleMcus()[b], 0), ExampleMcus(), b + 1)
  {
    ExampleMcusAreValid();
    hide McuItems, LastAfter, ValidHuffmanScan, ExampleBlock, ExampleMcus;
  }

  // The AC items of a block.
  lemma {:induction false} AcItemsAre(t: seq<int>, k: nat, r: nat)
    requires k <= |t|
    ensures forall i :: i in AcItems(0, t, k, r) ==> i.Symbol? ==> !i.isDc && i.tbl == 0
    decreases |t| - k
  {
    hide NBits, ExtraOf;
    if k < |t| {
      if t[k] == 0 {
        AcItemsAre(t, k + 1, r + 1);
      } else {
        AcItemsAre(t, k + 1, 0);
      }
    }
  }

  lemma {:induction false} OtherTables(b: nat, isDc: bool, tbl: nat, s: nat)
    requires b <= Blocks() && (isDc || tbl != 0)
    ensures multiset(ItemsFrom(b))[Symbol(isDc, tbl, s)] == if isDc && tbl == 0 && s == 0 then Blocks() - b else 0
    decreases Blocks() - b
  {
    hide ItemsFrom, AcItems, ExampleBlock, Fib, Blocks;
    var i := Symbol(isDc, tbl, s);
    if b < Blocks() {
      var ac := AcItems(0, ExampleBlock(b), 1, 0);
      ItemsNext(b);
      OtherTables(b + 1, isDc, tbl, s);
      AcItemsAre(ExampleBlock(b), 1, 0);
      NotAmong(ac, i);
      CountJoin([Symbol(true, 0, 0)], ac, ItemsFrom(b + 1), i);
    } else {
      NoItemsLeft();
    }
  }

  lemma NotAmong(items: seq<Item>, i: Item)
    requires i.Symbol? && (i.isDc || i.tbl != 0)
    requires forall x :: x in items ==> x.Symbol? ==> !x.isDc && x.tbl == 0
    ensures multiset(items)[i] == 0
  {
    assert i !in items;
  }

  lemma CountJoin(a: seq<Item>, b: seq<Item>, c: seq<Item>, i: Item)
    ensures multiset(a + b + c)[i] == multiset(a)[i] + multiset(b)[i] + multiset(c)[i]
  {
  }

  // How often an AC symbol should come from block b on, and in block b.
  function Expected(b: nat, s: nat): nat
    requires b <= Blocks()
  {
    if s == 0 then Blocks() - b else if IndexOf(s) <= 32 then HasFrom(IndexOf(s), b) else 0
  }

  function ExpectedIn(b: nat, s: nat): nat {
    if s == 0 then 1 else if IndexOf(s) <= 32 && HasSymbol(b, IndexOf(s)) then 1 else 0
  }

  lemma ExpectedNext(b: nat, s: nat)
    requires b < Blocks()
    ensures Expected(b, s) == ExpectedIn(b, s) + Expected(b + 1, s)
  {
    hide Fib, Blocks, HasSymbol;
  }

  lemma NothingExpected(s: nat)
    ensures Expected(Blocks(), s) == 0
  {
    hide Fib, Blocks, HasSymbol;
  }

  // The AC symbols of the scan.
  lemma {:induction false} ScanOccurs(b: nat, s: nat)
    requires b <= Blocks()
    ensures Occurs(ItemsFrom(b), 0, s) == Expected(b, s)
    decreases Blocks() - b
  {
    hide ItemsFrom, AcItems, ExampleBlock, Fib, Blocks, Expected, ExpectedIn;
    if b < Blocks() {
      BlockOccurs(b, s);
      ItemsNext(b);
      ScanOccurs(b + 1, s);
      CountJoin([Symbol(true, 0, 0)], AcItems(0, ExampleBlock(b), 1, 0), ItemsFrom(b + 1), Symbol(false, 0, s));
      ExpectedNext(b, s);
    } else {
      NoItemsLeft();
      NothingExpected(s);
    }
  }

  lemma NoItemsLeft()
    ensures ItemsFrom(Blocks()) == []
  {
    ExampleMcusAreValid();
    hide Fib, Blocks, ExampleBlock;
  }

  lemma BlockOccurs(b: nat, s: nat)
    requires b < Blocks()
    ensures Occurs(AcItems(0, ExampleBlock(b), 1, 0), 0, s) == ExpectedIn(b, s)
  {
    hide HasSymbol, Fib, Blocks, AcItems, Occurs, SymbolsFrom, IndexOf, AllCoefs, Room;
    SymbolsAreShort(b, 1);
    RoomIs();
    var symbols, t := SymbolsFrom(b, 1), ExampleBlock(b);
    SymbolAmong(b, 1, s);
    BlockIs(symbols);
    SymbolsOf(0, t, 1, symbols, s);
    IndexOfNothing(s);
  }

  lemma RoomIs()
    ensures Room(true, 1) < 63 && Room(false, 1) < 63
  {
  }

  lemma BlockIs(symbols: seq<nat>)
    requires Writable(symbols) && |AllCoefs(symbols)| < 63
    ensures var t := BlockFor(symbols);
      t[1..] == AllCoefs(symbols) + seq(|t| - 1 - |AllCoefs(symbols)|, _ => 0)
  {
  }

  lemma IndexOfNothing(s: nat)
    ensures s == 0 <==> IndexOf(s) == 0
  {
  }

  // ----- All of it in range -----

  lemma {:induction false} CoefsInRange(symbols: seq<nat>)
    requires Writable(symbols)
    ensures forall i :: 0 <= i < |AllCoefs(symbols)| ==> NBits(Abs(AllCoefs(symbols)[i])) <= MAX_COEF_BITS
  {
    hide NBits, Pow2;
    if symbols != [] {
      CoefsInRange(symbols[1..]);
      NBitsOfPower(symbols[0] % 16 - 1);
      NoBits();
      assert forall i :: 0 <= i < |Coefs(symbols[0])| ==> NBits(Abs(Coefs(symbols[0])[i])) <= MAX_COEF_BITS;
    }
  }

  lemma NoBits()
    ensures NBits(0) == 0 && Abs(0) == 0
  {
  }

  lemma BlockInRange(b: nat)
    requires b < Blocks()
    ensures InRange(ExampleBlock(b), 0)
  {
    hide NBits, Fib, Blocks, SymbolsFrom;
    SymbolsAreShort(b, 1);
    CoefsInRange(SymbolsFrom(b, 1));
    NoBits();
    hide AllCoefs;
  }

  lemma {:induction false} ExampleInRange(b: nat)
    requires b <= Blocks()
    ensures ValidHuffmanScan(ExampleScan()) && McusOfScan(ExampleScan(), ExampleMcus())
    ensures ScanInRange(ExampleScan(), 0, NO_DC, ExampleMcus(), b)
    decreases Blocks() - b
  {
    ExampleMcusAreValid();
    hide ValidHuffmanScan, ExampleBlock, McusOfScan, Fib, Blocks, McuInRange, LastAfter, InRange;
    if b < Blocks() {
      BlockInRange(b);
      McuIs(ExampleBlock(b));
      ExampleInRange(b + 1);
    }
  }

  // ----- The result -----

  lemma CountsAreFibonacci()
    ensures Weights(SymbolCounts(ItemsFrom(0), false, 0)) == FibonacciCounts()
  {
    hide ItemsFrom, Fib, Blocks, HasFrom, IndexOf, HasSymbol;
    var w, v := Weights(SymbolCounts(ItemsFrom(0), false, 0)), FibonacciCounts();
    BlocksIs();
    forall s | 0 <= s < SYMBOLS
      ensures w[s] == v[s]
    {
      ScanOccurs(0, s);
      IndexOfNothing(s);
      if s != 0 && IndexOf(s) <= 32 {
        HasCount(IndexOf(s), 0);
        FibPositive(33 - IndexOf(s));
      }
    }
  }

  lemma FibPositive(n: nat)
    requires n > 0
    ensures Fib(n) > 0
  {
  }

  lemma TotalsAreSmall()
    ensures CountsBelow(ItemsFrom(0), SENTINEL) && TableTotal(ItemsFrom(0), false, 0) == 9227464
  {
    hide ItemsFrom, Fib, Blocks, Total, TableTotal;
    BlocksIs();
    FirstTotal();
    forall j | 0 <= j < NUM_HUFF_TBLS
      ensures TableTotal(ItemsFrom(0), true, j) < SENTINEL && TableTotal(ItemsFrom(0), false, j) < SENTINEL
    {
      DcTotal(j);
      if j > 0 {
        AcTotal(j);
      }
    }
  }

  lemma FirstTotal()
    ensures TableTotal(ItemsFrom(0), false, 0) == 9227464
  {
    hide ItemsFrom, Fib, Blocks, Total, FibonacciCounts, Overflows, Weights;
    CountsAreFibonacci();
    FibonacciOverflows();
    WeightsTotal(SymbolCounts(ItemsFrom(0), false, 0));
  }

  lemma DcTotal(j: nat)
    ensures TableTotal(ItemsFrom(0), true, j) <= Blocks()
  {
    hide ItemsFrom, Fib, Blocks, Total;
    var counts := SymbolCounts(ItemsFrom(0), true, j);
    forall s | 0 <= s < 256
      ensures s != 0 ==> counts[s] == 0
      ensures counts[s] <= Blocks()
    {
      OtherTables(0, true, j, s);
    }
    OneTotal(counts, 0, 256);
  }

  lemma AcTotal(j: nat)
    requires j > 0
    ensures TableTotal(ItemsFrom(0), false, j) == 0
  {
    hide ItemsFrom, Fib, Blocks, Total;
    var counts := SymbolCounts(ItemsFrom(0), false, j);
    forall s | 0 <= s < 256
      ensures counts[s] == 0
    {
      OtherTables(0, false, j, s);
    }
    NoTotal(counts, 256);
  }

  // A scan that meets every condition of the statistics pass, all of whose coefficients are in
  // range, and for which the code lengths overflow.
  lemma OverflowIsReached()
    ensures var p, mcus := ExampleScan(), ExampleMcus();
      && ValidHuffmanScan(p) && McusOfScan(p, mcus) && ScanInRange(p, p.restart, [0, 0, 0, 0], mcus, 0)
      && var items := ScanItems(p, p.restart, [0, 0, 0, 0], mcus, 0);
         CountsBelow(items, SENTINEL) && SomeOverflows(items)
         && TableTotal(items, false, 0) == 9227464
  {
    hide ItemsFrom, Fib, Blocks, Total, Overflows, CountsBelow, TableTotal, FibonacciCounts;
    ExampleInRange(0);
    TotalsAreSmall();
    CountsAreFibonacci();
    FibonacciOverflows();
    ItemsAre();
    assert TableOverflows(ItemsFrom(0), false, 0);
  }

  lemma ItemsAre()
    ensures ValidHuffmanScan(ExampleScan()) && McusOfScan(ExampleScan(), ExampleMcus())
    ensures ItemsFrom(0) == ScanItems(ExampleScan(), ExampleScan().restart, [0, 0, 0, 0], ExampleMcus(), 0)
  {
    ExampleMcusAreValid();
  }
}
