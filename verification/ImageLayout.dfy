// The blocks of an image and the order in which scans visit them: the component and MCU dimensions
// of libs/jpeg/jcmaster.c, and the output loops of libs/jpeg/jccoefct.c.
module ImageLayout {
  import opened Powers
  import opened DecisionModel
  import opened ImageRoundTrip
  import opened ScanScript
  import opened ImageScript

  // Sampling factors, and the size in blocks without dummy blocks.
  datatype Component = Component(h: nat, v: nat, wide: nat, high: nat)

  // The components, and how many MCUs an interleaved scan has in a row and in a column.
  datatype Frame = Frame(comps: seq<Component>, perRow: nat, rows: nat)

  ghost predicate ValidFrame(f: Frame) {
    && f.perRow > 0 && f.rows > 0
    && forall c :: 0 <= c < |f.comps| ==> ValidComponent(f, f.comps[c])
  }

  // The MCUs cover the component, and the last row and column of MCUs are needed.
  predicate ValidComponent(f: Frame, c: Component) {
    && f.perRow > 0 && f.rows > 0 && c.h > 0 && c.v > 0
    && Product(f.perRow - 1, c.h) < c.wide <= Product(f.perRow, c.h)
    && Product(f.rows - 1, c.v) < c.high <= Product(f.rows, c.v)
  }

  function Product(x: nat, y: nat): nat {
    x * y
  }

  // ----- Dimensions -----

  function CeilDiv(a: nat, b: nat): nat
    requires b > 0
  {
    (a + b - 1) / b
  }

  // The least q for which q times b is enough.
  lemma CeilDivOrder(a: nat, b: nat, q: nat)
    requires b > 0
    ensures CeilDiv(a, b) <= q <==> a <= Product(q, b)
  {
    var n, r := CeilDiv(a, b), (a + b - 1) % b;
    assert a + b - 1 == n * b + r;
    if n <= q {
      MulDistrib(n, q - n, b);
    } else {
      MulDistrib(q + 1, n - q - 1, b);
      MulDistrib(q, 1, b);
    }
  }

  lemma CeilDivUnique(a: nat, b: nat, q: nat)
    requires a > 0 && b > 0 && q > 0 && Product(q - 1, b) < a <= Product(q, b)
    ensures CeilDiv(a, b) == q
  {
    CeilDivOrder(a, b, q);
    CeilDivOrder(a, b, q - 1);
  }

  lemma TimesOrder(x: nat, y: nat, z: nat)
    requires z > 0
    ensures x <= y <==> Product(x, z) <= Product(y, z)
  {
    if x <= y {
      MulDistrib(x, y - x, z);
    } else {
      MulDistrib(y, x - y, z);
      MulGrows(x - y, z);
    }
  }

  lemma TimesSwap(x: nat, y: nat, z: nat)
    ensures Product(Product(x, y), z) == Product(Product(x, z), y)
  {
    MulAssoc(x, y, z);
    MulAssoc(x, z, y);
  }

  // MCUs that cover the image cover each component, and none of their rows is all dummies.
  lemma CoversComponent(size: nat, factor: nat, unit: nat)
    requires size > 0 && factor > 0 && unit > 0
    ensures var n, blocks := CeilDiv(size, unit), CeilDiv(Product(size, factor), unit);
      n > 0 && Product(n - 1, factor) < blocks <= Product(n, factor)
  {
    hide Product, CeilDiv;
    var n, blocks := CeilDiv(size, unit), CeilDiv(Product(size, factor), unit);
    NoTimes(unit);
    CeilDivOrder(size, unit, 0);
    CeilDivOrder(size, unit, n);
    CeilDivOrder(size, unit, n - 1);
    TimesOrder(size, Product(n, unit), factor);
    TimesOrder(size, Product(n - 1, unit), factor);
    TimesSwap(n, unit, factor);
    TimesSwap(n - 1, unit, factor);
    CeilDivOrder(Product(size, factor), unit, Product(n, factor));
    CeilDivOrder(Product(size, factor), unit, Product(n - 1, factor));
  }

  lemma NoTimes(x: nat)
    ensures Product(0, x) == 0
  {
  }

  // The frame of an image of this size (initial_setup).
  function FrameOf(width: nat, height: nat, factors: seq<(nat, nat)>, maxH: nat, maxV: nat, blockSize: nat): (f: Frame)
    requires maxH > 0 && maxV > 0 && blockSize > 0
    ensures |f.comps| == |factors|
  {
    var unitH, unitV := Unit(maxH, blockSize), Unit(maxV, blockSize);
    Frame(seq(|factors|, c requires 0 <= c < |factors| =>
                Component(factors[c].0, factors[c].1,
                          CeilDiv(Product(width, factors[c].0), unitH), CeilDiv(Product(height, factors[c].1), unitV))),
          CeilDiv(width, unitH), CeilDiv(height, unitV))
  }

  // How many samples an MCU is wide or high.
  function Unit(factor: nat, blockSize: nat): (u: nat)
    requires factor > 0 && blockSize > 0
    ensures u > 0
  {
    MulGrows(factor, blockSize);
    Product(factor, blockSize)
  }

  lemma FrameIsValid(width: nat, height: nat, factors: seq<(nat, nat)>, maxH: nat, maxV: nat, blockSize: nat)
    requires width > 0 && height > 0 && maxH > 0 && maxV > 0 && blockSize > 0
    requires forall c :: 0 <= c < |factors| ==> factors[c].0 > 0 && factors[c].1 > 0
    ensures ValidFrame(FrameOf(width, height, factors, maxH, maxV, blockSize))
  {
    hide Product, CeilDiv;
    var f := FrameOf(width, height, factors, maxH, maxV, blockSize);
    CoversComponent(width, 1, Unit(maxH, blockSize));
    CoversComponent(height, 1, Unit(maxV, blockSize));
    forall c | 0 <= c < |factors|
      ensures ValidComponent(f, f.comps[c])
    {
      CoversComponent(width, factors[c].0, Unit(maxH, blockSize));
      CoversComponent(height, factors[c].1, Unit(maxV, blockSize));
    }
  }

  // Rounding up a component to whole MCUs gives the MCUs of the image, which is what lets the
  // block arrays of the controllers be allocated component by component.
  lemma RoundedUpAgree(f: Frame, c: nat)
    requires ValidFrame(f) && c < |f.comps|
    ensures f.comps[c].h > 0 && CeilDiv(f.comps[c].wide, f.comps[c].h) == f.perRow
    ensures f.comps[c].v > 0 && CeilDiv(f.comps[c].high, f.comps[c].v) == f.rows
  {
    hide Product, CeilDiv;
    assert ValidComponent(f, f.comps[c]);
    CeilDivUnique(f.comps[c].wide, f.comps[c].h, f.perRow);
    CeilDivUnique(f.comps[c].high, f.comps[c].v, f.rows);
  }

  // ----- Where the blocks are -----

  // The columns and rows of blocks of a component, dummy blocks included.
  function Columns(f: Frame, c: nat): nat
    requires c < |f.comps|
  {
    Product(f.perRow, f.comps[c].h)
  }

  function Rows(f: Frame, c: nat): nat
    requires c < |f.comps|
  {
    Product(f.rows, f.comps[c].v)
  }

  function Size(f: Frame, c: nat): nat
    requires c < |f.comps|
  {
    Product(Rows(f, c), Columns(f, c))
  }

  function Offset(f: Frame, c: nat): nat
    requires c <= |f.comps|
  {
    if c == 0 then 0 else Offset(f, c - 1) + Size(f, c - 1)
  }

  // The number of a block: component by component, row by row.
  function BlockAt(f: Frame, c: nat, y: nat, x: nat): nat
    requires c < |f.comps|
  {
    Offset(f, c) + Cell(Columns(f, c), y, x)
  }

  function Cell(columns: nat, y: nat, x: nat): nat {
    Product(y, columns) + x
  }

  lemma CellIs(rows: nat, columns: nat, y: nat, x: nat)
    requires y < rows && x < columns
    ensures Cell(columns, y, x) < Product(rows, columns)
    ensures Cell(columns, y, x) / columns == y && Cell(columns, y, x) % columns == x
  {
    MulDistrib(y + 1, rows - y - 1, columns);
    MulDistrib(y, 1, columns);
    QuotientIs(Cell(columns, y, x), columns, y, x);
  }

  lemma CellOf(rows: nat, columns: nat, k: nat)
    requires k < Product(rows, columns)
    ensures columns > 0 && k / columns < rows && k % columns < columns
    ensures Cell(columns, k / columns, k % columns) == k
  {
    var q, r := k / columns, k % columns;
    assert k == q * columns + r;
    if q >= rows {
      MulDistrib(rows, q - rows, columns);
    }
  }

  predicate IsShown(f: Frame, c: nat, y: nat, x: nat)
    requires c < |f.comps|
  {
    y < f.comps[c].high && x < f.comps[c].wide
  }

  function Owners(f: Frame, n: nat): (owner: seq<nat>)
    requires n <= |f.comps|
    ensures |owner| == Offset(f, n)
  {
    if n == 0 then [] else Owners(f, n - 1) + seq(Size(f, n - 1), _ => n - 1)
  }

  function ShownFlags(f: Frame, n: nat): (shown: seq<bool>)
    requires n <= |f.comps|
    ensures |shown| == Offset(f, n)
  {
    if n == 0 then []
    else
      var cells := seq(Size(f, n - 1), k requires 0 <= k < Size(f, n - 1) => CellShown(f, n - 1, k));
      ShownFlags(f, n - 1) + cells
  }

  predicate CellShown(f: Frame, c: nat, k: nat)
    requires c < |f.comps| && k < Size(f, c)
  {
    CellOf(Rows(f, c), Columns(f, c), k);
    IsShown(f, c, k / Columns(f, c), k % Columns(f, c))
  }

  function LayoutOf(f: Frame): Layout {
    Layout(Owners(f, |f.comps|), ShownFlags(f, |f.comps|))
  }

  lemma {:induction false} OwnedAt(f: Frame, n: nat, c: nat, k: nat)
    requires c < n <= |f.comps| && k < Size(f, c)
    ensures Offset(f, c) + k < Offset(f, n)
    ensures Owners(f, n)[Offset(f, c) + k] == c && ShownFlags(f, n)[Offset(f, c) + k] == CellShown(f, c, k)
  {
    hide Size, CellShown;
    if c < n - 1 {
      OwnedAt(f, n - 1, c, k);
    }
  }

  lemma {:induction false} OwnerIs(f: Frame, n: nat, b: nat) returns (c: nat, k: nat)
    requires n <= |f.comps| && b < Offset(f, n)
    ensures c < n && k < Size(f, c) && b == Offset(f, c) + k
  {
    hide Size;
    if b >= Offset(f, n - 1) {
      c, k := n - 1, b - Offset(f, n - 1);
    } else {
      c, k := OwnerIs(f, n - 1, b);
    }
  }

  // A block by component and place.
  lemma BlockIs(f: Frame, c: nat, y: nat, x: nat)
    requires c < |f.comps| && y < Rows(f, c) && x < Columns(f, c)
    ensures var l, b := LayoutOf(f), BlockAt(f, c, y, x);
      && |l.owner| == |l.shown| == Offset(f, |f.comps|) && b < |l.owner|
      && l.owner[b] == c && l.shown[b] == IsShown(f, c, y, x)
  {
    hide Offset, Owners, ShownFlags, Rows, Columns, Product, Cell;
    CellIs(Rows(f, c), Columns(f, c), y, x);
    OwnedAt(f, |f.comps|, c, Cell(Columns(f, c), y, x));
  }

  lemma BlockFound(f: Frame, b: nat) returns (c: nat, y: nat, x: nat)
    requires b < Offset(f, |f.comps|)
    ensures c < |f.comps| && y < Rows(f, c) && x < Columns(f, c) && BlockAt(f, c, y, x) == b
  {
    hide Offset, Rows, Columns, Product, Cell;
    var k;
    c, k := OwnerIs(f, |f.comps|, b);
    CellOf(Rows(f, c), Columns(f, c), k);
    y, x := k / Columns(f, c), k % Columns(f, c);
  }

  // No two places are the same block.
  lemma BlocksDiffer(f: Frame, c: nat, y: nat, x: nat, c': nat, y': nat, x': nat)
    requires c < |f.comps| && y < Rows(f, c) && x < Columns(f, c)
    requires c' < |f.comps| && y' < Rows(f, c') && x' < Columns(f, c')
    requires BlockAt(f, c, y, x) == BlockAt(f, c', y', x')
    ensures c == c' && y == y' && x == x'
  {
    BlockIs(f, c, y, x);
    BlockIs(f, c', y', x');
    hide Offset, Rows, Columns, Product, Cell, LayoutOf;
    CellIs(Rows(f, c), Columns(f, c), y, x);
    CellIs(Rows(f, c), Columns(f, c), y', x');
  }

  // ----- Which blocks a scan visits -----

  ghost predicate ScanOf(f: Frame, comps: seq<nat>) {
    && comps != []
    && (forall i :: 0 <= i < |comps| ==> comps[i] < |f.comps|)
    && (forall i, j :: 0 <= i < j < |comps| ==> comps[i] != comps[j])
  }

  // The blocks of component c in the interleaved MCU at row my and column mx, and the number of
  // them.
  function Width(f: Frame, c: nat): nat
    requires c < |f.comps|
  {
    Product(f.comps[c].v, f.comps[c].h)
  }

  function Portion(f: Frame, c: nat, my: nat, mx: nat): (r: seq<nat>)
    requires c < |f.comps|
    ensures |r| == Width(f, c)
  {
    seq(Width(f, c), k requires 0 <= k < Width(f, c) => PortionAt(f, c, my, mx, k))
  }

  function PortionAt(f: Frame, c: nat, my: nat, mx: nat, k: nat): nat
    requires c < |f.comps| && k < Width(f, c)
  {
    CellOf(f.comps[c].v, f.comps[c].h, k);
    BlockAt(f, c, Cell(f.comps[c].v, my, k / f.comps[c].h), Cell(f.comps[c].h, mx, k % f.comps[c].h))
  }

  // Where the blocks of the n-th component of the scan begin in an interleaved MCU.
  ghost function Start(f: Frame, comps: seq<nat>, n: nat): nat
    requires ScanOf(f, comps) && n <= |comps|
  {
    if n == 0 then 0 else Start(f, comps, n - 1) + Width(f, comps[n - 1])
  }

  ghost function Interleaved(f: Frame, comps: seq<nat>, my: nat, mx: nat, n: nat): (r: seq<nat>)
    requires ScanOf(f, comps) && n <= |comps|
    ensures |r| == Start(f, comps, n)
  {
    if n == 0 then [] else Interleaved(f, comps, my, mx, n - 1) + Portion(f, comps[n - 1], my, mx)
  }

  // The component of each block of an MCU, numbered within the scan (per_scan_setup).
  ghost function Membership(f: Frame, comps: seq<nat>, n: nat): (r: seq<nat>)
    requires ScanOf(f, comps) && n <= |comps|
    ensures |r| == Start(f, comps, n)
  {
    if n == 0 then [] else Membership(f, comps, n - 1) + seq(Width(f, comps[n - 1]), _ => n - 1)
  }

  // All MCUs of a scan. With a single component an MCU is a block, and there are no dummy blocks.
  ghost function VisitsOf(f: Frame, comps: seq<nat>): (visits: Visits)
    requires ScanOf(f, comps)
  {
    if |comps| == 1 then
      var c := f.comps[comps[0]];
      seq(Product(c.high, c.wide), j requires 0 <= j < Product(c.high, c.wide) => SingleAt(f, comps[0], j))
    else
      seq(Product(f.rows, f.perRow), j requires 0 <= j < Product(f.rows, f.perRow) => InterleavedAt(f, comps, j))
  }

  function SingleAt(f: Frame, c: nat, j: nat): (r: seq<nat>)
    requires c < |f.comps| && j < Product(f.comps[c].high, f.comps[c].wide)
    ensures |r| == 1
  {
    CellOf(f.comps[c].high, f.comps[c].wide, j);
    [BlockAt(f, c, j / f.comps[c].wide, j % f.comps[c].wide)]
  }

  ghost function InterleavedAt(f: Frame, comps: seq<nat>, j: nat): (r: seq<nat>)
    requires ScanOf(f, comps) && j < Product(f.rows, f.perRow)
    ensures |r| == Start(f, comps, |comps|)
  {
    CellOf(f.rows, f.perRow, j);
    Interleaved(f, comps, j / f.perRow, j % f.perRow, |comps|)
  }

  // A place in an MCU of an interleaved scan.
  lemma {:induction false} PartOf(f: Frame, comps: seq<nat>, my: nat, mx: nat, n: nat, i: nat) returns (m: nat, k: nat)
    requires ScanOf(f, comps) && n <= |comps| && i < Start(f, comps, n)
    ensures m < n && k < Width(f, comps[m]) && i == Start(f, comps, m) + k
    ensures Interleaved(f, comps, my, mx, n)[i] == PortionAt(f, comps[m], my, mx, k)
    ensures Membership(f, comps, n)[i] == m
  {
    hide Width, PortionAt;
    if i >= Start(f, comps, n - 1) {
      m, k := n - 1, i - Start(f, comps, n - 1);
    } else {
      m, k := PartOf(f, comps, my, mx, n - 1, i);
    }
  }

  lemma {:induction false} PartAt(f: Frame, comps: seq<nat>, my: nat, mx: nat, n: nat, m: nat, k: nat)
    requires ScanOf(f, comps) && m < n <= |comps| && k < Width(f, comps[m])
    ensures Start(f, comps, m) + k < Start(f, comps, n)
    ensures Interleaved(f, comps, my, mx, n)[Start(f, comps, m) + k] == PortionAt(f, comps[m], my, mx, k)
  {
    hide Width, PortionAt;
    if m < n - 1 {
      PartAt(f, comps, my, mx, n - 1, m, k);
    }
  }

  // The place of a block in a scan: which MCU, and where in it.
  ghost function MovedTo(f: Frame, comps: seq<nat>, m: nat, y: nat, x: nat): (nat, nat)
    requires ScanOf(f, comps) && ValidFrame(f) && m < |comps|
  {
    var c := f.comps[comps[m]];
    assert ValidComponent(f, c);
    if |comps| == 1 then (Cell(c.wide, y, x), 0)
    else (Cell(f.perRow, y / c.v, x / c.h), Start(f, comps, m) + Cell(c.h, y % c.v, x % c.h))
  }

  // Each visit is the visit to one block, at its place.
  lemma VisitIs(f: Frame, comps: seq<nat>, j: nat, i: nat) returns (m: nat, y: nat, x: nat)
    requires ScanOf(f, comps) && ValidFrame(f) && j < |VisitsOf(f, comps)| && i < |VisitsOf(f, comps)[j]|
    ensures m < |comps| && y < Rows(f, comps[m]) && x < Columns(f, comps[m])
    ensures VisitsOf(f, comps)[j][i] == BlockAt(f, comps[m], y, x)
    ensures MovedTo(f, comps, m, y, x) == (j, i)
    ensures |comps| == 1 ==> IsShown(f, comps[m], y, x)
  {
    hide BlockAt, Cell, Product, MovedTo, IsShown;
    if |comps| == 1 {
      m := 0;
      y, x := SingleVisit(f, comps, j);
    } else {
      m, y, x := InterleavedVisit(f, comps, j, i);
    }
  }

  lemma SingleVisit(f: Frame, comps: seq<nat>, j: nat) returns (y: nat, x: nat)
    requires ScanOf(f, comps) && ValidFrame(f) && |comps| == 1 && j < Product(f.comps[comps[0]].high, f.comps[comps[0]].wide)
    ensures y < Rows(f, comps[0]) && x < Columns(f, comps[0]) && IsShown(f, comps[0], y, x)
    ensures SingleAt(f, comps[0], j) == [BlockAt(f, comps[0], y, x)] && MovedTo(f, comps, 0, y, x) == (j, 0)
  {
    hide BlockAt, Cell, Product;
    var c := f.comps[comps[0]];
    assert ValidComponent(f, c);
    CellOf(c.high, c.wide, j);
    y, x := j / c.wide, j % c.wide;
  }

  lemma InterleavedVisit(f: Frame, comps: seq<nat>, j: nat, i: nat) returns (m: nat, y: nat, x: nat)
    requires ScanOf(f, comps) && ValidFrame(f) && |comps| > 1 && j < Product(f.rows, f.perRow)
    requires i < Start(f, comps, |comps|)
    ensures m < |comps| && y < Rows(f, comps[m]) && x < Columns(f, comps[m])
    ensures InterleavedAt(f, comps, j)[i] == BlockAt(f, comps[m], y, x)
    ensures MovedTo(f, comps, m, y, x) == (j, i)
  {
    hide BlockAt, Cell, Product, Interleaved, Start, Membership;
    CellOf(f.rows, f.perRow, j);
    var my, mx := j / f.perRow, j % f.perRow;
    var k;
    m, k := PartOf(f, comps, my, mx, |comps|, i);
    y, x := PlaceInMcu(f, comps, m, my, mx, k);
  }

  // The k-th block of a component in an interleaved MCU.
  lemma PlaceInMcu(f: Frame, comps: seq<nat>, m: nat, my: nat, mx: nat, k: nat) returns (y: nat, x: nat)
    requires ScanOf(f, comps) && ValidFrame(f) && |comps| > 1 && m < |comps| && my < f.rows && mx < f.perRow
    requires k < Width(f, comps[m])
    ensures y < Rows(f, comps[m]) && x < Columns(f, comps[m])
    ensures PortionAt(f, comps[m], my, mx, k) == BlockAt(f, comps[m], y, x)
    ensures MovedTo(f, comps, m, y, x) == (Cell(f.perRow, my, mx), Start(f, comps, m) + k)
  {
    hide BlockAt, Cell, Product, Start;
    var c := f.comps[comps[m]];
    assert ValidComponent(f, c);
    CellOf(c.v, c.h, k);
    y, x := Cell(c.v, my, k / c.h), Cell(c.h, mx, k % c.h);
    CellIs(f.rows, c.v, my, k / c.h);
    CellIs(f.perRow, c.h, mx, k % c.h);
  }

  // Every block that is shown has its place; in an interleaved scan so has every dummy block.
  lemma BlockIsVisited(f: Frame, comps: seq<nat>, m: nat, y: nat, x: nat)
    requires ScanOf(f, comps) && ValidFrame(f) && m < |comps| && y < Rows(f, comps[m]) && x < Columns(f, comps[m])
    requires |comps| == 1 ==> IsShown(f, comps[m], y, x)
    ensures Visited(VisitsOf(f, comps), BlockAt(f, comps[m], y, x))
  {
    hide BlockAt, Cell, Product;
    var (j, i) := MovedTo(f, comps, m, y, x);
    var c := f.comps[comps[m]];
    assert ValidComponent(f, c);
    if |comps| == 1 {
      CellIs(c.high, c.wide, y, x);
    } else {
      CellOf(f.rows, c.v, y);
      CellOf(f.perRow, c.h, x);
      CellIs(f.rows, f.perRow, y / c.v, x / c.h);
      CellIs(c.v, c.h, y % c.v, x % c.h);
      PartAt(f, comps, y / c.v, x / c.h, |comps|, m, Cell(c.h, y % c.v, x % c.h));
    }
    assert VisitsOf(f, comps)[j][i] == BlockAt(f, comps[m], y, x);
  }

  // ----- The loops that visit them -----

  // The blocks of one component in an MCU, row by row from the top left one.
  function Tile(f: Frame, c: nat, top: nat, left: nat, height: nat, width: nat): (r: seq<nat>)
    requires c < |f.comps|
    ensures |r| == Product(height, width)
  {
    seq(Product(height, width), k requires 0 <= k < Product(height, width) => TileAt(f, c, top, left, height, width, k))
  }

  function TileAt(f: Frame, c: nat, top: nat, left: nat, height: nat, width: nat, k: nat): nat
    requires c < |f.comps| && k < Product(height, width)
  {
    CellOf(height, width, k);
    BlockAt(f, c, top + k / width, left + k % width)
  }

  lemma TileNext(f: Frame, c: nat, top: nat, left: nat, height: nat, width: nat, y: nat, x: nat)
    requires c < |f.comps| && y < height && x < width
    ensures Cell(width, y, x) < Product(height, width) && Cell(width, y, x) + 1 == Cell(width, y, x + 1)
    ensures Tile(f, c, top, left, height, width)[..Cell(width, y, x + 1)]
         == Tile(f, c, top, left, height, width)[..Cell(width, y, x)] + [BlockAt(f, c, top + y, left + x)]
  {
    hide BlockAt, Product;
    CellIs(height, width, y, x);
  }

  lemma RowEnds(width: nat, y: nat)
    ensures Cell(width, y, width) == Cell(width, y + 1, 0) && Cell(width, 0, 0) == 0
    ensures Cell(width, y, 0) == Product(y, width)
  {
    MulDistrib(y, 1, width);
  }

  method AppendTile(f: Frame, c: nat, top: nat, left: nat, height: nat, width: nat, mcu0: seq<nat>) returns (mcu: seq<nat>)
    requires c < |f.comps|
    ensures mcu == mcu0 + Tile(f, c, top, left, height, width)
  {
    hide Tile, Cell, BlockAt, Product;
    ghost var tile := Tile(f, c, top, left, height, width);
    mcu := mcu0;
    RowEnds(width, 0);
    for yindex := 0 to height
      invariant Cell(width, yindex, 0) <= |tile| && mcu == mcu0 + tile[..Cell(width, yindex, 0)]
    {
      for xindex := 0 to width
        invariant Cell(width, yindex, xindex) <= |tile| && mcu == mcu0 + tile[..Cell(width, yindex, xindex)]
      {
        TileNext(f, c, top, left, height, width, yindex, xindex);
        mcu := mcu + [BlockAt(f, c, top + yindex, left + xindex)];
      }
      RowEnds(width, yindex);
    }
    RowEnds(width, height);
    assert tile[..|tile|] == tile;
  }

  // An MCU in an interleaved scan, or the single block of a scan of one component.
  ghost function McuAt(f: Frame, comps: seq<nat>, y: nat, x: nat): seq<nat>
    requires ScanOf(f, comps)
  {
    if |comps| == 1 then [BlockAt(f, comps[0], y, x)] else Interleaved(f, comps, y, x, |comps|)
  }

  lemma TileIsPortion(f: Frame, c: nat, my: nat, mx: nat)
    requires c < |f.comps|
    ensures var (h, v) := (f.comps[c].h, f.comps[c].v);
      Tile(f, c, Product(my, v), Product(mx, h), v, h) == Portion(f, c, my, mx)
  {
    hide BlockAt, Product;
    var h, v := f.comps[c].h, f.comps[c].v;
    forall k | 0 <= k < Width(f, c)
      ensures Tile(f, c, Product(my, v), Product(mx, h), v, h)[k] == Portion(f, c, my, mx)[k]
    {
      CellOf(v, h, k);
    }
  }

  lemma TileIsBlock(f: Frame, c: nat, y: nat, x: nat)
    requires c < |f.comps|
    ensures Tile(f, c, y, Product(x, 1), 1, 1) == [BlockAt(f, c, y, x)]
  {
    hide BlockAt;
  }

  method MakeMcu(f: Frame, comps: seq<nat>, imcu: nat, yoffset: nat, col: nat) returns (mcu: seq<nat>)
    requires ScanOf(f, comps) && (|comps| > 1 ==> yoffset == 0)
    ensures mcu == McuAt(f, comps, if |comps| == 1 then Product(imcu, f.comps[comps[0]].v) + yoffset else imcu, col)
  {
    hide BlockAt, Product, Portion, Tile;
    mcu := [];
    for ci := 0 to |comps|
      invariant |comps| > 1 ==> mcu == Interleaved(f, comps, imcu, col, ci)
      invariant |comps| == 1 ==>
        mcu == if ci == 0 then [] else [BlockAt(f, comps[0], Product(imcu, f.comps[comps[0]].v) + yoffset, col)]
    {
      var c := comps[ci];
      var h, v := f.comps[c].h, f.comps[c].v;
      var width, height := if |comps| == 1 then 1 else h, if |comps| == 1 then 1 else v;
      TileIsPortion(f, c, imcu, col);
      TileIsBlock(f, c, Product(imcu, v) + yoffset, col);
      mcu := AppendTile(f, c, Product(imcu, v) + yoffset, Product(col, width), height, width, mcu);
    }
  }

  // How many MCU rows make up an iMCU row (start_iMCU_row, per_scan_setup).
  function McuRows(f: Frame, comps: seq<nat>, imcu: nat): (n: nat)
    requires comps != [] && comps[0] < |f.comps| && f.comps[comps[0]].v > 0
  {
    var c := f.comps[comps[0]];
    if |comps| > 1 then 1
    else if imcu + 1 < f.rows then c.v
    else if c.high % c.v == 0 then c.v else c.high % c.v
  }

  // They make up the rows of a single component.
  lemma RowsAddUp(f: Frame, comps: seq<nat>, imcu: nat)
    requires ScanOf(f, comps) && ValidFrame(f) && imcu < f.rows && |comps| == 1
    ensures var c := f.comps[comps[0]];
      && c.v > 0
      && Product(imcu, c.v) + McuRows(f, comps, imcu) == (if imcu + 1 < f.rows then Product(imcu + 1, c.v) else c.high)
      && Product(imcu, c.v) + McuRows(f, comps, imcu) <= c.high
  {
    var c := f.comps[comps[0]];
    assert ValidComponent(f, c);
    MulDistrib(imcu, 1, c.v);
    if imcu + 1 < f.rows {
      MulDistrib(imcu + 1, f.rows - 1 - (imcu + 1), c.v);
    } else {
      var r := c.high - Product(imcu, c.v);
      if r < c.v {
        QuotientIs(c.high, c.v, imcu, r);
      } else {
        QuotientIs(c.high, c.v, imcu + 1, 0);
      }
    }
  }

  // The row of MCUs that a scan is in.
  function RowOf(f: Frame, comps: seq<nat>, imcu: nat, yoffset: nat): nat
    requires comps != [] && comps[0] < |f.comps|
  {
    if |comps| == 1 then Product(imcu, f.comps[comps[0]].v) + yoffset else imcu + yoffset
  }

  function McusPerRow(f: Frame, comps: seq<nat>): nat
    requires comps != [] && comps[0] < |f.comps|
  {
    if |comps| == 1 then f.comps[comps[0]].wide else f.perRow
  }

  function RowCount(f: Frame, comps: seq<nat>): nat
    requires comps != [] && comps[0] < |f.comps|
  {
    if |comps| == 1 then f.comps[comps[0]].high else f.rows
  }

  lemma VisitNext(f: Frame, comps: seq<nat>, y: nat, x: nat)
    requires ScanOf(f, comps) && y < RowCount(f, comps) && x < McusPerRow(f, comps)
    ensures var j := Cell(McusPerRow(f, comps), y, x);
      && j < |VisitsOf(f, comps)| && j + 1 == Cell(McusPerRow(f, comps), y, x + 1)
      && VisitsOf(f, comps)[..j + 1] == VisitsOf(f, comps)[..j] + [McuAt(f, comps, y, x)]
  {
    hide BlockAt, Product, Interleaved;
    CellIs(RowCount(f, comps), McusPerRow(f, comps), y, x);
  }

  // One row of MCUs.
  method VisitRow(f: Frame, comps: seq<nat>, imcu: nat, yoffset: nat, visits0: Visits) returns (visits: Visits)
    requires ScanOf(f, comps) && ValidFrame(f) && (|comps| > 1 ==> yoffset == 0)
    requires RowOf(f, comps, imcu, yoffset) < RowCount(f, comps)
    requires var k := Cell(McusPerRow(f, comps), RowOf(f, comps, imcu, yoffset), 0);
      k <= |VisitsOf(f, comps)| && visits0 == VisitsOf(f, comps)[..k]
    ensures var k := Cell(McusPerRow(f, comps), RowOf(f, comps, imcu, yoffset) + 1, 0);
      k <= |VisitsOf(f, comps)| && visits == VisitsOf(f, comps)[..k]
  {
    hide VisitsOf, McuAt, Cell, Product;
    ghost var all, y := VisitsOf(f, comps), RowOf(f, comps, imcu, yoffset);
    visits := visits0;
    for col := 0 to McusPerRow(f, comps)
      invariant Cell(McusPerRow(f, comps), y, col) <= |all| && visits == all[..Cell(McusPerRow(f, comps), y, col)]
    {
      VisitNext(f, comps, y, col);
      var mcu := MakeMcu(f, comps, imcu, yoffset, col);
      visits := visits + [mcu];
    }
    RowEnds(McusPerRow(f, comps), y);
  }

  // The whole scan, iMCU row by iMCU row (compress_output, without suspension).
  method VisitScan(f: Frame, comps: seq<nat>) returns (visits: Visits)
    requires ScanOf(f, comps) && ValidFrame(f)
    ensures visits == VisitsOf(f, comps)
  {
    hide VisitsOf, Cell, Product, ValidComponent;
    assert f.comps[comps[0]].v > 0 by {
      ComponentIsValid(f, comps[0]);
    }
    ghost var all, wide := VisitsOf(f, comps), McusPerRow(f, comps);
    visits := [];
    RowEnds(wide, 0);
    NoTimes(f.comps[comps[0]].v);
    for imcu := 0 to f.rows
      invariant RowOf(f, comps, imcu, 0) <= RowCount(f, comps) || imcu == f.rows
      invariant imcu == f.rows ==> Cell(wide, RowCount(f, comps), 0) <= |all| && visits == all[..Cell(wide, RowCount(f, comps), 0)]
      invariant imcu < f.rows ==>
        Cell(wide, RowOf(f, comps, imcu, 0), 0) <= |all| && visits == all[..Cell(wide, RowOf(f, comps, imcu, 0), 0)]
    {
      RowsDone(f, comps, imcu);
      for yoffset := 0 to McuRows(f, comps, imcu)
        invariant RowOf(f, comps, imcu, yoffset) <= RowCount(f, comps)
        invariant var k := Cell(wide, RowOf(f, comps, imcu, yoffset), 0);
          k <= |all| && visits == all[..k]
      {
        visits := VisitRow(f, comps, imcu, yoffset, visits);
      }
    }
    AllRows(f, comps);
    assert all[..|all|] == all;
  }

  lemma ComponentIsValid(f: Frame, c: nat)
    requires ValidFrame(f) && c < |f.comps|
    ensures f.comps[c].h > 0 && f.comps[c].v > 0
  {
    assert ValidComponent(f, f.comps[c]);
  }

  lemma RowsDone(f: Frame, comps: seq<nat>, imcu: nat)
    requires ScanOf(f, comps) && ValidFrame(f) && imcu < f.rows && f.comps[comps[0]].v > 0
    ensures var n := McuRows(f, comps, imcu);
      && RowOf(f, comps, imcu, n) <= RowCount(f, comps)
      && RowOf(f, comps, imcu, n) == (if imcu + 1 < f.rows then RowOf(f, comps, imcu + 1, 0) else RowCount(f, comps))
  {
    if |comps| == 1 {
      RowsAddUp(f, comps, imcu);
    }
  }

  lemma AllRows(f: Frame, comps: seq<nat>)
    requires ScanOf(f, comps)
    ensures |VisitsOf(f, comps)| == Cell(McusPerRow(f, comps), RowCount(f, comps), 0)
  {
  }

  // ----- The scans of a script -----

  // The pass of a scan over the frame.
  ghost predicate FramePass(f: Frame, progressive: bool, order: seq<nat>, s: ScanInfo, pass: Pass) {
    && (forall i :: 0 <= i < |s.comps| ==> s.comps[i] >= 0) && ScanOf(f, s.comps)
    && ValidScan(pass.scan) && pass.scan.order == order && pass.scan.progressive == progressive
    && pass.scan.ss == s.ss && pass.scan.se == s.se && pass.scan.ah == s.ah && pass.scan.al == s.al
    && pass.scan.membership == (if |s.comps| == 1 then [0] else Membership(f, s.comps, |s.comps|))
    && pass.visits == VisitsOf(f, s.comps)
  }

  // It visits what it should.
  lemma {:induction false} FrameCarriesOut(f: Frame, progressive: bool, order: seq<nat>, s: ScanInfo, pass: Pass)
    requires ValidFrame(f) && FramePass(f, progressive, order, s, pass)
    ensures CarriesOut(LayoutOf(f), progressive, order, s, pass)
  {
    hide ValidScan, BlockAt, MovedTo, LayoutOf, IsShown;
    var l, visits := LayoutOf(f), pass.visits;
    var comps: seq<nat> := s.comps;
    VisitsInLayout(f, comps);
    VisitsDiffer(f, comps);
    assert |l.shown| == |l.owner| == Offset(f, |f.comps|) by {
      LayoutSize(f);
    }
    forall b | 0 <= b < |l.owner|
      ensures if l.shown[b] then Visited(visits, b) <==> l.owner[b] in s.comps
              else Visited(visits, b) ==> l.owner[b] in s.comps && |s.comps| > 1
    {
      BlockVisits(f, comps, b);
    }
    VisitSizes(f, comps);
  }

  lemma LayoutSize(f: Frame)
    ensures |LayoutOf(f).shown| == |LayoutOf(f).owner| == Offset(f, |f.comps|)
  {
  }

  lemma VisitSizes(f: Frame, comps: seq<nat>)
    requires ScanOf(f, comps)
    ensures forall j :: 0 <= j < |VisitsOf(f, comps)| ==>
      |VisitsOf(f, comps)[j]| == if |comps| == 1 then 1 else |Membership(f, comps, |comps|)|
  {
    hide Interleaved, Product;
  }

  lemma VisitsInLayout(f: Frame, comps: seq<nat>)
    requires ScanOf(f, comps) && ValidFrame(f)
    ensures forall j, i :: 0 <= j < |VisitsOf(f, comps)| && 0 <= i < |VisitsOf(f, comps)[j]| ==>
      VisitsOf(f, comps)[j][i] < |LayoutOf(f).owner|
  {
    hide VisitsOf, BlockAt, MovedTo, LayoutOf, IsShown;
    forall j, i | 0 <= j < |VisitsOf(f, comps)| && 0 <= i < |VisitsOf(f, comps)[j]|
      ensures VisitsOf(f, comps)[j][i] < |LayoutOf(f).owner|
    {
      var m, y, x := VisitIs(f, comps, j, i);
      BlockIs(f, comps[m], y, x);
    }
  }

  lemma VisitsDiffer(f: Frame, comps: seq<nat>)
    requires ScanOf(f, comps) && ValidFrame(f)
    ensures VisitOnce(VisitsOf(f, comps))
  {
    hide VisitsOf, BlockAt, MovedTo, IsShown;
    var visits := VisitsOf(f, comps);
    forall j, i, k, n | 0 <= j < |visits| && 0 <= i < |visits[j]| && 0 <= k < |visits| && 0 <= n < |visits[k]|
                        && visits[j][i] == visits[k][n]
      ensures j == k && i == n
    {
      var m, y, x := VisitIs(f, comps, j, i);
      var m', y', x' := VisitIs(f, comps, k, n);
      BlocksDiffer(f, comps[m], y, x, comps[m'], y', x');
      assert m == m';
    }
  }

  lemma BlockVisits(f: Frame, comps: seq<nat>, b: nat)
    requires ScanOf(f, comps) && ValidFrame(f) && b < Offset(f, |f.comps|)
    ensures |LayoutOf(f).shown| == |LayoutOf(f).owner| == Offset(f, |f.comps|)
    ensures Visited(VisitsOf(f, comps), b) <==>
      LayoutOf(f).owner[b] in comps && (LayoutOf(f).shown[b] || |comps| > 1)
  {
    hide VisitsOf, BlockAt, MovedTo, IsShown, LayoutOf, Offset;
    var visits := VisitsOf(f, comps);
    var c, y, x := BlockFound(f, b);
    BlockIs(f, c, y, x);
    if Visited(visits, b) {
      var j, i :| 0 <= j < |visits| && 0 <= i < |visits[j]| && visits[j][i] == b;
      var m, y', x' := VisitIs(f, comps, j, i);
      BlockIs(f, comps[m], y', x');
    }
    if c in comps && (LayoutOf(f).shown[b] || |comps| > 1) {
      var m :| 0 <= m < |comps| && comps[m] == c;
      BlockIsVisited(f, comps, m, y, x);
    }
  }

  // Whatever the size and the sampling factors, and with its dummy blocks: an image compressed by
  // an accepted script is one that can be transmitted.
  lemma FrameIsCompressed(f: Frame, script: seq<ScanInfo>, blockSize: nat, order: seq<nat>, passes: seq<Pass>)
    requires ValidFrame(f) && Accepted(|f.comps|, script) && 1 <= blockSize <= 16
    requires |order| == CoefCount(blockSize) && ValidOrder(order, |order| - 1)
    requires |passes| == |Followed(script, blockSize)|
    requires forall i :: 0 <= i < |passes| ==>
      FramePass(f, IsProgressive(script), order, Followed(script, blockSize)[i], passes[i])
    ensures Compression(|f.comps|, LayoutOf(f), script, blockSize, order, passes)
  {
    hide Accepted, Followed, FramePass, CarriesOut, ValidOrder, IsProgressive, CoefCount;
    forall i | 0 <= i < |passes|
      ensures CarriesOut(LayoutOf(f), IsProgressive(script), order, Followed(script, blockSize)[i], passes[i])
    {
      FrameCarriesOut(f, IsProgressive(script), order, Followed(script, blockSize)[i], passes[i]);
    }
    forall b | 0 <= b < |LayoutOf(f).owner|
      ensures LayoutOf(f).owner[b] < |f.comps|
    {
      var c, y, x := BlockFound(f, b);
      BlockIs(f, c, y, x);
    }
    LayoutSize(f);
  }
}
