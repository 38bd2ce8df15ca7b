/**
 * The coloured renderer createColoredQrPng up to the SVG it hands to the rasteriser: the module
 * and canvas sizes for a 2-module quiet zone, and one square per dark module, blue inside the
 * finder zone and on a left-to-right blue-to-red gradient elsewhere. The SVG text is modelled as
 * a Scene of Rect records; the module matrix of the QR encoder is an input.
 */
module QrRaster {
  import opened JsBuiltins
  import opened QrColour
  import opened QrFinder

  /** Quiet zone on each side, in modules. */
  const MarginModules := 2

  const Blue := "#0499E9"
  const Red := "#F42828"
  const White := "#FFFFFF"

  /** One `<rect>` of the SVG: top-left corner, side (it is as high as it is wide) and fill colour. */
  datatype Rect = Rect(x: int, y: int, side: int, fill: string)

  /** The SVG: a canvas x canvas square filled with the background colour, then the module squares in order. */
  datatype Scene = Scene(canvas: int, background: string, rects: seq<Rect>)

  /** A module position: x is the column, y the row. */
  datatype Cell = Cell(x: int, y: int)

  /** The encoder's module matrix: an n x n matrix indexed m[x][y], so m[x] is column x. */
  predicate IsSquare(m: seq<seq<bool>>) {
    forall i :: 0 <= i < |m| ==> |m[i]| == |m|
  }

  predicate InGrid(c: Cell, n: int) {
    0 <= c.x < n && 0 <= c.y < n
  }

  // ---------------------------------------------------------------------------
  // Size arithmetic
  // ---------------------------------------------------------------------------

  /** Math.ceil(a / b) for a positive divisor. */
  function CeilDiv(a: int, b: int): (q: int)
    requires b > 0
    ensures b * (q - 1) < a <= b * q
  {
    (a + b - 1) / b
  }

  function Max(a: int, b: int): int {
    if a >= b then a else b
  }

  /** modulePx: `Math.max(1, Math.ceil(size / (n + 2 * marginModules)))`. */
  function ModulePx(size: int, n: nat): (px: int)
    ensures px >= 1
  {
    Max(1, CeilDiv(size, n + MarginModules * 2))
  }

  /** canvasPx: the grid and its quiet zone, in pixels. */
  function CanvasPx(size: int, n: nat): int {
    (n + MarginModules * 2) * ModulePx(size, n)
  }

  /** A module is at least one pixel, and the canvas is the smallest multiple of n + 4 that holds `size` pixels. */
  lemma CanvasBounds(size: int, n: nat)
    ensures ModulePx(size, n) >= 1
    ensures size <= CanvasPx(size, n)
    ensures size >= 1 ==> CanvasPx(size, n) < size + n + MarginModules * 2
  {
    var b := n + MarginModules * 2;
    var q := CeilDiv(size, b);
    if q >= 1 {
      assert ModulePx(size, n) == q;
    } else {
      assert b * q <= 0;
      assert size <= 0;
    }
  }

  // ---------------------------------------------------------------------------
  // One module
  // ---------------------------------------------------------------------------

  /** `clamp01(x / (n - 1))`: the gradient position of column x. */
  function Gradient(x: int, n: int): (t: real)
    requires n >= 2
    ensures 0.0 <= t <= 1.0
    ensures 0 <= x <= n - 1 ==> t == x as real / (n - 1) as real
  {
    Clamp01(x as real / (n - 1) as real)
  }

  /**
   * The fill of the dark module (x, y): blue in the finder zone, otherwise the gradient colour
   * of its column. Outside the finder zone the grid has at least 8 columns, so n - 1 is not 0.
   */
  function ModuleColour(x: int, y: int, n: int): string
    requires 0 <= x < n && 0 <= y < n
  {
    if IsInFinder(x, y, n) then Blue
    else
      NonFinderGridIsWide(x, y, n);
      LerpColorHex(Blue, Red, Gradient(x, n))
  }

  /** The square drawn for a dark module: offset by the quiet zone, one module wide. */
  function ModuleRect(c: Cell, n: int, px: int): Rect
    requires InGrid(c, n)
  {
    Rect(Offset(c.x, px), Offset(c.y, px), px, ModuleColour(c.x, c.y, n))
  }

  // ---------------------------------------------------------------------------
  // The traversal, as a specification
  // ---------------------------------------------------------------------------

  /** The dark modules of row y among its first k columns, left to right. */
  function RowCells(m: seq<seq<bool>>, y: int, k: int): (r: seq<Cell>)
    requires IsSquare(m) && 0 <= y < |m| && 0 <= k <= |m|
    ensures forall i :: 0 <= i < |r| ==> r[i].y == y && 0 <= r[i].x < k && m[r[i].x][y]
  {
    if k == 0 then []
    else if m[k - 1][y] then RowCells(m, y, k - 1) + [Cell(k - 1, y)]
    else RowCells(m, y, k - 1)
  }

  /** The dark modules of the first k rows, row by row. */
  function GridCells(m: seq<seq<bool>>, k: int): (r: seq<Cell>)
    requires IsSquare(m) && 0 <= k <= |m|
    ensures forall i :: 0 <= i < |r| ==> InGrid(r[i], |m|) && r[i].y < k && m[r[i].x][r[i].y]
  {
    if k == 0 then []
    else
      var r := GridCells(m, k - 1) + RowCells(m, k - 1, |m|);
      assert forall i :: |GridCells(m, k - 1)| <= i < |r| ==> r[i] == RowCells(m, k - 1, |m|)[i - |GridCells(m, k - 1)|];
      r
  }

  predicate AllInGrid(cells: seq<Cell>, n: int) {
    forall i :: 0 <= i < |cells| ==> InGrid(cells[i], n)
  }

  /** The squares drawn for a list of dark modules, in the same order. */
  function Rects(cells: seq<Cell>, n: int, px: int): (rs: seq<Rect>)
    requires AllInGrid(cells, n)
    ensures |rs| == |cells|
    ensures forall i :: 0 <= i < |cells| ==> rs[i] == ModuleRect(cells[i], n, px)
  {
    seq(|cells|, i requires 0 <= i < |cells| => ModuleRect(cells[i], n, px))
  }

  /** The SVG createColoredQrPng builds for matrix m and the requested size. */
  function ColoredScene(m: seq<seq<bool>>, size: int): Scene
    requires IsSquare(m)
  {
    Scene(CanvasPx(size, |m|), White, Rects(GridCells(m, |m|), |m|, ModulePx(size, |m|)))
  }

  // ---------------------------------------------------------------------------
  // The traversal, as the renderer runs it
  // ---------------------------------------------------------------------------

  /** The nested loop of createColoredQrPng: rows outer, columns inner, one square per dark module. */
  method CreateColoredScene(m: seq<seq<bool>>, size: int) returns (scene: Scene)
    requires IsSquare(m)
    ensures scene == ColoredScene(m, size)
  {
    var n := |m|;
    var modulePx := Max(1, CeilDiv(size, n + MarginModules * 2));
    var canvasPx := (n + MarginModules * 2) * modulePx;
    var rects: seq<Rect> := [];
    var y := 0;
    while y < n
      invariant 0 <= y <= n
      invariant AllInGrid(GridCells(m, y), n)
      invariant rects == Rects(GridCells(m, y), n, modulePx)
    {
      var x := 0;
      RowStart(m, y);
      while x < n
        invariant 0 <= x <= n
        invariant AllInGrid(GridCells(m, y) + RowCells(m, y, x), n)
        invariant rects == Rects(GridCells(m, y) + RowCells(m, y, x), n, modulePx)
      {
        var dark := m[x][y];
        if !dark {
          LightStep(m, y, x);
          x := x + 1;
          continue;
        }
        var colour := ModuleColour(x, y, n);
        var px := (x + MarginModules) * modulePx;
        var py := (y + MarginModules) * modulePx;
        DarkStep(m, y, x, modulePx);
        rects := rects + [Rect(px, py, modulePx, colour)];
        x := x + 1;
      }
      RowEnd(m, y);
      y := y + 1;
    }
    scene := Scene(canvasPx, White, rects);
  }

  /** A row starts with nothing of its own drawn. */
  lemma RowStart(m: seq<seq<bool>>, y: int)
    requires IsSquare(m) && 0 <= y < |m|
    ensures GridCells(m, y) + RowCells(m, y, 0) == GridCells(m, y)
  {
  }

  /** A light module draws nothing. */
  lemma LightStep(m: seq<seq<bool>>, y: int, x: int)
    requires IsSquare(m) && 0 <= y < |m| && 0 <= x < |m| && !m[x][y]
    ensures RowCells(m, y, x + 1) == RowCells(m, y, x)
  {
  }

  /** A finished row completes the rows above it. */
  lemma RowEnd(m: seq<seq<bool>>, y: int)
    requires IsSquare(m) && 0 <= y < |m|
    ensures GridCells(m, y) + RowCells(m, y, |m|) == GridCells(m, y + 1)
    ensures AllInGrid(GridCells(m, y + 1), |m|)
  {
  }

  /** A dark module appends its square to the row. */
  lemma DarkStep(m: seq<seq<bool>>, y: int, x: int, px: int)
    requires IsSquare(m) && 0 <= y < |m| && 0 <= x < |m| && m[x][y]
    requires AllInGrid(GridCells(m, y) + RowCells(m, y, x), |m|)
    ensures AllInGrid(GridCells(m, y) + RowCells(m, y, x + 1), |m|)
    ensures Rects(GridCells(m, y) + RowCells(m, y, x + 1), |m|, px)
         == Rects(GridCells(m, y) + RowCells(m, y, x), |m|, px) + [ModuleRect(Cell(x, y), |m|, px)]
  {
    var a, b := GridCells(m, y), RowCells(m, y, x);
    assert RowCells(m, y, x + 1) == b + [Cell(x, y)];
    CellsSnoc(a, b, Cell(x, y), |m|);
    RectsSnoc(a + b, Cell(x, y), |m|, px);
  }

  lemma CellsSnoc(a: seq<Cell>, b: seq<Cell>, c: Cell, n: int)
    requires AllInGrid(a + b, n) && InGrid(c, n)
    ensures a + (b + [c]) == (a + b) + [c]
    ensures AllInGrid((a + b) + [c], n)
  {
  }

  lemma RectsSnoc(cells: seq<Cell>, c: Cell, n: int, px: int)
    requires AllInGrid(cells, n) && InGrid(c, n) && AllInGrid(cells + [c], n)
    ensures Rects(cells + [c], n, px) == Rects(cells, n, px) + [ModuleRect(c, n, px)]
  {
    var lhs := Rects(cells + [c], n, px);
    var rhs := Rects(cells, n, px) + [ModuleRect(c, n, px)];
    assert |lhs| == |rhs|;
    forall i | 0 <= i < |lhs|
      ensures lhs[i] == rhs[i]
    {
      if i < |cells| {
        assert (cells + [c])[i] == cells[i];
      } else {
        assert (cells + [c])[i] == c;
      }
    }
  }

  // ---------------------------------------------------------------------------
  // The traversal order and coverage
  // ---------------------------------------------------------------------------

  /** Row-major order: an earlier row, or the same row and an earlier column. */
  predicate CellBefore(a: Cell, b: Cell) {
    a.y < b.y || (a.y == b.y && a.x < b.x)
  }

  /** Strictly increasing columns. */
  predicate ColumnsIncrease(r: seq<Cell>) {
    forall i, j :: 0 <= i < j < |r| ==> r[i].x < r[j].x
  }

  /** Strictly increasing in row-major order. */
  predicate IsRowMajor(r: seq<Cell>) {
    forall i, j :: 0 <= i < j < |r| ==> CellBefore(r[i], r[j])
  }

  lemma {:induction false} RowCellsOrdered(m: seq<seq<bool>>, y: int, k: int)
    requires IsSquare(m) && 0 <= y < |m| && 0 <= k <= |m|
    ensures ColumnsIncrease(RowCells(m, y, k))
  {
    if k > 0 {
      RowCellsOrdered(m, y, k - 1);
    }
  }

  /** The dark modules are listed in strict row-major order. */
  lemma {:induction false} GridCellsOrdered(m: seq<seq<bool>>, k: int)
    requires IsSquare(m) && 0 <= k <= |m|
    ensures IsRowMajor(GridCells(m, k))
  {
    if k > 0 {
      GridCellsOrdered(m, k - 1);
      RowCellsOrdered(m, k - 1, |m|);
      var a, b := GridCells(m, k - 1), RowCells(m, k - 1, |m|);
      assert GridCells(m, k) == a + b;
      forall i, j | 0 <= i < j < |a + b|
        ensures CellBefore((a + b)[i], (a + b)[j])
      {
        if j < |a| {
          assert (a + b)[i] == a[i] && (a + b)[j] == a[j];
        } else if i < |a| {
          assert (a + b)[i] == a[i] && (a + b)[j] == b[j - |a|];
          assert a[i].y < k - 1 && b[j - |a|].y == k - 1;
        } else {
          assert (a + b)[i] == b[i - |a|] && (a + b)[j] == b[j - |a|];
        }
      }
    }
  }

  /** A dark module of row y among the first k columns is listed in RowCells. */
  lemma {:induction false} RowCellListed(m: seq<seq<bool>>, y: int, k: int, x: int)
    requires IsSquare(m) && 0 <= y < |m| && 0 <= x < k <= |m| && m[x][y]
    ensures Cell(x, y) in RowCells(m, y, k)
  {
    var before := RowCells(m, y, k - 1);
    if x < k - 1 {
      RowCellListed(m, y, k - 1, x);
      if m[k - 1][y] {
        InLeftOfConcat(Cell(x, y), before, [Cell(k - 1, y)]);
      }
    } else {
      InRightOfConcat(Cell(x, y), before, [Cell(k - 1, y)]);
    }
  }

  /** A dark module of the first k rows is listed in GridCells. */
  lemma {:induction false} GridCellListed(m: seq<seq<bool>>, k: int, x: int, y: int)
    requires IsSquare(m) && 0 <= x < |m| && 0 <= y < k <= |m| && m[x][y]
    ensures Cell(x, y) in GridCells(m, k)
  {
    var a, b := GridCells(m, k - 1), RowCells(m, k - 1, |m|);
    GridCellsUnfold(m, k, a, b);
    if y < k - 1 {
      GridCellListed(m, k - 1, x, y);
      InLeftOfConcat(Cell(x, y), a, b);
    } else {
      RowCellListed(m, k - 1, |m|, x);
      InRightOfConcat(Cell(x, y), a, b);
    }
  }

  lemma GridCellsUnfold(m: seq<seq<bool>>, k: int, a: seq<Cell>, b: seq<Cell>)
    requires IsSquare(m) && 0 < k <= |m| && a == GridCells(m, k - 1) && b == RowCells(m, k - 1, |m|)
    ensures GridCells(m, k) == a + b
  {
  }

  lemma InLeftOfConcat(c: Cell, a: seq<Cell>, b: seq<Cell>)
    requires c in a
    ensures c in a + b
  {
    var i :| 0 <= i < |a| && a[i] == c;
    assert (a + b)[i] == c;
  }

  lemma InRightOfConcat(c: Cell, a: seq<Cell>, b: seq<Cell>)
    requires c in b
    ensures c in a + b
  {
    var i :| 0 <= i < |b| && b[i] == c;
    assert (a + b)[|a| + i] == c;
  }

  // ---------------------------------------------------------------------------
  // Pixel geometry of the squares
  // ---------------------------------------------------------------------------

  /** Square a lies wholly before square b in row-major order: in an earlier band of rows, or left of it in the same band. */
  predicate RectPrecedes(a: Rect, b: Rect) {
    a.y + a.side <= b.y || (a.y == b.y && a.x + a.side <= b.x)
  }

  /** The two squares share no pixel. */
  predicate Disjoint(a: Rect, b: Rect) {
    a.x + a.side <= b.x || b.x + b.side <= a.x || a.y + a.side <= b.y || b.y + b.side <= a.y
  }

  lemma MulAtLeast(d: int, k: int)
    requires d >= 1 && k >= 1
    ensures d * k >= k
  {
  }

  lemma MulStep(a: int, b: int, k: int)
    requires a < b && k >= 1
    ensures a * k + k <= b * k
  {
    var d := b - a;
    assert b * k == a * k + d * k;
    MulAtLeast(d, k);
  }

  /** The pixel offset of module coordinate v: past the quiet zone, one module per step. */
  function Offset(v: int, px: int): int {
    (v + MarginModules) * px
  }

  lemma OffsetStep(u: int, v: int, px: int)
    requires u < v && px >= 1
    ensures Offset(u, px) + px <= Offset(v, px)
  {
    MulStep(u + MarginModules, v + MarginModules, px);
  }

  lemma OffsetInjective(u: int, v: int, px: int)
    requires px >= 1 && Offset(u, px) == Offset(v, px)
    ensures u == v
  {
    if u < v {
      OffsetStep(u, v, px);
    } else if v < u {
      OffsetStep(v, u, px);
    }
  }

  /** For a grid coordinate the module lies between the quiet zones of an n + 4 module canvas. */
  lemma OffsetInCanvas(v: int, n: int, px: int)
    requires 0 <= v < n && px >= 1
    ensures MarginModules * px <= Offset(v, px)
    ensures Offset(v, px) + px <= (n + MarginModules * 2) * px - MarginModules * px
  {
    if v > 0 {
      OffsetStep(0, v, px);
    }
    if v < n - 1 {
      OffsetStep(v, n - 1, px);
    }
    assert Offset(n - 1, px) + px == (n + MarginModules * 2) * px - MarginModules * px;
  }

  lemma ModuleRectAt(c: Cell, n: int, px: int)
    requires InGrid(c, n)
    ensures ModuleRect(c, n, px).x == Offset(c.x, px) && ModuleRect(c, n, px).y == Offset(c.y, px)
    ensures ModuleRect(c, n, px).side == px
  {
  }

  /** Distinct modules in row-major order give squares in the same order, one module apart at least. */
  lemma ModuleRectPrecedes(c1: Cell, c2: Cell, n: int, px: int)
    requires InGrid(c1, n) && InGrid(c2, n) && px >= 1 && CellBefore(c1, c2)
    ensures RectPrecedes(ModuleRect(c1, n, px), ModuleRect(c2, n, px))
  {
    ModuleRectAt(c1, n, px);
    ModuleRectAt(c2, n, px);
    if c1.y < c2.y {
      OffsetStep(c1.y, c2.y, px);
    } else {
      OffsetStep(c1.x, c2.x, px);
    }
  }

  /** Different modules never get the same square. */
  lemma ModuleRectInjective(c1: Cell, c2: Cell, n: int, px: int)
    requires InGrid(c1, n) && InGrid(c2, n) && px >= 1 && ModuleRect(c1, n, px) == ModuleRect(c2, n, px)
    ensures c1 == c2
  {
    ModuleRectAt(c1, n, px);
    ModuleRectAt(c2, n, px);
    OffsetInjective(c1.x, c2.x, px);
    OffsetInjective(c1.y, c2.y, px);
  }

  /** The square of a grid module lies inside the canvas and leaves the 2-module quiet zone clear. */
  lemma ModuleRectInCanvas(c: Cell, n: int, px: int)
    requires InGrid(c, n) && px >= 1
    ensures var r := ModuleRect(c, n, px);
      && r.side == px
      && MarginModules * px <= r.x && r.x + r.side <= (n + MarginModules * 2) * px - MarginModules * px
      && MarginModules * px <= r.y && r.y + r.side <= (n + MarginModules * 2) * px - MarginModules * px
  {
    ModuleRectAt(c, n, px);
    OffsetInCanvas(c.x, n, px);
    OffsetInCanvas(c.y, n, px);
  }

  // ---------------------------------------------------------------------------
  // Properties of the scene
  // ---------------------------------------------------------------------------

  /** A white canvas of canvasPx pixels; the square of module (x, y) is drawn iff that module is dark. */
  lemma SceneDrawsExactlyDarkModules(m: seq<seq<bool>>, size: int)
    requires IsSquare(m)
    ensures var sc := ColoredScene(m, size);
      && sc.canvas == CanvasPx(size, |m|) && sc.background == White
      && forall x, y :: 0 <= x < |m| && 0 <= y < |m| ==>
           (m[x][y] <==> ModuleRect(Cell(x, y), |m|, ModulePx(size, |m|)) in sc.rects)
  {
    var n, px := |m|, ModulePx(size, |m|);
    var cells := GridCells(m, n);
    var rects := ColoredScene(m, size).rects;
    CanvasBounds(size, n);
    forall x, y | 0 <= x < n && 0 <= y < n
      ensures m[x][y] <==> ModuleRect(Cell(x, y), n, px) in rects
    {
      if m[x][y] {
        GridCellListed(m, n, x, y);
        var i :| 0 <= i < |cells| && cells[i] == Cell(x, y);
        assert rects[i] == ModuleRect(Cell(x, y), n, px);
      }
      if ModuleRect(Cell(x, y), n, px) in rects {
        var i :| 0 <= i < |rects| && rects[i] == ModuleRect(Cell(x, y), n, px);
        ModuleRectInjective(cells[i], Cell(x, y), n, px);
      }
    }
  }

  /** `r` is the square of some dark module of m. */
  predicate IsDarkModuleRect(m: seq<seq<bool>>, r: Rect, px: int)
    requires IsSquare(m)
  {
    exists x, y :: 0 <= x < |m| && 0 <= y < |m| && m[x][y] && r == ModuleRect(Cell(x, y), |m|, px)
  }

  /** Every square of the scene is the square of a dark module. */
  lemma SceneRectsAreDarkModules(m: seq<seq<bool>>, size: int)
    requires IsSquare(m)
    ensures forall r :: r in ColoredScene(m, size).rects ==> IsDarkModuleRect(m, r, ModulePx(size, |m|))
  {
    var n, px := |m|, ModulePx(size, |m|);
    var cells := GridCells(m, n);
    var rects := ColoredScene(m, size).rects;
    forall r | r in rects
      ensures IsDarkModuleRect(m, r, px)
    {
      var i :| 0 <= i < |rects| && rects[i] == r;
      var c := cells[i];
      assert r == ModuleRect(Cell(c.x, c.y), n, px);
    }
  }

  /**
   * The squares come in strict row-major order (y outer, x inner), so no module is drawn
   * twice: there is exactly one square per dark module.
   */
  lemma SceneRowMajor(m: seq<seq<bool>>, size: int)
    requires IsSquare(m)
    ensures var rs := ColoredScene(m, size).rects;
      forall i, j :: 0 <= i < j < |rs| ==> RectPrecedes(rs[i], rs[j]) && rs[i] != rs[j]
  {
    var n, px := |m|, ModulePx(size, |m|);
    var cells := GridCells(m, n);
    var rects := ColoredScene(m, size).rects;
    CanvasBounds(size, n);
    GridCellsOrdered(m, n);
    forall i, j | 0 <= i < j < |rects|
      ensures RectPrecedes(rects[i], rects[j]) && rects[i] != rects[j]
    {
      ModuleRectPrecedes(cells[i], cells[j], n, px);
    }
  }

  /** No two squares of the scene overlap. */
  lemma SceneDisjoint(m: seq<seq<bool>>, size: int)
    requires IsSquare(m)
    ensures var rs := ColoredScene(m, size).rects;
      forall i, j :: 0 <= i < |rs| && 0 <= j < |rs| && i != j ==> Disjoint(rs[i], rs[j])
  {
    SceneRowMajor(m, size);
  }

  /** Every square is one module wide, inside the canvas, and clear of the quiet zone. */
  lemma SceneInsideCanvas(m: seq<seq<bool>>, size: int)
    requires IsSquare(m)
    ensures var sc, px := ColoredScene(m, size), ModulePx(size, |m|);
      forall i :: 0 <= i < |sc.rects| ==>
        var r := sc.rects[i];
        && r.side == px
        && MarginModules * px <= r.x && r.x + r.side <= sc.canvas - MarginModules * px
        && MarginModules * px <= r.y && r.y + r.side <= sc.canvas - MarginModules * px
  {
    var n, px := |m|, ModulePx(size, |m|);
    var cells := GridCells(m, n);
    CanvasBounds(size, n);
    forall i | 0 <= i < |cells| {
      ModuleRectInCanvas(cells[i], n, px);
    }
  }

  // ---------------------------------------------------------------------------
  // Colours
  // ---------------------------------------------------------------------------

  /** The two anchors are well-formed upper-case colours with channels (4, 153, 233) and (244, 40, 40). */
  lemma AnchorChannels()
    ensures IsHexColour(Blue) && UpperAscii(Blue) == Blue && HexToRgb(Blue) == Rgb(4, 153, 233)
    ensures IsHexColour(Red) && UpperAscii(Red) == Red && HexToRgb(Red) == Rgb(244, 40, 40)
  {
    BlueChannels();
    RedChannels();
    UpperAnchor(Blue);
    UpperAnchor(Red);
  }

  lemma BlueChannels()
    ensures IsHexColour(Blue) && HexToRgb(Blue) == Rgb(4, 153, 233)
  {
    HexColourIs(Blue, 4, 153, 233);
  }

  lemma RedChannels()
    ensures IsHexColour(Red) && HexToRgb(Red) == Rgb(244, 40, 40)
  {
    HexColourIs(Red, 244, 40, 40);
  }

  lemma UpperAnchor(s: string)
    requires s == Blue || s == Red
    ensures UpperAscii(s) == s
  {
    var u := UpperAscii(s);
    assert u[0] == s[0] && u[1] == s[1] && u[2] == s[2] && u[3] == s[3];
    assert u[4] == s[4] && u[5] == s[5] && u[6] == s[6];
  }

  /**
   * Off the finder zone the clamp is idle: the colour of column x is lerpColorHex(BLUE, RED,
   * x / (n - 1)) with x / (n - 1) in [0, 1].
   */
  lemma ModuleColourOffFinder(x: int, y: int, n: int)
    requires 0 <= x < n && 0 <= y < n && !IsInFinder(x, y, n)
    ensures n >= 8 && 0.0 <= x as real / (n - 1) as real <= 1.0
    ensures ModuleColour(x, y, n) == LerpColorHex(Blue, Red, x as real / (n - 1) as real)
  {
    NonFinderGridIsWide(x, y, n);
    FractionInUnit(x, n - 1);
  }

  lemma FractionInUnit(a: int, b: int)
    requires 0 <= a <= b && b > 0
    ensures 0.0 <= a as real / b as real <= 1.0
  {
    assert a as real <= b as real;
  }

  /** Every module colour is "#" followed by six upper-case hex digits. */
  lemma ModuleColourIsHexColour(x: int, y: int, n: int)
    requires 0 <= x < n && 0 <= y < n
    ensures IsHexColour(ModuleColour(x, y, n))
    ensures UpperAscii(ModuleColour(x, y, n)) == ModuleColour(x, y, n)
  {
    if IsInFinder(x, y, n) {
      BlueChannels();
      UpperAnchor(Blue);
    } else {
      ModuleColourOffFinder(x, y, n);
      LerpColorHexIsHexColour(Blue, Red, x as real / (n - 1) as real);
    }
  }

  /** The gradient is horizontal: two modules of one column outside the finder zone share their colour. */
  lemma ColourDependsOnColumnOnly(x: int, y1: int, y2: int, n: int)
    requires 0 <= x < n && 0 <= y1 < n && 0 <= y2 < n
    requires !IsInFinder(x, y1, n) && !IsInFinder(x, y2, n)
    ensures ModuleColour(x, y1, n) == ModuleColour(x, y2, n)
  {
    ModuleColourOffFinder(x, y1, n);
    ModuleColourOffFinder(x, y2, n);
  }

  /** The gradient starts at exactly BLUE... */
  lemma GradientStartsBlue(t: real)
    requires t == 0.0
    ensures LerpColorHex(Blue, Red, t) == Blue
  {
    AnchorChannels();
    LerpColorHexAtZero(Blue, Red, t);
  }

  /** ...and ends at exactly RED. */
  lemma GradientEndsRed(t: real)
    requires t == 1.0
    ensures LerpColorHex(Blue, Red, t) == Red
  {
    AnchorChannels();
    LerpColorHexAtOne(Blue, Red, t);
  }

  /** Column 0 is blue throughout. */
  lemma FirstColumnBlue(y: int, n: int)
    requires 0 <= y < n
    ensures ModuleColour(0, y, n) == Blue
  {
    if !IsInFinder(0, y, n) {
      ModuleColourOffFinder(0, y, n);
      FractionEnds(n - 1);
      GradientStartsBlue(0 as real / (n - 1) as real);
    }
  }

  /** Column n - 1 is red wherever it lies outside the top-right finder pattern. */
  lemma LastColumnRed(y: int, n: int)
    requires 0 <= y < n && !IsInFinder(n - 1, y, n)
    ensures ModuleColour(n - 1, y, n) == Red
  {
    NonFinderGridIsWide(n - 1, y, n);
    GradientAtLastColumn(n);
    GradientEndsRed(Gradient(n - 1, n));
  }

  lemma GradientAtLastColumn(n: int)
    requires n >= 2
    ensures Gradient(n - 1, n) == 1.0
  {
    FractionEnds(n - 1);
  }

  lemma FractionEnds(b: int)
    requires b > 0
    ensures 0 as real / b as real == 0.0 && b as real / b as real == 1.0
  {
  }

  /**
   * Left to right across the gradient the red channel never falls and the green and blue
   * channels never rise.
   */
  lemma GradientMonotone(x1: int, y1: int, x2: int, y2: int, n: int)
    requires 0 <= x1 <= x2 < n && 0 <= y1 < n && 0 <= y2 < n
    requires !IsInFinder(x1, y1, n) && !IsInFinder(x2, y2, n)
    ensures var c1, c2 := HexToRgb(ModuleColour(x1, y1, n)), HexToRgb(ModuleColour(x2, y2, n));
      c1.r <= c2.r && c2.g <= c1.g && c2.b <= c1.b
  {
    ModuleColourOffFinder(x1, y1, n);
    ModuleColourOffFinder(x2, y2, n);
    var t1, t2 := x1 as real / (n - 1) as real, x2 as real / (n - 1) as real;
    FractionMonotone(x1, x2, n - 1);
    AnchorChannels();
    LerpColorHexMonotone(Blue, Red, t1, t2);
  }

  lemma FractionMonotone(a1: int, a2: int, b: int)
    requires a1 <= a2 && b > 0
    ensures a1 as real / b as real <= a2 as real / b as real
  {
    assert a2 as real / b as real - a1 as real / b as real == (a2 - a1) as real / b as real;
  }

  /** Every square of the scene is filled with "#" and six upper-case hex digits. */
  lemma SceneColoursAreHex(m: seq<seq<bool>>, size: int)
    requires IsSquare(m)
    ensures forall r :: r in ColoredScene(m, size).rects ==> IsHexColour(r.fill) && UpperAscii(r.fill) == r.fill
  {
    var n, px := |m|, ModulePx(size, |m|);
    var cells := GridCells(m, n);
    var rects := ColoredScene(m, size).rects;
    forall r | r in rects
      ensures IsHexColour(r.fill) && UpperAscii(r.fill) == r.fill
    {
      var i :| 0 <= i < |rects| && rects[i] == r;
      ModuleColourIsHexColour(cells[i].x, cells[i].y, n);
    }
  }
}
