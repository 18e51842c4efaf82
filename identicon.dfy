/** `generateIdenticonDataUrl`: a seed string becomes a colour and a 5x5
    mirror-symmetric pattern of filled cells painted on a size-by-size canvas.
    A draw of the generator is the word `u` it returns before the division by
    2^32, so `rand()` is the fraction u / 2^32. */
module Identicon {
  import opened Words
  import Fnv
  import Mulberry
  import opened Canvas

  /** Cells per side of the grid. */
  const Cells: nat := 5
  /** `Math.ceil(cells / 2)`: the independently drawn columns 0, 1 and 2. */
  const HalfCells: nat := (Cells + 1) / 2
  /** Draws that decide the colour, then draws that decide the grid. */
  const ColourDraws: nat := 3
  const GridDraws: nat := HalfCells * Cells
  const TotalDraws: nat := ColourDraws + GridDraws

  /** The argument of the generator: `Absent` is a falsy non-string value
      (undefined, null), which `seed || ''` replaces by the empty string. */
  datatype Seed = Absent | Given(units: seq<CodeUnit>)

  function SeedText(seed: Seed): seq<CodeUnit>
  {
    match seed
    case Absent => []
    case Given(units) => units
  }

  /** The 18 words drawn during one generation, in the order they are drawn. */
  function SeedDraws(seed: Seed): seq<Word>
  {
    Mulberry.Draws(Fnv.Hash(SeedText(seed)), TotalDraws)
  }

  // ----- colour -----

  /** `Math.floor(rand() * n)` for the draw `u`: the largest r with
      r / n <= u / 2^32. */
  function Scale(u: Word, n: nat): (r: nat)
    ensures r * TwoTo32 <= u as int * n < (r + 1) * TwoTo32
    ensures n > 0 ==> r < n
  {
    var p := u as int * n;
    assert n == 0 || p < TwoTo32 * n by {
      MulStrict(u as int, TwoTo32, n);
    }
    p / TwoTo32
  }

  lemma MulStrict(a: int, b: int, n: nat)
    requires a < b
    ensures n == 0 || a * n < b * n
  {
  }

  /** The foreground colour in hue / saturation / lightness terms. */
  datatype Hsl = Hsl(hue: nat, sat: nat, light: nat)

  /** The colour chosen from the first three draws: hue, then saturation,
      then lightness. */
  function Colour(d: seq<Word>): (c: Hsl)
    requires |d| >= ColourDraws
    ensures c.hue < 360 && 60 <= c.sat < 80 && 40 <= c.light < 60
  {
    Hsl(Scale(d[0], 360), 60 + Scale(d[1], 20), 40 + Scale(d[2], 20))
  }

  /** The colour depends on the first three draws only. */
  lemma ColourOfPrefix(d: seq<Word>, e: seq<Word>)
    requires |d| == ColourDraws
    ensures Colour(d + e) == Colour(d)
  {
    assert (d + e)[0] == d[0] && (d + e)[1] == d[1] && (d + e)[2] == d[2];
  }

  // ----- fractions: why the integer model is exact -----

  /** `rand()` lies in [0, 1), and `rand() > 0.5` holds exactly when the
      drawn word exceeds 2^31. */
  lemma AboveHalf(u: Word)
    ensures 0.0 <= (u as int) as real / TwoTo32 as real < 1.0
    ensures ((u as int) as real / TwoTo32 as real > 0.5) <==> u > Half
  {
  }

  /** `Scale` is the floor of the fraction times n, computed exactly. */
  lemma ScaleIsFloor(u: Word, n: nat)
    ensures Scale(u, n) == (((u as int) as real / TwoTo32 as real) * n as real).Floor
  {
    FloorScaled(u as int, n, TwoTo32);
  }

  lemma FloorScaled(v: int, n: int, m: int)
    requires m > 0
    ensures ((v as real / m as real) * n as real).Floor == (v * n) / m
  {
    var a, b, c := v as real, n as real, m as real;
    assert (a / c) * b == (a * b) / c;
    assert a * b == (v * n) as real;
    FloorOfQuotient(v * n, m);
  }

  lemma FloorOfQuotient(p: int, m: int)
    requires m > 0
    ensures (p as real / m as real).Floor == p / m
  {
    var q := p / m;
    var x, mr := p as real / m as real, m as real;
    assert x * mr == p as real;
    assert q as real <= x by {
      assert q * m <= p;
      CastMul(q, m);
      RealCancel(q as real, x, mr);
    }
    assert x < (q + 1) as real by {
      assert p < (q + 1) * m;
      CastMul(q + 1, m);
      RealCancel(x, (q + 1) as real, mr);
    }
  }

  lemma CastMul(a: int, b: int)
    ensures (a * b) as real == a as real * b as real
  {
  }

  lemma RealCancel(a: real, b: real, m: real)
    requires m > 0.0
    ensures a * m <= b * m ==> a <= b
    ensures a * m < b * m ==> a < b
  {
  }

  // ----- cell geometry -----

  /** `Math.ceil(size / cells)`: the least cell size whose five cells cover
      the canvas. */
  function CellSize(size: nat): (c: nat)
    ensures size <= Cells * c
    ensures c > 0 ==> Cells * (c - 1) < size
  {
    (size + Cells - 1) / Cells
  }

  /** `Math.floor(cell * 0.1)`: a tenth of the cell, rounded down. */
  function Padding(cell: nat): (p: nat)
    ensures 10 * p <= cell < 10 * (p + 1)
  {
    cell / 10
  }

  /** The side of a filled square: the cell less the padding on both sides. */
  function Side(cell: nat): (w: nat)
    ensures Padding(cell) + w + Padding(cell) == cell
    ensures cell > 0 ==> w > 0
  {
    cell - Padding(cell) * 2
  }

  /** The square painted for cell (x, y). */
  function CellRect(x: nat, y: nat, cell: nat): Rect
  {
    Rect(x * cell + Padding(cell), y * cell + Padding(cell), Side(cell), Side(cell))
  }

  /** An offset within a cell that falls inside its padded square. */
  predicate Interior(o: int, cell: nat)
  {
    Padding(cell) <= o < Padding(cell) + Side(cell)
  }

  /** With a non-empty canvas the geometry never degenerates. */
  lemma GeometryPositive(size: nat)
    requires size >= 1
    ensures CellSize(size) >= 1 && Side(CellSize(size)) >= 1
    ensures 2 * Padding(CellSize(size)) < CellSize(size)
  {
  }

  /** The one-pixel canvas: a single cell of one pixel with no padding. */
  lemma SinglePixelGeometry()
    ensures CellSize(1) == 1 && Padding(1) == 0 && Side(1) == 1
    ensures CellRect(0, 0, 1) == Rect(0, 0, 1, 1)
  {
  }

  /** The cell index of pixel coordinate p, counting whole cells: p / cell.
      `CellOf` and `OffsetOf` are `/` and `%` written as repeated subtraction,
      which keeps the proofs about cells free of nonlinear division;
      `CellOfIsDiv` proves them equal to `/` and `%`. */
  function CellOf(p: nat, cell: nat): nat
    requires cell > 0
    decreases p
  {
    if p < cell then 0 else 1 + CellOf(p - cell, cell)
  }

  /** The offset of pixel coordinate p within its cell: p % cell. */
  function OffsetOf(p: nat, cell: nat): (o: nat)
    requires cell > 0
    ensures o < cell
    decreases p
  {
    if p < cell then p else OffsetOf(p - cell, cell)
  }

  /** A coordinate in [x * cell, (x + 1) * cell) is in cell x, at offset
      p - x * cell. */
  lemma {:induction false} CellOfUnique(p: nat, cell: nat, x: nat)
    requires cell > 0 && x * cell <= p < x * cell + cell
    ensures CellOf(p, cell) == x && OffsetOf(p, cell) == p - x * cell
    decreases x
  {
    if x > 0 {
      assert x * cell == (x - 1) * cell + cell;
      CellOfUnique(p - cell, cell, x - 1);
    }
  }

  /** Every coordinate is its cell's start plus its offset. */
  lemma {:induction false} CellOfSplit(p: nat, cell: nat)
    requires cell > 0
    ensures p == CellOf(p, cell) * cell + OffsetOf(p, cell)
    decreases p
  {
    if p >= cell {
      CellOfSplit(p - cell, cell);
      assert (1 + CellOf(p - cell, cell)) * cell == CellOf(p - cell, cell) * cell + cell;
    }
  }

  /** `CellOf` and `OffsetOf` are Euclidean division and remainder. */
  lemma CellOfIsDiv(p: nat, cell: nat)
    requires cell > 0
    ensures CellOf(p, cell) == p / cell && OffsetOf(p, cell) == p % cell
  {
    var q, r := p / cell, p % cell;
    assert q * cell + r == p && 0 <= r < cell;
    CellOfUnique(p, cell, q);
  }

  /** Along one axis: a pixel lies in the square of cell x exactly when x
      is its cell and its offset in the cell is past the padding. */
  lemma AxisIff(x: nat, cell: nat, p: nat)
    requires cell > 0
    ensures x * cell + Padding(cell) <= p < x * cell + Padding(cell) + Side(cell)
      <==> CellOf(p, cell) == x && Interior(OffsetOf(p, cell), cell)
  {
    if x * cell + Padding(cell) <= p < x * cell + Padding(cell) + Side(cell) {
      CellOfUnique(p, cell, x);
    }
    if CellOf(p, cell) == x {
      CellOfSplit(p, cell);
    }
  }

  /** A pixel lies in the square of cell (x, y) exactly when (x, y) is the
      cell it falls in and it is clear of the cell's padding. */
  lemma InCellRect(x: nat, y: nat, cell: nat, px: nat, py: nat)
    requires cell > 0
    ensures InRect(CellRect(x, y, cell), px, py)
      <==> (CellOf(px, cell) == x && CellOf(py, cell) == y
            && Interior(OffsetOf(px, cell), cell) && Interior(OffsetOf(py, cell), cell))
  {
    AxisIff(x, cell, px);
    AxisIff(y, cell, py);
  }

  /** The square of a cell stays within the cell. */
  lemma CellRectInsideCell(x: nat, y: nat, cell: nat, px: int, py: int)
    requires InRect(CellRect(x, y, cell), px, py)
    ensures x * cell <= px < (x + 1) * cell && y * cell <= py < (y + 1) * cell
  {
    assert (x + 1) * cell == x * cell + cell && (y + 1) * cell == y * cell + cell;
  }

  /** Squares of distinct cells share no pixel. */
  lemma CellRectsDisjoint(x1: nat, y1: nat, x2: nat, y2: nat, cell: nat, px: nat, py: nat)
    requires InRect(CellRect(x1, y1, cell), px, py) && InRect(CellRect(x2, y2, cell), px, py)
    ensures x1 == x2 && y1 == y2
  {
    InCellRect(x1, y1, cell, px, py);
    InCellRect(x2, y2, cell, px, py);
  }

  // ----- the grid -----

  /** The column whose draw decides column x: columns 3 and 4 mirror 1 and 0. */
  function SourceColumn(x: nat): nat
    requires x < Cells
  {
    if x < HalfCells then x else Cells - 1 - x
  }

  /** Cell (x, y) of the grid decided by the 15 grid draws `g`: filled when
      the draw for its source column and row y is above one half. Draws are
      taken column by column, each column top to bottom. */
  predicate Filled(g: seq<Word>, x: nat, y: nat)
    requires |g| == GridDraws && x < Cells && y < Cells
  {
    g[Cells * SourceColumn(x) + y] > Half
  }

  /** The grid is mirror-symmetric: cell (x, y) is filled exactly when cell
      (4 - x, y) is. */
  lemma FilledMirror(g: seq<Word>, x: nat, y: nat)
    requires |g| == GridDraws && x < Cells && y < Cells
    ensures Filled(g, x, y) <==> Filled(g, Cells - 1 - x, y)
  {
  }

  /** In the middle column the mirror square is the square itself, so its
      second `fillRect` changes nothing. */
  lemma MiddleColumnRepaint(calls: seq<Rect>, y: nat, cell: nat, px: int, py: int)
    ensures CellRect(Cells - 1 - (HalfCells - 1), y, cell) == CellRect(HalfCells - 1, y, cell)
    ensures Covered(calls + [CellRect(HalfCells - 1, y, cell), CellRect(Cells - 1 - (HalfCells - 1), y, cell)], px, py)
      <==> Covered(calls + [CellRect(HalfCells - 1, y, cell)], px, py)
  {
    var r := CellRect(HalfCells - 1, y, cell);
    assert calls + [r, r] == calls + [r] + [r];
    RepaintIdempotent(calls, r, px, py);
  }

  /** The squares that grid draw number k, of value v, passes to `fillRect`:
      the square of cell (k / 5, k % 5) and then that of its mirror cell when
      v is above one half, none otherwise. */
  function Strokes(v: Word, k: nat, cell: nat): seq<Rect>
    requires k < GridDraws
  {
    if v > Half then [CellRect(k / Cells, k % Cells, cell), CellRect(Cells - 1 - k / Cells, k % Cells, cell)] else []
  }

  /** The squares passed to `fillRect`, in call order, after the grid draws
      `g`. */
  function FillCalls(g: seq<Word>, cell: nat): seq<Rect>
    requires |g| <= GridDraws
    decreases |g|
  {
    if g == [] then [] else FillCalls(g[..|g| - 1], cell) + Strokes(g[|g| - 1], |g| - 1, cell)
  }

  /** Grid draw number k, of value v, fills cell (cx, cy): it is above one
      half, it is for row cy, and cx is its column or that column's mirror. */
  predicate Hits(v: Word, k: nat, cx: int, cy: int)
  {
    v > Half && k % Cells == cy && (k / Cells == cx || Cells - 1 - k / Cells == cx)
  }

  /** Some draw among `g` filled cell (cx, cy), directly or as its mirror. */
  ghost predicate PaintedBy(g: seq<Word>, cx: int, cy: int)
  {
    exists k :: 0 <= k < |g| && Hits(g[k], k, cx, cy)
  }

  /** A cell is filled by the draws `g` when it is filled by all but the
      last of them or by the last. */
  lemma PaintedByLast(g: seq<Word>, cx: int, cy: int)
    requires g != []
    ensures PaintedBy(g, cx, cy) <==> PaintedBy(g[..|g| - 1], cx, cy) || Hits(g[|g| - 1], |g| - 1, cx, cy)
  {
    var prev := g[..|g| - 1];
    if PaintedBy(prev, cx, cy) {
      var k :| 0 <= k < |prev| && Hits(prev[k], k, cx, cy);
      assert g[k] == prev[k];
    }
    if PaintedBy(g, cx, cy) {
      var k :| 0 <= k < |g| && Hits(g[k], k, cx, cy);
      if k < |prev| {
        assert prev[k] == g[k];
      }
    }
  }

  /** Painting a cell and its mirror adds the clear pixels of those two cells. */
  lemma CoveredAfterPair(calls: seq<Rect>, x: nat, y: nat, cell: nat, px: nat, py: nat)
    requires cell > 0 && x < Cells
    ensures Covered(calls + [CellRect(x, y, cell), CellRect(Cells - 1 - x, y, cell)], px, py)
      <==> (Covered(calls, px, py)
            || (Interior(OffsetOf(px, cell), cell) && Interior(OffsetOf(py, cell), cell)
                && CellOf(py, cell) == y && (CellOf(px, cell) == x || CellOf(px, cell) == Cells - 1 - x)))
  {
    var r1, r2 := CellRect(x, y, cell), CellRect(Cells - 1 - x, y, cell);
    assert calls + [r1, r2] == (calls + [r1]) + [r2];
    CoveredSnoc(calls + [r1], r2, px, py);
    CoveredSnoc(calls, r1, px, py);
    InCellRect(x, y, cell, px, py);
    InCellRect(Cells - 1 - x, y, cell, px, py);
  }

  /** The squares of the last draw add the clear pixels of the cells it fills. */
  lemma CoveredByLast(g: seq<Word>, cell: nat, px: nat, py: nat)
    requires 0 < |g| <= GridDraws && cell > 0
    ensures Covered(FillCalls(g, cell), px, py)
      <==> (Covered(FillCalls(g[..|g| - 1], cell), px, py)
            || (Interior(OffsetOf(px, cell), cell) && Interior(OffsetOf(py, cell), cell)
                && Hits(g[|g| - 1], |g| - 1, CellOf(px, cell), CellOf(py, cell))))
  {
    var k := |g| - 1;
    var before := FillCalls(g[..k], cell);
    assert FillCalls(g, cell) == before + Strokes(g[k], k, cell);
    if g[k] > Half {
      CoveredAfterPair(before, k / Cells, k % Cells, cell, px, py);
    } else {
      assert before + Strokes(g[k], k, cell) == before;
    }
  }

  /** After any prefix of the grid draws, a pixel is covered by the squares
      painted so far exactly when it is clear of its cell's padding and some
      draw so far filled its cell. */
  lemma {:induction false} CoveredByCalls(g: seq<Word>, cell: nat, px: nat, py: nat)
    requires |g| <= GridDraws && cell > 0
    ensures Covered(FillCalls(g, cell), px, py)
      <==> Interior(OffsetOf(px, cell), cell) && Interior(OffsetOf(py, cell), cell) && PaintedBy(g, CellOf(px, cell), CellOf(py, cell))
    decreases |g|
  {
    if g != [] {
      CoveredByCalls(g[..|g| - 1], cell, px, py);
      CoveredByLast(g, cell, px, py);
      PaintedByLast(g, CellOf(px, cell), CellOf(py, cell));
    }
  }

  /** A draw that fills cell (cx, cy) is the draw `Filled` reads for it. */
  lemma HitIsFilled(g: seq<Word>, k: nat, cx: int, cy: int)
    requires |g| == GridDraws && k < |g| && Hits(g[k], k, cx, cy)
    ensures 0 <= cx < Cells && 0 <= cy < Cells && Filled(g, cx, cy)
  {
    var col := k / Cells;
    assert k == Cells * col + cy && col < HalfCells;
    assert SourceColumn(cx) == col;
  }

  /** The draw `Filled` reads for cell (cx, cy) fills that cell when it is
      above one half. */
  lemma FilledIsHit(g: seq<Word>, cx: nat, cy: nat)
    requires |g| == GridDraws && cx < Cells && cy < Cells && Filled(g, cx, cy)
    ensures Hits(g[Cells * SourceColumn(cx) + cy], Cells * SourceColumn(cx) + cy, cx, cy)
  {
    var k := Cells * SourceColumn(cx) + cy;
    assert k / Cells == SourceColumn(cx) && k % Cells == cy;
  }

  /** Once all 15 grid draws are taken, the cells filled by some draw are
      exactly the cells of the grid that `Filled` marks. */
  lemma PaintedByAll(g: seq<Word>, cx: nat, cy: nat)
    requires |g| == GridDraws
    ensures PaintedBy(g, cx, cy) <==> (cx < Cells && cy < Cells && Filled(g, cx, cy))
  {
    if PaintedBy(g, cx, cy) {
      var k :| 0 <= k < |g| && Hits(g[k], k, cx, cy);
      HitIsFilled(g, k, cx, cy);
    }
    if cx < Cells && cy < Cells && Filled(g, cx, cy) {
      FilledIsHit(g, cx, cy);
    }
  }

  /** The pixel-level reference: once all 15 grid draws are painted, pixel
      (px, py) is painted exactly when it falls in a grid cell (cx, cy) that
      is filled and it is clear of that cell's padding. Every other pixel
      stays clear. */
  lemma PaintedPixel(g: seq<Word>, cell: nat, px: nat, py: nat)
    requires |g| == GridDraws && cell > 0
    ensures Covered(FillCalls(g, cell), px, py)
      <==> (CellOf(px, cell) < Cells && CellOf(py, cell) < Cells && Filled(g, CellOf(px, cell), CellOf(py, cell))
            && Interior(OffsetOf(px, cell), cell) && Interior(OffsetOf(py, cell), cell))
  {
    var cx, cy := CellOf(px, cell), CellOf(py, cell);
    var clear := Interior(OffsetOf(px, cell), cell) && Interior(OffsetOf(py, cell), cell);
    var cov := Covered(FillCalls(g, cell), px, py);
    assert cov <==> clear && PaintedBy(g, cx, cy) by {
      CoveredByCalls(g, cell, px, py);
    }
    assert PaintedBy(g, cx, cy) <==> (cx < Cells && cy < Cells && Filled(g, cx, cy)) by {
      PaintedByAll(g, cx, cy);
    }
  }

  /** The pixel at the same offset in the mirrored cell column. */
  function MirrorX(px: nat, cell: nat): nat
    requires cell > 0 && CellOf(px, cell) < Cells
  {
    (Cells - 1 - CellOf(px, cell)) * cell + OffsetOf(px, cell)
  }

  /** The mirrored pixel lies in the mirrored cell, at the same offset. */
  lemma MirrorXCell(px: nat, cell: nat)
    requires cell > 0 && CellOf(px, cell) < Cells
    ensures CellOf(MirrorX(px, cell), cell) == Cells - 1 - CellOf(px, cell)
    ensures OffsetOf(MirrorX(px, cell), cell) == OffsetOf(px, cell)
  {
    CellOfUnique(MirrorX(px, cell), cell, Cells - 1 - CellOf(px, cell));
  }

  /** Mirror symmetry: a pixel of the 5 x 5 grid area is painted exactly when
      its mirror image across the middle column is. */
  lemma MirrorSymmetry(g: seq<Word>, cell: nat, px: nat, py: nat)
    requires |g| == GridDraws && cell > 0 && CellOf(px, cell) < Cells
    ensures Covered(FillCalls(g, cell), px, py) <==> Covered(FillCalls(g, cell), MirrorX(px, cell), py)
  {
    var cx, cy := CellOf(px, cell), CellOf(py, cell);
    MirrorXCell(px, cell);
    PaintedPixel(g, cell, px, py);
    PaintedPixel(g, cell, MirrorX(px, cell), py);
    if cy < Cells {
      FilledMirror(g, cx, cy);
    }
  }

  /** One more grid draw adds the squares of its cell and of its mirror when
      it is above one half, and nothing otherwise. */
  lemma FillCallsSnoc(g: seq<Word>, v: Word, cell: nat)
    requires |g| < GridDraws
    ensures FillCalls(g + [v], cell) == FillCalls(g, cell) + Strokes(v, |g|, cell)
  {
    assert (g + [v])[..|g|] == g;
  }

  // ----- the generator -----

  /** The colour step of `generateIdenticonDataUrl`: the hue, the saturation and the lightness, from three
      draws taken in that order. */
  method ChooseColour(rand: Mulberry.Generator) returns (colour: Hsl)
    requires rand.Valid()
    modifies rand
    ensures rand.Valid() && rand.count == old(rand.count) + ColourDraws
    ensures |rand.drawn| == |old(rand.drawn)| + ColourDraws && rand.drawn[..|old(rand.drawn)|] == old(rand.drawn)
    ensures colour == Colour(rand.drawn[|old(rand.drawn)|..])
  {
    var hue := rand.Next();
    var sat := rand.Next();
    var light := rand.Next();
    colour := Hsl(Scale(hue, 360), 60 + Scale(sat, 20), 40 + Scale(light, 20));
    assert rand.drawn == old(rand.drawn) + [hue, sat, light];
  }

  /** The body of a filled cell in `generateIdenticonDataUrl`: `fillRect` for the square of cell (x, y), then for the
      square of its mirror cell (4 - x, y). */
  method FillCellAndMirror(canvas: array2<bool>, x: nat, y: nat, cell: nat, ghost calls: seq<Rect>)
    requires x < Cells
    requires forall px, py :: 0 <= px < canvas.Length0 && 0 <= py < canvas.Length1 ==>
      canvas[px, py] == Covered(calls, px, py)
    modifies canvas
    ensures forall px, py :: 0 <= px < canvas.Length0 && 0 <= py < canvas.Length1 ==>
      canvas[px, py] == Covered(calls + [CellRect(x, y, cell), CellRect(Cells - 1 - x, y, cell)], px, py)
  {
    var padding := Padding(cell);
    var sx := x * cell + padding;
    var sy := y * cell + padding;
    var w := cell - padding * 2;
    var h := cell - padding * 2;
    PaintRect(canvas, Rect(sx, sy, w, h), true);
    // mirror
    var mx := (Cells - 1 - x) * cell + padding;
    PaintRect(canvas, Rect(mx, sy, w, h), true);
    forall px, py | 0 <= px < canvas.Length0 && 0 <= py < canvas.Length1
      ensures canvas[px, py] == Covered(calls + [CellRect(x, y, cell), CellRect(Cells - 1 - x, y, cell)], px, py)
    {
      assert calls + [Rect(sx, sy, w, h), Rect(mx, sy, w, h)] == (calls + [Rect(sx, sy, w, h)]) + [Rect(mx, sy, w, h)];
      CoveredSnoc(calls + [Rect(sx, sy, w, h)], Rect(mx, sy, w, h), px, py);
      CoveredSnoc(calls, Rect(sx, sy, w, h), px, py);
    }
  }

  /** One pass of the inner loop of `generateIdenticonDataUrl`: the draw for cell (x, y), which paints that cell and
      its mirror cell when it is above one half. `g` is the grid draws taken
      before it and `v` the draw taken now. */
  method DrawCell(rand: Mulberry.Generator, canvas: array2<bool>, x: nat, y: nat, cell: nat, ghost g: seq<Word>)
    returns (ghost v: Word)
    requires rand.Valid()
    requires x < HalfCells && y < Cells && |g| == Cells * x + y
    requires forall px, py :: 0 <= px < canvas.Length0 && 0 <= py < canvas.Length1 ==>
      canvas[px, py] == Covered(FillCalls(g, cell), px, py)
    modifies rand, canvas
    ensures rand.Valid() && rand.count == old(rand.count) + 1 && rand.drawn == old(rand.drawn) + [v]
    ensures forall px, py :: 0 <= px < canvas.Length0 && 0 <= py < canvas.Length1 ==>
      canvas[px, py] == Covered(FillCalls(g + [v], cell), px, py)
  {
    var u := rand.Next();
    v := u;
    FillCallsSnoc(g, v, cell);
    assert |g| / Cells == x && |g| % Cells == y;
    if u > Half {
      assert Strokes(v, |g|, cell) == [CellRect(x, y, cell), CellRect(Cells - 1 - x, y, cell)];
      FillCellAndMirror(canvas, x, y, cell, FillCalls(g, cell));
    } else {
      assert FillCalls(g, cell) + Strokes(v, |g|, cell) == FillCalls(g, cell);
    }
  }

  /** The nested loops of `generateIdenticonDataUrl`: the 15 grid draws, column x = 0, 1, 2 outside and row
      y = 0 .. 4 inside, each painting its cell and the mirror cell when it
      is above one half. `g` is the draws this phase takes. */
  method DrawBlocks(rand: Mulberry.Generator, canvas: array2<bool>, cell: nat) returns (ghost g: seq<Word>)
    requires rand.Valid()
    requires forall px, py :: 0 <= px < canvas.Length0 && 0 <= py < canvas.Length1 ==> !canvas[px, py]
    modifies rand, canvas
    ensures rand.Valid() && rand.count == old(rand.count) + GridDraws
    ensures |g| == GridDraws && rand.drawn == old(rand.drawn) + g
    ensures forall px, py :: 0 <= px < canvas.Length0 && 0 <= py < canvas.Length1 ==>
      canvas[px, py] == Covered(FillCalls(g, cell), px, py)
  {
    g := [];
    for x := 0 to HalfCells
      invariant rand.Valid() && rand.count == old(rand.count) + Cells * x
      invariant |g| == Cells * x && rand.drawn == old(rand.drawn) + g
      invariant forall px, py :: 0 <= px < canvas.Length0 && 0 <= py < canvas.Length1 ==>
        canvas[px, py] == Covered(FillCalls(g, cell), px, py)
    {
      for y := 0 to Cells
        invariant rand.Valid() && rand.count == old(rand.count) + Cells * x + y
        invariant |g| == Cells * x + y && rand.drawn == old(rand.drawn) + g
        invariant forall px, py :: 0 <= px < canvas.Length0 && 0 <= py < canvas.Length1 ==>
          canvas[px, py] == Covered(FillCalls(g, cell), px, py)
      {
        ghost var v := DrawCell(rand, canvas, x, y, cell, g);
        g := g + [v];
      }
    }
  }

  /** `generateIdenticonDataUrl(seed, size)` up to the PNG encoding: the
      colour and the painted-pixel mask of the canvas, together with the
      words drawn from the generator. */
  method GenerateIdenticon(seed: Seed, size: nat) returns (colour: Hsl, canvas: array2<bool>, ghost drawn: seq<Word>)
    ensures drawn == SeedDraws(seed) && |drawn| == TotalDraws
    ensures colour == Colour(drawn)
    ensures fresh(canvas) && canvas.Length0 == size && canvas.Length1 == size
    ensures forall px, py :: 0 <= px < size && 0 <= py < size ==>
      canvas[px, py] == Covered(FillCalls(drawn[ColourDraws..], CellSize(size)), px, py)
  {
    var hash := Fnv.Xfnv1a(SeedText(seed));
    var rand := new Mulberry.Generator(hash);
    colour := ChooseColour(rand);
    ghost var first := rand.drawn;

    canvas := new bool[size, size];
    PaintRect(canvas, Rect(0, 0, size, size), false);

    var cell := CellSize(size);
    ghost var g := DrawBlocks(rand, canvas, cell);
    drawn := rand.drawn;
    assert first[0..] == first;
    assert drawn == first + g;
    ColourOfPrefix(first, g);
    assert drawn[ColourDraws..] == g;
  }

  /** Determinism: two generations from seeds with the same text (an absent
      seed and the empty string among them) give the same colour and the
      same pixels. */
  method RegenerateMatches(s1: Seed, s2: Seed, size: nat) returns (c1: Hsl, c2: Hsl, m1: array2<bool>, m2: array2<bool>)
    requires SeedText(s1) == SeedText(s2)
    ensures c1 == c2
    ensures m1.Length0 == m2.Length0 == size && m1.Length1 == m2.Length1 == size
    ensures forall px, py :: 0 <= px < size && 0 <= py < size ==> m1[px, py] == m2[px, py]
  {
    ghost var d1, d2;
    c1, m1, d1 := GenerateIdenticon(s1, size);
    c2, m2, d2 := GenerateIdenticon(s2, size);
  }

  // ----- golden values -----

  /** Seed "example.com": the three colour draws and the draw for the middle
      cell (2, 2), the thirteenth grid draw. */
  lemma ExampleDraws()
    ensures var d := SeedDraws(Given(Fnv.ExampleCom));
      d[0] == 0x4D6E_E84F && d[1] == 0xA31D_6B34 && d[2] == 0xB6CE_D4D7 && d[15] == 0xD2C4_165D
  {
    var hash := Fnv.Hash(Fnv.ExampleCom);
    Fnv.GoldenHashes();
    var d := SeedDraws(Given(Fnv.ExampleCom));
    assert d[..3] == [0x4D6E_E84F, 0xA31D_6B34, 0xB6CE_D4D7] by {
      Mulberry.DrawsPrefix(hash, ColourDraws, TotalDraws);
      Mulberry.GoldenDraws();
    }
    assert d[15] == 0xD2C4_165D by {
      Mulberry.DrawAt(hash, TotalDraws, 15);
      Mulberry.GoldenState();
    }
  }

  /** Seed "example.com": the colour is hsl(108 72% 54%). */
  lemma GoldenColour()
    ensures Colour(SeedDraws(Given(Fnv.ExampleCom))) == Hsl(108, 72, 54)
  {
    ExampleDraws();
  }

  /** Seed "example.com", size 64: cells of 13 pixels with a padding of 1,
      and pixel (32, 32), in the middle cell, is painted. */
  lemma GoldenCentre()
    ensures CellSize(64) == 13 && Padding(13) == 1 && Side(13) == 11
    ensures Covered(FillCalls(SeedDraws(Given(Fnv.ExampleCom))[ColourDraws..], CellSize(64)), 32, 32)
  {
    ExampleDraws();
    var g := SeedDraws(Given(Fnv.ExampleCom))[ColourDraws..];
    assert g[12] == 0xD2C4_165D;
    assert CellSize(64) == 13 && Padding(13) == 1 && Side(13) == 11;
    PaintedPixel(g, 13, 32, 32);
    assert Filled(g, 2, 2);
  }

  /** Seed "", size 1: the single pixel is painted exactly when the first
      grid draw is above one half. */
  lemma SinglePixelCanvas(seed: Seed)
    requires SeedText(seed) == []
    ensures Covered(FillCalls(SeedDraws(seed)[ColourDraws..], 1), 0, 0)
      <==> SeedDraws(seed)[ColourDraws] > Half
  {
    var d := SeedDraws(seed);
    PaintedPixel(d[ColourDraws..], 1, 0, 0);
  }

  /** Seed "" (or an absent seed), size 1: the first grid draw is 0x698B9526,
      below one half, so the single pixel stays clear. */
  lemma EmptySeedSinglePixel(seed: Seed)
    requires SeedText(seed) == []
    ensures SeedDraws(seed)[ColourDraws] == 0x698B_9526
    ensures !Covered(FillCalls(SeedDraws(seed)[ColourDraws..], 1), 0, 0)
  {
    Fnv.GoldenHashes();
    Mulberry.DrawAt(0x811C_9DC5, TotalDraws, ColourDraws);
    SinglePixelCanvas(seed);
  }
}
