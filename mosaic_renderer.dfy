/** MosaicRenderer: the row/column loop of `generate_svg` that culls the
    over-allocated cells and appends one polygon record per surviving cell
    between the `<svg ...>` header and the closing `</svg>`. */
module MosaicRenderer {
  import opened Raster
  import opened HexGrid
  import opened ColorSampler

  datatype Cell = Cell(row: int, col: int)

  /** One entry of `svg_content`, before it is turned into text. A polygon
      is given by its centre and size (its six vertices are a float
      computation that is not modelled) and its fill colour. */
  datatype SvgLine =
    | Header(width: int, height: int)
    | Polygon(center: Point, size: real, fill: Rgb)
    | Close

  function CellCenter(g: Grid, c: Cell): Point
  {
    HexagonCenter(c.row, c.col, g.hSpace, g.vSpace, g.size)
  }

  /** The negation of the two `continue` tests: the bounding box
      `[center - size, center + size]` meets `[0, W]` horizontally and `[0, H]`
      vertically. */
  /** The closed intervals `[lo1, hi1]` and `[lo2, hi2]` share a point. */
  predicate Overlaps(lo1: real, hi1: real, lo2: real, hi2: real)
  {
    (if lo1 < lo2 then lo2 else lo1) <= (if hi1 < hi2 then hi1 else hi2)
  }

  /** The negation of the two cull tests of the render loop. */
  predicate Visible(center: Point, size: real, imageWidth: int, imageHeight: int)
  {
    && !(center.x + size < 0.0 || center.x - size > imageWidth as real)
    && !(center.y + size < 0.0 || center.y - size > imageHeight as real)
  }

  /** For a non-negative size, passing both cull tests means the bounding box
      `[centre - size, centre + size]` meets the canvas `[0, W] x [0, H]` on
      both axes. */
  lemma VisibleIffBoxMeetsCanvas(center: Point, size: real, imageWidth: int, imageHeight: int)
    requires size >= 0.0 && imageWidth >= 0 && imageHeight >= 0
    ensures Visible(center, size, imageWidth, imageHeight)
        <==> (Overlaps(center.x - size, center.x + size, 0.0, imageWidth as real)
              && Overlaps(center.y - size, center.y + size, 0.0, imageHeight as real))
  {
  }

  predicate Kept(g: Grid, imageWidth: int, imageHeight: int, c: Cell)
  {
    Visible(CellCenter(g, c), g.size, imageWidth, imageHeight)
  }

  predicate InGrid(g: Grid, c: Cell)
  {
    0 <= c.row < g.rows && 0 <= c.col < g.cols
  }

  /** The kept cells of `row` with a column in `[0, colEnd)`, left to right. */
  function RowCells(g: Grid, imageWidth: int, imageHeight: int, row: int, colEnd: int): seq<Cell>
    decreases colEnd
  {
    if colEnd <= 0 then []
    else RowCells(g, imageWidth, imageHeight, row, colEnd - 1)
         + (if Kept(g, imageWidth, imageHeight, Cell(row, colEnd - 1)) then [Cell(row, colEnd - 1)] else [])
  }

  /** The kept cells of the rows `[0, rowEnd)`, in row-major order. */
  function CellsUpTo(g: Grid, imageWidth: int, imageHeight: int, rowEnd: int): seq<Cell>
    decreases rowEnd
  {
    if rowEnd <= 0 then []
    else CellsUpTo(g, imageWidth, imageHeight, rowEnd - 1) + RowCells(g, imageWidth, imageHeight, rowEnd - 1, g.cols)
  }

  /** The cells that get a polygon, in the order their polygons are written. */
  function KeptCells(g: Grid, imageWidth: int, imageHeight: int): seq<Cell>
  {
    CellsUpTo(g, imageWidth, imageHeight, g.rows)
  }

  /** The record written for a kept cell: its centre, the grid's size and the
      colour sampled around the centre with the default sample size. */
  function PolygonFor(img: Image, g: Grid, c: Cell): SvgLine
    requires img.Valid()
  {
    var center := CellCenter(g, c);
    Polygon(center, g.size, SampledColor(img, center.x, center.y, g.size, SampleSize))
  }

  function Polygons(img: Image, g: Grid, cells: seq<Cell>): (ps: seq<SvgLine>)
    requires img.Valid()
    ensures |ps| == |cells|
  {
    if cells == [] then []
    else Polygons(img, g, cells[..|cells| - 1]) + [PolygonFor(img, g, cells[|cells| - 1])]
  }

  /** The whole of `svg_content` for an image and a grid. */
  function SvgContent(img: Image, g: Grid): seq<SvgLine>
    requires img.Valid()
  {
    [Header(img.width, img.height)] + Polygons(img, g, KeptCells(g, img.width, img.height)) + [Close]
  }

  lemma {:induction false} PolygonsAt(img: Image, g: Grid, cells: seq<Cell>, i: int)
    requires img.Valid() && 0 <= i < |cells|
    ensures |Polygons(img, g, cells)| == |cells|
    ensures Polygons(img, g, cells)[i] == PolygonFor(img, g, cells[i])
  {
    var init := cells[..|cells| - 1];
    if i < |cells| - 1 {
      PolygonsAt(img, g, init, i);
    } else if init != [] {
      PolygonsAt(img, g, init, 0);
    }
  }

  /** Appending a cell appends its polygon. */
  lemma PolygonsAppend(img: Image, g: Grid, cells: seq<Cell>, c: Cell)
    requires img.Valid()
    ensures Polygons(img, g, cells + [c]) == Polygons(img, g, cells) + [PolygonFor(img, g, c)]
  {
    assert (cells + [c])[..|cells|] == cells;
  }

  /** Appending the polygon of a cell to the rendered lines renders one cell more. */
  lemma AppendPolygon(img: Image, g: Grid, lines: seq<SvgLine>, written: seq<Cell>, c: Cell, line: SvgLine)
    requires img.Valid()
    requires lines == [Header(img.width, img.height)] + Polygons(img, g, written)
    requires line == PolygonFor(img, g, c)
    ensures lines + [line] == [Header(img.width, img.height)] + Polygons(img, g, written + [c])
  {
    PolygonsAppend(img, g, written, c);
  }

  /** One more column of a row adds that cell exactly when it is kept. */
  lemma RowStep(g: Grid, imageWidth: int, imageHeight: int, done: seq<Cell>, row: int, col: int)
    requires 0 <= col
    ensures done + RowCells(g, imageWidth, imageHeight, row, col + 1)
         == done + RowCells(g, imageWidth, imageHeight, row, col)
            + (if Kept(g, imageWidth, imageHeight, Cell(row, col)) then [Cell(row, col)] else [])
  {
  }

  /** A finished inner loop has visited the whole row. */
  lemma RowDone(g: Grid, imageWidth: int, imageHeight: int, row: int)
    requires 0 <= row
    ensures CellsUpTo(g, imageWidth, imageHeight, row) + RowCells(g, imageWidth, imageHeight, row, RangeStop(0, g.cols))
         == CellsUpTo(g, imageWidth, imageHeight, row + 1)
  {
  }

  /** The render loop of `generate_svg`: rows outer, columns inner, a cell
      skipped when one of the two cull tests fires, otherwise sampled and
      appended. */
  method RenderLines(img: Image, g: Grid) returns (lines: seq<SvgLine>)
    requires img.Valid()
    ensures lines == SvgContent(img, g)
  {
    lines := [Header(img.width, img.height)];
    ghost var written: seq<Cell> := [];
    for row := 0 to RangeStop(0, g.rows)
      invariant written == CellsUpTo(g, img.width, img.height, row)
      invariant lines == [Header(img.width, img.height)] + Polygons(img, g, written)
    {
      ghost var done := written;
      assert done + RowCells(g, img.width, img.height, row, 0) == done;
      for col := 0 to RangeStop(0, g.cols)
        invariant written == done + RowCells(g, img.width, img.height, row, col)
        invariant lines == [Header(img.width, img.height)] + Polygons(img, g, written)
      {
        RowStep(g, img.width, img.height, done, row, col);
        var center := HexagonCenter(row, col, g.hSpace, g.vSpace, g.size);
        assert center == CellCenter(g, Cell(row, col));
        if center.x + g.size < 0.0 || center.x - g.size > img.width as real {
          continue;
        }
        if center.y + g.size < 0.0 || center.y - g.size > img.height as real {
          continue;
        }
        var color := HexagonColor(img, center.x, center.y, g.size, SampleSize);
        AppendPolygon(img, g, lines, written, Cell(row, col), Polygon(center, g.size, color));
        lines := lines + [Polygon(center, g.size, color)];
        written := written + [Cell(row, col)];
      }
      RowDone(g, img.width, img.height, row);
    }
    assert written == KeptCells(g, img.width, img.height);
    lines := lines + [Close];
  }

  // ---------------------------------------------------------------------
  // Which cells are kept, and in what order

  lemma {:induction false} RowCellsMembers(g: Grid, imageWidth: int, imageHeight: int, row: int, colEnd: int, c: Cell)
    ensures c in RowCells(g, imageWidth, imageHeight, row, colEnd)
        <==> c.row == row && 0 <= c.col < colEnd && Kept(g, imageWidth, imageHeight, c)
    decreases colEnd
  {
    if colEnd > 0 {
      RowCellsMembers(g, imageWidth, imageHeight, row, colEnd - 1, c);
    }
  }

  lemma {:induction false} CellsUpToMembers(g: Grid, imageWidth: int, imageHeight: int, rowEnd: int, c: Cell)
    ensures c in CellsUpTo(g, imageWidth, imageHeight, rowEnd)
        <==> 0 <= c.row < rowEnd && 0 <= c.col < g.cols && Kept(g, imageWidth, imageHeight, c)
    decreases rowEnd
  {
    if rowEnd > 0 {
      CellsUpToMembers(g, imageWidth, imageHeight, rowEnd - 1, c);
      RowCellsMembers(g, imageWidth, imageHeight, rowEnd - 1, g.cols, c);
    }
  }

  /** A polygon is written for a cell exactly when the cell is in the grid
      and neither cull test fires for it. */
  lemma KeptCellsExact(g: Grid, imageWidth: int, imageHeight: int, c: Cell)
    ensures c in KeptCells(g, imageWidth, imageHeight) <==> InGrid(g, c) && Kept(g, imageWidth, imageHeight, c)
  {
    CellsUpToMembers(g, imageWidth, imageHeight, g.rows, c);
  }

  /** Row-major order: `a` is visited before `b`. */
  predicate Precedes(a: Cell, b: Cell)
  {
    a.row < b.row || (a.row == b.row && a.col < b.col)
  }

  predicate RowMajor(cells: seq<Cell>)
  {
    forall i, j :: 0 <= i < j < |cells| ==> Precedes(cells[i], cells[j])
  }

  lemma RowMajorConcat(a: seq<Cell>, b: seq<Cell>)
    requires RowMajor(a) && RowMajor(b)
    requires forall i, j :: 0 <= i < |a| && 0 <= j < |b| ==> Precedes(a[i], b[j])
    ensures RowMajor(a + b)
  {
    forall i, j | 0 <= i < j < |a + b|
      ensures Precedes((a + b)[i], (a + b)[j])
    {
      if j < |a| {
        assert (a + b)[i] == a[i] && (a + b)[j] == a[j];
      } else if i < |a| {
        assert (a + b)[i] == a[i] && (a + b)[j] == b[j - |a|];
      } else {
        assert (a + b)[i] == b[i - |a|] && (a + b)[j] == b[j - |a|];
      }
    }
  }

  lemma {:induction false} RowCellsRowMajor(g: Grid, imageWidth: int, imageHeight: int, row: int, colEnd: int)
    ensures RowMajor(RowCells(g, imageWidth, imageHeight, row, colEnd))
    decreases colEnd
  {
    if colEnd > 0 {
      var init := RowCells(g, imageWidth, imageHeight, row, colEnd - 1);
      RowCellsRowMajor(g, imageWidth, imageHeight, row, colEnd - 1);
      var extra := if Kept(g, imageWidth, imageHeight, Cell(row, colEnd - 1)) then [Cell(row, colEnd - 1)] else [];
      forall i, j | 0 <= i < |init| && 0 <= j < |extra|
        ensures Precedes(init[i], extra[j])
      {
        RowCellsMembers(g, imageWidth, imageHeight, row, colEnd - 1, init[i]);
      }
      RowMajorConcat(init, extra);
    }
  }

  lemma {:induction false} CellsUpToRowMajor(g: Grid, imageWidth: int, imageHeight: int, rowEnd: int)
    ensures RowMajor(CellsUpTo(g, imageWidth, imageHeight, rowEnd))
    decreases rowEnd
  {
    if rowEnd > 0 {
      var init := CellsUpTo(g, imageWidth, imageHeight, rowEnd - 1);
      var last := RowCells(g, imageWidth, imageHeight, rowEnd - 1, g.cols);
      CellsUpToRowMajor(g, imageWidth, imageHeight, rowEnd - 1);
      RowCellsRowMajor(g, imageWidth, imageHeight, rowEnd - 1, g.cols);
      forall i, j | 0 <= i < |init| && 0 <= j < |last|
        ensures Precedes(init[i], last[j])
      {
        CellsUpToMembers(g, imageWidth, imageHeight, rowEnd - 1, init[i]);
        RowCellsMembers(g, imageWidth, imageHeight, rowEnd - 1, g.cols, last[j]);
      }
      RowMajorConcat(init, last);
    }
  }

  /** The polygons come in row-major order (row outer, column inner), each
      cell at most once. */
  lemma KeptCellsRowMajor(g: Grid, imageWidth: int, imageHeight: int)
    ensures RowMajor(KeptCells(g, imageWidth, imageHeight))
  {
    CellsUpToRowMajor(g, imageWidth, imageHeight, g.rows);
  }

  lemma {:induction false} RowCellsCount(g: Grid, imageWidth: int, imageHeight: int, row: int, colEnd: int)
    ensures |RowCells(g, imageWidth, imageHeight, row, colEnd)| <= RangeStop(0, colEnd)
    decreases colEnd
  {
    if colEnd > 0 {
      RowCellsCount(g, imageWidth, imageHeight, row, colEnd - 1);
    }
  }

  lemma {:induction false} CellsUpToCount(g: Grid, imageWidth: int, imageHeight: int, rowEnd: int)
    ensures |CellsUpTo(g, imageWidth, imageHeight, rowEnd)| <= RangeStop(0, rowEnd) * RangeStop(0, g.cols)
    decreases rowEnd
  {
    if rowEnd > 0 {
      CellsUpToCount(g, imageWidth, imageHeight, rowEnd - 1);
      RowCellsCount(g, imageWidth, imageHeight, rowEnd - 1, g.cols);
      var k := RangeStop(0, g.cols);
      assert RangeStop(0, rowEnd) == rowEnd && RangeStop(0, rowEnd - 1) == rowEnd - 1;
      assert rowEnd * k == (rowEnd - 1) * k + k;
    }
  }

  /** At most `rows * cols` polygons are written (none when either count is not positive). */
  lemma KeptCellsCount(g: Grid, imageWidth: int, imageHeight: int)
    ensures |KeptCells(g, imageWidth, imageHeight)| <= RangeStop(0, g.rows) * RangeStop(0, g.cols)
  {
    CellsUpToCount(g, imageWidth, imageHeight, g.rows);
  }

  /** With non-negative cell indices, spacings and size, every centre is at
      least `size` from the top-left corner, so the `< 0` halves of the cull
      tests never fire: only the right and bottom edges cull. */
  lemma CullOnlyRightAndBottom(g: Grid, imageWidth: int, imageHeight: int, c: Cell)
    requires 0 <= c.row && 0 <= c.col
    requires 0.0 <= g.size && 0.0 <= g.hSpace && 0.0 <= g.vSpace
    ensures Kept(g, imageWidth, imageHeight, c)
        <==> CellCenter(g, c).x - g.size <= imageWidth as real && CellCenter(g, c).y - g.size <= imageHeight as real
  {
  }

  lemma RealMulMonotone(a: real, b: real, k: real)
    requires a <= b && 0.0 <= k
    ensures a * k <= b * k
  {
    assert b * k - a * k == (b - a) * k;
  }

  /** A column no further right than the last one starts inside the canvas
      when the last one does. */
  lemma ColumnStartsInside(g: Grid, imageWidth: int, c: Cell)
    requires 0.0 <= g.hSpace && 0 <= c.col <= g.cols - 1
    requires (g.cols - 1) as real * g.hSpace <= imageWidth as real
    ensures CellCenter(g, c).x - g.size <= imageWidth as real
  {
    var last := (g.cols - 1) as real;
    assert CellCenter(g, c).x - g.size == c.col as real * g.hSpace;
    assert c.col as real <= last;
    RealMulMonotone(c.col as real, last, g.hSpace);
  }

  /** A row above the last one, or an even-column cell of the last row,
      starts inside the canvas when the last row does. */
  lemma RowStartsInside(g: Grid, imageHeight: int, c: Cell)
    requires 0.0 <= g.vSpace && 0 <= c.row <= g.rows - 1
    requires c.row < g.rows - 1 || c.col % 2 == 0
    requires (g.rows - 1) as real * g.vSpace <= imageHeight as real
    ensures CellCenter(g, c).y - g.size <= imageHeight as real
  {
    var top := c.row as real * g.vSpace;
    var last := (g.rows - 1) as real * g.vSpace;
    assert CellCenter(g, c).y - g.size <= top + g.vSpace / 2.0;
    assert c.col % 2 == 0 ==> CellCenter(g, c).y - g.size == top;
    if c.row < g.rows - 1 {
      var r := (g.rows - 2) as real;
      assert c.row as real <= r && r + 1.0 == (g.rows - 1) as real;
      RealMulMonotone(c.row as real, r, g.vSpace);
      assert (r + 1.0) * g.vSpace == r * g.vSpace + g.vSpace;
      assert top + g.vSpace <= last;
    } else {
      assert top == last;
    }
  }

  /** A grid whose last column and last row start inside the canvas culls
      nothing but odd-column cells of its last row. */
  lemma SpanningGridCullsOnlyLastRowOddColumns(g: Grid, imageWidth: int, imageHeight: int, c: Cell)
    requires 0.0 <= g.size && 0.0 <= g.hSpace && 0.0 <= g.vSpace
    requires (g.cols - 1) as real * g.hSpace <= imageWidth as real
    requires (g.rows - 1) as real * g.vSpace <= imageHeight as real
    requires InGrid(g, c)
    ensures c.row < g.rows - 1 || c.col % 2 == 0 ==> Kept(g, imageWidth, imageHeight, c)
  {
    CullOnlyRightAndBottom(g, imageWidth, imageHeight, c);
    ColumnStartsInside(g, imageWidth, c);
    if c.row < g.rows - 1 || c.col % 2 == 0 {
      RowStartsInside(g, imageHeight, c);
    }
  }

  /** On the planned grid, the only cells ever culled are odd-column cells
      of the last row: every other cell starts inside the canvas. */
  lemma CulledCellsAreLastRowOddColumns(imageWidth: int, imageHeight: int, hexPerRow: int, c: Cell)
    requires imageWidth > 0 && imageHeight > 0 && hexPerRow >= 0
    requires InGrid(CalculateHexagonGrid(imageWidth, imageHeight, hexPerRow), c)
    ensures var g := CalculateHexagonGrid(imageWidth, imageHeight, hexPerRow);
      !Kept(g, imageWidth, imageHeight, c) ==> c.row == g.rows - 1 && c.col % 2 == 1
  {
    var g := CalculateHexagonGrid(imageWidth, imageHeight, hexPerRow);
    GridSpansCanvas(imageWidth, imageHeight, hexPerRow);
    SpanningGridCullsOnlyLastRowOddColumns(g, imageWidth, imageHeight, c);
  }

  // ---------------------------------------------------------------------
  // The rendered content as a whole

  /** `svg_content`: the header, then the polygon of each kept cell in
      row-major order, each filled with a valid 8-bit colour, then `</svg>`. */
  lemma SvgContentShape(img: Image, g: Grid)
    requires img.Valid()
    ensures var lines, cells := SvgContent(img, g), KeptCells(g, img.width, img.height);
      && |lines| == |cells| + 2
      && lines[0] == Header(img.width, img.height)
      && lines[|lines| - 1] == Close
      && forall i :: 0 <= i < |cells| ==> lines[i + 1] == PolygonFor(img, g, cells[i]) && IsColor(lines[i + 1].fill)
  {
    var lines, cells := SvgContent(img, g), KeptCells(g, img.width, img.height);
    if cells != [] {
      PolygonsAt(img, g, cells, 0);
    }
    forall i | 0 <= i < |cells|
      ensures lines[i + 1] == PolygonFor(img, g, cells[i]) && IsColor(lines[i + 1].fill)
    {
      PolygonsAt(img, g, cells, i);
      var center := CellCenter(g, cells[i]);
      SampledColorIsColor(img, center.x, center.y, g.size, SampleSize);
    }
  }

  /** A kept top-left cell is written first. */
  lemma KeptTopLeftCellComesFirst(g: Grid, imageWidth: int, imageHeight: int)
    requires g.rows >= 1 && g.cols >= 1 && Kept(g, imageWidth, imageHeight, Cell(0, 0))
    ensures var cells := KeptCells(g, imageWidth, imageHeight);
      |cells| >= 1 && cells[0] == Cell(0, 0)
  {
    var cells := KeptCells(g, imageWidth, imageHeight);
    KeptCellsExact(g, imageWidth, imageHeight, Cell(0, 0));
    var k :| 0 <= k < |cells| && cells[k] == Cell(0, 0);
    KeptCellsExact(g, imageWidth, imageHeight, cells[0]);
    KeptCellsRowMajor(g, imageWidth, imageHeight);
    assert !Precedes(cells[0], cells[k]);
  }

  /** For a non-negative density the top-left cell is never culled, so the
      document always holds at least one polygon, and it comes first. */
  lemma TopLeftCellComesFirst(img: Image, hexPerRow: int)
    requires img.Valid() && hexPerRow >= 0
    ensures var g := CalculateHexagonGrid(img.width, img.height, hexPerRow);
      var cells := KeptCells(g, img.width, img.height);
      |cells| >= 1 && cells[0] == Cell(0, 0)
  {
    var g := CalculateHexagonGrid(img.width, img.height, hexPerRow);
    GridSpansCanvas(img.width, img.height, hexPerRow);
    SpanningGridCullsOnlyLastRowOddColumns(g, img.width, img.height, Cell(0, 0));
    KeptTopLeftCellComesFirst(g, img.width, img.height);
  }

  /** A one-colour image gives a mosaic of that colour: every polygon is
      filled with it (the hexagons are large enough for the mask to hold
      the centre pixel). */
  lemma SolidImageGivesSolidMosaic(img: Image, c: Rgb, hexPerRow: int)
    requires img.Valid() && img.Uniform(c) && hexPerRow >= 0
    ensures var lines := SvgContent(img, CalculateHexagonGrid(img.width, img.height, hexPerRow));
      forall i :: 0 < i < |lines| - 1 ==> lines[i].Polygon? && lines[i].fill == c
  {
    var g := CalculateHexagonGrid(img.width, img.height, hexPerRow);
    var lines, cells := SvgContent(img, g), KeptCells(g, img.width, img.height);
    SvgContentShape(img, g);
    forall i | 0 < i < |lines| - 1
      ensures lines[i].Polygon? && lines[i].fill == c
    {
      var center := CellCenter(g, cells[i - 1]);
      UniformImageColor(img, c, center.x, center.y, g.size, SampleSize);
    }
  }

  // ---------------------------------------------------------------------
  // Negative densities and the top edge

  /** A negative density gives a negative size and pitch, so every centre
      lies left of the canvas by more than the box reaches: no cell is kept. */
  lemma NegativeDensityKeepsNothing(imageWidth: int, imageHeight: int, hexPerRow: int, c: Cell)
    requires imageWidth > 0 && imageHeight > 0 && hexPerRow < 0
    requires 0 <= c.row && 0 <= c.col
    ensures !Kept(CalculateHexagonGrid(imageWidth, imageHeight, hexPerRow), imageWidth, imageHeight, c)
  {
    var g := CalculateHexagonGrid(imageWidth, imageHeight, hexPerRow);
    assert g.size < 0.0 && g.hSpace < 0.0;
    assert CellCenter(g, c).x == c.col as real * g.hSpace + g.size;
    RealMulMonotone(0.0, c.col as real, -g.hSpace);
    assert c.col as real * g.hSpace <= 0.0;
  }

  /** With a negative density the document is the header and `</svg>` only. */
  lemma NegativeDensityEmptyDocument(img: Image, hexPerRow: int)
    requires img.Valid() && hexPerRow < 0
    ensures SvgContent(img, CalculateHexagonGrid(img.width, img.height, hexPerRow))
         == [Header(img.width, img.height), Close]
  {
    var g := CalculateHexagonGrid(img.width, img.height, hexPerRow);
    var cells := KeptCells(g, img.width, img.height);
    if cells != [] {
      KeptCellsExact(g, img.width, img.height, cells[0]);
      NegativeDensityKeepsNothing(img.width, img.height, hexPerRow, cells[0]);
    }
    assert cells == [];
  }

  /** The bounding boxes of the planned cells need not cover the canvas:
      on a 100 x 100 image with two hexagons per row, no cell's box holds the
      point (70, 5), which lies right of column 0, above the boxes of the
      shifted column 1 and left of column 2. */
  lemma CoverageGapAtTopEdge(c: Cell)
    requires InGrid(CalculateHexagonGrid(100, 100, 2), c)
    ensures var g := CalculateHexagonGrid(100, 100, 2);
      var p := CellCenter(g, c);
      !(p.x - g.size <= 70.0 <= p.x + g.size && p.y - g.size <= 5.0 <= p.y + g.size)
  {
    var g := CalculateHexagonGrid(100, 100, 2);
    assert g.size == 100.0 / 3.5;
    GridSpansCanvas(100, 100, 2);
    assert g.cols == 3;
  }
}
