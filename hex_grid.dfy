/** GridPlanner and centre placement: the hexagon size and grid dimensions
    derived from the image size and the density `hex_per_row`, and the centre
    of each grid cell. Python floats are modelled as exact reals. */
module HexGrid {

  /** The value `math.sqrt(3)` has in the program (shortest decimal of the double). */
  const Sqrt3: real := 1.7320508075688772

  datatype Point = Point(x: real, y: real)

  /** The tuple `calculate_hexagon_grid` returns, field by field. */
  datatype Grid = Grid(
    cols: int,        // num_hexagons_x
    rows: int,        // num_hexagons_y
    hexWidth: real,   // hexagon_width
    hexHeight: real,  // hexagon_height
    hSpace: real,     // h_space, the horizontal pitch
    vSpace: real,     // v_space, the vertical pitch
    size: real)       // hexagon_size, the circumradius

  /** Python's `int(x)` on a float: truncation toward zero. */
  function Trunc(x: real): (n: int)
    ensures 0.0 <= x ==> 0 <= n && n as real <= x < n as real + 1.0
    ensures x < 0.0 ==> n <= 0 && n as real - 1.0 < x <= n as real
  {
    if x >= 0.0 then x.Floor else -((-x).Floor)
  }

  /** Where a `for i in range(start, stop)` loop leaves off: `stop`, or
      `start` itself when the range is empty. */
  function RangeStop(start: int, stop: int): int
  {
    if stop < start then start else stop
  }

  /** The density term `hex_per_row * 1.5 + 0.5` is never zero for an integer density. */
  lemma DensityTermNonZero(hexPerRow: int)
    ensures hexPerRow >= 0 ==> hexPerRow as real * 1.5 + 0.5 >= 0.5
    ensures hexPerRow < 0 ==> hexPerRow as real * 1.5 + 0.5 <= -1.0
  {
  }

  /** `calculate_hexagon_grid`: no validation of `hex_per_row`; a negative
      density gives a negative size. The image is never empty. */
  function CalculateHexagonGrid(imageWidth: int, imageHeight: int, hexPerRow: int): (g: Grid)
    requires imageWidth > 0 && imageHeight > 0
    ensures g.size * (hexPerRow as real * 1.5 + 0.5) == imageWidth as real
    ensures g.size > 0.0 <==> hexPerRow >= 0
    ensures g.hexWidth == 2.0 * g.size && g.hSpace == 1.5 * g.size
    ensures g.hexHeight == Sqrt3 * g.size && g.vSpace == g.hexHeight
    ensures hexPerRow >= 0 ==> g.cols >= 1 && g.rows >= 1
  {
    DensityTermNonZero(hexPerRow);
    var size := imageWidth as real / (hexPerRow as real * 1.5 + 0.5);
    var hexWidth := size * 2.0;
    var hexHeight := Sqrt3 * size;
    var cols := Trunc(imageWidth as real / (hexWidth * 0.75)) + 1;
    var rows := Trunc(imageHeight as real / hexHeight) + 1;
    Grid(cols, rows, hexWidth, hexHeight, size * 1.5, hexHeight, size)
  }

  /** For positive reals, `n <= a / b` scales to `n * b <= a`, and likewise for `<`. */
  lemma ScaleQuotient(n: real, a: real, b: real)
    requires b > 0.0
    ensures n <= a / b ==> n * b <= a
    ensures a / b < n ==> a < n * b
  {
    assert a / b * b == a;
    if n <= a / b {
      assert n * b <= a / b * b;
    }
    if a / b < n {
      assert a / b * b < n * b;
    }
  }

  /** The grid is over-allocated by exactly one column and one row: the last
      column and row still start inside the canvas, and the columns (rows)
      together with their pitch reach past its right (bottom) edge. */
  lemma GridSpansCanvas(imageWidth: int, imageHeight: int, hexPerRow: int)
    requires imageWidth > 0 && imageHeight > 0 && hexPerRow >= 0
    ensures var g := CalculateHexagonGrid(imageWidth, imageHeight, hexPerRow);
      && (g.cols - 1) as real * g.hSpace <= imageWidth as real < g.cols as real * g.hSpace
      && (g.rows - 1) as real * g.vSpace <= imageHeight as real < g.rows as real * g.vSpace
  {
    var g := CalculateHexagonGrid(imageWidth, imageHeight, hexPerRow);
    var w, h := imageWidth as real, imageHeight as real;
    assert g.hexWidth * 0.75 == g.hSpace;
    var q := w / g.hSpace;
    assert g.cols - 1 == Trunc(q);
    ScaleQuotient((g.cols - 1) as real, w, g.hSpace);
    ScaleQuotient(g.cols as real, w, g.hSpace);
    var p := h / g.vSpace;
    assert g.rows - 1 == Trunc(p);
    ScaleQuotient((g.rows - 1) as real, h, g.vSpace);
    ScaleQuotient(g.rows as real, h, g.vSpace);
  }

  /** `get_hexagon_center`: columns at pitch `h_space`, rows at pitch
      `v_space`, odd columns pushed down by half a row (Python's `col % 2`
      and Dafny's agree, also for negative columns). */
  function HexagonCenter(row: int, col: int, hSpace: real, vSpace: real, size: real): (p: Point)
    ensures 0 <= row && 0 <= col && 0.0 <= hSpace && 0.0 <= vSpace ==> size <= p.x && size <= p.y
  {
    var x := col as real * hSpace + size;
    var y := row as real * vSpace + size;
    if col % 2 == 1 then Point(x, y + vSpace / 2.0) else Point(x, y)
  }

  /** The lattice the centres form: `x` depends on the column only; one row
      down is exactly one vertical pitch; one column right is one horizontal
      pitch, half a row down from an even column and half a row up from an
      odd one; cell (0, 0) is centred at `(size, size)`. */
  lemma CenterLattice(row: int, col: int, hSpace: real, vSpace: real, size: real, otherRow: int)
    ensures HexagonCenter(otherRow, col, hSpace, vSpace, size).x == HexagonCenter(row, col, hSpace, vSpace, size).x
    ensures HexagonCenter(row + 1, col, hSpace, vSpace, size).y
         == HexagonCenter(row, col, hSpace, vSpace, size).y + vSpace
    ensures HexagonCenter(row, col + 1, hSpace, vSpace, size).x
         == HexagonCenter(row, col, hSpace, vSpace, size).x + hSpace
    ensures HexagonCenter(row, col + 1, hSpace, vSpace, size).y
         == HexagonCenter(row, col, hSpace, vSpace, size).y + (if col % 2 == 0 then vSpace / 2.0 else -vSpace / 2.0)
    ensures HexagonCenter(0, 0, hSpace, vSpace, size) == Point(size, size)
  {
    assert (row + 1) as real * vSpace == row as real * vSpace + vSpace;
    assert (col + 1) as real * hSpace == col as real * hSpace + hSpace;
    assert (col + 1) % 2 == 1 - col % 2;
  }
}
