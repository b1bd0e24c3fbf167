# Hexagon mosaic engine, modelled in Dafny

This project models the engine that turns a raster image into an SVG mosaic of
flat-topped hexagons. It covers four parts:

- **Grid planning.** The hexagon size is `W / (hex_per_row * 1.5 + 0.5)`. From
  it come the hexagon width and height, the pitches `h_space` and `v_space`, and
  the column and row counts, each `int(...) + 1`.
- **Centre placement.** Cell `(row, col)` is centred at
  `(col * h_space + size, row * v_space + size)`. Odd columns are pushed down by
  `v_space / 2`.
- **Colour sampling.** Every offset `(dx, dy)` in `[-s, s]^2` is visited. The
  offset point is truncated and clamped into the image. Its pixel is added to
  three channel sums when `dx^2 + dy^2 <= size^2`. The sums are floor-divided by
  the count. White is the fallback when nothing was counted.
- **Rendering.** The grid is walked row by row. Cells whose bounding box lies
  wholly off the canvas are skipped. One polygon line is appended per kept
  cell, between the `<svg ...>` header and `</svg>`. The lines are joined with
  "\n".

The same engine is written twice in the program:

- `main.py` holds it as functions, and `generate_svg` writes the document to a file.
- `wallpaper_generator.py:24-101` is a notebook cell that copies the same
  functions line for line and returns the document as a string. Lines 37-42
  are `main.py:28-33`, and lines 44-63 are `main.py:35-54`. Lines 69-77 inline
  `main.py:6-14`. Lines 79-99 are `main.py:61-81` followed by the join.

One model serves both copies. Each row below cites the copy whose lines the
member follows most closely.

Modules:

- `Raster` is the decoded image: a width, a height and `pixels[x][y]` RGB triples.
- `HexGrid` holds the grid planner and the centre placement.
- `ColorSampler` holds `get_hexagon_color`.
- `MosaicRenderer` holds the render loop and the cull.
- `SvgText` holds the document text and `generate_svg`.

Floats are modelled as exact `real`s. `math.sqrt(3)` is the constant
`1.7320508075688772`. Python's `int()` on a float truncates toward zero. It is
modelled that way (`Trunc`), not as a floor.

Behaviour of the code worth knowing:

- `hex_per_row` is not validated (main.py:5-6), so any integer is accepted.
  A negative density gives a negative size and negative pitches. The column
  and row counts are then at most 1, and may be 1, so the loops can still
  visit cell (0,0). Every visited cell is culled, so the document is the
  header followed by `</svg>` (`NegativeDensityKeepsNothing`,
  `NegativeDensityEmptyDocument`).
- The column and row counts use `int()`, which truncates (main.py:10-11).
  Truncation and floor differ only for a negative density.
- The white fallback (main.py:51-52) happens exactly when the size is
  negative or the sample size is negative. For any other size the offset
  `(0, 0)` passes the mask (main.py:44-45), even for a size below 1.
- The vertical cull test uses `size` as the half-height of the bounding box
  (main.py:71), like the horizontal one (main.py:69).
- The bounding boxes of the planned cells need not cover the whole canvas.
  Near the top edge, the gap between two even columns is covered only by the
  odd column between them, and that column's boxes start half a row down
  (`CoverageGapAtTopEdge`).

## Model

| member | source | states |
|---|---|---|
| `HexGrid.Trunc` | main.py:10-11 | Python `int()` on a float truncates toward zero. For `x >= 0` the result lies in `(x - 1, x]`; for `x < 0` it lies in `[x, x + 1)` and is not positive. |
| `HexGrid.CalculateHexagonGrid` | main.py:5-16 | `size * (hex_per_row * 1.5 + 0.5) == W`, and `size > 0` exactly when `hex_per_row >= 0`. Width is `2 * size`, height is `sqrt3 * size`, `h_space = 1.5 * size`, `v_space = height`. For `hex_per_row >= 0` there is at least one column and one row. |
| `HexGrid.GridSpansCanvas` | main.py:10-11 | Columns and rows are over-allocated by exactly one: `(cols - 1) * h_space <= W < cols * h_space`, and `(rows - 1) * v_space <= H < rows * v_space`. |
| `HexGrid.HexagonCenter` | main.py:28-33 | For non-negative indices and pitches, both centre coordinates are at least `size`. |
| `HexGrid.CenterLattice` | main.py:28-33 | `x` does not depend on the row. One row down adds exactly `v_space` to `y`. One column right adds `h_space` to `x` and moves `y` by `+v_space/2` from an even column or `-v_space/2` from an odd one. Cell (0,0) sits at `(size, size)`. |
| `ColorSampler.Clamp` | main.py:42-43 | `min(max(v, 0), n - 1)` lies in `[0, n - 1]`. It is `v` inside the range, 0 below it and `n - 1` above it. |
| `ColorSampler.ClampedTruncIsClampedFloor` | main.py:42-43 | Once clamped, truncating and flooring the offset point pick the same pixel. |
| `ColorSampler.InMask` | main.py:44-45 | `math.sqrt(dx**2 + dy**2) <= size` without the root. It never admits anything for a negative size, and always admits the offset `(0, 0)` otherwise. |
| `ColorSampler.SamplePixel` | main.py:42-46 | The pixel read for an offset is a valid colour. When the offset point lies on the canvas, it is the pixel under that point. |
| `ColorSampler.SampleCountIndependentOfCentre` | main.py:40-50 | The number of summed pixels equals the number of offsets in `[-s, s]^2` inside the mask. It is the same for every image and every centre. |
| `ColorSampler.MaskCountZeroIff` | main.py:44-52 | The count is 0, so the white fallback is taken, exactly when `size < 0` or `sample_size < 0`. |
| `ColorSampler.Average` | main.py:51-53 | With nothing summed, the result is white `(255, 255, 255)`. |
| `ColorSampler.AverageChannelBounds` | main.py:46-53 | Each channel of the floor-divided average lies between the smallest and the largest value of that channel among the summed pixels. |
| `ColorSampler.AverageOfUniform` | main.py:53 | Averaging copies of one colour gives that colour back. |
| `ColorSampler.AverageIsColor` | main.py:53 | The average of valid 8-bit colours is a valid 8-bit colour. |
| `ColorSampler.SampledColorIsColor` | main.py:35-54 | For any centre, including an off-canvas one, every channel of the result is in `[0, 255]`. |
| `ColorSampler.SampledColor` | main.py:35-54 | `get_hexagon_color` as a function of its inputs. It is white when the size or the sample size is negative. `UniformImageColor`, `SampledColorIsColor` and `AverageChannelBounds` pin the rest, and `HexagonColor` is proved equal to it. |
| `ColorSampler.UniformImageColor` | main.py:35-54 | On a one-colour image the result is that colour. It is white only when the mask is empty. |
| `ColorSampler.HexagonColor` | main.py:35-54 | The nested `dx`/`dy` loops, with the list of three sums updated in place, return the average of exactly the masked, clamped pixels in loop order. The result is a valid colour. |
| `MosaicRenderer.RenderLines` | main.py:61-81 | The loop produces the header, then one polygon (centre, size, sampled colour) per kept cell in visiting order, then the closing line. |
| `MosaicRenderer.KeptCellsExact` | main.py:64-72 | A cell gets a polygon if and only if it lies in `[0, rows) x [0, cols)` and neither cull test fires. |
| `MosaicRenderer.Visible` | main.py:69-72 | The negation of the two cull tests. `KeptCellsExact` ties it to the written polygons, `CullOnlyRightAndBottom` shows only the right and bottom halves can fire, and `VisibleIffBoxMeetsCanvas` gives its meaning. |
| `MosaicRenderer.VisibleIffBoxMeetsCanvas` | main.py:69-72 | For a non-negative size and canvas, a cell passes both cull tests if and only if its bounding box `[centre - size, centre + size]` meets `[0, W] x [0, H]` on both axes. |
| `MosaicRenderer.KeptCellsRowMajor` | main.py:64-65 | Polygons come in strict row-major order, rows outer and columns inner, with no cell twice. |
| `MosaicRenderer.KeptCellsCount` | main.py:64-65 | There are at most `rows * cols` polygons, and none when either count is not positive. |
| `MosaicRenderer.CullOnlyRightAndBottom` | main.py:69-72 | For non-negative indices, pitches and size, a cell is kept if and only if `center_x - size <= W` and `center_y - size <= H`. The two `< 0` tests never fire. |
| `MosaicRenderer.SpanningGridCullsOnlyLastRowOddColumns` | main.py:69-72 | On a grid whose last column and last row start inside the canvas, every cell is kept except possibly odd-column cells of the last row. |
| `MosaicRenderer.CulledCellsAreLastRowOddColumns` | main.py:56-72 | On the planned grid, with `hex_per_row >= 0`, a culled cell is always in the last row and an odd column. |
| `MosaicRenderer.NegativeDensityKeepsNothing` | main.py:64-72 | For a negative `hex_per_row`, no cell at a non-negative row and column survives the cull. |
| `MosaicRenderer.NegativeDensityEmptyDocument` | main.py:56-81 | For a negative `hex_per_row`, `svg_content` is the header followed by `</svg>`. |
| `MosaicRenderer.CoverageGapAtTopEdge` | main.py:5-33 | On a 100 x 100 image with two hexagons per row, no planned cell's bounding box contains the point (70, 5). |
| `MosaicRenderer.SvgContentShape` | main.py:61-81 | `svg_content` has the kept-cell count plus 2 entries. The first is the header with the image size and the last is the closing line. Entry `i + 1` is the polygon of the `i`-th kept cell, and its fill is a valid colour. |
| `MosaicRenderer.SvgContent` | main.py:61-81 | `svg_content` as a function of the image and the grid. `SvgContentShape` pins its shape, and `RenderLines` is proved equal to it. |
| `MosaicRenderer.KeptTopLeftCellComesFirst` | main.py:64-79 | A kept cell (0,0) is the first polygon written. |
| `MosaicRenderer.TopLeftCellComesFirst` | main.py:56-79 | For `hex_per_row >= 0` the document holds at least one polygon, and the first is cell (0,0). |
| `MosaicRenderer.SolidImageGivesSolidMosaic` | main.py:56-81 | For `hex_per_row >= 0`, every polygon of a one-colour image is filled with that colour. |
| `SvgText.NatText` | main.py:77 | The decimal text of a natural number: at least one digit, only digits, and no leading zero for a positive number. |
| `SvgText.IntText` | main.py:77 | `f"{n}"`: for `n >= 0`, digits that read back as `n`; for `n < 0`, a `-` followed by digits that read back as `-n`. There is no leading zero before another digit, and no newline. |
| `SvgText.NatTextRoundTrip` | main.py:77 | Reading the printed digits back gives the number. |
| `SvgText.JoinLines` | main.py:85 | `"\n".join(...)`. `SplitJoin` and `JoinSplit` prove it inverse to splitting at `"\n"`. |
| `SvgText.HeaderText` | main.py:62 | The `<svg width=... height=... viewBox=... xmlns=...>` header with the image size in decimal. It is a single line. |
| `SvgText.PolygonText` | main.py:77-79 | The `<polygon points=... fill="rgb(r,g,b)" stroke="none" stroke-width=.../>` line. It is a single line when its points text and stroke-width text are. |
| `SvgText.SplitJoin` | main.py:85 | Splitting the `"\n".join(...)` of lines that hold no newline, at `"\n"`, gives the lines back. |
| `SvgText.JoinSplit` | main.py:85 | Joining the pieces of a split at `"\n"` gives the string back. |
| `SvgText.GenerateSvg` | wallpaper_generator.py:65-99 | `generate_svg` returns the `"\n"` join of the texts of the rendered content for the grid planned from the image size and the density. |
| `SvgText.DocumentLines` | wallpaper_generator.py:79-99 | Read line by line, the document is the header with the image size, then one polygon line per kept cell in row-major order, then `</svg>`. This holds when the points and stroke-width texts hold no newline. |

## Left out

- `create_hexagon_points` (main.py:18-26, wallpaper_generator.py:27-35) is left out because it is cos/sin float numerics. So is the `round(x, 2)` printing of the vertices (main.py:75, wallpaper_generator.py:92). A polygon is kept as its centre and size. Its `points` text comes from a `formatPoints` parameter.
- The printing of `stroke_width`, a float in the notebook, is not modelled. It comes in as the text `strokeText`.
- Float rounding is not modelled. All geometry is exact real arithmetic. `math.sqrt(3)` is its printed double value.
- The mask test `math.sqrt(dx**2 + dy**2) <= size` is modelled as `size >= 0 && dx^2 + dy^2 <= size^2`. The two can disagree only through the rounding of the float square root at the exact boundary.
- Decoding the image with PIL and `convert("RGB")` (main.py:99, wallpaper_generator.py:163) is left out as a foreign library. The image is a given read-only grid of RGB triples with byte channels.
- The file write in `generate_svg` is left out as I/O, together with its success print and its print-then-re-raise on failure (main.py:83-89). Its text is what `SvgText.GenerateSvg` returns.
- The command-line shell `main` with argparse (main.py:91-112) is left out.
- The notebook UI cells are left out as UI and I/O (wallpaper_generator.py:104-223). They cover the upload widget, the sliders, the markdown output, the temporary file, the `preview.svg` write and the "Total hexagons" estimate.
- Monotonicity of the polygon count in `hex_per_row` is not modelled; neither main.py nor wallpaper_generator.py states it.
- `HexGrid.GridSpansCanvas` proves only the per-axis span of the grid, not that the cells' bounding boxes cover the canvas: coverage fails between even columns at the top edge (`MosaicRenderer.CoverageGapAtTopEdge`).
