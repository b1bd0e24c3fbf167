/** Serialisation of `svg_content` into the SVG document text, and
    `generate_svg` as a whole: plan the grid, render the cells, join the
    lines with "\n". The polygon `points` attribute (six vertices computed
    with cos/sin and printed with `round(x, 2)`) and the printed stroke width
    are float formatting; they come in as a formatter and as text. */
module SvgText {
  import opened Raster
  import opened HexGrid
  import opened MosaicRenderer

  // ---------------------------------------------------------------------
  // Decimal text of integers, as an f-string prints them

  predicate IsDigit(ch: char) { '0' <= ch <= '9' }

  function DigitChar(d: int): (ch: char)
    requires 0 <= d < 10
    ensures IsDigit(ch) && (ch as int) - ('0' as int) == d
  {
    (d + '0' as int) as char
  }

  /** The decimal digits of `n`, without leading zeros. */
  function NatText(n: nat): (s: string)
    ensures |s| >= 1 && forall i :: 0 <= i < |s| ==> IsDigit(s[i])
    ensures n > 0 ==> s[0] != '0'
  {
    if n < 10 then [DigitChar(n)] else NatText(n / 10) + [DigitChar(n % 10)]
  }

  function DigitValue(ch: char): (d: int)
    requires IsDigit(ch)
    ensures 0 <= d < 10
  {
    (ch as int) - ('0' as int)
  }

  /** The value of a string of decimal digits. */
  function ParseNat(s: string): nat
    requires forall i :: 0 <= i < |s| ==> IsDigit(s[i])
  {
    if s == [] then 0 else ParseNat(s[..|s| - 1]) * 10 + DigitValue(s[|s| - 1])
  }

  /** Reading back the printed number gives the number. */
  lemma {:induction false} NatTextRoundTrip(n: nat)
    ensures ParseNat(NatText(n)) == n
  {
    var s := NatText(n);
    if n >= 10 {
      NatTextRoundTrip(n / 10);
      assert s[..|s| - 1] == NatText(n / 10);
    }
  }

  /** `f"{n}"` for an integer: an optional `-`, then the canonical digits of
      `|n|`, which read back as `|n|`. */
  function IntText(n: int): (s: string)
    ensures n >= 0 ==> (forall i :: 0 <= i < |s| ==> IsDigit(s[i])) && ParseNat(s) == n
    ensures n < 0 ==> |s| >= 2 && s[0] == '-' && (forall i :: 1 <= i < |s| ==> IsDigit(s[i]))
                      && ParseNat(s[1..]) == -n
    ensures |s| >= 2 && IsDigit(s[0]) ==> s[0] != '0'
    ensures '\n' !in s
  {
    if n < 0 then
      NatTextRoundTrip(-n);
      var digits := NatText(-n);
      assert ("-" + digits)[1..] == digits;
      "-" + digits
    else
      NatTextRoundTrip(n);
      NatText(n)
  }

  // ---------------------------------------------------------------------
  // The lines of the document

  /** The opening `<svg>` line; it is a single line. */
  function HeaderText(imageWidth: int, imageHeight: int): (s: string)
    ensures '\n' !in s
  {
    assert '\n' !in "<svg width=\"";
    assert '\n' !in "\" height=\"";
    assert '\n' !in "\" viewBox=\"0 0 ";
    assert '\n' !in " ";
    assert '\n' !in "\" xmlns=\"http://www.w3.org/2000/svg\">";
    "<svg width=\"" + IntText(imageWidth) + "\" height=\"" + IntText(imageHeight)
    + "\" viewBox=\"0 0 " + IntText(imageWidth) + " " + IntText(imageHeight)
    + "\" xmlns=\"http://www.w3.org/2000/svg\">"
  }

  const CloseText: string := "</svg>"

  /** A `<polygon .../>` line; it is a single line when the inserted points
      and stroke-width texts are. */
  function PolygonText(pointsText: string, fill: Rgb, strokeText: string): (s: string)
    ensures '\n' !in pointsText && '\n' !in strokeText ==> '\n' !in s
  {
    assert '\n' !in "<polygon points=\"";
    assert '\n' !in "\" fill=\"rgb(";
    assert '\n' !in ",";
    assert '\n' !in ")\" stroke=\"none\" stroke-width=\"";
    assert '\n' !in "\"/>";
    "<polygon points=\"" + pointsText + "\" fill=\"rgb(" + IntText(fill.r) + "," + IntText(fill.g)
    + "," + IntText(fill.b) + ")\" stroke=\"none\" stroke-width=\"" + strokeText + "\"/>"
  }

  /** The text of one entry of `svg_content`; `formatPoints` stands for
      `create_hexagon_points` and the `round(x, 2)` formatting of its vertices. */
  function LineText(line: SvgLine, strokeText: string, formatPoints: (Point, real) -> string): string
  {
    match line
    case Header(w, h) => HeaderText(w, h)
    case Polygon(center, size, fill) => PolygonText(formatPoints(center, size), fill, strokeText)
    case Close => CloseText
  }

  function Texts(lines: seq<SvgLine>, strokeText: string, formatPoints: (Point, real) -> string): (texts: seq<string>)
    ensures |texts| == |lines|
  {
    seq(|lines|, i requires 0 <= i < |lines| => LineText(lines[i], strokeText, formatPoints))
  }

  // ---------------------------------------------------------------------
  // "\n".join and its inverse, str.split("\n")

  /** `"\n".join(parts)`: the parts with one separator between neighbours. */
  function JoinLines(parts: seq<string>): string
  {
    if |parts| == 0 then ""
    else if |parts| == 1 then parts[0]
    else parts[0] + "\n" + JoinLines(parts[1..])
  }

  function FirstNewline(s: string): (i: nat)
    requires '\n' in s
    ensures i < |s| && s[i] == '\n' && '\n' !in s[..i]
  {
    if s[0] == '\n' then 0 else FirstNewline(s[1..]) + 1
  }

  function SplitLines(s: string): (parts: seq<string>)
    ensures |parts| >= 1
    decreases |s|
  {
    if '\n' !in s then [s]
    else
      var i := FirstNewline(s);
      [s[..i]] + SplitLines(s[i + 1..])
  }

  predicate NoNewlines(parts: seq<string>)
  {
    forall i :: 0 <= i < |parts| ==> '\n' !in parts[i]
  }

  /** The first newline of `p + "\n" + t` is the one after `p`, when `p` has none. */
  lemma {:induction false} FirstNewlineAfter(p: string, t: string)
    requires '\n' !in p
    ensures '\n' in p + "\n" + t && FirstNewline(p + "\n" + t) == |p|
    decreases |p|
  {
    var s := p + "\n" + t;
    assert s[|p|] == '\n';
    if p != [] {
      assert s[1..] == p[1..] + "\n" + t;
      FirstNewlineAfter(p[1..], t);
    }
  }

  /** Splitting the joined lines at "\n" gives the lines back, as long as no
      line contains a newline itself. */
  lemma {:induction false} SplitJoin(parts: seq<string>)
    requires |parts| >= 1 && NoNewlines(parts)
    ensures SplitLines(JoinLines(parts)) == parts
    decreases |parts|
  {
    if |parts| > 1 {
      var p, rest := parts[0], parts[1..];
      var s := p + "\n" + JoinLines(rest);
      assert JoinLines(parts) == s;
      FirstNewlineAfter(p, JoinLines(rest));
      assert s[..|p|] == p;
      assert s[|p| + 1..] == JoinLines(rest);
      assert SplitLines(s) == [p] + SplitLines(JoinLines(rest));
      assert NoNewlines(rest);
      SplitJoin(rest);
      assert parts == [p] + rest;
    }
  }

  /** Joining the pieces of a split gives the string back. */
  lemma {:induction false} JoinSplit(s: string)
    ensures JoinLines(SplitLines(s)) == s
    decreases |s|
  {
    if '\n' in s {
      var i := FirstNewline(s);
      var rest := SplitLines(s[i + 1..]);
      var parts := [s[..i]] + rest;
      assert SplitLines(s) == parts;
      assert parts[0] == s[..i] && parts[1..] == rest;
      assert JoinLines(parts) == s[..i] + "\n" + JoinLines(rest);
      JoinSplit(s[i + 1..]);
      assert s == s[..i] + "\n" + s[i + 1..];
    }
  }

  // ---------------------------------------------------------------------
  // generate_svg

  /** `generate_svg`: the grid planned from the image size and the density,
      every cell rendered, the lines joined with "\n". */
  method GenerateSvg(img: Image, hexPerRow: int, strokeText: string, formatPoints: (Point, real) -> string)
    returns (svg: string)
    requires img.Valid()
    ensures svg == JoinLines(Texts(SvgContent(img, CalculateHexagonGrid(img.width, img.height, hexPerRow)),
                                   strokeText, formatPoints))
  {
    var g := CalculateHexagonGrid(img.width, img.height, hexPerRow);
    var svgContent := RenderLines(img, g);
    svg := JoinLines(Texts(svgContent, strokeText, formatPoints));
  }

  lemma LineHasNoNewline(line: SvgLine, strokeText: string, formatPoints: (Point, real) -> string)
    requires '\n' !in strokeText
    requires forall p: Point, size: real :: '\n' !in formatPoints(p, size)
    ensures '\n' !in LineText(line, strokeText, formatPoints)
  {
    match line
    case Header(w, h) =>
    case Polygon(center, size, fill) => assert '\n' !in formatPoints(center, size);
    case Close =>
  }

  lemma TextsHaveNoNewlines(lines: seq<SvgLine>, strokeText: string, formatPoints: (Point, real) -> string)
    requires '\n' !in strokeText
    requires forall p: Point, size: real :: '\n' !in formatPoints(p, size)
    ensures NoNewlines(Texts(lines, strokeText, formatPoints))
  {
    var texts := Texts(lines, strokeText, formatPoints);
    forall i | 0 <= i < |texts|
      ensures '\n' !in texts[i]
    {
      LineHasNoNewline(lines[i], strokeText, formatPoints);
    }
  }

  /** The `i`-th text is the text of the `i`-th line. */
  lemma TextAt(lines: seq<SvgLine>, strokeText: string, formatPoints: (Point, real) -> string, i: int, line: SvgLine)
    requires 0 <= i < |lines| && lines[i] == line
    ensures Texts(lines, strokeText, formatPoints)[i] == LineText(line, strokeText, formatPoints)
  {
  }

  /** The first and last line texts of the rendered content of any grid. */
  lemma ContentEnds(img: Image, g: Grid, strokeText: string, formatPoints: (Point, real) -> string)
    requires img.Valid()
    ensures var texts := Texts(SvgContent(img, g), strokeText, formatPoints);
      && |texts| == |KeptCells(g, img.width, img.height)| + 2
      && texts[0] == HeaderText(img.width, img.height)
      && texts[|texts| - 1] == CloseText
  {
    var lines := SvgContent(img, g);
    SvgContentShape(img, g);
    TextAt(lines, strokeText, formatPoints, 0, Header(img.width, img.height));
    TextAt(lines, strokeText, formatPoints, |lines| - 1, Close);
  }

  /** The polygon line texts of the rendered content of any grid. */
  lemma ContentPolygons(img: Image, g: Grid, strokeText: string, formatPoints: (Point, real) -> string)
    requires img.Valid()
    ensures var cells := KeptCells(g, img.width, img.height);
      var texts := Texts(SvgContent(img, g), strokeText, formatPoints);
      && |texts| == |cells| + 2
      && forall i :: 0 <= i < |cells| ==>
           texts[i + 1] == LineText(PolygonFor(img, g, cells[i]), strokeText, formatPoints)
  {
    var lines := SvgContent(img, g);
    SvgContentShape(img, g);
    var cells := KeptCells(g, img.width, img.height);
    forall i | 0 <= i < |cells|
      ensures Texts(lines, strokeText, formatPoints)[i + 1]
           == LineText(PolygonFor(img, g, cells[i]), strokeText, formatPoints)
    {
      TextAt(lines, strokeText, formatPoints, i + 1, PolygonFor(img, g, cells[i]));
    }
  }

  /** The rendered content of any grid, joined and split again, gives the
      text of each of its lines back. */
  lemma ContentLines(img: Image, g: Grid, strokeText: string, formatPoints: (Point, real) -> string)
    requires img.Valid()
    requires '\n' !in strokeText
    requires forall p: Point, size: real :: '\n' !in formatPoints(p, size)
    ensures var texts := Texts(SvgContent(img, g), strokeText, formatPoints);
      SplitLines(JoinLines(texts)) == texts
  {
    var lines := SvgContent(img, g);
    SvgContentShape(img, g);
    TextsHaveNoNewlines(lines, strokeText, formatPoints);
    SplitJoin(Texts(lines, strokeText, formatPoints));
  }

  /** The document, read back line by line: the `<svg ...>` header with the
      image size, then the polygon of each kept cell in row-major order, then
      `</svg>` — provided the formatted points and stroke width hold no
      newline. */
  lemma DocumentLines(img: Image, hexPerRow: int, strokeText: string, formatPoints: (Point, real) -> string)
    requires img.Valid()
    requires '\n' !in strokeText
    requires forall p: Point, size: real :: '\n' !in formatPoints(p, size)
    ensures var g := CalculateHexagonGrid(img.width, img.height, hexPerRow);
      var cells := KeptCells(g, img.width, img.height);
      var docLines := SplitLines(JoinLines(Texts(SvgContent(img, g), strokeText, formatPoints)));
      && |docLines| == |cells| + 2
      && docLines[0] == HeaderText(img.width, img.height)
      && docLines[|docLines| - 1] == CloseText
      && forall i :: 0 <= i < |cells| ==>
           docLines[i + 1] == LineText(PolygonFor(img, g, cells[i]), strokeText, formatPoints)
  {
    var g := CalculateHexagonGrid(img.width, img.height, hexPerRow);
    ContentLines(img, g, strokeText, formatPoints);
    ContentEnds(img, g, strokeText, formatPoints);
    ContentPolygons(img, g, strokeText, formatPoints);
  }
}
