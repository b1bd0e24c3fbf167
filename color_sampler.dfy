/** ColorSampler: `get_hexagon_color`, the average colour of the pixels under
    a circular mask around a (possibly off-canvas) centre. */
module ColorSampler {
  import opened Raster
  import opened HexGrid

  /** The default `sample_size` every caller uses. */
  const SampleSize: int := 10

  /** `min(max(v, 0), n - 1)`: a coordinate pulled into `[0, n - 1]`. */
  function Clamp(v: int, n: int): (r: int)
    requires n > 0
    ensures 0 <= r < n
    ensures 0 <= v < n ==> r == v
    ensures v < 0 ==> r == 0
    ensures n <= v ==> r == n - 1
  {
    var atLeastZero := if v > 0 then v else 0;
    if atLeastZero < n - 1 then atLeastZero else n - 1
  }

  /** Truncating the sampled coordinate (Python's `int`) and flooring it
      give the same pixel once the result is clamped. */
  lemma ClampedTruncIsClampedFloor(v: real, n: int)
    requires n > 0
    ensures Clamp(Trunc(v), n) == Clamp(v.Floor, n)
  {
    if v < 0.0 {
      assert v.Floor < 0;
    }
  }

  /** `math.sqrt(dx**2 + dy**2) <= hexagon_size`, without the square root:
      a square root is never negative, so a negative size admits nothing. */
  predicate InMask(dx: int, dy: int, size: real)
    ensures InMask(dx, dy, size) ==> size >= 0.0
    ensures dx == 0 && dy == 0 && size >= 0.0 ==> InMask(dx, dy, size)
  {
    size >= 0.0 && (dx * dx + dy * dy) as real <= size * size
  }

  /** The pixel read for offset `(dx, dy)`: the offset point, truncated and
      clamped into the image. */
  function SamplePixel(img: Image, centerX: real, centerY: real, dx: int, dy: int): (p: Rgb)
    requires img.Valid()
    ensures IsColor(p)
    ensures 0.0 <= centerX + dx as real < img.width as real && 0.0 <= centerY + dy as real < img.height as real
            ==> p == img.pixels[(centerX + dx as real).Floor][(centerY + dy as real).Floor]
  {
    img.pixels[Clamp(Trunc(centerX + dx as real), img.width)][Clamp(Trunc(centerY + dy as real), img.height)]
  }

  /** The pixels the inner loop adds for one `dx`, for `dy` in `[lo, hi)`, in loop order. */
  function ColumnSamples(img: Image, centerX: real, centerY: real, size: real, dx: int, lo: int, hi: int): seq<Rgb>
    requires img.Valid()
    decreases hi - lo
  {
    if hi <= lo then []
    else ColumnSamples(img, centerX, centerY, size, dx, lo, hi - 1)
         + (if InMask(dx, hi - 1, size) then [SamplePixel(img, centerX, centerY, dx, hi - 1)] else [])
  }

  /** The pixels both loops add for `dx` in `[-s, hi)` and `dy` in `[-s, s]`, in loop order. */
  function SamplesUpTo(img: Image, centerX: real, centerY: real, size: real, s: int, hi: int): seq<Rgb>
    requires img.Valid()
    decreases hi + s
  {
    if hi <= -s then []
    else SamplesUpTo(img, centerX, centerY, size, s, hi - 1)
         + ColumnSamples(img, centerX, centerY, size, hi - 1, -s, s + 1)
  }

  /** Every pixel `get_hexagon_color` adds to its sums, in order. */
  function Sampled(img: Image, centerX: real, centerY: real, size: real, s: int): seq<Rgb>
    requires img.Valid()
  {
    SamplesUpTo(img, centerX, centerY, size, s, s + 1)
  }

  /** The number of offsets `dy` in `[lo, hi)` in the mask, for one `dx`. */
  function ColumnCount(size: real, dx: int, lo: int, hi: int): nat
    decreases hi - lo
  {
    if hi <= lo then 0
    else ColumnCount(size, dx, lo, hi - 1) + (if InMask(dx, hi - 1, size) then 1 else 0)
  }

  /** The number of offsets in `[-s, hi) x [-s, s]` in the mask. */
  function CountUpTo(size: real, s: int, hi: int): nat
    decreases hi + s
  {
    if hi <= -s then 0
    else CountUpTo(size, s, hi - 1) + ColumnCount(size, hi - 1, -s, s + 1)
  }

  /** The number of offsets `(dx, dy)` in `[-s, s]^2` with `dx^2 + dy^2 <= size^2`. */
  function MaskCount(size: real, s: int): nat
  {
    CountUpTo(size, s, s + 1)
  }

  lemma {:induction false} ColumnSamplesCount(img: Image, centerX: real, centerY: real, size: real, dx: int, lo: int, hi: int)
    requires img.Valid()
    ensures |ColumnSamples(img, centerX, centerY, size, dx, lo, hi)| == ColumnCount(size, dx, lo, hi)
    decreases hi - lo
  {
    if hi > lo {
      ColumnSamplesCount(img, centerX, centerY, size, dx, lo, hi - 1);
    }
  }

  lemma {:induction false} SamplesUpToCount(img: Image, centerX: real, centerY: real, size: real, s: int, hi: int)
    requires img.Valid()
    ensures |SamplesUpTo(img, centerX, centerY, size, s, hi)| == CountUpTo(size, s, hi)
    decreases hi + s
  {
    if hi > -s {
      SamplesUpToCount(img, centerX, centerY, size, s, hi - 1);
      ColumnSamplesCount(img, centerX, centerY, size, hi - 1, -s, s + 1);
    }
  }

  /** The mask looks at the offset only: how many pixels are summed does not
      depend on the image or on the centre, only on the size and `sample_size`. */
  lemma SampleCountIndependentOfCentre(img: Image, centerX: real, centerY: real,
                                       img': Image, centerX': real, centerY': real, size: real, s: int)
    requires img.Valid() && img'.Valid()
    ensures |Sampled(img, centerX, centerY, size, s)| == MaskCount(size, s)
    ensures |Sampled(img, centerX, centerY, size, s)| == |Sampled(img', centerX', centerY', size, s)|
  {
    SamplesUpToCount(img, centerX, centerY, size, s, s + 1);
    SamplesUpToCount(img', centerX', centerY', size, s, s + 1);
  }

  lemma {:induction false} ColumnCountHit(size: real, dx: int, lo: int, hi: int, dy: int)
    requires lo <= dy < hi && InMask(dx, dy, size)
    ensures ColumnCount(size, dx, lo, hi) >= 1
    decreases hi - lo
  {
    if dy < hi - 1 {
      ColumnCountHit(size, dx, lo, hi - 1, dy);
    }
  }

  lemma {:induction false} CountUpToHit(size: real, s: int, hi: int, dx: int)
    requires -s <= dx < hi && ColumnCount(size, dx, -s, s + 1) >= 1
    ensures CountUpTo(size, s, hi) >= 1
    decreases hi + s
  {
    if dx < hi - 1 {
      CountUpToHit(size, s, hi - 1, dx);
    }
  }

  lemma {:induction false} ColumnCountEmptyMask(size: real, dx: int, lo: int, hi: int)
    requires size < 0.0
    ensures ColumnCount(size, dx, lo, hi) == 0
    decreases hi - lo
  {
    if hi > lo {
      ColumnCountEmptyMask(size, dx, lo, hi - 1);
    }
  }

  lemma {:induction false} CountUpToEmptyMask(size: real, s: int, hi: int)
    requires size < 0.0
    ensures CountUpTo(size, s, hi) == 0
    decreases hi + s
  {
    if hi > -s {
      CountUpToEmptyMask(size, s, hi - 1);
      ColumnCountEmptyMask(size, hi - 1, -s, s + 1);
    }
  }

  /** Nothing is counted exactly when the size is negative or the sample
      window is empty; otherwise the centre offset `(0, 0)` is counted. */
  lemma MaskCountZeroIff(size: real, s: int)
    ensures MaskCount(size, s) == 0 <==> size < 0.0 || s < 0
  {
    if size < 0.0 {
      CountUpToEmptyMask(size, s, s + 1);
    } else if s >= 0 {
      assert InMask(0, 0, size);
      ColumnCountHit(size, 0, -s, s + 1, 0);
      CountUpToHit(size, s, s + 1, 0);
    }
  }

  /** Sum of channel `k` over `ps`. */
  function ChannelTotal(ps: seq<Rgb>, k: nat): int
    requires k < 3
  {
    if ps == [] then 0 else ChannelTotal(ps[..|ps| - 1], k) + Channel(ps[|ps| - 1], k)
  }

  /** The result of `get_hexagon_color` for the summed pixels `ps`: white
      when nothing was summed, else the channel sums floor-divided (`//`) by
      the count. The sums are never negative, so Dafny's `/` is Python's `//`. */
  function Average(ps: seq<Rgb>): (c: Rgb)
    ensures |ps| == 0 ==> c == White
  {
    if |ps| == 0 then White
    else Rgb(ChannelTotal(ps, 0) / |ps|, ChannelTotal(ps, 1) / |ps|, ChannelTotal(ps, 2) / |ps|)
  }

  lemma {:induction false} ChannelTotalBounds(ps: seq<Rgb>, k: nat, lo: int, hi: int)
    requires k < 3
    requires forall i :: 0 <= i < |ps| ==> lo <= Channel(ps[i], k) <= hi
    ensures |ps| * lo <= ChannelTotal(ps, k) <= |ps| * hi
  {
    if ps != [] {
      var init := ps[..|ps| - 1];
      ChannelTotalBounds(init, k, lo, hi);
      assert |ps| * lo == |init| * lo + lo;
      assert |ps| * hi == |init| * hi + hi;
    }
  }

  lemma MulMonotone(n: int, a: int, b: int)
    requires n >= 0 && a <= b
    ensures n * a <= n * b
  {
    assert n * b - n * a == n * (b - a);
  }

  lemma FloorDivBounds(total: int, n: int, lo: int, hi: int)
    requires n > 0 && n * lo <= total <= n * hi
    ensures lo <= total / n <= hi
  {
    var q, m := total / n, total % n;
    assert total == n * q + m && 0 <= m < n;
    assert n * (q + 1) == n * q + n;
    assert n * (hi + 1) == n * hi + n;
    if q < lo {
      MulMonotone(n, q + 1, lo);
    }
    if hi < q {
      MulMonotone(n, hi + 1, q);
    }
  }

  /** Each channel of the average lies between the least and the greatest
      value of that channel among the summed pixels. */
  lemma AverageChannelBounds(ps: seq<Rgb>, k: nat, lo: int, hi: int)
    requires k < 3 && |ps| > 0
    requires forall i :: 0 <= i < |ps| ==> lo <= Channel(ps[i], k) <= hi
    ensures lo <= Channel(Average(ps), k) <= hi
  {
    ChannelTotalBounds(ps, k, lo, hi);
    FloorDivBounds(ChannelTotal(ps, k), |ps|, lo, hi);
  }

  /** Averaging copies of one colour gives that colour back. */
  lemma AverageOfUniform(ps: seq<Rgb>, c: Rgb)
    requires |ps| > 0 && forall i :: 0 <= i < |ps| ==> ps[i] == c
    ensures Average(ps) == c
  {
    forall k | 0 <= k < 3
      ensures Channel(Average(ps), k) == Channel(c, k)
    {
      AverageChannelBounds(ps, k, Channel(c, k), Channel(c, k));
    }
    assert Channel(Average(ps), 0) == c.r;
    assert Channel(Average(ps), 1) == c.g;
    assert Channel(Average(ps), 2) == c.b;
  }

  /** Averaging valid colours gives a valid colour. */
  lemma AverageIsColor(ps: seq<Rgb>)
    requires forall i :: 0 <= i < |ps| ==> IsColor(ps[i])
    ensures IsColor(Average(ps))
  {
    if |ps| > 0 {
      AverageChannelBounds(ps, 0, 0, 255);
      AverageChannelBounds(ps, 1, 0, 255);
      AverageChannelBounds(ps, 2, 0, 255);
    }
  }

  /** `c` is the colour of some pixel of `img`. */
  ghost predicate InImage(img: Image, c: Rgb)
    requires img.Valid()
  {
    exists x, y :: 0 <= x < img.width && 0 <= y < img.height && c == img.pixels[x][y]
  }

  /** Every colour in `ps` is the colour of a pixel of `img`. */
  ghost predicate FromImage(img: Image, ps: seq<Rgb>)
    requires img.Valid()
  {
    forall i :: 0 <= i < |ps| ==> InImage(img, ps[i])
  }

  lemma {:induction false} ColumnSamplesFromImage(img: Image, centerX: real, centerY: real, size: real, dx: int, lo: int, hi: int)
    requires img.Valid()
    ensures FromImage(img, ColumnSamples(img, centerX, centerY, size, dx, lo, hi))
    decreases hi - lo
  {
    if hi > lo {
      ColumnSamplesFromImage(img, centerX, centerY, size, dx, lo, hi - 1);
      var x := Clamp(Trunc(centerX + dx as real), img.width);
      var y := Clamp(Trunc(centerY + (hi - 1) as real), img.height);
      assert SamplePixel(img, centerX, centerY, dx, hi - 1) == img.pixels[x][y];
      assert InImage(img, SamplePixel(img, centerX, centerY, dx, hi - 1));
    }
  }

  lemma {:induction false} SamplesUpToFromImage(img: Image, centerX: real, centerY: real, size: real, s: int, hi: int)
    requires img.Valid()
    ensures FromImage(img, SamplesUpTo(img, centerX, centerY, size, s, hi))
    decreases hi + s
  {
    if hi > -s {
      SamplesUpToFromImage(img, centerX, centerY, size, s, hi - 1);
      ColumnSamplesFromImage(img, centerX, centerY, size, hi - 1, -s, s + 1);
    }
  }

  /** The colour `get_hexagon_color` returns, as a function of its inputs. */
  function SampledColor(img: Image, centerX: real, centerY: real, size: real, s: int): (c: Rgb)
    requires img.Valid()
    ensures size < 0.0 || s < 0 ==> c == White
  {
    SampleCountIndependentOfCentre(img, centerX, centerY, img, centerX, centerY, size, s);
    MaskCountZeroIff(size, s);
    Average(Sampled(img, centerX, centerY, size, s))
  }

  /** Whatever the centre, even one off the canvas, the sampled colour is a
      valid 8-bit colour. */
  lemma SampledColorIsColor(img: Image, centerX: real, centerY: real, size: real, s: int)
    requires img.Valid()
    ensures IsColor(SampledColor(img, centerX, centerY, size, s))
  {
    var ps := Sampled(img, centerX, centerY, size, s);
    SamplesUpToFromImage(img, centerX, centerY, size, s, s + 1);
    forall i | 0 <= i < |ps|
      ensures IsColor(ps[i])
    {
      assert InImage(img, ps[i]);
      var x, y :| 0 <= x < img.width && 0 <= y < img.height && ps[i] == img.pixels[x][y];
    }
    AverageIsColor(ps);
  }

  /** On a one-colour image the sampler returns that colour, unless the mask
      is empty (negative size or sample size), when it falls back to white. */
  lemma UniformImageColor(img: Image, c: Rgb, centerX: real, centerY: real, size: real, s: int)
    requires img.Valid() && img.Uniform(c)
    ensures SampledColor(img, centerX, centerY, size, s)
         == if size < 0.0 || s < 0 then White else c
  {
    var ps := Sampled(img, centerX, centerY, size, s);
    SampleCountIndependentOfCentre(img, centerX, centerY, img, centerX, centerY, size, s);
    MaskCountZeroIff(size, s);
    if |ps| > 0 {
      SamplesUpToFromImage(img, centerX, centerY, size, s, s + 1);
      forall i | 0 <= i < |ps|
        ensures ps[i] == c
      {
        assert InImage(img, ps[i]);
        var x, y :| 0 <= x < img.width && 0 <= y < img.height && ps[i] == img.pixels[x][y];
      }
      AverageOfUniform(ps, c);
    }
  }

  /** One `dy` step of the inner loop appends the masked pixel, or nothing. */
  lemma ColumnStep(img: Image, centerX: real, centerY: real, size: real, dx: int, lo: int, dy: int, done: seq<Rgb>)
    requires img.Valid() && lo <= dy
    ensures done + ColumnSamples(img, centerX, centerY, size, dx, lo, dy + 1)
         == done + ColumnSamples(img, centerX, centerY, size, dx, lo, dy)
            + (if InMask(dx, dy, size) then [SamplePixel(img, centerX, centerY, dx, dy)] else [])
  {
  }

  /** The channel sum of `ps + [p]` adds `p`'s channel. */
  lemma ChannelTotalAppend(ps: seq<Rgb>, p: Rgb)
    ensures ChannelTotal(ps + [p], 0) == ChannelTotal(ps, 0) + p.r
    ensures ChannelTotal(ps + [p], 1) == ChannelTotal(ps, 1) + p.g
    ensures ChannelTotal(ps + [p], 2) == ChannelTotal(ps, 2) + p.b
  {
    assert (ps + [p])[..|ps|] == ps;
  }

  /** A finished inner loop has added the whole column of `dx`. */
  lemma ColumnDone(img: Image, centerX: real, centerY: real, size: real, s: int, dx: int)
    requires img.Valid() && -s <= dx
    ensures SamplesUpTo(img, centerX, centerY, size, s, dx)
            + ColumnSamples(img, centerX, centerY, size, dx, -s, RangeStop(-s, s + 1))
         == SamplesUpTo(img, centerX, centerY, size, s, dx + 1)
  {
  }

  /** A finished outer loop has added every sampled pixel. */
  lemma AllColumnsDone(img: Image, centerX: real, centerY: real, size: real, s: int)
    requires img.Valid()
    ensures SamplesUpTo(img, centerX, centerY, size, s, RangeStop(-s, s + 1)) == Sampled(img, centerX, centerY, size, s)
  {
  }

  /** `get_hexagon_color`: both loops over `range(-sample_size, sample_size + 1)`,
      the mask tested on the unclamped offset, the pixel read at the clamped
      point, the three sums kept in a list updated in place. */
  method HexagonColor(img: Image, centerX: real, centerY: real, size: real, sampleSize: int) returns (color: Rgb)
    requires img.Valid()
    ensures color == SampledColor(img, centerX, centerY, size, sampleSize)
    ensures IsColor(color)
  {
    var totalColor := new int[3](_ => 0);
    var count := 0;
    ghost var added: seq<Rgb> := [];
    var start, stop := -sampleSize, sampleSize + 1;
    for dx := start to RangeStop(start, stop)
      invariant added == SamplesUpTo(img, centerX, centerY, size, sampleSize, dx)
      invariant count == |added|
      invariant totalColor[0] == ChannelTotal(added, 0)
      invariant totalColor[1] == ChannelTotal(added, 1)
      invariant totalColor[2] == ChannelTotal(added, 2)
    {
      ghost var done := added;
      assert done + ColumnSamples(img, centerX, centerY, size, dx, start, start) == done;
      for dy := start to RangeStop(start, stop)
        invariant added == done + ColumnSamples(img, centerX, centerY, size, dx, start, dy)
        invariant count == |added|
        invariant totalColor[0] == ChannelTotal(added, 0)
        invariant totalColor[1] == ChannelTotal(added, 1)
        invariant totalColor[2] == ChannelTotal(added, 2)
      {
        var x := Clamp(Trunc(centerX + dx as real), img.width);
        var y := Clamp(Trunc(centerY + dy as real), img.height);
        ColumnStep(img, centerX, centerY, size, dx, start, dy, done);
        if InMask(dx, dy, size) {
          var p := img.pixels[x][y];
          ChannelTotalAppend(added, p);
          totalColor[0] := totalColor[0] + p.r;
          totalColor[1] := totalColor[1] + p.g;
          totalColor[2] := totalColor[2] + p.b;
          count := count + 1;
          added := added + [p];
        }
      }
      ColumnDone(img, centerX, centerY, size, sampleSize, dx);
    }
    AllColumnsDone(img, centerX, centerY, size, sampleSize);
    SampledColorIsColor(img, centerX, centerY, size, sampleSize);
    if count == 0 {
      return White;
    }
    color := Rgb(totalColor[0] / count, totalColor[1] / count, totalColor[2] / count);
  }
}
