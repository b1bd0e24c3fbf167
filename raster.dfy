/** The decoded raster image the mosaic engine reads. Decoding (PIL's
    `Image.open(...).convert("RGB")`) is done by a collaborator; the engine
    only sees the width, the height and the pixel accessor `pixels[x, y]`. */
module Raster {

  /** An 8-bit RGB triple, as PIL returns it for an "RGB" image. */
  datatype Rgb = Rgb(r: int, g: int, b: int)

  /** The fallback colour of the sampler: `(255, 255, 255)`. */
  const White: Rgb := Rgb(255, 255, 255)

  /** Channel `k` of a colour: 0 is red, 1 is green, 2 is blue. */
  function Channel(c: Rgb, k: nat): int
    requires k < 3
  {
    if k == 0 then c.r else if k == 1 then c.g else c.b
  }

  predicate IsByte(v: int) { 0 <= v <= 255 }

  predicate IsColor(c: Rgb) { IsByte(c.r) && IsByte(c.g) && IsByte(c.b) }

  /** `pixels[x][y]` is the pixel at column `x`, row `y`, as `pixels[x, y]` in PIL. */
  datatype Image = Image(width: int, height: int, pixels: seq<seq<Rgb>>) {

    /** A decoded image: positive size, one column per x, one pixel per y,
        every channel a byte. */
    predicate Valid() {
      && width > 0 && height > 0
      && |pixels| == width
      && (forall x :: 0 <= x < width ==> |pixels[x]| == height)
      && (forall x, y :: 0 <= x < width && 0 <= y < height ==> IsColor(pixels[x][y]))
    }

    /** Every pixel of the image is `c`. */
    predicate Uniform(c: Rgb)
      requires Valid()
    {
      forall x, y :: 0 <= x < width && 0 <= y < height ==> pixels[x][y] == c
    }
  }
}
