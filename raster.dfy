/**
 * Pixels of a decoded RGBA image (the `data` array of a canvas `ImageData`)
 * and their blending onto a white background.
 */
module Raster {

  /** One 8-bit channel value, as a canvas stores it. */
  type Byte = x: int | 0 <= x < 256

  /** One pixel: four consecutive channel values of the buffer. */
  datatype Pixel = Pixel(r: Byte, g: Byte, b: Byte, a: Byte)

  /** An opaque color after compositing; the key of the color tally. */
  datatype Rgb = Rgb(r: Byte, g: Byte, b: Byte)

  /** Channels above this value, on all three channels at once, make a pixel "near white". */
  const WhiteCutoff: int := 240

  /** Groups the flat buffer into pixels, four channels at a time, in buffer order. */
  function Pixels(data: seq<Byte>): (ps: seq<Pixel>)
    requires |data| % 4 == 0
    ensures |ps| == |data| / 4
    decreases |data|
  {
    if data == [] then []
    else [Pixel(data[0], data[1], data[2], data[3])] + Pixels(data[4..])
  }

  /** Pixel k is made of channels 4k to 4k + 3, in the order red, green, blue, alpha. */
  lemma {:induction false} PixelAt(data: seq<Byte>, k: nat)
    requires |data| % 4 == 0 && k < |data| / 4
    ensures Pixels(data)[k] == Pixel(data[4 * k], data[4 * k + 1], data[4 * k + 2], data[4 * k + 3])
    decreases |data|
  {
    if k > 0 {
      PixelAt(data[4..], k - 1);
    }
  }

  /**
   * Channel `c` seen at opacity `a / 255` over white, rounded to the nearest
   * integer. The exact blend is (c * a + 255 * (255 - a)) / 255, an integer
   * over 255, so it is never half-way between two integers and the rounding
   * is the integer division below.
   */
  function Blend(c: Byte, a: Byte): (v: int)
    ensures 0 <= v < 256
    ensures 255 * v - 127 <= c * a + 255 * (255 - a) <= 255 * v + 127
    ensures c <= v
    ensures a == 255 ==> v == c
  {
    BlendBounds(c, a);
    (c * a + 255 * (255 - a) + 127) / 255
  }

  /** The exact blend lies between 255 * c and 255 * 255. */
  lemma BlendBounds(c: Byte, a: Byte)
    ensures 255 * c <= c * a + 255 * (255 - a) <= 255 * 255
  {
    var k := 255 - a;
    assert c * a + c * k == c * 255;
    ScaleBelow(c, 255, k);
    ScaleBelow(c, 255, a);
  }

  lemma ScaleBelow(x: nat, y: nat, k: nat)
    requires x <= y
    ensures x * k <= y * k
  {
  }

  /** The color a pixel shows once composited onto white. */
  function CompositeOf(p: Pixel): (c: Rgb)
    ensures p.a == 255 ==> c == Rgb(p.r, p.g, p.b)
    ensures p.r <= c.r && p.g <= c.g && p.b <= c.b
  {
    Rgb(Blend(p.r, p.a), Blend(p.g, p.a), Blend(p.b, p.a))
  }

  /** The darkest channel of a color. */
  function Darkest(c: Rgb): (d: Byte)
    ensures d <= c.r && d <= c.g && d <= c.b
    ensures d == c.r || d == c.g || d == c.b
  {
    if c.r <= c.g && c.r <= c.b then c.r else if c.g <= c.b then c.g else c.b
  }

  /** A color counts as white when every channel exceeds the cutoff, i.e. even its darkest one. */
  predicate NearWhite(c: Rgb): (w: bool)
    ensures w <==> Darkest(c) > WhiteCutoff
  {
    c.r > WhiteCutoff && c.g > WhiteCutoff && c.b > WhiteCutoff
  }

  /** A pixel is tallied when it is not fully transparent and its composite is not near white. */
  predicate Eligible(p: Pixel): (e: bool)
    ensures e ==> 15 <= p.a
  {
    BlendAtLeast(p.r, p.a);
    BlendAtLeast(p.g, p.a);
    BlendAtLeast(p.b, p.a);
    p.a != 0 && !NearWhite(CompositeOf(p))
  }

  /** At opacity a / 255 no channel blends darker than 255 - a. */
  lemma BlendAtLeast(c: Byte, a: Byte)
    ensures Blend(c, a) >= 255 - a
  {
    var v := Blend(c, a);
    ScaleBelow(0, c, a);
    assert 255 * v + 127 >= 255 * (255 - a);
    assert 255 * (v - (255 - a)) > -255;
  }

  /** Every pixel with opacity 1..14 composites to near white, whatever its color. */
  lemma FaintPixelIneligible(p: Pixel)
    requires 0 < p.a < 15
    ensures !Eligible(p)
  {
  }
}
