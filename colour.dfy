/**
  Colour signatures: the average (r, g, b) of an image or of a cropped region
  (rank_image), computed with Python 2 integer division.
*/
module Colour {

  /** An (r, g, b) triple: a pixel of an RGB image, or an average colour. */
  datatype Rgb = Rgb(r: int, g: int, b: int)

  const Black := Rgb(0, 0, 0)

  function Add(p: Rgb, q: Rgb): Rgb
  {
    Rgb(p.r + q.r, p.g + q.g, p.b + q.b)
  }

  /** Every channel lies in [0, hi]. */
  predicate Within(p: Rgb, hi: int)
  {
    0 <= p.r <= hi && 0 <= p.g <= hi && 0 <= p.b <= hi
  }

  /** Every channel is an 8-bit intensity. */
  predicate InRange(p: Rgb)
  {
    Within(p, 255)
  }

  /** An image is a sequence of columns, so that im[x][y] is PIL's im[x, y]. */
  type Image = seq<seq<Rgb>>

  /** im has w columns, each of h pixels. */
  predicate IsImage(im: Image, w: nat, h: nat)
  {
    |im| == w && forall x :: 0 <= x < |im| ==> |im[x]| == h
  }

  predicate AllInRange(im: Image)
  {
    forall x, y :: 0 <= x < |im| && 0 <= y < |im[x]| ==> InRange(im[x][y])
  }

  /** The channel-wise sum of the first n pixels of a column (y = 0 .. n - 1). */
  function ColumnSum(col: seq<Rgb>, n: nat): Rgb
    requires n <= |col|
  {
    if n == 0 then Black else Add(ColumnSum(col, n - 1), col[n - 1])
  }

  /** The channel-wise sum of the first n columns of an image (x = 0 .. n - 1). */
  function ImageSum(im: Image, n: nat): Rgb
    requires n <= |im|
  {
    if n == 0 then Black else Add(ImageSum(im, n - 1), ColumnSum(im[n - 1], |im[n - 1]|))
  }

  /** The average colour: each channel sum divided by the pixel count w * h,
      rounded down (Python 2 integer division, which is Dafny's for a positive divisor). */
  function Mean(im: Image, w: nat, h: nat): Rgb
    requires IsImage(im, w, h) && w > 0 && h > 0
  {
    var s := ImageSum(im, w);
    var d := w * h;
    Rgb(s.r / d, s.g / d, s.b / d)
  }

  /** rank_image: sums each channel over the w x h grid, x outer and y inner,
      then divides by the pixel count. */
  method RankImage(im: Image, w: nat, h: nat) returns (c: Rgb)
    requires IsImage(im, w, h) && w > 0 && h > 0
    ensures c == Mean(im, w, h)
    ensures AllInRange(im) ==> InRange(c)
  {
    var r, g, b := 0, 0, 0;
    var d := w * h;
    for x := 0 to w
      invariant Rgb(r, g, b) == ImageSum(im, x)
    {
      for y := 0 to h
        invariant Rgb(r, g, b) == Add(ImageSum(im, x), ColumnSum(im[x], y))
      {
        r := r + im[x][y].r;
        g := g + im[x][y].g;
        b := b + im[x][y].b;
      }
    }
    c := Rgb(r / d, g / d, b / d);
    if AllInRange(im) {
      MeanInRange(im, w, h);
    }
  }

  /** Each channel of the mean is the floor of the exact average: d * m <= sum < d * (m + 1). */
  lemma MeanIsFloorAverage(im: Image, w: nat, h: nat)
    requires IsImage(im, w, h) && w > 0 && h > 0
    ensures var m, s, d := Mean(im, w, h), ImageSum(im, w), w * h;
      d * m.r <= s.r < d * (m.r + 1) &&
      d * m.g <= s.g < d * (m.g + 1) &&
      d * m.b <= s.b < d * (m.b + 1)
  {
    var s, d := ImageSum(im, w), w * h;
    FloorDiv(s.r, d);
    FloorDiv(s.g, d);
    FloorDiv(s.b, d);
  }

  lemma FloorDiv(a: int, d: int)
    requires d > 0
    ensures d * (a / d) <= a < d * (a / d + 1)
  {
    assert a == d * (a / d) + a % d;
  }

  lemma {:induction false} ColumnSumBounds(col: seq<Rgb>, n: nat)
    requires n <= |col|
    requires forall y :: 0 <= y < |col| ==> InRange(col[y])
    ensures Within(ColumnSum(col, n), 255 * n)
  {
    if n > 0 {
      ColumnSumBounds(col, n - 1);
    }
  }

  lemma {:induction false} ImageSumBounds(im: Image, h: nat, n: nat)
    requires n <= |im| && IsImage(im, |im|, h) && AllInRange(im)
    ensures Within(ImageSum(im, n), 255 * h * n)
  {
    if n > 0 {
      ImageSumBounds(im, h, n - 1);
      ColumnSumBounds(im[n - 1], h);
      assert 255 * h * (n - 1) + 255 * h == 255 * h * n;
    }
  }

  lemma DivBounded(s: int, d: int, k: int)
    requires d > 0 && k >= 0 && 0 <= s <= k * d
    ensures 0 <= s / d <= k
  {
    FloorDiv(s, d);
    var q := s / d;
    if q > k {
      MulMono(k + 1, q, d);
    }
  }

  lemma MulMono(a: int, b: int, d: int)
    requires a <= b && d >= 0
    ensures d * a <= d * b
  {
  }

  /** When every pixel channel is in [0, 255], so is every channel of the mean. */
  lemma MeanInRange(im: Image, w: nat, h: nat)
    requires IsImage(im, w, h) && w > 0 && h > 0 && AllInRange(im)
    ensures InRange(Mean(im, w, h))
  {
    var s, d := ImageSum(im, w), w * h;
    ImageSumBounds(im, h, w);
    assert 255 * h * w == 255 * d;
    DivBounded(s.r, d, 255);
    DivBounded(s.g, d, 255);
    DivBounded(s.b, d, 255);
  }

  function Scale(p: Rgb, n: int): Rgb
  {
    Rgb(p.r * n, p.g * n, p.b * n)
  }

  lemma AddScale(p: Rgb, a: int, b: int)
    ensures Add(Scale(p, a), Scale(p, b)) == Scale(p, a + b)
  {
    assert p.r * a + p.r * b == p.r * (a + b);
    assert p.g * a + p.g * b == p.g * (a + b);
    assert p.b * a + p.b * b == p.b * (a + b);
  }

  lemma {:induction false} ColumnSumUniform(col: seq<Rgb>, n: nat, p: Rgb)
    requires n <= |col|
    requires forall y :: 0 <= y < |col| ==> col[y] == p
    ensures ColumnSum(col, n) == Scale(p, n)
  {
    if n > 0 {
      ColumnSumUniform(col, n - 1, p);
      AddScale(p, n - 1, 1);
    }
  }

  lemma {:induction false} ImageSumUniform(im: Image, h: nat, n: nat, p: Rgb)
    requires n <= |im| && IsImage(im, |im|, h)
    requires forall x, y :: 0 <= x < |im| && 0 <= y < h ==> im[x][y] == p
    ensures ImageSum(im, n) == Scale(p, h * n)
  {
    if n > 0 {
      ImageSumUniform(im, h, n - 1, p);
      ColumnSumUniform(im[n - 1], h, p);
      AddScale(p, h * (n - 1), h);
      assert h * (n - 1) + h == h * n;
    }
  }

  lemma MulDivCancel(a: int, d: int)
    requires d > 0
    ensures (a * d) / d == a
  {
    var q := (a * d) / d;
    FloorDiv(a * d, d);
    if q < a {
      MulMono(q + 1, a, d);
    } else if q > a {
      MulMono(a + 1, q, d);
    }
  }

  /** An image whose every pixel is p has average colour p. */
  lemma MeanOfUniform(im: Image, w: nat, h: nat, p: Rgb)
    requires IsImage(im, w, h) && w > 0 && h > 0
    requires forall x, y :: 0 <= x < w && 0 <= y < h ==> im[x][y] == p
    ensures Mean(im, w, h) == p
  {
    ImageSumUniform(im, h, w, p);
    var d := w * h;
    assert h * w == d;
    MulDivCancel(p.r, d);
    MulDivCancel(p.g, d);
    MulDivCancel(p.b, d);
  }

  /** A rectangle (x0, y0, x1, y1) in PIL's convention: x0 and y0 inclusive, x1 and y1 exclusive. */
  datatype Box = Box(x0: int, y0: int, x1: int, y1: int)

  /** The box is non-empty and lies inside a w x h image. */
  predicate Inside(b: Box, w: nat, h: nat)
  {
    0 <= b.x0 < b.x1 <= w && 0 <= b.y0 < b.y1 <= h
  }

  /** Image.crop(box) for a box inside the image: the pixels of the box, re-indexed from (0, 0). */
  function Crop(im: Image, w: nat, h: nat, b: Box): (region: Image)
    requires IsImage(im, w, h) && Inside(b, w, h)
    ensures IsImage(region, b.x1 - b.x0, b.y1 - b.y0)
    ensures forall x, y :: 0 <= x < b.x1 - b.x0 && 0 <= y < b.y1 - b.y0 ==>
      region[x][y] == im[b.x0 + x][b.y0 + y]
    ensures AllInRange(im) ==> AllInRange(region)
  {
    seq(b.x1 - b.x0, i requires 0 <= i < b.x1 - b.x0 => im[b.x0 + i][b.y0..b.y1])
  }

  /** The colour signature of a region of the target: rank_image(target.crop(box)). */
  function RegionColour(im: Image, w: nat, h: nat, b: Box): Rgb
    requires IsImage(im, w, h) && Inside(b, w, h)
  {
    Mean(Crop(im, w, h, b), b.x1 - b.x0, b.y1 - b.y0)
  }
}
