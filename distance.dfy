/**
  pxl_dist: the Euclidean distance between two (r, g, b) triples.

  The model keeps the squared distance (an integer) and compares it with the
  squares of the values the code compares sqrt(ssd) with. The lemmas at the end
  show that each such comparison has the same outcome as the code's.
*/
module Distance {
  import opened Colour

  function Square(v: int): (s: nat)
  {
    v * v
  }

  /** The sum of squared channel differences, whose square root pxl_dist returns. */
  function SqDist(a: Rgb, b: Rgb): nat
  {
    Square(a.r - b.r) + Square(a.g - b.g) + Square(a.b - b.b)
  }

  /** best_match starts its scans with err = 1e9; scores are compared with it squared. */
  const InitialErr: nat := 1_000_000_000
  const InitialErrSq: nat := InitialErr * InitialErr

  /** `err > threshold` for err = sqrt(ssd) and an integer threshold. */
  predicate Exceeds(ssd: nat, threshold: int)
  {
    threshold < 0 || ssd > threshold * threshold
  }

  lemma SqDistSymmetric(a: Rgb, b: Rgb)
    ensures SqDist(a, b) == SqDist(b, a)
  {
    assert Square(a.r - b.r) == Square(b.r - a.r);
    assert Square(a.g - b.g) == Square(b.g - a.g);
    assert Square(a.b - b.b) == Square(b.b - a.b);
  }

  lemma SquareZero(v: int)
    ensures Square(v) == 0 <==> v == 0
  {
    if v > 0 {
      assert v * v >= v;
    } else if v < 0 {
      assert v * v >= -v;
    }
  }

  /** The distance is zero exactly when the two triples are equal. */
  lemma SqDistZeroIff(a: Rgb, b: Rgb)
    ensures SqDist(a, b) == 0 <==> a == b
  {
    SquareZero(a.r - b.r);
    SquareZero(a.g - b.g);
    SquareZero(a.b - b.b);
  }

  lemma SquareBound(v: int)
    requires -255 <= v <= 255
    ensures Square(v) <= 255 * 255
  {
    if v >= 0 {
      Colour.MulMono(v, 255, v);
      Colour.MulMono(v, 255, 255);
    } else {
      Colour.MulMono(-v, 255, -v);
      Colour.MulMono(-v, 255, 255);
    }
  }

  /** Between 8-bit colours the squared distance is at most 3 * 255^2, far below the
      squared initial error, so the first tile scanned always beats the initial err. */
  lemma SqDistBound(a: Rgb, b: Rgb)
    requires InRange(a) && InRange(b)
    ensures SqDist(a, b) <= 3 * 255 * 255 < InitialErrSq
  {
    SquareBound(a.r - b.r);
    SquareBound(a.g - b.g);
    SquareBound(a.b - b.b);
  }

  /** sqrt is monotone: comparing two distances (`score < err`) gives the same answer
      as comparing their squares. */
  lemma SquaresPreserveOrder(d1: real, d2: real)
    requires 0.0 <= d1 && 0.0 <= d2
    ensures d1 < d2 <==> d1 * d1 < d2 * d2
  {
    if d1 < d2 {
      StrictSquare(d1, d2);
    } else {
      WeakSquare(d2, d1);
    }
  }

  lemma StrictSquare(a: real, b: real)
    requires 0.0 <= a < b
    ensures a * a < b * b
  {
    var aa, ab, bb := a * a, a * b, b * b;
    assert aa <= ab;
    assert ab < bb;
  }

  lemma WeakSquare(a: real, b: real)
    requires 0.0 <= a <= b
    ensures a * a <= b * b
  {
    var aa, ab, bb := a * a, a * b, b * b;
    assert aa <= ab;
    assert ab <= bb;
  }

  /** For a distance d = sqrt(ssd), `d > threshold` is Exceeds(ssd, threshold). */
  lemma ExceedsIsThresholdTest(d: real, ssd: nat, threshold: int)
    requires 0.0 <= d && d * d == ssd as real
    ensures d > threshold as real <==> Exceeds(ssd, threshold)
  {
    if threshold >= 0 {
      SquaresPreserveOrder(threshold as real, d);
      assert (threshold as real) * (threshold as real) == (threshold * threshold) as real;
    }
  }

  /** For a distance d = sqrt(ssd), `d < 1e9` is ssd < InitialErrSq. */
  lemma BelowInitialErr(d: real, ssd: nat)
    requires 0.0 <= d && d * d == ssd as real
    ensures d < InitialErr as real <==> ssd < InitialErrSq
  {
    SquaresPreserveOrder(d, InitialErr as real);
    assert (InitialErr as real) * (InitialErr as real) == InitialErrSq as real;
  }
}
