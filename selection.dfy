/** Scalar parameters derived from the quality percentage: the number of
    principal components kept per channel, and the quality handed to the
    JPEG encoder.  The quality percentage is a Python float; it is modelled
    as an exact `real`. */
module Selection {

  function Min(a: int, b: int): (r: int) { if a <= b then a else b }

  function Max(a: int, b: int): (r: int) { if a <= b then b else a }

  /** Python's `int()` on a float: truncation toward zero. */
  function Trunc(x: real): (r: int)
    ensures 0.0 <= x ==> r as real <= x < r as real + 1.0
    ensures x < 0.0 ==> r as real - 1.0 < x <= r as real
  {
    if 0.0 <= x then x.Floor else -((-x).Floor)
  }

  /** Truncation toward zero is monotone. */
  lemma TruncMonotone(x: real, y: real)
    requires x <= y
    ensures Trunc(x) <= Trunc(y)
  {
  }

  /** `max_components * quality_percentage / 100`. */
  function Share(m: nat, quality: real): (r: real)
  {
    m as real * quality / 100.0
  }

  /** The number of PCA components for an image of height `h` and width `w`:
      the quality's share of the smaller dimension, at least 1, at most the
      smaller dimension. */
  function ComponentCount(quality: real, h: nat, w: nat): (k: int)
    ensures 1 <= h && 1 <= w ==> 1 <= k <= Min(h, w)
    ensures h == 0 || w == 0 ==> k == 0
  {
    var maxComponents := Min(h, w);
    var n := Max(1, Trunc(Share(maxComponents, quality)));
    Min(n, maxComponents)
  }

  /** `j` is the largest rank in 1..m whose share `j/m` does not exceed the
      quality percentage, with 1 kept as the floor. */
  predicate IsLargestAdmissibleRank(j: int, quality: real, m: nat)
  {
    1 <= j <= m
    && (j == 1 || (j * 100) as real <= m as real * quality)
    && (j < m ==> m as real * quality < ((j + 1) * 100) as real)
  }

  /** The selected count is exactly the largest admissible rank: an
      independent characterisation that determines it uniquely. */
  lemma ComponentCountIsLargestAdmissible(quality: real, h: nat, w: nat, j: int)
    requires 1 <= h && 1 <= w
    ensures IsLargestAdmissibleRank(j, quality, Min(h, w)) <==> j == ComponentCount(quality, h, w)
  {
  }

  /** At quality 100 or more nothing is discarded: k is the smaller dimension. */
  lemma ComponentCountAtFullQuality(quality: real, h: nat, w: nat)
    requires 100.0 <= quality
    ensures ComponentCount(quality, h, w) == Min(h, w)
  {
  }

  /** A one-pixel-wide or one-pixel-high image always gets k = 1. */
  lemma ComponentCountOfThinImage(quality: real, h: nat, w: nat)
    requires Min(h, w) == 1
    ensures ComponentCount(quality, h, w) == 1
  {
  }

  /** The quality's share of `m` components grows with the quality. */
  lemma ShareMonotone(m: nat, q1: real, q2: real)
    requires q1 <= q2
    ensures Share(m, q1) <= Share(m, q2)
  {
    assert m as real * q2 - m as real * q1 == m as real * (q2 - q1);
  }

  /** Raising the quality never lowers the component count. */
  lemma ComponentCountMonotone(q1: real, q2: real, h: nat, w: nat)
    requires q1 <= q2
    ensures ComponentCount(q1, h, w) <= ComponentCount(q2, h, w)
  {
    var m := Min(h, w);
    ShareMonotone(m, q1, q2);
    TruncMonotone(Share(m, q1), Share(m, q2));
    assert Max(1, Trunc(Share(m, q1))) <= Max(1, Trunc(Share(m, q2)));
  }

  /** Two worked cases: half quality on a 4x4 image keeps 2 components, and
      quality 0 on a 10x10 image keeps 1 rather than 0. */
  lemma ComponentCountExamples()
    ensures ComponentCount(50.0, 4, 4) == 2
    ensures ComponentCount(0.0, 10, 10) == 1
  {
  }

  /** The JPEG encoder quality: the truncated percentage clamped to 10..95. */
  function EncoderQuality(quality: real): (r: int)
    ensures 10 <= r <= 95
    ensures 10.0 <= quality <= 95.0 && quality == quality.Floor as real ==> r == quality.Floor
  {
    Max(10, Min(95, Trunc(quality)))
  }

  /** Outside the encoder's range the quality saturates at its ends. */
  lemma EncoderQualitySaturates(quality: real)
    ensures 95.0 <= quality ==> EncoderQuality(quality) == 95
    ensures quality < 11.0 ==> EncoderQuality(quality) == 10
    ensures 10.0 <= quality < 96.0 ==> EncoderQuality(quality) as real <= quality < EncoderQuality(quality) as real + 1.0
  {
  }

  /** Raising the quality never lowers the encoder quality. */
  lemma EncoderQualityMonotone(q1: real, q2: real)
    requires q1 <= q2
    ensures EncoderQuality(q1) <= EncoderQuality(q2)
  {
  }
}
