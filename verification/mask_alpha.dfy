/**
 * The intensity blend both backends apply to a mask alpha: with intensity m,
 * an alpha A (0..255) becomes A·m + 255·(1 − m), which is 255 + (A − 255)·m.
 * m = 0 makes every alpha 255 (the mask has no effect), m = 1 keeps A.
 */
module MaskAlpha {

  function BlendAlpha(alpha: real, intensity: real): (r: real)
    ensures 0.0 <= alpha <= 255.0 && 0.0 <= intensity <= 1.0 ==> alpha <= r <= 255.0
    ensures intensity == 1.0 ==> r == alpha
    ensures intensity == 0.0 ==> r == 255.0
  {
    BlendRange(alpha, intensity);
    alpha * intensity + 255.0 * (1.0 - intensity)
  }

  /** The blend lies between the original alpha and full opacity. */
  lemma BlendRange(alpha: real, intensity: real)
    ensures 0.0 <= alpha <= 255.0 && 0.0 <= intensity <= 1.0 ==>
      alpha <= alpha * intensity + 255.0 * (1.0 - intensity) <= 255.0
  {
    if 0.0 <= alpha <= 255.0 && 0.0 <= intensity <= 1.0 {
      var r := alpha * intensity + 255.0 * (1.0 - intensity);
      assert r - alpha == (255.0 - alpha) * (1.0 - intensity);
      assert 255.0 - r == (255.0 - alpha) * intensity;
      ProductNonNegative(255.0 - alpha, 1.0 - intensity);
      ProductNonNegative(255.0 - alpha, intensity);
    }
  }

  lemma ProductNonNegative(x: real, y: real)
    requires 0.0 <= x && 0.0 <= y
    ensures 0.0 <= x * y
  {
  }

  /** More intensity never makes the mask more opaque. */
  lemma {:induction false} BlendAntitone(alpha: real, m1: real, m2: real)
    requires 0.0 <= alpha <= 255.0 && m1 <= m2
    ensures BlendAlpha(alpha, m2) <= BlendAlpha(alpha, m1)
  {
    assert BlendAlpha(alpha, m1) - BlendAlpha(alpha, m2) == (255.0 - alpha) * (m2 - m1);
    ProductNonNegative(255.0 - alpha, m2 - m1);
  }
}
