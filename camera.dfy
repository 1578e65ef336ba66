/** The screen-space part of `pixel_to_camera` (src/main.rs): a viewport
    pixel's centre in normalised device coordinates, mapped to `[-1, 1]`
    with the vertical axis flipped. The field-of-view scaling, the camera
    matrix and the normalisation of the direction are not part of this
    model; module Render takes the resulting primary rays as a parameter. */
module Camera {
  import opened Tiles

  /** `((x as f32) + 0.5) / size`: the centre of pixel `x` as a fraction of
      the viewport extent `size`. Every pixel's centre lies strictly inside
      the viewport. */
  function Ndc(x: nat, size: nat): (n: real)
    requires size > 0
    ensures x < size ==> 0.0 < n < 1.0
  {
    var s := size as real;
    var n := (x as real + 0.5) / s;
    assert n * s == x as real + 0.5;
    FractionInUnit(x as real + 0.5, s, n);
    n
  }

  /** A quotient `a / s` with `0 < a < s` lies strictly between 0 and 1. */
  lemma FractionInUnit(a: real, s: real, n: real)
    requires s > 0.0 && n * s == a
    ensures 0.0 < a < s ==> 0.0 < n < 1.0
  {
    if n <= 0.0 {
      assert n * s <= 0.0 by { assert (-n) * s >= 0.0; }
    }
    if n >= 1.0 {
      assert n * s >= s by { assert (n - 1.0) * s >= 0.0; }
    }
  }

  /** `2 * ndc_x - 1`: the horizontal screen coordinate, left edge -1. */
  function ScreenX(x: nat): real {
    2.0 * Ndc(x, ViewportWidth) - 1.0
  }

  /** `1 - 2 * ndc_y`: the vertical screen coordinate, flipped so that the
      top row of the viewport is near +1. */
  function ScreenY(y: nat): real {
    1.0 - 2.0 * Ndc(y, ViewportHeight)
  }

  /** Every pixel of the viewport maps strictly inside the screen square. */
  lemma {:induction false} ScreenInRange(x: nat, y: nat)
    requires x < ViewportWidth && y < ViewportHeight
    ensures -1.0 < ScreenX(x) < 1.0 && -1.0 < ScreenY(y) < 1.0
  {
    assert 0.0 < Ndc(x, ViewportWidth) < 1.0;
    assert 0.0 < Ndc(y, ViewportHeight) < 1.0;
  }

  /** Neighbouring pixels are one pixel pitch, `2 / size`, apart: to the
      right along the screen's x axis, and downwards (decreasing y) along
      its flipped y axis. */
  lemma {:induction false} ScreenStep(x: nat, y: nat)
    ensures ScreenX(x + 1) - ScreenX(x) == 2.0 / ViewportWidth as real
    ensures ScreenY(y) - ScreenY(y + 1) == 2.0 / ViewportHeight as real
  {
    assert Ndc(x + 1, ViewportWidth) - Ndc(x, ViewportWidth) == 1.0 / ViewportWidth as real;
    assert Ndc(y + 1, ViewportHeight) - Ndc(y, ViewportHeight) == 1.0 / ViewportHeight as real;
  }

  /** The mapping is symmetric about the viewport's centre: mirrored pixels
      get opposite screen coordinates. */
  lemma {:induction false} ScreenMirror(x: nat, y: nat)
    requires x < ViewportWidth && y < ViewportHeight
    ensures ScreenX(ViewportWidth - 1 - x) == -ScreenX(x)
    ensures ScreenY(ViewportHeight - 1 - y) == -ScreenY(y)
  {
    assert Ndc(ViewportWidth - 1 - x, ViewportWidth) == 1.0 - Ndc(x, ViewportWidth);
    assert Ndc(ViewportHeight - 1 - y, ViewportHeight) == 1.0 - Ndc(y, ViewportHeight);
  }

  /** The viewport has an even number of pixels each way, so its centre
      lies between columns 319 and 320 and between rows 179 and 180, half a
      pixel from each. */
  lemma CentreStraddled()
    ensures ScreenX(319) == -1.0 / 640.0 && ScreenX(320) == 1.0 / 640.0
    ensures ScreenY(179) == 1.0 / 360.0 && ScreenY(180) == -1.0 / 360.0
  {
  }
}
