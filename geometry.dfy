/** Geometry planning shared by both entry points.
    A character cell is assumed to be twice as tall as it is wide, so the
    output height in characters is the requested width scaled by the source
    aspect ratio and halved, with truncating integer division at each step. */
module Geometry {
  import opened Arith

  /** Output height in characters for a `width`-character rendering of an
      `sx` by `sy` pixel image: `width * sy / sx / 2` in C integer arithmetic.
      All operands are non-negative here, so C truncation and Dafny's
      Euclidean division agree. The result is the largest natural `h` with
      `2 * h * sx <= width * sy`: the image's aspect ratio, halved, is never
      exceeded and is undershot by less than one character row. */
  function CharHeight(width: nat, sx: nat, sy: nat): (h: nat)
    requires sx > 0
    ensures 2 * h * sx <= width * sy
    ensures width * sy < 2 * (h + 1) * sx
  {
    var n := width * sy;
    var q := n / sx;
    var h := q / 2;
    assert q * sx <= n < (q + 1) * sx;
    assert 2 * h <= q <= 2 * h + 1;
    MulLe(2 * h, q, sx);
    MulLe(q + 1, 2 * h + 2, sx);
    assert 2 * h * sx == (2 * h) * sx;
    assert 2 * (h + 1) * sx == (2 * h + 2) * sx;
    h
  }

  /** The working grid of the glyph path holds a 2x2 block of pixels per
      character cell. */
  function WorkingSize(chars: nat): nat
  {
    2 * chars
  }

  /** Working pixel `x` lies in the grid exactly when the character cell it
      belongs to, `x / 2`, does: the `2 * chars` working columns (or rows) are
      the character cells' 2-pixel blocks and nothing more. */
  lemma WorkingCell(chars: nat, x: nat)
    ensures x < WorkingSize(chars) <==> x / 2 < chars
  {
    if x / 2 < chars {
      assert x <= 2 * (x / 2) + 1;
    } else {
      assert 2 * (x / 2) <= x;
    }
  }

  /** Truncating twice equals truncating once by `2 * sx`: the formula is the
      floor of `width * sy / (2 * sx)`. */
  lemma CharHeightSingleDivision(width: nat, sx: nat, sy: nat)
    requires sx > 0
    ensures CharHeight(width, sx, sy) == width * sy / (2 * sx)
  {
    var h := CharHeight(width, sx, sy);
    assert h * (2 * sx) == 2 * h * sx;
    assert (h + 1) * (2 * sx) == 2 * (h + 1) * sx;
    FloorDivUnique(width * sy, 2 * sx, h);
  }

  /** A source at least twice as wide as it is tall, relative to the request,
      yields an empty rendering: zero rows exactly when `width * sy < 2 * sx`. */
  lemma CharHeightZero(width: nat, sx: nat, sy: nat)
    requires sx > 0
    ensures CharHeight(width, sx, sy) == 0 <==> width * sy < 2 * sx
  {
    var h := CharHeight(width, sx, sy);
    if h > 0 {
      MulLe(1, h, 2 * sx);
      assert 2 * sx <= h * (2 * sx) == 2 * h * sx;
    }
  }

  /** A wider request never yields fewer rows. */
  lemma CharHeightMonotone(w1: nat, w2: nat, sx: nat, sy: nat)
    requires sx > 0 && w1 <= w2
    ensures CharHeight(w1, sx, sy) <= CharHeight(w2, sx, sy)
  {
    var h1 := CharHeight(w1, sx, sy);
    var h2 := CharHeight(w2, sx, sy);
    MulLe(w1, w2, sy);
    assert (2 * h1) * sx < (2 * h2 + 2) * sx;
    MulLtCancel(2 * h1, 2 * h2 + 2, sx);
  }
}
