/** Facts about multiplication and floor division of naturals that the
    index arithmetic of the grids rests on. */
module Arith {

  lemma MulLe(a: nat, b: nat, d: nat)
    requires a <= b
    ensures a * d <= b * d
  {
  }

  /** Multiplying by the same factor keeps a strict order, read backwards. */
  lemma MulLtCancel(a: nat, b: nat, d: nat)
    ensures a * d < b * d ==> a < b
  {
    if b <= a {
      MulLe(b, a, d);
    }
  }

  /** `q == n / d` is the one natural with `q * d <= n < (q + 1) * d`. */
  lemma FloorDivUnique(n: nat, d: nat, q: nat)
    requires d > 0
    requires q * d <= n < (q + 1) * d
    ensures q == n / d
  {
    var m := n / d;
    assert m * d <= n < (m + 1) * d;
    MulLtCancel(q, m + 1, d);
    MulLtCancel(m, q + 1, d);
  }

  /** Cell `(x, y)` of a row-major grid `w` wide lives at `y * w + x`, and
      that index gives the cell back. */
  lemma RowMajorIndex(x: nat, y: nat, w: nat)
    requires x < w
    ensures (y * w + x) / w == y && (y * w + x) % w == x
  {
    assert y * w <= y * w + x < (y + 1) * w;
    FloorDivUnique(y * w + x, w, y);
  }

  /** A cell of a `w` by `h` grid has its row-major index inside the grid. */
  lemma CellInGrid(x: nat, y: nat, w: nat, h: nat)
    requires x < w && y < h
    ensures y * w + x < w * h
  {
    MulLe(y + 1, h, w);
  }

  /** Every index of a `w` by `h` grid lies in one of its `h` rows. */
  lemma RowOfIndex(k: nat, w: nat, h: nat)
    requires k < w * h
    ensures w > 0 && k / w < h && k % w < w
  {
    assert w > 0;
    assert (k / w) * w <= k < h * w;
    MulLtCancel(k / w, h, w);
  }
}
