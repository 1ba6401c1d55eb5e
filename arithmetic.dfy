/** Facts about products, quotients and remainders that the row-major index maps rely on. */
module Arithmetic {

  lemma MulMonotone(w: int, a: int, b: int)
    requires 0 <= w
    ensures a <= b ==> w * a <= w * b
  {
    assert w * b - w * a == w * (b - a);
    if a <= b {
      assert 0 <= w * (b - a);
    }
  }

  lemma MulNonNegative(a: int, b: int)
    requires 0 <= a && 0 <= b
    ensures 0 <= a * b
  {
    MulMonotone(b, 0, a);
  }

  lemma MulBound(a: int, b: int, n: int)
    requires 0 <= a <= n && 0 <= b <= n
    ensures a * b <= n * n
  {
    MulMonotone(b, a, n);
    MulMonotone(n, b, n);
  }

  /** Quotient and remainder of a non-negative number by a positive one. */
  lemma DivModBounds(x: int, w: int)
    requires 0 < w && 0 <= x
    ensures 0 <= x / w && 0 <= x % w < w && x == (x / w) * w + x % w
  {
  }

  /** A quotient by w of a number below w * h is below h. */
  lemma DivBelow(idx: int, w: int, h: int)
    requires 0 < w && 0 <= idx < w * h
    ensures 0 <= idx / w < h
  {
    var q := idx / w;
    assert idx == w * q + idx % w;
    MulMonotone(w, h, q);
  }

  lemma SmallMultipleIsZero(k: int, w: int)
    requires 0 < w && -w < k * w < w
    ensures k == 0
  {
    MulMonotone(w, 1, k);
    MulMonotone(w, k, -1);
  }

  /** Quotient and remainder are unique: a * w + m with 0 <= m < w divides into a remainder m. */
  lemma DivModOf(x: int, a: int, m: int, w: int)
    requires 0 < w && 0 <= m < w && x == a * w + m
    ensures x / w == a && x % w == m
  {
    var d, r := x / w, x % w;
    assert x == d * w + r;
    assert (a - d) * w == r - m;
    SmallMultipleIsZero(a - d, w);
  }

  /** A row-major position a * w + m with a < h and m < w is below w * h. */
  lemma RowMajorBelow(a: int, m: int, w: int, h: int)
    requires 0 <= a < h && 0 <= m < w
    ensures 0 <= a * w + m < w * h
  {
    MulMonotone(w, a, h - 1);
    MulMonotone(w, 0, a);
    assert w * (h - 1) == w * h - w;
  }

  /** Row-major positions compare like (quotient, remainder) pairs, lexicographically. */
  lemma RowMajorOrder(i: int, j: int, w: int)
    requires 0 < w && 0 <= i < j
    ensures i / w < j / w || (i / w == j / w && i % w < j % w)
  {
    var qi, qj := i / w, j / w;
    assert i == qi * w + i % w && j == qj * w + j % w;
    MulMonotone(w, qj + 1, qi);
  }

  /** Halving both sides of an even-by-even rectangle quarters its area. */
  lemma QuarterProduct(w: int, h: int)
    requires w % 2 == 0 && h % 2 == 0
    ensures (w / 2) * (h / 2) == (w * h) / 4
  {
    var a, b := w / 2, h / 2;
    assert w == 2 * a && h == 2 * b;
    assert w * h == 4 * (a * b);
    DivModOf(w * h, a * b, 0, 4);
  }

  /** A quotient by a positive number is no larger than the dividend. */
  lemma DivAtMost(x: int, w: int)
    requires 0 < w && 0 <= x
    ensures 0 <= x / w <= x
  {
    var q := x / w;
    assert x == w * q + x % w;
    MulMonotone(w, q, -1);
    assert 0 <= q;
    MulMonotone(q, 1, w);
  }

  /** A quotient by w of a number at least w * h is at least h. */
  lemma DivAtLeast(x: int, w: int, h: int)
    requires 0 < w && w * h <= x
    ensures h <= x / w
  {
    var q := x / w;
    assert x == w * q + x % w;
    MulMonotone(w, q + 1, h);
  }
}
