/** 3×3 homogeneous matrices over the reals, as the transform pipeline uses
    them (numpy `float32` arrays, idealised here as exact reals).

    Points are taken to be ROW vectors, mapped by `p · M`: the translation
    matrix puts its offset in the bottom row (transform.py:76), which
    translates only a row vector. In an affine matrix the last column is then
    `(0, 0, 1)ᵀ`. */
module Matrix {

  /** A 3×3 matrix stored row by row: row i is `(mi0, mi1, mi2)`. */
  datatype Mat3 = Mat3(m00: real, m01: real, m02: real,
                       m10: real, m11: real, m12: real,
                       m20: real, m21: real, m22: real)

  /** A homogeneous point `(x, y, w)` written as a row vector. */
  datatype Vec3 = Vec3(x: real, y: real, w: real)

  const Identity: Mat3 := Mat3(1.0, 0.0, 0.0,
                               0.0, 1.0, 0.0,
                               0.0, 0.0, 1.0)

  /** Matrix product `a · b` (numpy's `dot` on two 3×3 arrays). */
  function Mul(a: Mat3, b: Mat3): (r: Mat3)
    ensures IsAffine(a) && IsAffine(b) ==> IsAffine(r)
  {
    Mat3(a.m00 * b.m00 + a.m01 * b.m10 + a.m02 * b.m20,
         a.m00 * b.m01 + a.m01 * b.m11 + a.m02 * b.m21,
         a.m00 * b.m02 + a.m01 * b.m12 + a.m02 * b.m22,
         a.m10 * b.m00 + a.m11 * b.m10 + a.m12 * b.m20,
         a.m10 * b.m01 + a.m11 * b.m11 + a.m12 * b.m21,
         a.m10 * b.m02 + a.m11 * b.m12 + a.m12 * b.m22,
         a.m20 * b.m00 + a.m21 * b.m10 + a.m22 * b.m20,
         a.m20 * b.m01 + a.m21 * b.m11 + a.m22 * b.m21,
         a.m20 * b.m02 + a.m21 * b.m12 + a.m22 * b.m22)
  }

  /** The row vector `p · m`. */
  function Apply(p: Vec3, m: Mat3): Vec3
  {
    Vec3(p.x * m.m00 + p.y * m.m10 + p.w * m.m20,
         p.x * m.m01 + p.y * m.m11 + p.w * m.m21,
         p.x * m.m02 + p.y * m.m12 + p.w * m.m22)
  }

  /** Affine shape in the row-vector convention: last column `(0, 0, 1)ᵀ`. */
  predicate IsAffine(m: Mat3)
  {
    m.m02 == 0.0 && m.m12 == 0.0 && m.m22 == 1.0
  }

  /** Squared distance of the point `(x, y)` from the origin. */
  function SquaredLength(p: Vec3): real
  {
    p.x * p.x + p.y * p.y
  }

  function Det(m: Mat3): real
  {
    m.m00 * (m.m11 * m.m22 - m.m12 * m.m21)
    - m.m01 * (m.m10 * m.m22 - m.m12 * m.m20)
    + m.m02 * (m.m10 * m.m21 - m.m11 * m.m20)
  }

  /** An affine matrix keeps points with `w == 1` at `w == 1`. */
  lemma AffineKeepsHomogeneous(p: Vec3, m: Mat3)
    requires IsAffine(m) && p.w == 1.0
    ensures Apply(p, m).w == 1.0
  {
  }

  /** The identity is neutral on both sides of the product. */
  lemma MulIdentity(m: Mat3)
    ensures Mul(m, Identity) == m && Mul(Identity, m) == m
  {
  }

  /** Mapping a point by `a` and then by `b` is mapping it by `a · b`. */
  lemma ApplyMul(p: Vec3, a: Mat3, b: Mat3)
    ensures Apply(Apply(p, a), b) == Apply(p, Mul(a, b))
  {
    RowTimesColumns(p.x, p.y, p.w, a, b.m00, b.m10, b.m20);
    RowTimesColumns(p.x, p.y, p.w, a, b.m01, b.m11, b.m21);
    RowTimesColumns(p.x, p.y, p.w, a, b.m02, b.m12, b.m22);
    var pa, ab := Apply(p, a), Mul(a, b);
    assert pa == Vec3(p.x * a.m00 + p.y * a.m10 + p.w * a.m20,
                      p.x * a.m01 + p.y * a.m11 + p.w * a.m21,
                      p.x * a.m02 + p.y * a.m12 + p.w * a.m22);
    assert Apply(pa, b).x == Apply(p, ab).x;
    assert Apply(pa, b).y == Apply(p, ab).y;
    assert Apply(pa, b).w == Apply(p, ab).w;
  }

  /** `(p · a) · col == p · (a · col)` for one column `col` of the right factor. */
  lemma RowTimesColumns(p0: real, p1: real, p2: real, a: Mat3, c0: real, c1: real, c2: real)
    ensures (p0 * a.m00 + p1 * a.m10 + p2 * a.m20) * c0
          + (p0 * a.m01 + p1 * a.m11 + p2 * a.m21) * c1
          + (p0 * a.m02 + p1 * a.m12 + p2 * a.m22) * c2
         == p0 * (a.m00 * c0 + a.m01 * c1 + a.m02 * c2)
          + p1 * (a.m10 * c0 + a.m11 * c1 + a.m12 * c2)
          + p2 * (a.m20 * c0 + a.m21 * c1 + a.m22 * c2)
  {
  }
}
