/**
 * The numpy operations the face-matching code relies on, over exact reals:
 * dot products, element-wise difference, negation and division, the L2 norm
 * and the column-wise mean of a stack of vectors.
 *
 * The square root that `np.linalg.norm` takes is not computed: every member
 * that needs it receives a function `sqrt` and requires `IsSqrt(sqrt)`, that
 * is, that it is the non-negative square root on the non-negative reals.
 */
module Vectors {

  type Vec = seq<real>

  /**
   * The identity. Squares are written `x * Same(x)` rather than `x * x`:
   * the solver reasons about the former as an ordinary product, while the
   * latter, once it comes out of a function definition, defeats its
   * nonlinear arithmetic.
   */
  function Same(x: real): real { x }

  /**
   * `x` squared. Its facts are lemmas rather than postconditions: a sign
   * fact attached to every square sends the solver's nonlinear arithmetic
   * into long searches in proofs that only need ring identities.
   */
  function Sq(x: real): real {
    x * Same(x)
  }

  /** A square is never negative, and zero only at zero. */
  lemma SqNonNegative(x: real)
    ensures 0.0 <= Sq(x)
    ensures Sq(x) == 0.0 <==> x == 0.0
  {
  }

  /** `sqrt` is the non-negative square root on the non-negative reals. */
  ghost predicate IsSqrt(sqrt: real -> real) {
    forall x {:trigger Sq(sqrt(x))} :: 0.0 <= x ==> 0.0 <= sqrt(x) && Sq(sqrt(x)) == x
  }

  lemma ProductPositive(x: real, y: real)
    requires 0.0 < x && 0.0 < y
    ensures 0.0 < x * y
  {
  }

  lemma ProductNonNegative(x: real, y: real)
    requires 0.0 <= x && 0.0 <= y
    ensures 0.0 <= x * y
  {
  }

  /** `u * s == t` with `s == t != 0` forces `u == 1`. */
  lemma FactorIsOne(u: real, s: real, t: real)
    requires s != 0.0 && u * s == t && s == t
    ensures u == 1.0
  {
    assert (u * s) / s == u;
  }

  /** `u * s == t` with `t < s` and `s` positive forces `u < 1`. */
  lemma FactorBelowOne(u: real, s: real, t: real)
    requires 0.0 < s && u * s == t && t < s
    ensures u < 1.0
  {
  }

  /** Squaring is strictly increasing on the non-negative reals. */
  lemma SqStrictlyIncreasing(a: real, b: real)
    requires 0.0 <= a < b
    ensures Sq(a) < Sq(b)
  {
    assert Sq(b) - Sq(a) == (b - a) * (b + a);
    ProductPositive(b - a, b + a);
  }

  /** Comparing squares of non-negative reals compares the reals. */
  lemma SqLessIff(a: real, b: real)
    requires 0.0 <= a && 0.0 <= b
    ensures Sq(a) < Sq(b) <==> a < b
  {
    if a < b {
      SqStrictlyIncreasing(a, b);
    } else if b < a {
      SqStrictlyIncreasing(b, a);
    }
  }

  /** The square root is zero exactly at zero and positive elsewhere. */
  lemma SqrtZeroIff(sqrt: real -> real, x: real)
    requires IsSqrt(sqrt) && 0.0 <= x
    ensures 0.0 <= sqrt(x)
    ensures sqrt(x) == 0.0 <==> x == 0.0
  {
    assert Sq(sqrt(x)) == x;
  }

  /** The square root of a square of a non-negative real is that real. */
  lemma {:induction false} SqrtOfSq(sqrt: real -> real, a: real)
    requires IsSqrt(sqrt) && 0.0 <= a
    ensures sqrt(Sq(a)) == a
  {
    var s := sqrt(Sq(a));
    assert Sq(s) == Sq(a) && 0.0 <= s;
    SqLessIff(s, a);
    SqLessIff(a, s);
  }

  /** A square root stays below one exactly when its argument does. */
  lemma SqrtBelowOne(sqrt: real -> real, x: real)
    requires IsSqrt(sqrt) && 0.0 <= x
    ensures sqrt(x) < 1.0 <==> x < 1.0
  {
    var s := sqrt(x);
    assert Sq(s) == x && 0.0 <= s;
    assert Sq(1.0) == 1.0;
    SqLessIff(s, 1.0);
  }

  /** Every component is zero. */
  predicate IsZero(v: Vec) {
    forall i :: 0 <= i < |v| ==> v[i] == 0.0
  }

  /** `np.dot(a, b)` on equal-length vectors. */
  function Dot(a: Vec, b: Vec): real
    requires |a| == |b|
  {
    if |a| == 0 then 0.0 else a[0] * b[0] + Dot(a[1..], b[1..])
  }

  /** The sum of the squares of the components. */
  function SumSq(v: Vec): real {
    if |v| == 0 then 0.0 else Sq(v[0]) + SumSq(v[1..])
  }

  /** A sum of squares is never negative. */
  lemma {:induction false} SumSqNonNegative(v: Vec)
    ensures 0.0 <= SumSq(v)
  {
    if |v| > 0 {
      SqNonNegative(v[0]);
      SumSqNonNegative(v[1..]);
    }
  }

  /** `a - b`, element by element. */
  function Sub(a: Vec, b: Vec): (r: Vec)
    requires |a| == |b|
    ensures |r| == |a|
    ensures forall i :: 0 <= i < |a| ==> r[i] == a[i] - b[i]
  {
    seq(|a|, i requires 0 <= i < |a| => a[i] - b[i])
  }

  /** `v / d`, element by element. */
  function DivBy(v: Vec, d: real): (r: Vec)
    requires d != 0.0
    ensures |r| == |v|
    ensures forall i :: 0 <= i < |v| ==> r[i] == v[i] / d
  {
    seq(|v|, i requires 0 <= i < |v| => v[i] / d)
  }

  /** Multiplying `v / d` back by `d` gives `v`. */
  lemma DivByScales(v: Vec, d: real)
    requires d != 0.0
    ensures forall i :: 0 <= i < |v| ==> DivBy(v, d)[i] * d == v[i]
  {
  }

  /** `-v`, element by element. */
  function Neg(v: Vec): (r: Vec)
    ensures |r| == |v|
    ensures forall i :: 0 <= i < |v| ==> r[i] + v[i] == 0.0
  {
    seq(|v|, i requires 0 <= i < |v| => -v[i])
  }

  /** `np.linalg.norm(v)`: the square root of the sum of squares. */
  function Norm(sqrt: real -> real, v: Vec): (r: real)
    requires IsSqrt(sqrt)
    ensures 0.0 <= r
  {
    SumSqNonNegative(v);
    SqrtZeroIff(sqrt, SumSq(v));
    sqrt(SumSq(v))
  }

  /** The norm is zero exactly on the zero vector. */
  lemma NormZeroIff(sqrt: real -> real, v: Vec)
    requires IsSqrt(sqrt)
    ensures Norm(sqrt, v) == 0.0 <==> IsZero(v)
  {
    SumSqNonNegative(v);
    SumSqZero(v);
    SqrtZeroIff(sqrt, SumSq(v));
  }

  /** `np.linalg.norm(a - b)`: the Euclidean distance. */
  function EuclideanDistance(sqrt: real -> real, a: Vec, b: Vec): (r: real)
    requires IsSqrt(sqrt) && |a| == |b|
    ensures 0.0 <= r
  {
    Norm(sqrt, Sub(a, b))
  }

  /** The Euclidean distance is zero exactly between equal vectors. */
  lemma EuclideanDistanceZeroIff(sqrt: real -> real, a: Vec, b: Vec)
    requires IsSqrt(sqrt) && |a| == |b|
    ensures EuclideanDistance(sqrt, a, b) == 0.0 <==> a == b
  {
    NormZeroIff(sqrt, Sub(a, b));
    SubZeroIffEqual(a, b);
  }

  lemma {:induction false} DotSymmetric(a: Vec, b: Vec)
    requires |a| == |b|
    ensures Dot(a, b) == Dot(b, a)
  {
    if |a| > 0 {
      DotSymmetric(a[1..], b[1..]);
    }
  }

  /** The dot product of a vector with itself is its sum of squares. */
  lemma {:induction false} DotSelf(v: Vec)
    ensures Dot(v, v) == SumSq(v)
  {
    if |v| > 0 {
      DotSelf(v[1..]);
    }
  }

  /** The sum of squares vanishes exactly on the zero vector. */
  lemma {:induction false} SumSqZero(v: Vec)
    ensures SumSq(v) == 0.0 <==> IsZero(v)
  {
    if |v| > 0 {
      SqNonNegative(v[0]);
      SumSqNonNegative(v[1..]);
      SumSqZero(v[1..]);
      if IsZero(v) {
        assert IsZero(v[1..]);
      }
      if SumSq(v) == 0.0 {
        forall i | 0 <= i < |v| ensures v[i] == 0.0 {
          if i > 0 { assert v[i] == v[1..][i - 1]; }
        }
      }
    }
  }

  /** A zero vector is orthogonal to everything. */
  lemma {:induction false} DotZeroLeft(a: Vec, b: Vec)
    requires |a| == |b| && IsZero(a)
    ensures Dot(a, b) == 0.0
  {
    if |a| > 0 {
      assert IsZero(a[1..]);
      DotZeroLeft(a[1..], b[1..]);
    }
  }

  /** Dividing a vector by `d` divides its sum of squares by `d * d`. */
  lemma {:induction false} SumSqDivBy(v: Vec, d: real)
    requires d != 0.0
    ensures SumSq(DivBy(v, d)) * Sq(d) == SumSq(v)
  {
    var w, c := DivBy(v, d), Sq(d);
    QuotientSquares(v, d, w, c);
    SumSqScaled(w, v, c);
  }

  /** Each squared component of `v / d`, times `d` squared, is the squared component of `v`. */
  lemma QuotientSquares(v: Vec, d: real, w: Vec, c: real)
    requires d != 0.0 && w == DivBy(v, d) && c == Sq(d)
    ensures |w| == |v|
    ensures forall i :: 0 <= i < |w| ==> Sq(w[i]) * c == Sq(v[i])
  {
    forall i | 0 <= i < |w| ensures Sq(w[i]) * c == Sq(v[i]) {
      SqOfQuotient(v[i], d, w[i]);
    }
  }

  /** Squaring undoes a division once multiplied back by the squared divisor. */
  lemma SqOfQuotient(x: real, d: real, p: real)
    requires d != 0.0 && p == x / d
    ensures Sq(p) * Sq(d) == Sq(x)
  {
    assert p * d == x;
    assert Sq(p) * Sq(d) == Sq(p * d);
  }

  /** Scaling every square by `c` scales the sum of squares by `c`. */
  lemma {:induction false} SumSqScaled(w: Vec, v: Vec, c: real)
    requires |w| == |v| && forall i :: 0 <= i < |w| ==> Sq(w[i]) * c == Sq(v[i])
    ensures SumSq(w) * c == SumSq(v)
  {
    if |w| > 0 {
      SumSqScaled(w[1..], v[1..], c);
    }
  }

  /** Negating one argument negates the dot product. */
  lemma {:induction false} DotNegRight(a: Vec, b: Vec)
    requires |a| == |b|
    ensures Dot(a, Neg(b)) == -Dot(a, b)
  {
    if |a| > 0 {
      assert Neg(b)[1..] == Neg(b[1..]);
      DotNegRight(a[1..], b[1..]);
    }
  }

  /** Negation keeps the sum of squares. */
  lemma {:induction false} SumSqNeg(v: Vec)
    ensures SumSq(Neg(v)) == SumSq(v)
  {
    if |v| > 0 {
      assert Neg(v)[1..] == Neg(v[1..]);
      SumSqNeg(v[1..]);
    }
  }

  /** Dividing commutes with negating. */
  lemma DivByNeg(v: Vec, d: real)
    requires d != 0.0
    ensures DivBy(Neg(v), d) == Neg(DivBy(v, d))
  {
    forall i | 0 <= i < |v| ensures DivBy(Neg(v), d)[i] == Neg(DivBy(v, d))[i] {
      NegQuotient(v[i], d);
    }
  }

  lemma NegQuotient(x: real, d: real)
    requires d != 0.0
    ensures (-x) / d == -(x / d)
  {
    var p := x / d;
    assert p * d == x;
    assert (-p) * d == -x;
  }

  lemma SubZeroIffEqual(a: Vec, b: Vec)
    requires |a| == |b|
    ensures IsZero(Sub(a, b)) <==> a == b
  {
    if IsZero(Sub(a, b)) {
      forall i | 0 <= i < |a| ensures a[i] == b[i] {
        assert Sub(a, b)[i] == 0.0;
      }
    }
  }

  /** The Euclidean distance is symmetric. */
  lemma EuclideanDistanceSymmetric(sqrt: real -> real, a: Vec, b: Vec)
    requires IsSqrt(sqrt) && |a| == |b|
    ensures EuclideanDistance(sqrt, a, b) == EuclideanDistance(sqrt, b, a)
  {
    assert Sub(b, a) == Neg(Sub(a, b));
    SumSqNeg(Sub(a, b));
  }

  /** Dividing a non-zero vector by its own norm gives a unit vector. */
  lemma UnitAfterDivide(sqrt: real -> real, v: Vec)
    requires IsSqrt(sqrt) && !IsZero(v)
    ensures Norm(sqrt, v) > 0.0
    ensures SumSq(DivBy(v, Norm(sqrt, v))) == 1.0
    ensures Norm(sqrt, DivBy(v, Norm(sqrt, v))) == 1.0
  {
    UnitQuotient(sqrt, v, Norm(sqrt, v));
    assert Sq(1.0) == 1.0;
    SqrtOfSq(sqrt, 1.0);
  }

  /** The sum of squares of `v / n`, with `n` the norm of a non-zero `v`, is one. */
  lemma UnitQuotient(sqrt: real -> real, v: Vec, n: real)
    requires IsSqrt(sqrt) && !IsZero(v) && n == Norm(sqrt, v)
    ensures n > 0.0 && SumSq(DivBy(v, n)) == 1.0
  {
    NormZeroIff(sqrt, v);
    SumSqNonNegative(v);
    SumSqDivBy(v, n);
    assert Sq(n) == SumSq(v);
    FactorIsOne(SumSq(DivBy(v, n)), Sq(n), SumSq(v));
  }

  /** Dividing a non-zero vector by more than its norm gives norm below one. */
  lemma ShrinkAfterDivide(sqrt: real -> real, v: Vec, d: real)
    requires IsSqrt(sqrt) && !IsZero(v) && d > Norm(sqrt, v)
    ensures Norm(sqrt, DivBy(v, d)) < 1.0
  {
    var n := Norm(sqrt, v);
    NormZeroIff(sqrt, v);
    SumSqNonNegative(v);
    SumSqNonNegative(DivBy(v, d));
    SumSqDivBy(v, d);
    assert Sq(n) == SumSq(v);
    SqNonNegative(n);
    SqStrictlyIncreasing(n, d);
    FactorBelowOne(SumSq(DivBy(v, d)), Sq(d), SumSq(v));
    SqrtBelowOne(sqrt, SumSq(DivBy(v, d)));
  }

  /** `(a - b)` squared, expanded. */
  lemma SqDiff(a: real, b: real)
    ensures Sq(a - b) == Sq(a) - 2.0 * (a * b) + Sq(b)
  {
    assert (a - b) * (a - b) == a * a - 2.0 * (a * b) + b * b;
  }

  /** The squared distance, expanded: `|u - v|^2 == |u|^2 - 2 u.v + |v|^2`. */
  lemma {:induction false} SumSqSub(u: Vec, v: Vec)
    requires |u| == |v|
    ensures SumSq(Sub(u, v)) == SumSq(u) - 2.0 * Dot(u, v) + SumSq(v)
  {
    if |u| > 0 {
      assert Sub(u, v)[1..] == Sub(u[1..], v[1..]);
      SqDiff(u[0], v[0]);
      SumSqSub(u[1..], v[1..]);
    }
  }

  /** The dot product of two unit vectors lies in [-1, 1]. */
  lemma UnitDotBounds(u: Vec, v: Vec)
    requires |u| == |v| && SumSq(u) == 1.0 && SumSq(v) == 1.0
    ensures -1.0 <= Dot(u, v) <= 1.0
  {
    SumSqSub(u, v);
    SumSqSub(u, Neg(v));
    DotNegRight(u, v);
    SumSqNeg(v);
    SumSqNonNegative(Sub(u, v));
    SumSqNonNegative(Sub(u, Neg(v)));
  }

  /** The dot product of two unit vectors is 1 exactly when they are equal. */
  lemma UnitDotOneIff(u: Vec, v: Vec)
    requires |u| == |v| && SumSq(u) == 1.0 && SumSq(v) == 1.0
    ensures Dot(u, v) == 1.0 <==> u == v
  {
    SumSqSub(u, v);
    SumSqZero(Sub(u, v));
    SubZeroIffEqual(u, v);
  }

  /** Dividing the arguments by `d` and `e` divides the dot product by `c == d * e`. */
  lemma DotOfQuotients(a: Vec, b: Vec, d: real, e: real, u: Vec, v: Vec, c: real)
    requires |a| == |b| && d != 0.0 && e != 0.0 && u == DivBy(a, d) && v == DivBy(b, e) && c == d * e
    ensures |u| == |v| == |a|
    ensures Dot(u, v) * c == Dot(a, b)
  {
    QuotientProducts(a, b, d, e, u, v, c);
    DotScaled(u, v, a, b, c);
  }

  /** Each product of quotients, times `c == d * e`, is the product of the components. */
  lemma QuotientProducts(a: Vec, b: Vec, d: real, e: real, u: Vec, v: Vec, c: real)
    requires |a| == |b| && d != 0.0 && e != 0.0 && u == DivBy(a, d) && v == DivBy(b, e) && c == d * e
    ensures |u| == |v| == |a|
    ensures forall i :: 0 <= i < |u| ==> u[i] * v[i] * c == a[i] * b[i]
  {
    forall i | 0 <= i < |u| ensures u[i] * v[i] * c == a[i] * b[i] {
      ProductOfQuotients(a[i], d, u[i], b[i], e, v[i], c);
    }
  }

  lemma ProductOfQuotients(x: real, d: real, p: real, y: real, e: real, q: real, c: real)
    requires d != 0.0 && e != 0.0 && p == x / d && q == y / e && c == d * e
    ensures p * q * c == x * y
  {
    assert p * d == x;
    assert q * e == y;
    assert p * q * c == (p * d) * (q * e);
  }

  /** Scaling every product by `c` scales the dot product by `c`. */
  lemma {:induction false} DotScaled(u: Vec, v: Vec, a: Vec, b: Vec, c: real)
    requires |u| == |v| == |a| == |b|
    requires forall i :: 0 <= i < |u| ==> u[i] * v[i] * c == a[i] * b[i]
    ensures Dot(u, v) * c == Dot(a, b)
  {
    if |u| > 0 {
      DotScaled(u[1..], v[1..], a[1..], b[1..], c);
    }
  }

  /** A factor `t` in [-1, 1] keeps `x == t * p` within the bounds of a positive `p`. */
  lemma BoundedScale(t: real, p: real, x: real)
    requires 0.0 < p && -1.0 <= t <= 1.0 && x == t * p
    ensures -p <= x <= p
  {
    assert (1.0 - t) * p == p - x;
    assert (t + 1.0) * p == x + p;
    ProductNonNegative(1.0 - t, p);
    ProductNonNegative(t + 1.0, p);
  }

  /**
   * Cauchy-Schwarz: the dot product is bounded by the product of the norms
   * `na` and `nb`.
   */
  lemma CauchySchwarz(sqrt: real -> real, a: Vec, b: Vec, na: real, nb: real)
    requires IsSqrt(sqrt) && |a| == |b| && na == Norm(sqrt, a) && nb == Norm(sqrt, b)
    ensures -(na * nb) <= Dot(a, b) <= na * nb
  {
    NormZeroIff(sqrt, a);
    NormZeroIff(sqrt, b);
    if IsZero(a) {
      DotZeroLeft(a, b);
      assert na * nb == 0.0;
    } else if IsZero(b) {
      DotZeroLeft(b, a);
      DotSymmetric(a, b);
      assert na * nb == 0.0;
    } else {
      var t, _, _ := NormalisedDot(sqrt, a, b);
      ProductPositive(na, nb);
      BoundedScale(t, na * nb, Dot(a, b));
    }
  }

  /**
   * For non-zero vectors, `a . b` is the product of the norms times the
   * dot product `t` of the normalised vectors, which lies in [-1, 1].
   */
  lemma NormalisedDot(sqrt: real -> real, a: Vec, b: Vec) returns (t: real, na: real, nb: real)
    requires IsSqrt(sqrt) && |a| == |b| && !IsZero(a) && !IsZero(b)
    ensures na == Norm(sqrt, a) && nb == Norm(sqrt, b)
    ensures -1.0 <= t <= 1.0 && t * (na * nb) == Dot(a, b)
  {
    na, nb := Norm(sqrt, a), Norm(sqrt, b);
    UnitQuotient(sqrt, a, na);
    UnitQuotient(sqrt, b, nb);
    t := UnitQuotientDot(a, b, na, nb);
  }

  /**
   * When `a / na` and `b / nb` are unit vectors, `a . b` is `na * nb` times
   * their dot product `t`, which lies in [-1, 1].
   */
  lemma UnitQuotientDot(a: Vec, b: Vec, na: real, nb: real) returns (t: real)
    requires |a| == |b| && na > 0.0 && nb > 0.0
    requires SumSq(DivBy(a, na)) == 1.0 && SumSq(DivBy(b, nb)) == 1.0
    ensures -1.0 <= t <= 1.0 && t * (na * nb) == Dot(a, b)
  {
    var u, v := DivBy(a, na), DivBy(b, nb);
    t := Dot(u, v);
    UnitDotBounds(u, v);
    DotOfQuotients(a, b, na, nb, u, v, na * nb);
  }

  /** All vectors have length `d`. */
  predicate Uniform(vs: seq<Vec>, d: nat) {
    forall i :: 0 <= i < |vs| ==> |vs[i]| == d
  }

  /** Sum of column `j` of a stack of vectors. */
  function ColumnSum(vs: seq<Vec>, j: nat): real
    requires forall i :: 0 <= i < |vs| ==> j < |vs[i]|
  {
    if |vs| == 0 then 0.0 else ColumnSum(vs[..|vs| - 1], j) + vs[|vs| - 1][j]
  }

  /** `np.mean(np.vstack(vs), axis=0)` for a non-empty stack of equal-length vectors. */
  function Mean(vs: seq<Vec>): (r: Vec)
    requires |vs| > 0 && Uniform(vs, |vs[0]|)
    ensures |r| == |vs[0]|
  {
    seq(|vs[0]|, j requires 0 <= j < |vs[0]| => ColumnSum(vs, j) / (|vs| as real))
  }

  lemma {:induction false} ColumnSumOfCopies(vs: seq<Vec>, e: Vec, j: nat)
    requires j < |e| && forall i :: 0 <= i < |vs| ==> vs[i] == e
    ensures ColumnSum(vs, j) == (|vs| as real) * e[j]
  {
    if |vs| > 0 {
      ColumnSumOfCopies(vs[..|vs| - 1], e, j);
    }
  }

  /** The mean of copies of one vector is that vector. */
  lemma MeanOfCopies(vs: seq<Vec>, e: Vec)
    requires |vs| > 0 && forall i :: 0 <= i < |vs| ==> vs[i] == e
    ensures Uniform(vs, |e|) && Mean(vs) == e
  {
    forall j | 0 <= j < |e| ensures Mean(vs)[j] == e[j] {
      ColumnSumOfCopies(vs, e, j);
    }
  }

  /**
   * Appending one more vector `x` to a stack leaves the mean unchanged
   * exactly when `x` equals that mean.
   */
  lemma MeanUnchangedIff(vs: seq<Vec>, x: Vec)
    requires |vs| > 0 && Uniform(vs, |vs[0]|) && |x| == |vs[0]|
    ensures Uniform(vs + [x], |vs[0]|)
    ensures Mean(vs + [x]) == Mean(vs) <==> x == Mean(vs)
  {
    var ws := vs + [x];
    var n := |vs| as real;
    assert ws[..|ws| - 1] == vs;
    var m, m' := Mean(vs), Mean(ws);
    forall j | 0 <= j < |x|
      ensures m'[j] * (n + 1.0) == n * m[j] + x[j]
    {
      assert ColumnSum(ws, j) == ColumnSum(vs, j) + x[j];
      assert ColumnSum(vs, j) == m[j] * n;
    }
    if x == m {
      forall j | 0 <= j < |x| ensures m'[j] == m[j] {
        assert m'[j] * (n + 1.0) == m[j] * (n + 1.0);
      }
    }
    if m' == m {
      forall j | 0 <= j < |x| ensures x[j] == m[j] {
        assert m[j] * (n + 1.0) == n * m[j] + x[j];
      }
    }
  }
}
