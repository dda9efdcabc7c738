/** Three-dimensional vectors and the two helpers of Src/utility.h that work on
    a normal: the component-wise equality test and the in-place normalisation.
    Coordinates are exact reals; the double rounding of the source is not modelled. */
module Geometry {

  /** Dimension of every point and normal. */
  const Dim: nat := 3

  /** A point or a normal; `At` and `With` stand for indexing a coordinate. */
  datatype Vec3 = Vec3(x: real, y: real, z: real) {

    function At(i: int): real
      requires 0 <= i < Dim
    {
      if i == 0 then x else if i == 1 then y else z
    }

    function With(i: int, value: real): (v: Vec3)
      requires 0 <= i < Dim
      ensures v.At(i) == value
      ensures forall j :: 0 <= j < Dim && j != i ==> v.At(j) == At(j)
    {
      if i == 0 then this.(x := value) else if i == 1 then this.(y := value) else this.(z := value)
    }
  }

  /** The sentinel (0,0,0): "no normal" / "no vote received". */
  const Zero := Vec3(0.0, 0.0, 0.0)

  function Add(a: Vec3, b: Vec3): Vec3 {
    Vec3(a.x + b.x, a.y + b.y, a.z + b.z)
  }

  function Sub(a: Vec3, b: Vec3): Vec3 {
    Vec3(a.x - b.x, a.y - b.y, a.z - b.z)
  }

  function Scale(v: Vec3, t: real): Vec3 {
    Vec3(t * v.x, t * v.y, t * v.z)
  }

  function Cross(a: Vec3, b: Vec3): Vec3 {
    Vec3(a.y * b.z - a.z * b.y, a.z * b.x - a.x * b.z, a.x * b.y - a.y * b.x)
  }

  function Dot(a: Vec3, b: Vec3): real {
    a.x * b.x + a.y * b.y + a.z * b.z
  }

  /** The cross product is perpendicular to both of its arguments. */
  lemma CrossPerpendicular(a: Vec3, b: Vec3)
    ensures Dot(Cross(a, b), a) == 0.0 && Dot(Cross(a, b), b) == 0.0
  {
  }

  /** The mean of a triangle's three corners. */
  function Centroid(a: Vec3, b: Vec3, c: Vec3): Vec3 {
    Scale(Add(Add(a, b), c), 1.0 / 3.0)
  }

  /** Sum of the squares of the first `i` coordinates. */
  function PartialSquares(v: Vec3, i: nat): real
    requires i <= Dim
  {
    if i == 0 then 0.0 else PartialSquares(v, i - 1) + v.At(i - 1) * v.At(i - 1)
  }

  /** The squared Euclidean length. */
  function SquaredNorm(v: Vec3): real {
    PartialSquares(v, Dim)
  }

  lemma SquaredNormExpanded(v: Vec3)
    ensures SquaredNorm(v) == v.x * v.x + v.y * v.y + v.z * v.z
  {
    assert PartialSquares(v, 1) == v.x * v.x;
    assert PartialSquares(v, 2) == v.x * v.x + v.y * v.y;
  }

  /** A squared length is never negative, and it is zero exactly for the zero
      vector. */
  lemma SquaredNormFacts(v: Vec3)
    ensures SquaredNorm(v) >= 0.0
    ensures v == Zero ==> SquaredNorm(v) == 0.0
    ensures v != Zero ==> SquaredNorm(v) > 0.0
  {
    SquaredNormExpanded(v);
    PartialSquaresFacts(v, Dim);
    if v.x != 0.0 {
      assert v.At(0) != 0.0;
    } else if v.y != 0.0 {
      assert v.At(1) != 0.0;
    } else if v.z != 0.0 {
      assert v.At(2) != 0.0;
    }
  }

  /** A partial sum of squares is never negative, and it is positive as soon as
      one of its coordinates is not zero. */
  lemma {:induction false} PartialSquaresFacts(v: Vec3, i: nat)
    requires i <= Dim
    ensures PartialSquares(v, i) >= 0.0
    ensures (exists j :: 0 <= j < i && v.At(j) != 0.0) ==> PartialSquares(v, i) > 0.0
  {
    if i > 0 {
      PartialSquaresFacts(v, i - 1);
      var r := v.At(i - 1);
      if r != 0.0 {
        SquarePositive(r);
        calc {
          PartialSquares(v, i);
          PartialSquares(v, i - 1) + r * r;
        >
          PartialSquares(v, i - 1);
        >=
          0.0;
        }
      } else {
        calc {
          PartialSquares(v, i);
          PartialSquares(v, i - 1) + r * r;
        ==
          PartialSquares(v, i - 1);
        }
      }
    }
  }

  lemma SquarePositive(r: real)
    requires r != 0.0
    ensures r * r > 0.0
  {
    if r > 0.0 {
      calc { r * r; > 0.0 * r; }
    } else {
      calc { r * r; == (-r) * (-r); > 0.0 * (-r); }
    }
  }

  lemma SquaredNormScale(v: Vec3, t: real)
    ensures SquaredNorm(Scale(v, t)) == t * t * SquaredNorm(v)
  {
    SquaredNormExpanded(v);
    SquaredNormExpanded(Scale(v, t));
    assert (t * v.x) * (t * v.x) == t * t * (v.x * v.x);
    assert (t * v.y) * (t * v.y) == t * t * (v.y * v.y);
    assert (t * v.z) * (t * v.z) == t * t * (v.z * v.z);
  }

  /** The component-wise comparison of two normals (`operator==`): it gives up at
      the first coordinate that differs. */
  method Equals(n1: Vec3, n2: Vec3) returns (eq: bool)
    ensures eq <==> n1 == n2
  {
    for i := 0 to Dim
      invariant forall j :: 0 <= j < i ==> n1.At(j) == n2.At(j)
    {
      if n1.At(i) != n2.At(i) {
        return false;
      }
    }
    assert n1.At(0) == n2.At(0) && n1.At(1) == n2.At(1) && n1.At(2) == n2.At(2);
    return true;
  }

  /** What the platform's square root is taken to do: a positive argument has a
      positive root. */
  ghost predicate PositiveRoot(sqrt: real -> real) {
    forall r: real :: 0.0 < r ==> 0.0 < sqrt(r)
  }

  /** The result of `normalize`: a vector whose squared length is zero is left as
      it is; any other vector is divided by the root of its squared length. */
  function Normalized(v: Vec3, sqrt: real -> real): Vec3
    requires PositiveRoot(sqrt)
  {
    var len := SquaredNorm(v);
    if len == 0.0 then v
    else
      SquaredNormFacts(v);
      Scale(v, 1.0 / sqrt(len))
  }

  /** Normalising keeps the zero vector and never turns another vector into it,
      so "the accumulator was (0,0,0)" can be read off the normalised value. */
  lemma NormalizedZeroIff(v: Vec3, sqrt: real -> real)
    requires PositiveRoot(sqrt)
    ensures Normalized(v, sqrt) == Zero <==> v == Zero
    ensures v == Zero ==> Normalized(v, sqrt) == v
  {
    SquaredNormFacts(v);
    var len := SquaredNorm(v);
    if v != Zero && len != 0.0 {
      var t := 1.0 / sqrt(len);
      assert t > 0.0;
      if v.x != 0.0 {
        assert t * v.x != 0.0;
      } else if v.y != 0.0 {
        assert t * v.y != 0.0;
      } else {
        assert t * v.z != 0.0;
      }
    }
  }

  /** With an exact square root, a vector whose squared length is not zero is
      normalised to length one. */
  lemma NormalizedIsUnit(v: Vec3, sqrt: real -> real)
    requires PositiveRoot(sqrt)
    requires SquaredNorm(v) != 0.0
    requires sqrt(SquaredNorm(v)) * sqrt(SquaredNorm(v)) == SquaredNorm(v)
    ensures SquaredNorm(Normalized(v, sqrt)) == 1.0
  {
    var len := SquaredNorm(v);
    var r := sqrt(len);
    var t := 1.0 / r;
    SquaredNormScale(v, t);
    assert r != 0.0;
    assert t * r == 1.0;
    assert t * t * (r * r) == (t * r) * (t * r);
  }

  /** With an exact square root, every normal that is not (0,0,0) is normalised
      to length one. */
  lemma NonZeroNormalizedIsUnit(v: Vec3, sqrt: real -> real)
    requires PositiveRoot(sqrt)
    requires v != Zero
    requires sqrt(SquaredNorm(v)) * sqrt(SquaredNorm(v)) == SquaredNorm(v)
    ensures SquaredNorm(Normalized(v, sqrt)) == 1.0
  {
    SquaredNormFacts(v);
    NormalizedIsUnit(v, sqrt);
  }

  /** `normalize`: sums the squares coordinate by coordinate and, when the sum is
      not zero, divides every coordinate by its root in place. */
  method Normalize(n: Vec3, sqrt: real -> real) returns (r: Vec3)
    requires PositiveRoot(sqrt)
    ensures r == Normalized(n, sqrt)
  {
    var len := 0.0;
    for i := 0 to Dim
      invariant len == PartialSquares(n, i)
    {
      len := len + n.At(i) * n.At(i);
    }
    r := n;
    if len != 0.0 {
      assert len > 0.0 by {
        SquaredNormFacts(n);
      }
      len := sqrt(len);
      for i := 0 to Dim
        invariant forall j :: 0 <= j < i ==> r.At(j) == n.At(j) / len
        invariant forall j :: i <= j < Dim ==> r.At(j) == n.At(j)
      {
        r := r.With(i, r.At(i) / len);
      }
      assert r.At(0) == n.At(0) / len && r.At(1) == n.At(1) / len && r.At(2) == n.At(2) / len;
    }
  }
}
