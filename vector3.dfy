/**
 * src/math/Vector3.cs: an immutable three-dimensional vector of doubles.
 * Every operator builds a new vector; C#'s operators become named member
 * functions (`a + b` is `a.Plus(b)`, `-a` is `a.Negate()`, `a - b` is
 * `a.Minus(b)`, `a * s` is `a.Times(s)`, `s * a` is `ScalarTimes(s, a)`,
 * `a / s` is `a.DividedBy(s)`).
 */
module Vectors {
  import opened Numerics

  datatype Vector3 = Vector3(x: real, y: real, z: real) {

    /** Squared length; `Math.Pow(c, 2)` is the square of c. */
    function LengthSq(): (r: real)
      ensures r >= 0.0
    {
      x * x + y * y + z * z
    }

    /** Length, through the host's square root. */
    function Length(sqrt: real -> real): (r: real)
      ensures SqrtLaw(sqrt) ==> r >= 0.0 && r * r == LengthSq()
    {
      assert SqrtLaw(sqrt) ==> sqrt(LengthSq()) >= 0.0 && sqrt(LengthSq()) * sqrt(LengthSq()) == LengthSq() by {
        if SqrtLaw(sqrt) {
          Root(sqrt, LengthSq());
        }
      }
      sqrt(LengthSq())
    }

    /** Each component divided by the length (the zero vector has length 0, see Div). */
    function Normalized(sqrt: real -> real): Vector3
    {
      Vector3(Div(x, Length(sqrt)), Div(y, Length(sqrt)), Div(z, Length(sqrt)))
    }

    function Dot(w: Vector3): real
    {
      x * w.x + y * w.y + z * w.z
    }

    function Cross(w: Vector3): Vector3
    {
      Vector3(y * w.z - z * w.y, z * w.x - x * w.z, x * w.y - y * w.x)
    }

    /** `this + w` */
    function Plus(w: Vector3): Vector3
    {
      Vector3(x + w.x, y + w.y, z + w.z)
    }

    /** `-this` */
    function Negate(): Vector3
    {
      Vector3(-x, -y, -z)
    }

    /** `this - w` */
    function Minus(w: Vector3): Vector3
    {
      Vector3(x - w.x, y - w.y, z - w.z)
    }

    /** `this * s` */
    function Times(s: real): Vector3
    {
      Vector3(x * s, y * s, z * s)
    }

    /** `this / s` */
    function DividedBy(s: real): Vector3
    {
      Vector3(Div(x, s), Div(y, s), Div(z, s))
    }
  }

  /** `s * v`, the operator with the scalar on the left. */
  function ScalarTimes(s: real, v: Vector3): Vector3
  {
    Vector3(v.x * s, v.y * s, v.z * s)
  }

  const Zero := Vector3(0.0, 0.0, 0.0)

  lemma DotCommutes(a: Vector3, b: Vector3)
    ensures a.Dot(b) == b.Dot(a)
  {
  }

  lemma DotSelfIsLengthSq(v: Vector3)
    ensures v.Dot(v) == v.LengthSq()
  {
  }

  lemma CrossPerpendicular(a: Vector3, b: Vector3)
    ensures a.Dot(a.Cross(b)) == 0.0
    ensures b.Dot(a.Cross(b)) == 0.0
  {
  }

  /** Lagrange's identity: |a x b|^2 = |a|^2 |b|^2 - (a . b)^2. */
  lemma CrossLengthSq(a: Vector3, b: Vector3)
    ensures a.Cross(b).LengthSq() == a.LengthSq() * b.LengthSq() - a.Dot(b) * a.Dot(b)
  {
  }

  /** A vector with a non-zero component has a positive squared length. */
  lemma NonZeroComponent(v: Vector3)
    requires v.x != 0.0 || v.y != 0.0 || v.z != 0.0
    ensures v.LengthSq() > 0.0
  {
    SquaresPositive(v.x, v.y, v.z);
    calc {
      v.LengthSq();
      v.x * v.x + v.y * v.y + v.z * v.z;
    > 0.0;
    }
  }

  lemma SquaresPositive(a: real, b: real, c: real)
    requires a != 0.0 || b != 0.0 || c != 0.0
    ensures a * a + b * b + c * c > 0.0
  {
    SquareNonNegative(a);
    SquareNonNegative(b);
    SquareNonNegative(c);
    if a != 0.0 {
      SquarePositive(a);
    } else if b != 0.0 {
      SquarePositive(b);
    } else {
      SquarePositive(c);
    }
  }

  lemma SquareNonNegative(q: real)
    ensures q * q >= 0.0
  {
    if q < 0.0 {
      assert (-q) * (-q) >= 0.0 * (-q);
    }
  }

  /** Dividing a non-zero vector by a non-zero scalar leaves it non-zero. */
  lemma DividedByNonZero(v: Vector3, s: real)
    requires v.x != 0.0 || v.y != 0.0 || v.z != 0.0
    requires s != 0.0
    ensures v.DividedBy(s).LengthSq() > 0.0
  {
    var q := v.DividedBy(s);
    assert q.x * s == v.x && q.y * s == v.y && q.z * s == v.z;
    NonZeroComponent(q);
  }

  lemma SquarePositive(q: real)
    requires q != 0.0
    ensures q * q > 0.0
  {
    if q > 0.0 {
      assert q * q > 0.0 * q;
    } else {
      assert (-q) * (-q) > 0.0 * (-q);
    }
  }

  lemma CrossAntiCommutes(a: Vector3, b: Vector3)
    ensures a.Cross(b) == b.Cross(a).Negate()
  {
  }

  lemma MinusIsPlusNegate(a: Vector3, b: Vector3)
    ensures a.Minus(b) == a.Plus(b.Negate())
    ensures a.Minus(b).Plus(b) == a
  {
  }

  lemma TimesCommutes(v: Vector3, s: real)
    ensures v.Times(s) == ScalarTimes(s, v)
  {
  }

  lemma DotTimes(v: Vector3, s: real, w: Vector3)
    ensures v.Times(s).Dot(w) == s * v.Dot(w)
    ensures ScalarTimes(s, v).Dot(w) == s * v.Dot(w)
    ensures w.Dot(ScalarTimes(s, v)) == s * w.Dot(v)
  {
  }

  lemma DotPlus(a: Vector3, b: Vector3, c: Vector3)
    ensures a.Plus(b).Dot(c) == a.Dot(c) + b.Dot(c)
    ensures a.Minus(b).Dot(c) == a.Dot(c) - b.Dot(c)
  {
  }

  lemma DividedByIsTimesInverse(v: Vector3, s: real)
    requires s != 0.0
    ensures v.DividedBy(s) == v.Times(1.0 / s)
  {
    assert Div(v.x, s) == v.x * (1.0 / s);
    assert Div(v.y, s) == v.y * (1.0 / s);
    assert Div(v.z, s) == v.z * (1.0 / s);
  }

  /** Normalizing multiplies by the reciprocal of the length (by 0 for the zero vector). */
  lemma NormalizedIsScaled(sqrt: real -> real, v: Vector3)
    ensures v.Normalized(sqrt) == ScalarTimes(Div(1.0, v.Length(sqrt)), v)
  {
    var len := v.Length(sqrt);
    if len != 0.0 {
      assert Div(v.x, len) == v.x * (1.0 / len);
      assert Div(v.y, len) == v.y * (1.0 / len);
      assert Div(v.z, len) == v.z * (1.0 / len);
    }
  }

  /** A non-zero vector normalizes to a unit vector. */
  lemma NormalizedIsUnit(sqrt: real -> real, v: Vector3)
    requires SqrtLaw(sqrt)
    requires v.LengthSq() > 0.0
    ensures v.Normalized(sqrt).LengthSq() == 1.0
  {
    var s := v.LengthSq();
    var len := v.Length(sqrt);
    SqrtPositive(sqrt, s);
    assert len * len == s;
    var n := v.Normalized(sqrt);
    QuotientSquared(v.x, len);
    QuotientSquared(v.y, len);
    QuotientSquared(v.z, len);
    calc {
      n.LengthSq() * s;
      (n.x * n.x + n.y * n.y + n.z * n.z) * (len * len);
      n.x * n.x * (len * len) + n.y * n.y * (len * len) + n.z * n.z * (len * len);
      v.x * v.x + v.y * v.y + v.z * v.z;
      s;
    }
    UnitFactor(n.LengthSq(), s);
  }

  lemma QuotientSquared(a: real, len: real)
    requires len != 0.0
    ensures Div(a, len) * Div(a, len) * (len * len) == a * a
  {
  }

  lemma UnitFactor(q: real, s: real)
    requires s != 0.0
    requires q * s == s
    ensures q == 1.0
  {
    assert (q - 1.0) * s == 0.0;
  }

  /** Normalizing keeps a vector perpendicular to whatever it was perpendicular to. */
  lemma NormalizedKeepsPerpendicular(sqrt: real -> real, v: Vector3, w: Vector3)
    requires w.Dot(v) == 0.0
    ensures w.Dot(v.Normalized(sqrt)) == 0.0
  {
    NormalizedIsScaled(sqrt, v);
    DotTimes(v, Div(1.0, v.Length(sqrt)), w);
  }
}
