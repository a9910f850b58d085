/**
  Two- and three-component vectors over the reals, standing in for the
  single-precision `Vec2` / `Vec3` of the game's maths library, together with
  the few transcendental operations the simulation needs (square root, sine,
  cosine).  Those cannot be computed over `real`, so they travel as fields of a
  `Math` value whose `Lawful()` predicate states the laws the model relies on.
*/
module Vectors {

  datatype Vec2 = Vec2(x: real, y: real) {
    function Add(o: Vec2): Vec2 { Vec2(x + o.x, y + o.y) }
    function Sub(o: Vec2): Vec2 { Vec2(x - o.x, y - o.y) }
    function Neg(): Vec2 { Vec2(-x, -y) }
    function Scale(s: real): Vec2 { Vec2(x * s, y * s) }
    function Div(s: real): Vec2 requires s != 0.0 { Vec2(x / s, y / s) }
    function Dot(o: Vec2): real { x * o.x + y * o.y }
    function LengthSq(): real { x * x + y * y }
    /** The vector turned a quarter turn anticlockwise: the tangent of a contact normal. */
    function Perp(): Vec2 { Vec2(-y, x) }
    /** Complex multiplication by `r`, the library's `rotate`. */
    function Rotate(r: Vec2): Vec2 { Vec2(r.x * x - r.y * y, r.y * x + r.x * y) }
    function Extend(z: real): Vec3 { Vec3(x, y, z) }
    predicate IsUnit() { LengthSq() == 1.0 }
  }

  datatype Vec3 = Vec3(x: real, y: real, z: real) {
    function Add(o: Vec3): Vec3 { Vec3(x + o.x, y + o.y, z + o.z) }
    function Sub(o: Vec3): Vec3 { Vec3(x - o.x, y - o.y, z - o.z) }
    function Scale(s: real): Vec3 { Vec3(x * s, y * s, z * s) }
    function Div(s: real): Vec3 requires s != 0.0 { Vec3(x / s, y / s, z / s) }
    function Dot(o: Vec3): real { x * o.x + y * o.y + z * o.z }
    function LengthSq(): real { x * x + y * y + z * z }
    function Truncate(): Vec2 { Vec2(x, y) }
    /** The library's `lerp`: `self * (1 - t) + o * t`. */
    function Lerp(o: Vec3, t: real): Vec3 { Scale(1.0 - t).Add(o.Scale(t)) }
  }

  const Zero2: Vec2 := Vec2(0.0, 0.0)
  const Zero3: Vec3 := Vec3(0.0, 0.0, 0.0)

  /**
    The transcendental functions of the maths library.  `Lawful()` is what the
    model assumes of them: `sqrt` is the non-negative square root on
    non-negative arguments, and `(cos a, sin a)` is a unit vector that is
    `(1, 0)` at angle zero.
  */
  datatype Math = Math(sqrt: real -> real, cos: real -> real, sin: real -> real) {

    ghost predicate Lawful() {
      && (forall x: real :: 0.0 <= x ==> 0.0 <= sqrt(x) && sqrt(x) * sqrt(x) == x)
      && (forall a: real :: cos(a) * cos(a) + sin(a) * sin(a) == 1.0)
      && cos(0.0) == 1.0 && sin(0.0) == 0.0
    }

    function Sqrt(x: real): (r: real)
      requires Lawful() && 0.0 <= x
      ensures 0.0 <= r && r * r == x
    {
      sqrt(x)
    }

    /** `|v|`, zero exactly for the zero vector. */
    function Length(v: Vec2): (r: real)
      requires Lawful()
      ensures 0.0 <= r && r * r == v.LengthSq()
      ensures r == 0.0 <==> v == Zero2
    {
      SquaresZero(v.x, v.y);
      var r := Sqrt(v.LengthSq());
      SquareMonotone(r, 0.0);
      r
    }

    function Length3(v: Vec3): (r: real)
      requires Lawful()
      ensures 0.0 <= r && r * r == v.LengthSq()
      ensures r == 0.0 <==> v == Zero3
    {
      SquaresZero3(v.x, v.y, v.z);
      var r := Sqrt(v.LengthSq());
      SquareMonotone(r, 0.0);
      r
    }

    /**
      The library's `normalize`.  For the zero vector the library yields NaN
      components; over the reals the model returns the zero vector there.
    */
    function Normalize(v: Vec2): (u: Vec2)
      requires Lawful()
      ensures v != Zero2 ==> u.IsUnit()
      ensures v == Zero2 ==> u == Zero2
    {
      if v == Zero2 then Zero2
      else
        var len := Length(v);
        ScaleLengthSq(v, 1.0 / len);
        InverseSquare(len, v.LengthSq());
        v.Scale(1.0 / len)
    }

    /** A normalized non-zero vector, scaled back by the length, is the vector itself. */
    lemma NormalizeScale(v: Vec2)
      requires Lawful() && v != Zero2
      ensures Normalize(v).Scale(Length(v)) == v
    {
      var len := Length(v);
      var k := 1.0 / len;
      assert k * len == 1.0;
      assert v.x * k * len == v.x * (k * len);
      assert v.y * k * len == v.y * (k * len);
    }

    /**
      The library's `normalize_or_zero` on three components: the zero vector
      when the reciprocal of the length does not exist.
    */
    function NormalizeOrZero3(v: Vec3): Vec3 {
      var len := sqrt(v.LengthSq());
      if len == 0.0 then Zero3 else v.Scale(1.0 / len)
    }

    lemma NormalizeOrZero3Spec(v: Vec3)
      requires Lawful()
      ensures v != Zero3 ==> NormalizeOrZero3(v).LengthSq() == 1.0
      ensures v == Zero3 ==> NormalizeOrZero3(v) == Zero3
    {
      if v != Zero3 {
        var len := Length3(v);
        ScaleLengthSq3(v, 1.0 / len);
        InverseSquare(len, v.LengthSq());
      }
    }

    /** The library's `from_angle`: the unit vector at angle `a`. */
    function FromAngle(a: real): (u: Vec2)
      requires Lawful()
      ensures u.IsUnit()
      ensures a == 0.0 ==> u == Vec2(1.0, 0.0)
    {
      Vec2(cos(a), sin(a))
    }
  }

  /** `f32::min` of two non-NaN values. */
  function Min(a: real, b: real): real { if a <= b then a else b }

  /** `f32::max` of two non-NaN values. */
  function Max(a: real, b: real): real { if a <= b then b else a }

  //------------------------------------------------------------------
  // Algebra the solver does not find on its own
  //------------------------------------------------------------------

  lemma MulLeft(c: real, a: real, b: real)
    requires 0.0 <= c && a <= b
    ensures c * a <= c * b
  {}

  lemma MulLeftStrict(c: real, a: real, b: real)
    requires 0.0 < c && a < b
    ensures c * a < c * b
  {}

  /** Squaring is strictly increasing on the non-negative reals. */
  function Square(x: real): real { x * x }

  lemma SquareLess(s: real, a: real)
    requires 0.0 <= s < a
    ensures s * s < a * a
  {
    MulLeft(s, s, a);
    MulLeftStrict(a, s, a);
    calc {
      s * s;
    <= s * a;
    == a * s;
    <  a * a;
    }
  }

  /** Among non-negative reals, comparing squares compares the numbers. */
  lemma SquareMonotone(s: real, a: real)
    requires 0.0 <= s && 0.0 <= a
    ensures s * s <= a * a <==> s <= a
    ensures s * s < a * a <==> s < a
    ensures s * s == a * a <==> s == a
  {
    if s < a { SquareLess(s, a); } else if a < s { SquareLess(a, s); }
  }

  lemma SquaresZero(x: real, y: real)
    ensures 0.0 <= x * x && 0.0 <= y * y
    ensures x * x + y * y == 0.0 <==> x == 0.0 && y == 0.0
  {
    if x != 0.0 { if x < 0.0 { SquareLess(0.0, -x); } else { SquareLess(0.0, x); } }
    if y != 0.0 { if y < 0.0 { SquareLess(0.0, -y); } else { SquareLess(0.0, y); } }
  }

  lemma SquaresZero3(x: real, y: real, z: real)
    ensures 0.0 <= x * x + y * y + z * z
    ensures x * x + y * y + z * z == 0.0 <==> x == 0.0 && y == 0.0 && z == 0.0
  {
    SquaresZero(x, y);
    if z != 0.0 { if z < 0.0 { SquareLess(0.0, -z); } else { SquareLess(0.0, z); } }
  }

  lemma ScaleLengthSq(v: Vec2, s: real)
    ensures v.Scale(s).LengthSq() == s * s * v.LengthSq()
  {
    calc {
      v.Scale(s).LengthSq();
    == (v.x * s) * (v.x * s) + (v.y * s) * (v.y * s);
    == s * s * (v.x * v.x) + s * s * (v.y * v.y);
    == s * s * v.LengthSq();
    }
  }

  lemma ScaleLengthSq3(v: Vec3, s: real)
    ensures v.Scale(s).LengthSq() == s * s * v.LengthSq()
  {
    calc {
      v.Scale(s).LengthSq();
    == (v.x * s) * (v.x * s) + (v.y * s) * (v.y * s) + (v.z * s) * (v.z * s);
    == s * s * (v.x * v.x) + s * s * (v.y * v.y) + s * s * (v.z * v.z);
    == s * s * v.LengthSq();
    }
  }

  lemma InverseSquare(len: real, sq: real)
    requires 0.0 < len && len * len == sq
    ensures (1.0 / len) * (1.0 / len) * sq == 1.0
  {
    calc {
      (1.0 / len) * (1.0 / len) * sq;
    == (1.0 / len) * (1.0 / len) * (len * len);
    == ((1.0 / len) * len) * ((1.0 / len) * len);
    == 1.0;
    }
  }

  /** Dividing a non-zero vector by its length gives a unit vector along it. */
  lemma DivByLength(v: Vec2, d: real)
    requires 0.0 < d && d * d == v.LengthSq()
    ensures v.Div(d).IsUnit() && v.Div(d).Scale(d) == v
  {
    assert v.Div(d) == v.Scale(1.0 / d);
    ScaleLengthSq(v, 1.0 / d);
    InverseSquare(d, v.LengthSq());
  }

  /** The dot product is bilinear in its first argument. */
  lemma DotLinear(a: Vec2, b: Vec2, s: real, n: Vec2)
    ensures a.Add(b.Scale(s)).Dot(n) == a.Dot(n) + s * b.Dot(n)
  {}

  lemma DotSub(a: Vec2, b: Vec2, n: Vec2)
    ensures a.Sub(b).Dot(n) == a.Dot(n) - b.Dot(n)
  {}

  /** Rotating by `r` scales the squared length by `|r|²`. */
  lemma RotateLengthSq(v: Vec2, r: Vec2)
    ensures v.Rotate(r).LengthSq() == r.LengthSq() * v.LengthSq()
  {
    calc {
      v.Rotate(r).LengthSq();
    == (r.x * v.x - r.y * v.y) * (r.x * v.x - r.y * v.y) + (r.y * v.x + r.x * v.y) * (r.y * v.x + r.x * v.y);
    == (r.x * r.x + r.y * r.y) * (v.x * v.x + v.y * v.y);
    }
  }

  /** A vector is fixed by its components along a unit vector and its tangent. */
  lemma Decompose(v: Vec2, n: Vec2)
    requires n.IsUnit()
    ensures v == n.Scale(v.Dot(n)).Add(n.Perp().Scale(v.Dot(n.Perp())))
  {
    var a, b := v.Dot(n), v.Dot(n.Perp());
    calc {
      n.x * a + -n.y * b;
    == v.x * (n.x * n.x + n.y * n.y) + v.y * (n.x * n.y - n.y * n.x);
    == v.x;
    }
    calc {
      n.y * a + n.x * b;
    == v.x * (n.y * n.x - n.x * n.y) + v.y * (n.y * n.y + n.x * n.x);
    == v.y;
    }
  }

  /** Two mass-weighted sums agree when they agree component by component. */
  lemma WeightedSumEq(a1: Vec3, a2: Vec3, b1: Vec3, b2: Vec3, m1: real, m2: real)
    requires a1.x * m1 + a2.x * m2 == b1.x * m1 + b2.x * m2
    requires a1.y * m1 + a2.y * m2 == b1.y * m1 + b2.y * m2
    requires a1.z * m1 + a2.z * m2 == b1.z * m1 + b2.z * m2
    ensures a1.Scale(m1).Add(a2.Scale(m2)) == b1.Scale(m1).Add(b2.Scale(m2))
  {
    var l := a1.Scale(m1).Add(a2.Scale(m2));
    var r := b1.Scale(m1).Add(b2.Scale(m2));
    assert l.x == r.x && l.y == r.y && l.z == r.z;
  }

  lemma ScaledEq(u: Vec3, w: Vec3, m1: real, m2: real)
    requires u.x * m1 == w.x * m2 && u.y * m1 == w.y * m2 && u.z * m1 == w.z * m2
    ensures u.Scale(m1) == w.Scale(m2)
  {}

  /** Scaling twice scales by the product. */
  lemma ScaleTwice(v: Vec3, a: real, b: real)
    ensures v.Scale(a).Scale(b) == v.Scale(a * b)
  {
    assert v.x * a * b == v.x * (a * b);
    assert v.y * a * b == v.y * (a * b);
    assert v.z * a * b == v.z * (a * b);
  }

  /** Scaling the `1 / len` multiple of `v` by `s` scales `v` by `s / len`. */
  lemma ScaleByInverse(v: Vec3, len: real, s: real)
    requires 0.0 < len
    ensures v.Scale(1.0 / len).Scale(s) == v.Scale(s / len)
  {
    var k := 1.0 / len;
    assert k * s == s / len;
    assert v.x * k * s == v.x * (s / len);
    assert v.y * k * s == v.y * (s / len);
    assert v.z * k * s == v.z * (s / len);
  }

  /** The normalized non-zero `v` scaled by `s` is `v` scaled by `s / |v|`. */
  lemma NormalizedScale(m: Math, v: Vec3, s: real)
    requires m.Lawful() && v != Zero3
    ensures m.NormalizeOrZero3(v).Scale(s) == v.Scale(s / m.Length3(v))
  {
    ScaleByInverse(v, m.Length3(v), s);
  }

  /** Interpolating at 0 and at 1 gives the two end points. */
  lemma LerpEnds(a: Vec3, b: Vec3)
    ensures a.Lerp(b, 0.0) == a && a.Lerp(b, 1.0) == b
  {}
}
