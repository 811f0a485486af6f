/** The 2D vector of `GL.Vector`. Components are exact reals; gameling.js's
    in-place mutators (`add`, `scale`, ...) become functions returning the
    updated vector, which is what the mutated receiver holds afterwards. */
module Vectors {
  import opened Maybe

  datatype Vec = Vec(x: real, y: real)

  const Zero := Vec(0.0, 0.0)

  /** `new GL.Vector(x, y)`: an argument that is missing (or falsy) gives 0. */
  function Construct(x: Option<real>, y: Option<real>): (v: Vec)
    ensures x.None? ==> v.x == 0.0
    ensures y.None? ==> v.y == 0.0
    ensures x.Some? ==> v.x == x.value
    ensures y.Some? ==> v.y == y.value
  {
    Vec(x.GetOr(0.0), y.GetOr(0.0))
  }

  /** `clone`: a new vector built from this one's components. */
  function Clone(v: Vec): Vec {
    Construct(Some(v.x), Some(v.y))
  }

  function Add(v: Vec, w: Vec): Vec {
    Vec(v.x + w.x, v.y + w.y)
  }

  function Subtract(v: Vec, w: Vec): Vec {
    Vec(v.x - w.x, v.y - w.y)
  }

  function Scale(v: Vec, s: real): Vec {
    Vec(v.x * s, v.y * s)
  }

  function Dot(v: Vec, w: Vec): real {
    v.x * w.x + v.y * w.y
  }

  /** `reverse` negates in place and returns nothing; here it yields the
      negated receiver. */
  function Reverse(v: Vec): Vec {
    Vec(v.x * -1.0, v.y * -1.0)
  }

  /** `get_raw_length`: the squared Euclidean length. */
  function RawLength(v: Vec): real {
    v.x * v.x + v.y * v.y
  }

  /** `get_difference(w)`: a new vector `this - w`. */
  function Difference(v: Vec, w: Vec): Vec {
    Vec(v.x - w.x, v.y - w.y)
  }

  /** `normalize`, with the length `Math.sqrt(get_raw_length())` supplied by
      the caller as `len`. A zero length leaves the vector untouched. */
  function Normalize(v: Vec, len: real): (r: Vec)
    requires len >= 0.0 && len * len == RawLength(v)
    ensures len == 0.0 ==> r == v
    ensures len > 0.0 <==> v != Zero
    ensures len > 0.0 ==> RawLength(r) == 1.0
  {
    LengthPositive(v, len);
    if len == 0.0 then v
    else
      UnitAfterDivision(v, len);
      Vec(v.x / len, v.y / len)
  }

  /** `rotate` as gameling.js writes it: the new `y` is computed from the
      already rotated `x`. `cos` and `sin` stand for `Math.cos(angle)` and
      `Math.sin(angle)`. */
  function RotateAsWritten(v: Vec, cos: real, sin: real): Vec {
    var x' := v.x * cos - v.y * sin;
    var y' := x' * sin + v.y * cos;
    Vec(x', y')
  }

  /** The rotation the method is evidently meant to perform: both new
      components come from the original ones. */
  function Rotate(v: Vec, cos: real, sin: real): Vec {
    Vec(v.x * cos - v.y * sin, v.x * sin + v.y * cos)
  }

  // ---- helpers for Normalize ----
  // The products are bound to variables before any inequality is drawn from
  // them; the solver does not reliably relate inequalities over real
  // products with the definitions that contain them.

  lemma ProductPositive(p: real, q: real, s: real)
    requires s == p * q
    requires (p > 0.0 && q > 0.0) || (p < 0.0 && q < 0.0)
    ensures s > 0.0
  {
  }

  lemma ProductZero(p: real, q: real)
    requires q != 0.0 && p * q == 0.0
    ensures p == 0.0
  {
  }

  lemma Distribute(p: real, q: real, r: real)
    ensures (p + q) * r == p * r + q * r
  {
  }

  lemma SquareFacts(a: real, s: real)
    requires s == a * a
    ensures s >= 0.0
    ensures a != 0.0 ==> s > 0.0
  {
    if a != 0.0 {
      ProductPositive(a, a, s);
    }
  }

  /** The raw length is positive exactly off the zero vector. */
  lemma RawLengthSign(v: Vec)
    ensures RawLength(v) >= 0.0
    ensures RawLength(v) > 0.0 <==> v != Zero
  {
    var a, b := v.x * v.x, v.y * v.y;
    SquareFacts(v.x, a);
    SquareFacts(v.y, b);
    var s := RawLength(v);
    assert s == a + b;
    assert v == Vec(v.x, v.y);
  }

  lemma LengthPositive(v: Vec, len: real)
    requires len >= 0.0 && len * len == RawLength(v)
    ensures len > 0.0 <==> v != Zero
  {
    RawLengthSign(v);
    var l2 := len * len;
    if len > 0.0 {
      ProductPositive(len, len, l2);
    }
  }

  lemma UnitAfterDivision(v: Vec, len: real)
    requires len > 0.0 && len * len == RawLength(v)
    ensures RawLength(Vec(v.x / len, v.y / len)) == 1.0
  {
    var a, b := v.x / len, v.y / len;
    var l2 := len * len;
    ProductPositive(len, len, l2);
    assert v.x * v.x == (a * a) * l2;
    assert v.y * v.y == (b * b) * l2;
    Distribute(a * a, b * b, l2);
    Distribute(a * a + b * b, -1.0, l2);
    ProductZero(a * a + b * b + -1.0, l2);
  }

  // ---- properties ----

  /** A vector built with no arguments is the zero vector, and `clone`
      copies both components. */
  lemma ConstructDefaults(v: Vec)
    ensures Construct(None, None) == Zero
    ensures Construct(Some(v.x), None) == Vec(v.x, 0.0)
    ensures Clone(v) == v
  {
  }

  /** `subtract` undoes `add`, and `add` undoes `subtract`. */
  lemma AddSubtractInverse(v: Vec, w: Vec)
    ensures Subtract(Add(v, w), w) == v
    ensures Add(Subtract(v, w), w) == v
  {
  }

  /** `add` and `subtract` act on each component separately, and
      `v.clone().add(v reversed)` is the zero vector. */
  lemma AddReverseIsZero(v: Vec)
    ensures Add(v, Reverse(v)) == Zero
    ensures Reverse(Reverse(v)) == v
    ensures Subtract(v, v) == Zero
  {
  }

  /** `get_difference(w)` is `this - w` (not `w - this`), and it is the
      same as adding the reversed `w`. */
  lemma DifferenceIsThisMinusOther(v: Vec, w: Vec)
    ensures Difference(v, w) == Subtract(v, w)
    ensures Difference(v, w) == Add(v, Reverse(w))
    ensures Difference(w, v) == Reverse(Difference(v, w))
  {
  }

  /** `dot` is symmetric and a vector dotted with itself is its raw length. */
  lemma DotProperties(v: Vec, w: Vec)
    ensures Dot(v, w) == Dot(w, v)
    ensures Dot(v, v) == RawLength(v)
  {
  }

  /** `get_raw_length` is never negative and is zero exactly for the zero
      vector; scaling by `s` multiplies it by `s * s`. */
  lemma RawLengthProperties(v: Vec, s: real)
    ensures RawLength(v) >= 0.0
    ensures RawLength(v) > 0.0 <==> v != Zero
    ensures RawLength(Scale(v, s)) == s * s * RawLength(v)
  {
    RawLengthSign(v);
  }

  /** Scaling by 1 changes nothing, scaling by -1 is `reverse`, and scaling
      distributes over `add`. */
  lemma ScaleProperties(v: Vec, w: Vec, s: real)
    ensures Scale(v, 1.0) == v
    ensures Scale(v, -1.0) == Reverse(v)
    ensures Scale(Add(v, w), s) == Add(Scale(v, s), Scale(w, s))
  {
  }

  /** gameling.js's `rotate` is not a rotation: a quarter turn of (1, 0)
      (cos 0, sin 1) gives (0, 0) instead of (0, 1). */
  lemma RotateAsWrittenQuarterTurn()
    ensures RotateAsWritten(Vec(1.0, 0.0), 0.0, 1.0) == Zero
    ensures Rotate(Vec(1.0, 0.0), 0.0, 1.0) == Vec(0.0, 1.0)
    ensures RawLength(RotateAsWritten(Vec(1.0, 0.0), 0.0, 1.0)) != RawLength(Vec(1.0, 0.0))
  {
  }

  /** The corrected rotation keeps the length, and rotating back by the
      opposite angle (same cos, negated sin) restores the vector. */
  lemma RotatePreservesLength(v: Vec, cos: real, sin: real)
    requires cos * cos + sin * sin == 1.0
    ensures RawLength(Rotate(v, cos, sin)) == RawLength(v)
    ensures Rotate(Rotate(v, cos, sin), cos, -sin) == v
    ensures Rotate(v, 1.0, 0.0) == v
  {
    var r := Rotate(v, cos, sin);
    calc {
      RawLength(r);
      (v.x * cos - v.y * sin) * (v.x * cos - v.y * sin) + (v.x * sin + v.y * cos) * (v.x * sin + v.y * cos);
      v.x * v.x * (cos * cos + sin * sin) + v.y * v.y * (cos * cos + sin * sin);
      RawLength(v);
    }
    var b := Rotate(r, cos, -sin);
    calc {
      b.x;
      r.x * cos + r.y * sin;
      (v.x * cos - v.y * sin) * cos + (v.x * sin + v.y * cos) * sin;
      v.x * (cos * cos + sin * sin);
      v.x;
    }
    calc {
      b.y;
      r.x * -sin + r.y * cos;
      -(v.x * cos - v.y * sin) * sin + (v.x * sin + v.y * cos) * cos;
      v.y * (cos * cos + sin * sin);
      v.y;
    }
  }
}
