/**
 * Points and vectors of three real coordinates, and the pointwise
 * arithmetic that the moment computation does on them.
 */
module Vectors {

  datatype Vec = Vec(x: real, y: real, z: real)

  const Zero := Vec(0.0, 0.0, 0.0)

  function Add(a: Vec, b: Vec): Vec {
    Vec(a.x + b.x, a.y + b.y, a.z + b.z)
  }

  /** The displacement `a - b`, coordinate by coordinate. */
  function Sub(a: Vec, b: Vec): Vec {
    Vec(a.x - b.x, a.y - b.y, a.z - b.z)
  }

  function Times(a: Vec, k: real): Vec {
    Vec(a.x * k, a.y * k, a.z * k)
  }

  /** Division of every coordinate by the same non-zero real. */
  function Over(a: Vec, k: real): Vec
    requires k != 0.0
  {
    Vec(a.x / k, a.y / k, a.z / k)
  }

  /** `x ** 2 + y ** 2 + z ** 2`. */
  function NormSq(a: Vec): real {
    a.x * a.x + a.y * a.y + a.z * a.z
  }

  /** The squared Euclidean distance between two points. */
  function DistSq(a: Vec, b: Vec): real {
    NormSq(Sub(a, b))
  }

  lemma NormSqNonNegative(a: Vec)
    ensures 0.0 <= NormSq(a)
  {
  }

  lemma TimesZero(k: real)
    ensures Times(Zero, k) == Zero
  {
  }

  /** Dividing by `k` and scaling back by `k` gives the vector back. */
  lemma OverTimes(a: Vec, k: real)
    requires k != 0.0
    ensures Times(Over(a, k), k) == a
  {
  }

  lemma DistSqSelf(a: Vec)
    ensures DistSq(a, a) == 0.0
  {
    assert Sub(a, a) == Zero;
  }

  lemma DistSqSymmetric(a: Vec, b: Vec)
    ensures DistSq(a, b) == DistSq(b, a)
  {
    var d, e := Sub(a, b), Sub(b, a);
    assert e.x == -d.x && e.y == -d.y && e.z == -d.z;
    assert e.x * e.x == d.x * d.x;
    assert e.y * e.y == d.y * d.y;
    assert e.z * e.z == d.z * d.z;
  }

  /** `sqrt` gives the non-negative square root of `x`. */
  ghost predicate SqrtAt(sqrt: real -> real, x: real) {
    0.0 <= sqrt(x) && sqrt(x) * sqrt(x) == x
  }

  lemma SquareMono(p: int, q: int)
    requires 0 <= p <= q
    ensures p * p <= q * q
  {
  }

  lemma RealSquareMono(p: real, q: real)
    requires 0.0 <= p <= q
    ensures p * p <= q * q
  {
    assert p * p <= p * q;
  }

  lemma RealSquareStrict(p: real, q: real)
    requires 0.0 <= p < q
    ensures p * p < q * q
  {
    calc {
      p * p;
      <= p * q;
      < q * q;
    }
  }

  lemma CastSquare(n: int)
    ensures (n * n) as real == (n as real) * (n as real)
  {
  }

  lemma DivSq(x: real, m: real)
    requires 0.0 < m
    ensures (x / m) * (x / m) * (m * m) == x * x
  {
    calc {
      (x / m) * (x / m) * (m * m);
      == ((x / m) * m) * ((x / m) * m);
      == x * x;
    }
  }

  lemma Cancel(s: real, m: real)
    requires 0.0 < m && s * (m * m) == m * m
    ensures s == 1.0
  {
    assert 0.0 < m * m;
  }

  /** Dividing each coordinate by the norm `m` leaves a vector of norm one. */
  lemma UnitRaw(x: real, y: real, z: real, m: real)
    requires m * m == x * x + y * y + z * z && 0.0 < m
    ensures (x / m) * (x / m) + (y / m) * (y / m) + (z / m) * (z / m) == 1.0
  {
    DivSq(x, m);
    DivSq(y, m);
    DivSq(z, m);
    calc {
      ((x / m) * (x / m) + (y / m) * (y / m) + (z / m) * (z / m)) * (m * m);
      == (x / m) * (x / m) * (m * m) + (y / m) * (y / m) * (m * m) + (z / m) * (z / m) * (m * m);
      == x * x + y * y + z * z;
      == m * m;
    }
    Cancel((x / m) * (x / m) + (y / m) * (y / m) + (z / m) * (z / m), m);
  }

  lemma SumSqPos(x: real, y: real, z: real)
    requires x != 0.0 || y != 0.0 || z != 0.0
    ensures 0.0 < x * x + y * y + z * z
  {
  }

  /** Only the zero vector has norm zero. */
  lemma NormPos(v: Vec)
    requires v != Zero
    ensures 0.0 < NormSq(v)
  {
    calc {
      NormSq(v);
      == v.x * v.x + v.y * v.y + v.z * v.z;
      > { SumSqPos(v.x, v.y, v.z); } 0.0;
    }
  }

  lemma RootPos(m: real, n: real)
    requires 0.0 <= m && m * m == n && 0.0 < n
    ensures 0.0 < m
  {
    if m == 0.0 {
      assert false;
    }
  }

  /** The length of a non-zero vector is non-zero. */
  lemma ModuleNonZero(v: Vec, sqrt: real -> real)
    requires SqrtAt(sqrt, NormSq(v)) && v != Zero
    ensures sqrt(NormSq(v)) != 0.0
  {
    NormPos(v);
    RootPos(sqrt(NormSq(v)), NormSq(v));
  }
}
