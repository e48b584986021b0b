/**
 * Integer triples with component-wise arithmetic: the value type behind
 * every hexagonal cell (cube coordinates).
 */
module Vec {

  datatype Vec3 = Vec3(x: int, y: int, z: int)

  const Zero: Vec3 := Vec3(0, 0, 0)

  /** Cube coordinates of a lattice cell sum to zero. */
  predicate ZeroSum(v: Vec3) {
    v.x + v.y + v.z == 0
  }

  function Abs(v: int): nat {
    if v < 0 then -v else v
  }

  /** Component-wise sum. */
  function Add(a: Vec3, b: Vec3): Vec3 {
    Vec3(a.x + b.x, a.y + b.y, a.z + b.z)
  }

  /** Component-wise difference. */
  function Sub(a: Vec3, b: Vec3): Vec3 {
    Vec3(a.x - b.x, a.y - b.y, a.z - b.z)
  }

  /** Scalar multiple `k * v`. */
  function Scale(k: int, v: Vec3): Vec3 {
    Vec3(k * v.x, k * v.y, k * v.z)
  }

  /** Subtraction undoes addition, and a difference is zero exactly for
      equal operands. */
  lemma AddSubInverse(a: Vec3, b: Vec3)
    ensures Sub(Add(a, b), b) == a
    ensures Sub(a, b) == Zero <==> a == b
  {
  }

  /** The lattice is closed under sum, difference and scalar multiples. */
  lemma ZeroSumClosed(a: Vec3, b: Vec3, k: int)
    requires ZeroSum(a) && ZeroSum(b)
    ensures ZeroSum(Add(a, b)) && ZeroSum(Sub(a, b)) && ZeroSum(Scale(k, a))
  {
    assert k * a.x + k * a.y + k * a.z == k * (a.x + a.y + a.z);
  }

  /** One times a vector is the vector; zero times it is the zero vector. */
  lemma ScaleUnitAndZero(v: Vec3)
    ensures Scale(1, v) == v
    ensures Scale(0, v) == Zero
  {
  }

  /** Equality of triples is equality of all three components. */
  lemma EqualIffComponents(a: Vec3, b: Vec3)
    ensures a == b <==> (a.x == b.x && a.y == b.y && a.z == b.z)
  {
  }

  lemma AddCommutes(a: Vec3, b: Vec3)
    ensures Add(a, b) == Add(b, a)
  {
  }

  lemma AddAssociates(a: Vec3, b: Vec3, c: Vec3)
    ensures Add(Add(a, b), c) == Add(a, Add(b, c))
  {
  }
}
