// Vectors, matrices and quaternions over the reals.
module Kinematics {
  import opened Reals

  const EPSILON: real := 0.000001

  datatype Vector3 = Vector3(x: real, y: real, z: real)

  function Dot(a: Vector3, b: Vector3): real {
    a.x * b.x + a.y * b.y + a.z * b.z
  }

  // By rows.
  datatype Matrix3 = Matrix3(r0: Vector3, r1: Vector3, r2: Vector3) {
    function Column(j: nat): Vector3 {
      if j == 0 then Vector3(r0.x, r1.x, r2.x)
      else if j == 1 then Vector3(r0.y, r1.y, r2.y)
      else Vector3(r0.z, r1.z, r2.z)
    }
  }

  const IDENTITY_MATRIX := Matrix3(Vector3(1.0, 0.0, 0.0), Vector3(0.0, 1.0, 0.0), Vector3(0.0, 0.0, 1.0))

  function MulVector(m: Matrix3, v: Vector3): Vector3 {
    Vector3(Dot(m.r0, v), Dot(m.r1, v), Dot(m.r2, v))
  }

  function MulRow(r: Vector3, b: Matrix3): Vector3 {
    Vector3(Dot(r, b.Column(0)), Dot(r, b.Column(1)), Dot(r, b.Column(2)))
  }

  function MulMatrix(a: Matrix3, b: Matrix3): Matrix3 {
    Matrix3(MulRow(a.r0, b), MulRow(a.r1, b), MulRow(a.r2, b))
  }

  datatype Quaternion = Quaternion(w: real, x: real, y: real, z: real)

  const IDENTITY := Quaternion(1.0, 0.0, 0.0, 0.0)

  function Mul(p: Quaternion, q: Quaternion): Quaternion {
    Quaternion(
      p.w * q.w - p.x * q.x - p.y * q.y - p.z * q.z,
      p.w * q.x + p.x * q.w + p.y * q.z - p.z * q.y,
      p.w * q.y - p.x * q.z + p.y * q.w + p.z * q.x,
      p.w * q.z + p.x * q.y - p.y * q.x + p.z * q.w)
  }

  function Conjugate(q: Quaternion): Quaternion {
    Quaternion(q.w, -q.x, -q.y, -q.z)
  }

  function NormSq(q: Quaternion): real {
    q.w * q.w + q.x * q.x + q.y * q.y + q.z * q.z
  }

  function ToMatrix(q: Quaternion): Matrix3 {
    var xx, yy, zz := q.x * q.x, q.y * q.y, q.z * q.z;
    var xy, xz, yz := q.x * q.y, q.x * q.z, q.y * q.z;
    var wx, wy, wz := q.w * q.x, q.w * q.y, q.w * q.z;
    Matrix3(
      Vector3(1.0 - 2.0 * (yy + zz), 2.0 * (xy - wz), 2.0 * (xz + wy)),
      Vector3(2.0 * (xy + wz), 1.0 - 2.0 * (xx + zz), 2.0 * (yz - wx)),
      Vector3(2.0 * (xz - wy), 2.0 * (yz + wx), 1.0 - 2.0 * (xx + yy)))
  }

  function RotateVector(q: Quaternion, v: Vector3): Vector3 {
    MulVector(ToMatrix(q), v)
  }

  function Inverse(sqrt: real -> real, q: Quaternion): Quaternion {
    var n := sqrt(NormSq(q));
    var nSq := n * n;
    if nSq < EPSILON then IDENTITY
    else
      var c := Conjugate(q);
      Quaternion(c.w / nSq, c.x / nSq, c.y / nSq, c.z / nSq)
  }

  function Normalized(sqrt: real -> real, q: Quaternion): Quaternion {
    var n := sqrt(NormSq(q));
    if n < EPSILON then IDENTITY else Quaternion(q.w / n, q.x / n, q.y / n, q.z / n)
  }

  // ------------------------------------------------- Polynomial identities

  // Products as atoms: hidden where only their sums matter.
  function Prod(a: real, b: real): real {
    a * b
  }

  function Cube(a: real, b: real, c: real): real {
    a * b * c
  }

  lemma CubeIsProd()
    ensures forall a, b, c {:trigger Prod(a, Prod(b, c))} :: Prod(a, Prod(b, c)) == Cube(a, b, c)
    ensures forall a, b, c {:trigger Prod(Prod(a, b), c)} :: Prod(Prod(a, b), c) == Cube(a, b, c)
  {
  }

  // A factor goes into a sum, for the signs of the quaternion product.
  lemma Spread(a: real, b: real, c: real, d: real, k: real)
    ensures Prod(a - b - c - d, k) == Prod(a, k) - Prod(b, k) - Prod(c, k) - Prod(d, k)
    ensures Prod(a + b + c - d, k) == Prod(a, k) + Prod(b, k) + Prod(c, k) - Prod(d, k)
    ensures Prod(a - b + c + d, k) == Prod(a, k) - Prod(b, k) + Prod(c, k) + Prod(d, k)
    ensures Prod(a + b - c + d, k) == Prod(a, k) + Prod(b, k) - Prod(c, k) + Prod(d, k)
  {
  }

  lemma SpreadLeft(k: real, a: real, b: real, c: real, d: real)
    ensures Prod(k, a - b - c - d) == Prod(k, a) - Prod(k, b) - Prod(k, c) - Prod(k, d)
    ensures Prod(k, a + b + c - d) == Prod(k, a) + Prod(k, b) + Prod(k, c) - Prod(k, d)
    ensures Prod(k, a - b + c + d) == Prod(k, a) - Prod(k, b) + Prod(k, c) + Prod(k, d)
    ensures Prod(k, a + b - c + d) == Prod(k, a) + Prod(k, b) - Prod(k, c) + Prod(k, d)
  {
  }

  lemma Parts(p: Quaternion, q: Quaternion)
    ensures var m := Mul(p, q);
      && m.w == Prod(p.w, q.w) - Prod(p.x, q.x) - Prod(p.y, q.y) - Prod(p.z, q.z)
      && m.x == Prod(p.w, q.x) + Prod(p.x, q.w) + Prod(p.y, q.z) - Prod(p.z, q.y)
      && m.y == Prod(p.w, q.y) - Prod(p.x, q.z) + Prod(p.y, q.w) + Prod(p.z, q.x)
      && m.z == Prod(p.w, q.z) + Prod(p.x, q.y) - Prod(p.y, q.x) + Prod(p.z, q.w)
  {
  }

  lemma LeftTimes(p: Quaternion, q: Quaternion, k: real)
    ensures var m := Mul(p, q);
      && Prod(m.w, k) == Cube(p.w, q.w, k) - Cube(p.x, q.x, k) - Cube(p.y, q.y, k) - Cube(p.z, q.z, k)
      && Prod(m.x, k) == Cube(p.w, q.x, k) + Cube(p.x, q.w, k) + Cube(p.y, q.z, k) - Cube(p.z, q.y, k)
      && Prod(m.y, k) == Cube(p.w, q.y, k) - Cube(p.x, q.z, k) + Cube(p.y, q.w, k) + Cube(p.z, q.x, k)
      && Prod(m.z, k) == Cube(p.w, q.z, k) + Cube(p.x, q.y, k) - Cube(p.y, q.x, k) + Cube(p.z, q.w, k)
  {
    hide Mul, Prod, Cube;
    Parts(p, q);
    CubeIsProd();
    Spread(Prod(p.w, q.w), Prod(p.x, q.x), Prod(p.y, q.y), Prod(p.z, q.z), k);
    Spread(Prod(p.w, q.x), Prod(p.x, q.w), Prod(p.y, q.z), Prod(p.z, q.y), k);
    Spread(Prod(p.w, q.y), Prod(p.x, q.z), Prod(p.y, q.w), Prod(p.z, q.x), k);
    Spread(Prod(p.w, q.z), Prod(p.x, q.y), Prod(p.y, q.x), Prod(p.z, q.w), k);
  }

  lemma RightTimes(k: real, p: Quaternion, q: Quaternion)
    ensures var m := Mul(p, q);
      && Prod(k, m.w) == Cube(k, p.w, q.w) - Cube(k, p.x, q.x) - Cube(k, p.y, q.y) - Cube(k, p.z, q.z)
      && Prod(k, m.x) == Cube(k, p.w, q.x) + Cube(k, p.x, q.w) + Cube(k, p.y, q.z) - Cube(k, p.z, q.y)
      && Prod(k, m.y) == Cube(k, p.w, q.y) - Cube(k, p.x, q.z) + Cube(k, p.y, q.w) + Cube(k, p.z, q.x)
      && Prod(k, m.z) == Cube(k, p.w, q.z) + Cube(k, p.x, q.y) - Cube(k, p.y, q.x) + Cube(k, p.z, q.w)
  {
    hide Mul, Prod, Cube;
    Parts(p, q);
    CubeIsProd();
    SpreadLeft(k, Prod(p.w, q.w), Prod(p.x, q.x), Prod(p.y, q.y), Prod(p.z, q.z));
    SpreadLeft(k, Prod(p.w, q.x), Prod(p.x, q.w), Prod(p.y, q.z), Prod(p.z, q.y));
    SpreadLeft(k, Prod(p.w, q.y), Prod(p.x, q.z), Prod(p.y, q.w), Prod(p.z, q.x));
    SpreadLeft(k, Prod(p.w, q.z), Prod(p.x, q.y), Prod(p.y, q.x), Prod(p.z, q.w));
  }

  // The quaternion product is associative.
  lemma MulAssociative(p: Quaternion, q: Quaternion, r: Quaternion)
    ensures Mul(Mul(p, q), r) == Mul(p, Mul(q, r))
  {
    hide Mul, Cube, Prod;
    LeftTimes(p, q, r.w);
    LeftTimes(p, q, r.x);
    LeftTimes(p, q, r.y);
    LeftTimes(p, q, r.z);
    RightTimes(p.w, q, r);
    RightTimes(p.x, q, r);
    RightTimes(p.y, q, r);
    RightTimes(p.z, q, r);
    Parts(Mul(p, q), r);
    Parts(p, Mul(q, r));
  }

  // A real number, and a vector, as quaternions.
  function Real(k: real): Quaternion {
    Quaternion(k, 0.0, 0.0, 0.0)
  }

  function Pure(v: Vector3): Quaternion {
    Quaternion(0.0, v.x, v.y, v.z)
  }

  lemma ProdRules(a: real, b: real)
    ensures Prod(a, b) == Prod(b, a) == Prod(-a, -b)
    ensures Prod(-a, b) == Prod(a, -b) == -Prod(a, b)
    ensures Prod(a, 0.0) == Prod(0.0, a) == 0.0
  {
  }

  lemma ProdsRules(a: real, q: Quaternion)
    ensures Prod(a, q.w) == Prod(q.w, a) && Prod(-a, q.w) == Prod(q.w, -a) == -Prod(a, q.w)
    ensures Prod(a, q.x) == Prod(-q.x, -a) && Prod(a, q.y) == Prod(-q.y, -a) && Prod(a, q.z) == Prod(-q.z, -a)
    ensures Prod(a, -q.x) == -Prod(a, q.x) && Prod(a, -q.y) == -Prod(a, q.y) && Prod(a, -q.z) == -Prod(a, q.z)
    ensures Prod(a, q.x) == -Prod(-q.x, a) && Prod(a, q.y) == -Prod(-q.y, a) && Prod(a, q.z) == -Prod(-q.z, a)
  {
    hide Prod;
    ProdRules(a, q.w);
    ProdRules(a, q.x);
    ProdRules(a, q.y);
    ProdRules(a, q.z);
    ProdRules(q.w, a);
    ProdRules(q.x, a);
    ProdRules(q.y, a);
    ProdRules(q.z, a);
  }

  lemma ConjugateOfProduct(p: Quaternion, q: Quaternion)
    ensures Conjugate(Mul(p, q)) == Mul(Conjugate(q), Conjugate(p))
  {
    hide Mul, Prod;
    Parts(p, q);
    Parts(Conjugate(q), Conjugate(p));
    ProdsRules(p.w, q);
    ProdsRules(p.x, q);
    ProdsRules(p.y, q);
    ProdsRules(p.z, q);
  }

  lemma TimesReal(q: Quaternion, k: real)
    ensures Mul(Real(k), q) == Mul(q, Real(k)) == Quaternion(k * q.w, k * q.x, k * q.y, k * q.z)
  {
  }

  // The product with the conjugate is the squared norm.
  lemma ConjugateCancels(q: Quaternion)
    ensures Mul(q, Conjugate(q)) == Mul(Conjugate(q), q) == Real(NormSq(q))
  {
  }

  // Squared norms multiply, for all quaternions.
  lemma NormOfProduct(p: Quaternion, q: Quaternion)
    ensures NormSq(Mul(p, q)) == NormSq(p) * NormSq(q)
  {
    hide Mul, NormSq, Conjugate;
    var pc, qc, n := Conjugate(p), Conjugate(q), Real(NormSq(q));
    calc {
      Real(NormSq(Mul(p, q)));
      { ConjugateCancels(Mul(p, q)); ConjugateOfProduct(p, q); }
      Mul(Mul(p, q), Mul(qc, pc));
      { Sandwiched(p, q, qc, pc); ConjugateCancels(q); }
      Mul(Mul(p, n), pc);
      { TimesReal(p, NormSq(q)); MulAssociative(n, p, pc); }
      Mul(n, Mul(p, pc));
      { ConjugateCancels(p); TimesReal(Real(NormSq(p)), NormSq(q)); }
      Real(NormSq(q) * NormSq(p));
    }
  }

  lemma Sandwiched(a: Quaternion, b: Quaternion, c: Quaternion, d: Quaternion)
    ensures Mul(Mul(a, b), Mul(c, d)) == Mul(Mul(a, Mul(b, c)), d)
  {
    hide Mul;
    MulAssociative(Mul(a, b), c, d);
    MulAssociative(a, b, c);
  }

  // ------------------------------------------------------------- Rotations

  // q v q*, the textbook rotation.
  function Turn(q: Quaternion, v: Quaternion): Quaternion {
    Mul(Mul(q, v), Conjugate(q))
  }

  lemma CubeRules()
    ensures forall a, v, b {:trigger Cube(a, v, b)} :: Cube(a, v, b) == Cube(b, v, a)
    ensures forall a, b {:trigger Cube(a, 0.0, b)} :: Cube(a, 0.0, b) == 0.0
  {
  }

  // An entry of the rotation matrix, times a number.
  lemma Entry(one: real, k: real, a: real, b: real, c: real, d: real, v: real)
    ensures (one + k * (a * b + c * d)) * v == one * v + k * (Cube(a, v, b) + Cube(c, v, d))
    ensures (one + k * (a * b - c * d)) * v == one * v + k * (Cube(a, v, b) - Cube(c, v, d))
  {
  }

  lemma RotatedX(q: Quaternion, v: Vector3)
    ensures RotateVector(q, v).x ==
            v.x - 2.0 * (Cube(q.y, v.x, q.y) + Cube(q.z, v.x, q.z))
            + 2.0 * (Cube(q.x, v.y, q.y) - Cube(q.w, v.y, q.z))
            + 2.0 * (Cube(q.x, v.z, q.z) + Cube(q.w, v.z, q.y))
  {
    hide Cube;
    Entry(1.0, -2.0, q.y, q.y, q.z, q.z, v.x);
    Entry(0.0, 2.0, q.x, q.y, q.w, q.z, v.y);
    Entry(0.0, 2.0, q.x, q.z, q.w, q.y, v.z);
  }

  lemma RotatedY(q: Quaternion, v: Vector3)
    ensures RotateVector(q, v).y ==
            2.0 * (Cube(q.x, v.x, q.y) + Cube(q.w, v.x, q.z))
            + v.y - 2.0 * (Cube(q.x, v.y, q.x) + Cube(q.z, v.y, q.z))
            + 2.0 * (Cube(q.y, v.z, q.z) - Cube(q.w, v.z, q.x))
  {
    hide Cube;
    Entry(0.0, 2.0, q.x, q.y, q.w, q.z, v.x);
    Entry(1.0, -2.0, q.x, q.x, q.z, q.z, v.y);
    Entry(0.0, 2.0, q.y, q.z, q.w, q.x, v.z);
  }

  lemma RotatedZ(q: Quaternion, v: Vector3)
    ensures RotateVector(q, v).z ==
            2.0 * (Cube(q.x, v.x, q.z) - Cube(q.w, v.x, q.y))
            + 2.0 * (Cube(q.y, v.y, q.z) + Cube(q.w, v.y, q.x))
            + v.z - 2.0 * (Cube(q.x, v.z, q.x) + Cube(q.y, v.z, q.y))
  {
    hide Cube;
    Entry(0.0, 2.0, q.x, q.z, q.w, q.y, v.x);
    Entry(0.0, 2.0, q.y, q.z, q.w, q.x, v.y);
    Entry(1.0, -2.0, q.x, q.x, q.y, q.y, v.z);
  }

  lemma NormTimes(q: Quaternion, k: real)
    ensures NormSq(q) * k == Cube(q.w, k, q.w) + Cube(q.x, k, q.x) + Cube(q.y, k, q.y) + Cube(q.z, k, q.z)
  {
  }

  lemma TurnParts(q: Quaternion, v: Quaternion)
    ensures var m, t := Mul(q, v), Turn(q, v);
      && t.w == Prod(m.w, q.w) + Prod(m.x, q.x) + Prod(m.y, q.y) + Prod(m.z, q.z)
      && t.x == -Prod(m.w, q.x) + Prod(m.x, q.w) - Prod(m.y, q.z) + Prod(m.z, q.y)
      && t.y == -Prod(m.w, q.y) + Prod(m.x, q.z) + Prod(m.y, q.w) - Prod(m.z, q.x)
      && t.z == -Prod(m.w, q.z) - Prod(m.x, q.y) + Prod(m.y, q.x) + Prod(m.z, q.w)
  {
    hide Mul, Prod;
    var m := Mul(q, v);
    Parts(m, Conjugate(q));
    ProdsRules(m.w, q);
    ProdsRules(m.x, q);
    ProdsRules(m.y, q);
    ProdsRules(m.z, q);
  }

  // The matrix form against the textbook rotation: they differ by how far the
  // squared norm is from one.
  lemma TurnIsRotation(q: Quaternion, v: Vector3)
    ensures var r, t, n := RotateVector(q, v), Turn(q, Pure(v)), NormSq(q);
            t == Quaternion(0.0, r.x + (n * v.x - v.x), r.y + (n * v.y - v.y), r.z + (n * v.z - v.z))
  {
    hide Mul, Prod, Cube, NormSq, RotateVector, Turn;
    TurnParts(q, Pure(v));
    LeftTimes(q, Pure(v), q.w);
    LeftTimes(q, Pure(v), q.x);
    LeftTimes(q, Pure(v), q.y);
    LeftTimes(q, Pure(v), q.z);
    CubeRules();
    RotatedX(q, v);
    RotatedY(q, v);
    RotatedZ(q, v);
    NormTimes(q, v.x);
    NormTimes(q, v.y);
    NormTimes(q, v.z);
  }

  lemma TurnKeepsReal(q: Quaternion, v: Quaternion)
    ensures Turn(q, v).w == NormSq(q) * v.w
  {
    hide Mul, Prod, Cube, NormSq, Turn;
    TurnParts(q, v);
    LeftTimes(q, v, q.w);
    LeftTimes(q, v, q.x);
    LeftTimes(q, v, q.y);
    LeftTimes(q, v, q.z);
    CubeRules();
    NormTimes(q, v.w);
  }

  // --------------------------------------------- What unit quaternions do

  lemma UnitTurn(q: Quaternion, v: Vector3)
    requires NormSq(q) == 1.0
    ensures Turn(q, Pure(v)) == Pure(RotateVector(q, v))
  {
    hide RotateVector, Turn, NormSq;
    TurnIsRotation(q, v);
  }

  lemma TurnsCompose(p: Quaternion, q: Quaternion, v: Quaternion)
    ensures Turn(Mul(p, q), v) == Turn(p, Turn(q, v))
  {
    hide Mul, Conjugate;
    var pc, qc := Conjugate(p), Conjugate(q);
    calc {
      Turn(Mul(p, q), v);
      { ConjugateOfProduct(p, q); MulAssociative(p, q, v); }
      Mul(Mul(p, Mul(q, v)), Mul(qc, pc));
      { Sandwiched(p, Mul(q, v), qc, pc); }
      Turn(p, Turn(q, v));
    }
  }

  // Rotating by a product is rotating twice.
  lemma RotationsCompose(p: Quaternion, q: Quaternion, v: Vector3)
    requires NormSq(p) == 1.0 && NormSq(q) == 1.0
    ensures RotateVector(Mul(p, q), v) == RotateVector(p, RotateVector(q, v))
  {
    hide Mul, RotateVector, Turn, NormSq;
    NormOfProduct(p, q);
    UnitTurn(Mul(p, q), v);
    TurnsCompose(p, q, Pure(v));
    UnitTurn(q, v);
    UnitTurn(p, RotateVector(q, v));
  }

  const EX := Vector3(1.0, 0.0, 0.0)
  const EY := Vector3(0.0, 1.0, 0.0)
  const EZ := Vector3(0.0, 0.0, 1.0)

  lemma MatrixByColumns(a: Matrix3, b: Matrix3)
    requires MulVector(a, EX) == MulVector(b, EX)
    requires MulVector(a, EY) == MulVector(b, EY)
    requires MulVector(a, EZ) == MulVector(b, EZ)
    ensures a == b
  {
  }

  lemma Dot3(a: Vector3, k: Vector3, v: Vector3, w: Vector3, u: Vector3)
    ensures Dot(Vector3(Dot(a, v), Dot(a, w), Dot(a, u)), k)
            == Dot(a, Vector3(Dot(Vector3(v.x, w.x, u.x), k),
                              Dot(Vector3(v.y, w.y, u.y), k),
                              Dot(Vector3(v.z, w.z, u.z), k)))
  {
    Spread3(a.x * v.x, a.y * v.y, a.z * v.z, k.x);
    Spread3(a.x * w.x, a.y * w.y, a.z * w.z, k.y);
    Spread3(a.x * u.x, a.y * u.y, a.z * u.z, k.z);
    Spread3(v.x * k.x, w.x * k.y, u.x * k.z, a.x);
    Spread3(v.y * k.x, w.y * k.y, u.y * k.z, a.y);
    Spread3(v.z * k.x, w.z * k.y, u.z * k.z, a.z);
  }

  lemma Spread3(a: real, b: real, c: real, k: real)
    ensures (a + b + c) * k == k * (a + b + c) == a * k + b * k + c * k
  {
  }

  // The matrix product is the composition of the linear maps.
  lemma ProductActs(a: Matrix3, b: Matrix3, v: Vector3)
    ensures MulVector(MulMatrix(a, b), v) == MulVector(a, MulVector(b, v))
  {
    hide Dot;
    Dot3(a.r0, v, b.Column(0), b.Column(1), b.Column(2));
    Dot3(a.r1, v, b.Column(0), b.Column(1), b.Column(2));
    Dot3(a.r2, v, b.Column(0), b.Column(1), b.Column(2));
  }

  // The matrix of a product is the product of the matrices.
  lemma MatrixOfProduct(p: Quaternion, q: Quaternion)
    requires NormSq(p) == 1.0 && NormSq(q) == 1.0
    ensures ToMatrix(Mul(p, q)) == MulMatrix(ToMatrix(p), ToMatrix(q))
  {
    hide Mul, ToMatrix, MulMatrix, NormSq, MulVector;
    var m, n := ToMatrix(Mul(p, q)), MulMatrix(ToMatrix(p), ToMatrix(q));
    forall v: Vector3
      ensures MulVector(m, v) == MulVector(n, v)
    {
      RotationsCompose(p, q, v);
      ProductActs(ToMatrix(p), ToMatrix(q), v);
    }
    MatrixByColumns(m, n);
  }

  // Unit quaternions preserve dot products, hence lengths and angles.
  lemma UnitPreservesDot(q: Quaternion, v: Vector3, w: Vector3)
    requires NormSq(q) == 1.0
    ensures Dot(RotateVector(q, v), RotateVector(q, w)) == Dot(v, w)
  {
    hide Mul, RotateVector, NormSq, Dot, Conjugate, Turn;
    var qc, a, b := Conjugate(q), Pure(v), Pure(w);
    UnitTurn(q, v);
    UnitTurn(q, w);
    PureProduct(v, w);
    PureProduct(RotateVector(q, v), RotateVector(q, w));
    TurnOfProduct(q, a, b);
    TurnKeepsReal(q, Mul(a, b));
  }

  lemma PureProduct(v: Vector3, w: Vector3)
    ensures Mul(Pure(v), Pure(w)).w == -Dot(v, w)
  {
  }

  lemma TurnOfProduct(q: Quaternion, a: Quaternion, b: Quaternion)
    requires NormSq(q) == 1.0
    ensures Mul(Turn(q, a), Turn(q, b)) == Turn(q, Mul(a, b))
  {
    hide Mul, Conjugate, NormSq;
    var qc := Conjugate(q);
    calc {
      Mul(Turn(q, a), Turn(q, b));
      Mul(Mul(Mul(q, a), qc), Mul(Mul(q, b), qc));
      { Sandwiched(Mul(q, a), qc, Mul(q, b), qc); }
      Mul(Mul(Mul(q, a), Mul(qc, Mul(q, b))), qc);
      { MulAssociative(qc, q, b); ConjugateCancels(q); TimesReal(b, 1.0); }
      Mul(Mul(Mul(q, a), b), qc);
      { MulAssociative(q, a, b); }
      Turn(q, Mul(a, b));
    }
  }

  // ------------------------------------------------- Axis and angle

  function Cross(a: Vector3, b: Vector3): Vector3 {
    Vector3(a.y * b.z - a.z * b.y, a.z * b.x - a.x * b.z, a.x * b.y - a.y * b.x)
  }

  function Scaled(k: real, v: Vector3): Vector3 {
    Vector3(k * v.x, k * v.y, k * v.z)
  }

  function Plus(a: Vector3, b: Vector3): Vector3 {
    Vector3(a.x + b.x, a.y + b.y, a.z + b.z)
  }

  function Axis(q: Quaternion): Vector3 {
    Vector3(q.x, q.y, q.z)
  }

  lemma CrossParts(a: Vector3, b: Vector3)
    ensures var t := Cross(a, b);
      && t.x == Prod(a.y, b.z) - Prod(a.z, b.y)
      && t.y == Prod(a.z, b.x) - Prod(a.x, b.z)
      && t.z == Prod(a.x, b.y) - Prod(a.y, b.x)
  {
  }

  lemma ScaledParts(k: real, v: Vector3)
    ensures Scaled(k, v) == Vector3(Prod(k, v.x), Prod(k, v.y), Prod(k, v.z))
  {
  }

  lemma UnitProds()
    ensures Prod(1.0, 1.0) == 1.0 && Prod(1.0, 0.0) == Prod(0.0, 1.0) == Prod(0.0, 0.0) == 0.0
  {
  }

  // A right-handed frame.
  lemma RightHanded()
    ensures Cross(EX, EY) == EZ && Cross(EY, EZ) == EX && Cross(EZ, EX) == EY
  {
    hide Prod, Cross;
    UnitProds();
    CrossParts(EX, EY);
    CrossParts(EY, EZ);
    CrossParts(EZ, EX);
  }

  // The cross product is normal to both factors.
  lemma CrossIsNormal(a: Vector3, b: Vector3)
    ensures Dot(a, Cross(a, b)) == 0.0 && Dot(b, Cross(a, b)) == 0.0
  {
    hide Dot, Cross;
    var t := Cross(a, b);
    DotIs(a, t);
    DotIs(b, t);
    CrossIs(a, b);
    Normal(a.x, a.y, a.z, b.x, b.y, b.z, t.x, t.y, t.z);
  }

  lemma CrossIs(a: Vector3, b: Vector3)
    ensures var t := Cross(a, b);
            t.x == a.y * b.z - a.z * b.y && t.y == a.z * b.x - a.x * b.z && t.z == a.x * b.y - a.y * b.x
  {
  }

  lemma Normal(x: real, y: real, z: real, a: real, b: real, c: real, tx: real, ty: real, tz: real)
    requires tx == y * c - z * b && ty == z * a - x * c && tz == x * b - y * a
    ensures x * tx + y * ty + z * tz == 0.0
    ensures a * tx + b * ty + c * tz == 0.0
  {
  }

  // The product in terms of dot and cross product.
  lemma ProductIs(p: Quaternion, q: Quaternion)
    ensures Mul(p, q).w == p.w * q.w - Dot(Axis(p), Axis(q))
    ensures Axis(Mul(p, q)) ==
            Plus(Plus(Scaled(p.w, Axis(q)), Scaled(q.w, Axis(p))), Cross(Axis(p), Axis(q)))
  {
    hide Mul, Dot, Cross, Scaled;
    RealPart(p, q);
    AxisPart(p, q);
  }

  lemma RealPart(p: Quaternion, q: Quaternion)
    ensures Mul(p, q).w == p.w * q.w - Dot(Axis(p), Axis(q))
  {
  }

  lemma AxisPart(p: Quaternion, q: Quaternion)
    ensures Axis(Mul(p, q)) ==
            Plus(Plus(Scaled(p.w, Axis(q)), Scaled(q.w, Axis(p))), Cross(Axis(p), Axis(q)))
  {
    hide Prod, Mul, Cross, Scaled;
    Parts(p, q);
    CrossParts(Axis(p), Axis(q));
    ScaledParts(p.w, Axis(q));
    ScaledParts(q.w, Axis(p));
    ProdRules(q.w, p.x);
    ProdRules(q.w, p.y);
    ProdRules(q.w, p.z);
  }

  // The rotation in terms of cross products, for every quaternion.
  lemma RotationIs(q: Quaternion, v: Vector3)
    ensures var t := Cross(Axis(q), v);
            RotateVector(q, v) == Plus(Plus(v, Scaled(2.0 * q.w, t)), Scaled(2.0, Cross(Axis(q), t)))
  {
    hide RotateVector, Cross, Scaled, Prod;
    var t := Cross(Axis(q), v);
    CrossParts(Axis(q), t);
    TwiceScaled(q.w, t);
    DoubleIs(Cross(Axis(q), t));
    RotationX(q, v, t);
    RotationY(q, v, t);
    RotationZ(q, v, t);
  }

  lemma TwiceScaled(w: real, t: Vector3)
    ensures Scaled(2.0 * w, t) == Vector3(2.0 * Prod(w, t.x), 2.0 * Prod(w, t.y), 2.0 * Prod(w, t.z))
  {
  }

  lemma DoubleIs(t: Vector3)
    ensures Scaled(2.0, t) == Vector3(2.0 * t.x, 2.0 * t.y, 2.0 * t.z)
  {
  }

  lemma PairTimes(k: real, p: real, a: real, r: real, b: real, t: real)
    requires t == Prod(p, a) - Prod(r, b)
    ensures Prod(k, t) == Cube(k, a, p) - Cube(k, b, r)
  {
  }

  lemma CubeSwap(a: real, v: real, b: real)
    ensures Cube(a, v, b) == Cube(b, v, a)
  {
  }

  lemma RotationX(q: Quaternion, v: Vector3, t: Vector3)
    requires t == Cross(Axis(q), v)
    ensures RotateVector(q, v).x == v.x + 2.0 * Prod(q.w, t.x) + 2.0 * (Prod(q.y, t.z) - Prod(q.z, t.y))
  {
    hide RotateVector, Cross, Prod, Cube;
    RotatedX(q, v);
    CrossParts(Axis(q), v);
    PairTimes(q.w, q.y, v.z, q.z, v.y, t.x);
    PairTimes(q.y, q.x, v.y, q.y, v.x, t.z);
    PairTimes(q.z, q.z, v.x, q.x, v.z, t.y);
    CubeSwap(q.x, v.y, q.y);
    CubeSwap(q.x, v.z, q.z);
  }

  lemma RotationY(q: Quaternion, v: Vector3, t: Vector3)
    requires t == Cross(Axis(q), v)
    ensures RotateVector(q, v).y == v.y + 2.0 * Prod(q.w, t.y) + 2.0 * (Prod(q.z, t.x) - Prod(q.x, t.z))
  {
    hide RotateVector, Cross, Prod, Cube;
    RotatedY(q, v);
    CrossParts(Axis(q), v);
    PairTimes(q.w, q.z, v.x, q.x, v.z, t.y);
    PairTimes(q.z, q.y, v.z, q.z, v.y, t.x);
    PairTimes(q.x, q.x, v.y, q.y, v.x, t.z);
    CubeSwap(q.y, v.z, q.z);
  }

  lemma RotationZ(q: Quaternion, v: Vector3, t: Vector3)
    requires t == Cross(Axis(q), v)
    ensures RotateVector(q, v).z == v.z + 2.0 * Prod(q.w, t.z) + 2.0 * (Prod(q.x, t.y) - Prod(q.y, t.x))
  {
    hide RotateVector, Cross, Prod, Cube;
    RotatedZ(q, v);
    CrossParts(Axis(q), v);
    PairTimes(q.w, q.x, v.y, q.y, v.x, t.z);
    PairTimes(q.x, q.z, v.x, q.x, v.z, t.y);
    PairTimes(q.y, q.y, v.z, q.z, v.y, t.x);
  }

  // ------------------------------------------------------- And only those

  lemma Columns(q: Quaternion)
    ensures RotateVector(q, EX) == ToMatrix(q).Column(0)
    ensures RotateVector(q, EY) == ToMatrix(q).Column(1)
    ensures RotateVector(q, EZ) == ToMatrix(q).Column(2)
  {
    hide ToMatrix;
  }

  // The outer columns and the norm in terms of products.
  lemma Column0Is(q: Quaternion)
    ensures ToMatrix(q).Column(0) == Vector3(1.0 - 2.0 * (Prod(q.y, q.y) + Prod(q.z, q.z)),
                                             2.0 * (Prod(q.x, q.y) + Prod(q.w, q.z)),
                                             2.0 * (Prod(q.x, q.z) - Prod(q.w, q.y)))
  {
  }

  lemma Column2Is(q: Quaternion)
    ensures ToMatrix(q).Column(2) == Vector3(2.0 * (Prod(q.z, q.x) + Prod(q.w, q.y)),
                                             2.0 * (Prod(q.z, q.y) - Prod(q.w, q.x)),
                                             1.0 - 2.0 * (Prod(q.x, q.x) + Prod(q.y, q.y)))
  {
  }

  lemma NormSqIs(q: Quaternion)
    ensures NormSq(q) == Prod(q.w, q.w) + Prod(q.x, q.x) + Prod(q.y, q.y) + Prod(q.z, q.z)
  {
  }

  // Squared length of a column of the rotation matrix, read cyclically.
  lemma ColumnLength(w: real, x: real, y: real, z: real, col: Vector3, excess: real)
    requires col == Vector3(1.0 - 2.0 * (Prod(y, y) + Prod(z, z)), 2.0 * (Prod(x, y) + Prod(w, z)),
                            2.0 * (Prod(x, z) - Prod(w, y)))
    requires excess == Prod(w, w) + Prod(x, x) + Prod(y, y) + Prod(z, z) - 1.0
    ensures Dot(col, col) == 1.0 + 4.0 * Prod(Prod(y, y) + Prod(z, z), excess)
  {
  }

  lemma DotCycles(a: Vector3)
    ensures Dot(a, a) == Dot(Vector3(a.y, a.z, a.x), Vector3(a.y, a.z, a.x))
    ensures Dot(a, a) == Dot(Vector3(a.z, a.x, a.y), Vector3(a.z, a.x, a.y))
  {
  }

  lemma Column0Length(q: Quaternion)
    ensures var c := RotateVector(q, EX);
            Dot(c, c) == 1.0 + 4.0 * Prod(Prod(q.y, q.y) + Prod(q.z, q.z), NormSq(q) - 1.0)
  {
    hide Dot, Prod, RotateVector, ToMatrix, NormSq;
    Columns(q);
    Column0Is(q);
    NormSqIs(q);
    ColumnLength(q.w, q.x, q.y, q.z, ToMatrix(q).Column(0), NormSq(q) - 1.0);
  }

  lemma Column2Length(q: Quaternion)
    ensures var c := RotateVector(q, EZ);
            Dot(c, c) == 1.0 + 4.0 * Prod(Prod(q.x, q.x) + Prod(q.y, q.y), NormSq(q) - 1.0)
  {
    hide Dot, Prod, RotateVector, ToMatrix, NormSq;
    var r := Quaternion(q.w, q.z, q.x, q.y);
    Columns(q);
    Columns(r);
    Relabelled(q);
    Column0Length(r);
    DotCycles(ToMatrix(q).Column(2));
  }

  // Naming the axes differently.
  lemma Relabelled(q: Quaternion)
    ensures var r, c := Quaternion(q.w, q.z, q.x, q.y), ToMatrix(q).Column(2);
            NormSq(r) == NormSq(q) && ToMatrix(r).Column(0) == Vector3(c.z, c.x, c.y)
  {
    hide Prod, ToMatrix, NormSq;
    var r := Quaternion(q.w, q.z, q.x, q.y);
    NormSqIs(q);
    NormSqIs(r);
    Column0Is(r);
    Column2Is(q);
  }

  ghost predicate PreservesDot(q: Quaternion) {
    forall v, w :: Dot(RotateVector(q, v), RotateVector(q, w)) == Dot(v, w)
  }

  // A length that is kept although the squared norm is not one.
  lemma LengthKept(a: real, b: real, excess: real)
    requires 1.0 + 4.0 * Prod(Prod(a, a) + Prod(b, b), excess) == 1.0 && excess != 0.0
    ensures a == b == 0.0
  {
    hide Prod;
    ZeroProduct(Prod(a, a) + Prod(b, b), excess);
    Positive(a);
    Positive(b);
  }

  lemma ZeroProduct(a: real, b: real)
    requires Prod(a, b) == 0.0 && b != 0.0
    ensures a == 0.0
  {
  }

  lemma Positive(a: real)
    ensures Prod(a, a) >= 0.0
    ensures a != 0.0 ==> Prod(a, a) > 0.0
  {
    hide Prod;
    ProdRules(a, a);
    if a > 0.0 {
      ProdPositive(a, a);
    } else if a < 0.0 {
      ProdPositive(-a, -a);
    }
  }

  lemma ProdPositive(a: real, b: real)
    requires a > 0.0 && b > 0.0
    ensures Prod(a, b) > 0.0
  {
    MulStrict(0.0, a, b);
  }

  // The matrix is a rotation for exactly the unit quaternions, and for those
  // without an imaginary part, whose matrix is the identity.
  lemma RotationExactly(q: Quaternion)
    ensures PreservesDot(q) <==> NormSq(q) == 1.0 || (q.x == q.y == q.z == 0.0)
  {
    hide RotateVector, NormSq, Dot, Prod;
    if PreservesDot(q) && NormSq(q) != 1.0 {
      UnitVectors();
      Column0Length(q);
      Column2Length(q);
      assert Dot(RotateVector(q, EX), RotateVector(q, EX)) == Dot(EX, EX);
      assert Dot(RotateVector(q, EZ), RotateVector(q, EZ)) == Dot(EZ, EZ);
      LengthKept(q.y, q.z, NormSq(q) - 1.0);
      LengthKept(q.x, q.y, NormSq(q) - 1.0);
    }
    if q.x == q.y == q.z == 0.0 {
      forall v, w
        ensures Dot(RotateVector(q, v), RotateVector(q, w)) == Dot(v, w)
      {
        RealRotatesNothing(q, v);
        RealRotatesNothing(q, w);
      }
    }
    if NormSq(q) == 1.0 {
      forall v, w
        ensures Dot(RotateVector(q, v), RotateVector(q, w)) == Dot(v, w)
      {
        UnitPreservesDot(q, v, w);
      }
    }
  }

  lemma UnitVectors()
    ensures Dot(EX, EX) == Dot(EZ, EZ) == 1.0
  {
  }

  lemma RealRotatesNothing(q: Quaternion, v: Vector3)
    requires q.x == q.y == q.z == 0.0
    ensures RotateVector(q, v) == v
  {
    assert ToMatrix(q) == IDENTITY_MATRIX;
  }

  // ------------------------------------------------------------- Inverses

  lemma InverseParts(sqrt: real -> real, q: Quaternion)
    requires IsSqrt(sqrt)
    ensures NormSq(q) < EPSILON ==> Inverse(sqrt, q) == IDENTITY
    ensures NormSq(q) >= EPSILON ==> Inverse(sqrt, q) == Mul(Real(1.0 / NormSq(q)), Conjugate(q))
  {
    hide Mul, NormSq;
    NormNonNegative(q);
    var n := NormSq(q);
    assert sqrt(n) * sqrt(n) == n;
    if n >= EPSILON {
      Reciprocal(q.w, n);
      Reciprocal(-q.x, n);
      Reciprocal(-q.y, n);
      Reciprocal(-q.z, n);
      TimesReal(Conjugate(q), 1.0 / n);
    }
  }

  lemma NormNonNegative(q: Quaternion)
    ensures NormSq(q) >= 0.0
  {
    Positive(q.w);
    Positive(q.x);
    Positive(q.y);
    Positive(q.z);
  }

  lemma Reciprocal(a: real, n: real)
    requires n > 0.0
    ensures a / n == 1.0 / n * a
  {
    DivMul(a, n);
    DivMul(1.0, n);
    var x, y := a / n, 1.0 / n * a;
    assert x * n == y * n;
    if x < y {
      MulStrict(x, y, n);
    } else if y < x {
      MulStrict(y, x, n);
    }
  }

  // The inverse is one, on both sides, exactly if the squared norm is not
  // below EPSILON.
  lemma InverseExactly(sqrt: real -> real, q: Quaternion)
    requires IsSqrt(sqrt)
    ensures Mul(q, Inverse(sqrt, q)) == IDENTITY <==> NormSq(q) >= EPSILON
    ensures Mul(Inverse(sqrt, q), q) == IDENTITY <==> NormSq(q) >= EPSILON
  {
    hide IsSqrt, Inverse, Mul, NormSq, Conjugate, Real;
    InverseParts(sqrt, q);
    if NormSq(q) >= EPSILON {
      var n, c, k := NormSq(q), Conjugate(q), Real(1.0 / NormSq(q));
      TimesReal(c, 1.0 / n);
      MulAssociative(q, c, k);
      MulAssociative(k, c, q);
      ConjugateCancels(q);
      Reciprocals(n);
    } else {
      TimesIdentity(q);
      NormOfIdentity();
    }
  }

  lemma Reciprocals(n: real)
    requires n > 0.0
    ensures Mul(Real(1.0 / n), Real(n)) == Mul(Real(n), Real(1.0 / n)) == IDENTITY
  {
    DivMul(1.0, n);
  }

  lemma TimesIdentity(q: Quaternion)
    ensures Mul(q, IDENTITY) == Mul(IDENTITY, q) == q
  {
  }

  lemma NormOfIdentity()
    ensures NormSq(IDENTITY) == 1.0
  {
  }

  lemma NormalizedParts(sqrt: real -> real, q: Quaternion)
    ensures var n := sqrt(NormSq(q));
            Normalized(sqrt, q) == if n < EPSILON then IDENTITY else Mul(Real(1.0 / n), q)
  {
    hide Mul, NormSq;
    var n := sqrt(NormSq(q));
    if n >= EPSILON {
      Reciprocal(q.w, n);
      Reciprocal(q.x, n);
      Reciprocal(q.y, n);
      Reciprocal(q.z, n);
      TimesReal(q, 1.0 / n);
    }
  }

  // Whatever is normalised, the result is a unit quaternion: a rotation.
  lemma NormalizedIsUnit(sqrt: real -> real, q: Quaternion)
    requires IsSqrt(sqrt)
    ensures NormSq(Normalized(sqrt, q)) == 1.0 && PreservesDot(Normalized(sqrt, q))
  {
    hide Mul, NormSq, PreservesDot, Normalized, Real;
    NormalizedParts(sqrt, q);
    NormNonNegative(q);
    var n := sqrt(NormSq(q));
    if n >= EPSILON {
      NormOfProduct(Real(1.0 / n), q);
      NormOfReciprocal(n, NormSq(q));
    } else {
      NormOfIdentity();
    }
    RotationExactly(Normalized(sqrt, q));
  }

  // It points where the given one does, if that has a length to speak of.
  lemma NormalizedIsParallel(sqrt: real -> real, q: Quaternion)
    ensures var n, r := sqrt(NormSq(q)), Normalized(sqrt, q);
            if n < EPSILON then r == IDENTITY
            else r.w * n == q.w && r.x * n == q.x && r.y * n == q.y && r.z * n == q.z
  {
    var n := sqrt(NormSq(q));
    if n >= EPSILON {
      DivMul(q.w, n);
      DivMul(q.x, n);
      DivMul(q.y, n);
      DivMul(q.z, n);
    }
  }

  lemma NormOfReciprocal(n: real, square: real)
    requires n > 0.0 && n * n == square
    ensures NormSq(Real(1.0 / n)) * square == 1.0
  {
    var k := 1.0 / n;
    DivMul(1.0, n);
    assert NormSq(Real(k)) == k * k;
    assert k * k * (n * n) == (k * n) * (k * n);
  }

  // Undoing a rotation: the conjugate of a unit quaternion rotates back.
  lemma RotateBack(q: Quaternion, v: Vector3)
    requires NormSq(q) == 1.0
    ensures RotateVector(Conjugate(q), RotateVector(q, v)) == v
  {
    hide RotateVector, Mul;
    ConjugateCancels(q);
    assert NormSq(Conjugate(q)) == 1.0;
    RotationsCompose(Conjugate(q), q, v);
    RealRotatesNothing(IDENTITY, v);
  }

  // ------------------------------------------------ The product in place

  function Rows(a: array2<real>): Matrix3
    requires a.Length0 == a.Length1 == 3
    reads a
  {
    Matrix3(Vector3(a[0, 0], a[0, 1], a[0, 2]), Vector3(a[1, 0], a[1, 1], a[1, 2]), Vector3(a[2, 0], a[2, 1], a[2, 2]))
  }

  function RowOf(a: array2<real>, i: nat): Vector3
    requires a.Length0 == a.Length1 == 3 && i < 3
    reads a
  {
    Vector3(a[i, 0], a[i, 1], a[i, 2])
  }

  function ColumnOf(a: array2<real>, j: nat): Vector3
    requires a.Length0 == a.Length1 == 3 && j < 3
    reads a
  {
    Vector3(a[0, j], a[1, j], a[2, j])
  }

  lemma DotIs(a: Vector3, b: Vector3)
    ensures Dot(a, b) == a.x * b.x + a.y * b.y + a.z * b.z
  {
  }

  method Multiply(a: array2<real>, b: array2<real>) returns (result: array2<real>)
    requires a.Length0 == a.Length1 == b.Length0 == b.Length1 == 3
    ensures fresh(result) && result.Length0 == result.Length1 == 3
    ensures Rows(result) == MulMatrix(Rows(a), Rows(b))
  {
    hide Dot;
    result := new real[3, 3]((i, j) => 0.0);
    for i := 0 to 3
      invariant forall r, c | 0 <= r < i && 0 <= c < 3 :: result[r, c] == Dot(RowOf(a, r), ColumnOf(b, c))
    {
      for j := 0 to 3
        invariant forall r, c | 0 <= r < i && 0 <= c < 3 :: result[r, c] == Dot(RowOf(a, r), ColumnOf(b, c))
        invariant forall c | 0 <= c < j :: result[i, c] == Dot(RowOf(a, i), ColumnOf(b, c))
      {
        DotIs(RowOf(a, i), ColumnOf(b, j));
        result[i, j] := a[i, 0] * b[0, j] + a[i, 1] * b[1, j] + a[i, 2] * b[2, j];
      }
    }
  }
}
