/**
 Head-neutral axes over the reals: quaternion rotation, and the shared neutral frame that the
 head tracker sets.
 */
module NeutralFrame {
  import opened Bytes

  // ----- products of components, over plain numbers ------------------------------------------------

  function MulX(a0: real, a1: real, a2: real, a3: real, b0: real, b1: real, b2: real, b3: real): (r: real) {
    a3 * b0 + a0 * b3 + a1 * b2 - a2 * b1
  }

  function MulY(a0: real, a1: real, a2: real, a3: real, b0: real, b1: real, b2: real, b3: real): (r: real) {
    a3 * b1 - a0 * b2 + a1 * b3 + a2 * b0
  }

  function MulZ(a0: real, a1: real, a2: real, a3: real, b0: real, b1: real, b2: real, b3: real): (r: real) {
    a3 * b2 + a0 * b1 - a1 * b0 + a2 * b3
  }

  function MulW(a0: real, a1: real, a2: real, a3: real, b0: real, b1: real, b2: real, b3: real): (r: real) {
    a3 * b3 - a0 * b0 - a1 * b1 - a2 * b2
  }

  function Dot3(a0: real, a1: real, a2: real, b0: real, b1: real, b2: real): (r: real) {
    a0 * b0 + a1 * b1 + a2 * b2
  }

  function Square4(x: real, y: real, z: real, w: real): (r: real) {
    x * x + y * y + z * z + w * w
  }

  /** Euler's four-square identity. */
  lemma FourSquares(a0: real, a1: real, a2: real, a3: real, b0: real, b1: real, b2: real, b3: real,
                    x: real, y: real, z: real, w: real, n: real, m: real)
    requires x == a3 * b0 + a0 * b3 + a1 * b2 - a2 * b1
    requires y == a3 * b1 - a0 * b2 + a1 * b3 + a2 * b0
    requires z == a3 * b2 + a0 * b1 - a1 * b0 + a2 * b3
    requires w == a3 * b3 - a0 * b0 - a1 * b1 - a2 * b2
    requires n == a0 * a0 + a1 * a1 + a2 * a2 + a3 * a3 && m == b0 * b0 + b1 * b1 + b2 * b2 + b3 * b3
    ensures x * x + y * y + z * z + w * w == n * m
  {
  }

  function Times(n: real, m: real): (r: real) { n * m }

  lemma TimesOne(n: real, m: real)
    ensures Times(1.0, m) == m && Times(n, 1.0) == n
  {
  }

  lemma TimesAdds(a: real, b: real, k: real)
    ensures Times(a + b, k) == Times(a, k) + Times(b, k) && Times(0.0, k) == 0.0 && Times(-0.0, k) == 0.0
  {
  }

  /** The length of a product. */
  lemma ProductLength(a0: real, a1: real, a2: real, a3: real, b0: real, b1: real, b2: real, b3: real,
                      p0: real, p1: real, p2: real, p3: real)
    requires p0 == MulX(a0, a1, a2, a3, b0, b1, b2, b3) && p1 == MulY(a0, a1, a2, a3, b0, b1, b2, b3)
    requires p2 == MulZ(a0, a1, a2, a3, b0, b1, b2, b3) && p3 == MulW(a0, a1, a2, a3, b0, b1, b2, b3)
    ensures Square4(p0, p1, p2, p3) == Times(Square4(a0, a1, a2, a3), Square4(b0, b1, b2, b3))
  {
    FourSquares(a0, a1, a2, a3, b0, b1, b2, b3, p0, p1, p2, p3, Square4(a0, a1, a2, a3), Square4(b0, b1, b2, b3));
  }

  /** One component of (ab)c = a(bc), with p = ab and r = bc. */
  lemma Associates(a0: real, a1: real, a2: real, a3: real, b0: real, b1: real, b2: real, b3: real,
                   c0: real, c1: real, c2: real, c3: real,
                   p0: real, p1: real, p2: real, p3: real, r0: real, r1: real, r2: real, r3: real)
    requires p0 == a3 * b0 + a0 * b3 + a1 * b2 - a2 * b1 && p1 == a3 * b1 - a0 * b2 + a1 * b3 + a2 * b0
    requires p2 == a3 * b2 + a0 * b1 - a1 * b0 + a2 * b3 && p3 == a3 * b3 - a0 * b0 - a1 * b1 - a2 * b2
    requires r0 == b3 * c0 + b0 * c3 + b1 * c2 - b2 * c1 && r1 == b3 * c1 - b0 * c2 + b1 * c3 + b2 * c0
    requires r2 == b3 * c2 + b0 * c1 - b1 * c0 + b2 * c3 && r3 == b3 * c3 - b0 * c0 - b1 * c1 - b2 * c2
    ensures p3 * c0 + p0 * c3 + p1 * c2 - p2 * c1 == a3 * r0 + a0 * r3 + a1 * r2 - a2 * r1
    ensures p3 * c3 - p0 * c0 - p1 * c1 - p2 * c2 == a3 * r3 - a0 * r0 - a1 * r1 - a2 * r2
  {
  }

  /** All four components; y and z are x with the axes rotated. */
  lemma AllAssociate(a0: real, a1: real, a2: real, a3: real, b0: real, b1: real, b2: real, b3: real,
                     c0: real, c1: real, c2: real, c3: real,
                     p0: real, p1: real, p2: real, p3: real, r0: real, r1: real, r2: real, r3: real)
    requires p0 == MulX(a0, a1, a2, a3, b0, b1, b2, b3) && p1 == MulY(a0, a1, a2, a3, b0, b1, b2, b3)
    requires p2 == MulZ(a0, a1, a2, a3, b0, b1, b2, b3) && p3 == MulW(a0, a1, a2, a3, b0, b1, b2, b3)
    requires r0 == MulX(b0, b1, b2, b3, c0, c1, c2, c3) && r1 == MulY(b0, b1, b2, b3, c0, c1, c2, c3)
    requires r2 == MulZ(b0, b1, b2, b3, c0, c1, c2, c3) && r3 == MulW(b0, b1, b2, b3, c0, c1, c2, c3)
    ensures MulX(p0, p1, p2, p3, c0, c1, c2, c3) == MulX(a0, a1, a2, a3, r0, r1, r2, r3)
    ensures MulY(p0, p1, p2, p3, c0, c1, c2, c3) == MulY(a0, a1, a2, a3, r0, r1, r2, r3)
    ensures MulZ(p0, p1, p2, p3, c0, c1, c2, c3) == MulZ(a0, a1, a2, a3, r0, r1, r2, r3)
    ensures MulW(p0, p1, p2, p3, c0, c1, c2, c3) == MulW(a0, a1, a2, a3, r0, r1, r2, r3)
  {
    Associates(a0, a1, a2, a3, b0, b1, b2, b3, c0, c1, c2, c3, p0, p1, p2, p3, r0, r1, r2, r3);
    Associates(a1, a2, a0, a3, b1, b2, b0, b3, c1, c2, c0, c3, p1, p2, p0, p3, r1, r2, r0, r3);
    Associates(a2, a0, a1, a3, b2, b0, b1, b3, c2, c0, c1, c3, p2, p0, p1, p3, r2, r0, r1, r3);
  }

  /** The product is linear in either factor. */
  lemma MulAdds(a0: real, a1: real, a2: real, a3: real, b0: real, b1: real, b2: real, b3: real,
                c0: real, c1: real, c2: real, c3: real, s0: real, s1: real, s2: real, s3: real)
    requires s0 == b0 + c0 && s1 == b1 + c1 && s2 == b2 + c2 && s3 == b3 + c3
    ensures MulX(a0, a1, a2, a3, s0, s1, s2, s3)
         == MulX(a0, a1, a2, a3, b0, b1, b2, b3) + MulX(a0, a1, a2, a3, c0, c1, c2, c3)
    ensures MulY(a0, a1, a2, a3, s0, s1, s2, s3)
         == MulY(a0, a1, a2, a3, b0, b1, b2, b3) + MulY(a0, a1, a2, a3, c0, c1, c2, c3)
    ensures MulZ(a0, a1, a2, a3, s0, s1, s2, s3)
         == MulZ(a0, a1, a2, a3, b0, b1, b2, b3) + MulZ(a0, a1, a2, a3, c0, c1, c2, c3)
    ensures MulW(a0, a1, a2, a3, s0, s1, s2, s3)
         == MulW(a0, a1, a2, a3, b0, b1, b2, b3) + MulW(a0, a1, a2, a3, c0, c1, c2, c3)
    ensures MulX(s0, s1, s2, s3, a0, a1, a2, a3)
         == MulX(b0, b1, b2, b3, a0, a1, a2, a3) + MulX(c0, c1, c2, c3, a0, a1, a2, a3)
    ensures MulY(s0, s1, s2, s3, a0, a1, a2, a3)
         == MulY(b0, b1, b2, b3, a0, a1, a2, a3) + MulY(c0, c1, c2, c3, a0, a1, a2, a3)
    ensures MulZ(s0, s1, s2, s3, a0, a1, a2, a3)
         == MulZ(b0, b1, b2, b3, a0, a1, a2, a3) + MulZ(c0, c1, c2, c3, a0, a1, a2, a3)
    ensures MulW(s0, s1, s2, s3, a0, a1, a2, a3)
         == MulW(b0, b1, b2, b3, a0, a1, a2, a3) + MulW(c0, c1, c2, c3, a0, a1, a2, a3)
  {
  }

  /** The identity quaternion on either side. */
  lemma MulOne(a0: real, a1: real, a2: real, a3: real, e0: real, e1: real, e2: real, e3: real)
    requires e0 == 0.0 && e1 == 0.0 && e2 == 0.0 && e3 == 1.0
    ensures MulX(a0, a1, a2, a3, e0, e1, e2, e3) == a0 && MulX(e0, e1, e2, e3, a0, a1, a2, a3) == a0
    ensures MulY(a0, a1, a2, a3, e0, e1, e2, e3) == a1 && MulY(e0, e1, e2, e3, a0, a1, a2, a3) == a1
    ensures MulZ(a0, a1, a2, a3, e0, e1, e2, e3) == a2 && MulZ(e0, e1, e2, e3, a0, a1, a2, a3) == a2
    ensures MulW(a0, a1, a2, a3, e0, e1, e2, e3) == a3 && MulW(e0, e1, e2, e3, a0, a1, a2, a3) == a3
  {
  }

  /** A quaternion times its conjugate. */
  lemma MulConjugate(q0: real, q1: real, q2: real, q3: real, c0: real, c1: real, c2: real)
    requires c0 == -q0 && c1 == -q1 && c2 == -q2
    ensures MulX(q0, q1, q2, q3, c0, c1, c2, q3) == 0.0 && MulX(c0, c1, c2, q3, q0, q1, q2, q3) == 0.0
    ensures MulY(q0, q1, q2, q3, c0, c1, c2, q3) == 0.0 && MulY(c0, c1, c2, q3, q0, q1, q2, q3) == 0.0
    ensures MulZ(q0, q1, q2, q3, c0, c1, c2, q3) == 0.0 && MulZ(c0, c1, c2, q3, q0, q1, q2, q3) == 0.0
    ensures MulW(q0, q1, q2, q3, c0, c1, c2, q3) == Square4(q0, q1, q2, q3)
    ensures MulW(c0, c1, c2, q3, q0, q1, q2, q3) == Square4(q0, q1, q2, q3)
    ensures Square4(c0, c1, c2, q3) == Square4(q0, q1, q2, q3)
  {
  }

  /** A dot product with one or two sums, and with an axis. */
  lemma DotAdds(a0: real, a1: real, a2: real, b0: real, b1: real, b2: real, s0: real, s1: real, s2: real,
                c0: real, c1: real, c2: real)
    requires s0 == a0 + b0 && s1 == a1 + b1 && s2 == a2 + b2
    ensures Dot3(s0, s1, s2, c0, c1, c2) == Dot3(a0, a1, a2, c0, c1, c2) + Dot3(b0, b1, b2, c0, c1, c2)
    ensures Dot3(s0, s1, s2, s0, s1, s2)
         == Dot3(a0, a1, a2, a0, a1, a2) + 2.0 * Dot3(a0, a1, a2, b0, b1, b2) + Dot3(b0, b1, b2, b0, b1, b2)
  {
  }

  lemma DotAxis(v0: real, v1: real, v2: real, o: real, e: real, f: real)
    requires o == 0.0 && e == 1.0 && f == -1.0
    ensures Dot3(v0, v1, v2, e, o, o) == v0 && Dot3(v0, v1, v2, o, e, o) == v1 && Dot3(v0, v1, v2, o, o, f) == -v2
  {
  }

  /** Flipping one sign on both sides, or padding with a zero scalar. */
  lemma DotFlips(a0: real, a1: real, a2: real, b0: real, b1: real, b2: real, a: real, b: real, k: real)
    requires a == -a2 && b == -b2 && k == 0.0
    ensures Dot3(a0, a1, a, b0, b1, b) == Dot3(a0, a1, a2, b0, b1, b2)
    ensures Square4(a0, a1, a2, k) == Dot3(a0, a1, a2, a0, a1, a2)
  {
  }

  /** q v q* has no scalar part, p being q v. */
  lemma NoScalar(q0: real, q1: real, q2: real, q3: real, v0: real, v1: real, v2: real, k: real,
                 c0: real, c1: real, c2: real, p0: real, p1: real, p2: real, p3: real)
    requires k == 0.0 && c0 == -q0 && c1 == -q1 && c2 == -q2
    requires p0 == q3 * v0 + q0 * k + q1 * v2 - q2 * v1 && p1 == q3 * v1 - q0 * v2 + q1 * k + q2 * v0
    requires p2 == q3 * v2 + q0 * v1 - q1 * v0 + q2 * k && p3 == q3 * k - q0 * v0 - q1 * v1 - q2 * v2
    ensures p3 * q3 - p0 * c0 - p1 * c1 - p2 * c2 == 0.0
  {
  }

  lemma SandwichScalar(q0: real, q1: real, q2: real, q3: real, v0: real, v1: real, v2: real, k: real,
                       c0: real, c1: real, c2: real, p0: real, p1: real, p2: real, p3: real)
    requires k == 0.0 && c0 == -q0 && c1 == -q1 && c2 == -q2
    requires p0 == MulX(q0, q1, q2, q3, v0, v1, v2, k) && p1 == MulY(q0, q1, q2, q3, v0, v1, v2, k)
    requires p2 == MulZ(q0, q1, q2, q3, v0, v1, v2, k) && p3 == MulW(q0, q1, q2, q3, v0, v1, v2, k)
    ensures MulW(p0, p1, p2, p3, c0, c1, c2, q3) == 0.0
  {
    NoScalar(q0, q1, q2, q3, v0, v1, v2, k, c0, c1, c2, p0, p1, p2, p3);
  }

  // ----- vectors and quaternions ----------------------------------------------------------------------

  datatype Vec = Vec(x: real, y: real, z: real)
  datatype Quat = Quat(x: real, y: real, z: real, w: real)

  function Dot(a: Vec, b: Vec): (r: real) { Dot3(a.x, a.y, a.z, b.x, b.y, b.z) }
  function Add(a: Vec, b: Vec): (r: Vec) { Vec(a.x + b.x, a.y + b.y, a.z + b.z) }
  function Sub(a: Vec, b: Vec): (r: Vec) { Vec(a.x - b.x, a.y - b.y, a.z - b.z) }
  function AddQuat(a: Quat, b: Quat): (r: Quat) { Quat(a.x + b.x, a.y + b.y, a.z + b.z, a.w + b.w) }

  const ZERO := Vec(0.0, 0.0, 0.0)
  const X := Vec(1.0, 0.0, 0.0)
  const Y := Vec(0.0, 1.0, 0.0)
  const BACK := Vec(0.0, 0.0, -1.0)
  const IDENTITY := Quat(0.0, 0.0, 0.0, 1.0)

  function NormSquared(q: Quat): (r: real) { Square4(q.x, q.y, q.z, q.w) }

  predicate Unit(q: Quat) { NormSquared(q) == 1.0 }

  /** `quat_conjugate_xyzw`. */
  function Conjugate(q: Quat): (r: Quat) { Quat(-q.x, -q.y, -q.z, q.w) }

  /** `quat_multiply_xyzw`. */
  function Multiply(a: Quat, b: Quat): (r: Quat) {
    Quat(MulX(a.x, a.y, a.z, a.w, b.x, b.y, b.z, b.w), MulY(a.x, a.y, a.z, a.w, b.x, b.y, b.z, b.w),
         MulZ(a.x, a.y, a.z, a.w, b.x, b.y, b.z, b.w), MulW(a.x, a.y, a.z, a.w, b.x, b.y, b.z, b.w))
  }

  function Pure(v: Vec): (q: Quat) { Quat(v.x, v.y, v.z, 0.0) }

  function VectorPart(q: Quat): (v: Vec) { Vec(q.x, q.y, q.z) }

  /** q v q*. */
  function Sandwich(q: Quat, v: Vec): (r: Quat) { Multiply(Multiply(q, Pure(v)), Conjugate(q)) }

  /** `quat_rotate_xyzw`. */
  function Rotate(q: Quat, v: Vec): (r: Vec) { VectorPart(Sandwich(q, v)) }

  lemma MultiplyAssociates(a: Quat, b: Quat, c: Quat)
    ensures Multiply(Multiply(a, b), c) == Multiply(a, Multiply(b, c))
  {
    var p, r := Multiply(a, b), Multiply(b, c);
    AllAssociate(a.x, a.y, a.z, a.w, b.x, b.y, b.z, b.w, c.x, c.y, c.z, c.w, p.x, p.y, p.z, p.w, r.x, r.y, r.z, r.w);
  }

  lemma MultiplyAdds(a: Quat, b: Quat, c: Quat)
    ensures Multiply(a, AddQuat(b, c)) == AddQuat(Multiply(a, b), Multiply(a, c))
    ensures Multiply(AddQuat(b, c), a) == AddQuat(Multiply(b, a), Multiply(c, a))
  {
    var s := AddQuat(b, c);
    MulAdds(a.x, a.y, a.z, a.w, b.x, b.y, b.z, b.w, c.x, c.y, c.z, c.w, s.x, s.y, s.z, s.w);
  }

  lemma IdentityIsNeutral(q: Quat)
    ensures Multiply(q, IDENTITY) == q == Multiply(IDENTITY, q)
  {
    MulOne(q.x, q.y, q.z, q.w, IDENTITY.x, IDENTITY.y, IDENTITY.z, IDENTITY.w);
  }

  lemma ConjugateInverts(q: Quat)
    requires Unit(q)
    ensures Multiply(q, Conjugate(q)) == IDENTITY == Multiply(Conjugate(q), q)
    ensures Unit(Conjugate(q)) && Conjugate(Conjugate(q)) == q
  {
    var c := Conjugate(q);
    MulConjugate(q.x, q.y, q.z, q.w, c.x, c.y, c.z);
  }

  /** A unit factor does not change the length. */
  lemma UnitTimes(a: Quat, b: Quat)
    ensures Unit(a) ==> NormSquared(Multiply(a, b)) == NormSquared(b)
    ensures Unit(b) ==> NormSquared(Multiply(a, b)) == NormSquared(a)
  {
    var p := Multiply(a, b);
    ProductLength(a.x, a.y, a.z, a.w, b.x, b.y, b.z, b.w, p.x, p.y, p.z, p.w);
    TimesOne(NormSquared(a), NormSquared(b));
  }

  lemma SandwichIsPure(q: Quat, v: Vec)
    ensures Pure(Rotate(q, v)) == Sandwich(q, v)
  {
    var u, c, p := Pure(v), Conjugate(q), Multiply(q, Pure(v));
    SandwichScalar(q.x, q.y, q.z, q.w, u.x, u.y, u.z, u.w, c.x, c.y, c.z, p.x, p.y, p.z, p.w);
  }

  lemma PureLength(v: Vec)
    ensures NormSquared(Pure(v)) == Dot(v, v)
  {
    var p := Pure(v);
    DotFlips(v.x, v.y, v.z, v.x, v.y, v.z, -v.z, -v.z, p.w);
  }

  // ----- rotation ---------------------------------------------------------------------------------------

  lemma RotateAdds(q: Quat, v: Vec, w: Vec)
    ensures Rotate(q, Add(v, w)) == Add(Rotate(q, v), Rotate(q, w))
  {
    assert Pure(Add(v, w)) == AddQuat(Pure(v), Pure(w));
    MultiplyAdds(q, Pure(v), Pure(w));
    MultiplyAdds(Conjugate(q), Multiply(q, Pure(v)), Multiply(q, Pure(w)));
  }

  lemma RotateKeepsLength(q: Quat, v: Vec)
    requires Unit(q)
    ensures Dot(Rotate(q, v), Rotate(q, v)) == Dot(v, v)
  {
    ConjugateInverts(q);
    UnitTimes(q, Pure(v));
    UnitTimes(Multiply(q, Pure(v)), Conjugate(q));
    SandwichIsPure(q, v);
    PureLength(v);
    PureLength(Rotate(q, v));
  }

  lemma LengthOfSum(a: Vec, b: Vec)
    ensures Dot(Add(a, b), Add(a, b)) == Dot(a, a) + 2.0 * Dot(a, b) + Dot(b, b)
  {
    var s := Add(a, b);
    DotAdds(a.x, a.y, a.z, b.x, b.y, b.z, s.x, s.y, s.z, s.x, s.y, s.z);
  }

  /** For a unit quaternion, rotation preserves dot products: lengths and angles. */
  lemma RotateKeepsDot(q: Quat, v: Vec, w: Vec)
    requires Unit(q)
    ensures Dot(Rotate(q, v), Rotate(q, w)) == Dot(v, w)
  {
    RotateAdds(q, v, w);
    RotateKeepsLength(q, v);
    RotateKeepsLength(q, w);
    RotateKeepsLength(q, Add(v, w));
    LengthOfSum(v, w);
    LengthOfSum(Rotate(q, v), Rotate(q, w));
  }

  /** The conjugate undoes the rotation. */
  lemma RotateBack(q: Quat, v: Vec)
    requires Unit(q)
    ensures Rotate(q, Rotate(Conjugate(q), v)) == v
  {
    var c, p := Conjugate(q), Pure(v);
    ConjugateInverts(q);
    SandwichIsPure(c, v);
    var s := Multiply(Multiply(c, p), q);
    assert Sandwich(q, Rotate(c, v)) == Multiply(Multiply(q, s), c);
    calc {
      Multiply(q, s);
      { MultiplyAssociates(q, Multiply(c, p), q); }
      Multiply(Multiply(q, Multiply(c, p)), q);
      { MultiplyAssociates(q, c, p); }
      Multiply(Multiply(Multiply(q, c), p), q);
      { IdentityIsNeutral(p); }
      Multiply(p, q);
    }
    calc {
      Multiply(Multiply(p, q), c);
      { MultiplyAssociates(p, q, c); }
      Multiply(p, Multiply(q, c));
      { IdentityIsNeutral(p); }
      p;
    }
  }

  /** The images of the three axes, p being q times the axis. */
  lemma ImageOfX(x: real, y: real, z: real, w: real, e: real, o: real, p0: real, p1: real, p2: real, p3: real)
    requires e == 1.0 && o == 0.0
    requires p0 == MulX(x, y, z, w, e, o, o, o) && p1 == MulY(x, y, z, w, e, o, o, o)
    requires p2 == MulZ(x, y, z, w, e, o, o, o) && p3 == MulW(x, y, z, w, e, o, o, o)
    ensures MulX(p0, p1, p2, p3, -x, -y, -z, w) == w * w + x * x - y * y - z * z
    ensures MulY(p0, p1, p2, p3, -x, -y, -z, w) == 2.0 * (x * y + w * z)
    ensures MulZ(p0, p1, p2, p3, -x, -y, -z, w) == 2.0 * (x * z - w * y)
  {
    assert p0 == w && p1 == z && p2 == -y && p3 == -x;
  }

  lemma ImageOfY(x: real, y: real, z: real, w: real, e: real, o: real, p0: real, p1: real, p2: real, p3: real)
    requires e == 1.0 && o == 0.0
    requires p0 == MulX(x, y, z, w, o, e, o, o) && p1 == MulY(x, y, z, w, o, e, o, o)
    requires p2 == MulZ(x, y, z, w, o, e, o, o) && p3 == MulW(x, y, z, w, o, e, o, o)
    ensures MulX(p0, p1, p2, p3, -x, -y, -z, w) == 2.0 * (x * y - w * z)
    ensures MulY(p0, p1, p2, p3, -x, -y, -z, w) == w * w - x * x + y * y - z * z
    ensures MulZ(p0, p1, p2, p3, -x, -y, -z, w) == 2.0 * (y * z + w * x)
  {
    assert p0 == -z && p1 == w && p2 == x && p3 == -y;
  }

  lemma ImageOfBack(x: real, y: real, z: real, w: real, e: real, o: real, p0: real, p1: real, p2: real, p3: real)
    requires e == -1.0 && o == 0.0
    requires p0 == MulX(x, y, z, w, o, o, e, o) && p1 == MulY(x, y, z, w, o, o, e, o)
    requires p2 == MulZ(x, y, z, w, o, o, e, o) && p3 == MulW(x, y, z, w, o, o, e, o)
    ensures MulX(p0, p1, p2, p3, -x, -y, -z, w) == -2.0 * (x * z + w * y)
    ensures MulY(p0, p1, p2, p3, -x, -y, -z, w) == -2.0 * (y * z - w * x)
    ensures MulZ(p0, p1, p2, p3, -x, -y, -z, w) == -(w * w - x * x - y * y + z * z)
  {
    assert p0 == -y && p1 == x && p2 == -w && p3 == z;
  }

  lemma RotatedX(q: Quat)
    ensures var x, y, z, w := q.x, q.y, q.z, q.w;
            Rotate(q, X) == Vec(w * w + x * x - y * y - z * z, 2.0 * (x * y + w * z), 2.0 * (x * z - w * y))
  {
    var p := Multiply(q, Pure(X));
    ImageOfX(q.x, q.y, q.z, q.w, X.x, X.y, p.x, p.y, p.z, p.w);
  }

  lemma RotatedY(q: Quat)
    ensures var x, y, z, w := q.x, q.y, q.z, q.w;
            Rotate(q, Y) == Vec(2.0 * (x * y - w * z), w * w - x * x + y * y - z * z, 2.0 * (y * z + w * x))
  {
    var p := Multiply(q, Pure(Y));
    ImageOfY(q.x, q.y, q.z, q.w, Y.y, Y.x, p.x, p.y, p.z, p.w);
  }

  lemma RotatedBack(q: Quat)
    ensures var x, y, z, w := q.x, q.y, q.z, q.w;
            Rotate(q, BACK)
            == Vec(-2.0 * (x * z + w * y), -2.0 * (y * z - w * x), -(w * w - x * x - y * y + z * z))
  {
    var p := Multiply(q, Pure(BACK));
    ImageOfBack(q.x, q.y, q.z, q.w, BACK.z, BACK.x, p.x, p.y, p.z, p.w);
  }

  /** Which rotation a quaternion stands for: its matrix, so the headset's right, up and forward directions. */
  lemma RotationMatrix(q: Quat)
    ensures var x, y, z, w := q.x, q.y, q.z, q.w;
            && Rotate(q, X) == Vec(w * w + x * x - y * y - z * z, 2.0 * (x * y + w * z), 2.0 * (x * z - w * y))
            && Rotate(q, Y) == Vec(2.0 * (x * y - w * z), w * w - x * x + y * y - z * z, 2.0 * (y * z + w * x))
            && Rotate(q, BACK)
               == Vec(-2.0 * (x * z + w * y), -2.0 * (y * z - w * x), -(w * w - x * x - y * y + z * z))
  {
    RotatedX(q);
    RotatedY(q);
    RotatedBack(q);
  }

  /** A turn to the left, about the axis that points up: the forward direction moves towards the left. */
  lemma TurnAboutUp(s: real, c: real)
    ensures var q := Quat(0.0, s, 0.0, c);
            && Rotate(q, X) == Vec(c * c - s * s, 0.0, -2.0 * (s * c)) && Rotate(q, Y) == Vec(0.0, c * c + s * s, 0.0)
            && Rotate(q, BACK) == Vec(-2.0 * (s * c), 0.0, s * s - c * c)
  {
    RotationMatrix(Quat(0.0, s, 0.0, c));
  }

  // ----- the neutral frame ------------------------------------------------------------------------------

  /** `quat_normalized_xyzw`, with the norm that `np.linalg.norm` returns. */
  function Normalized(q: Quat, norm: real): (r: Quat)
    requires norm >= 0.0 && norm * norm == NormSquared(q)
  {
    if norm <= 0.000000001 then IDENTITY else Quat(q.x / norm, q.y / norm, q.z / norm, q.w / norm)
  }

  lemma SquareOfProduct(a: real, n: real, x: real, k: real, t: real)
    requires x == a * n && k == n * n && t == a * a
    ensures t * k == x * x
  {
  }

  lemma SquareScales(a: real, n: real, x: real, k: real, t: real)
    requires x == a * n && k == n * n && t == Times(a, a)
    ensures Times(t, k) == Times(x, x)
  {
    SquareOfProduct(a, n, x, k, t);
  }

  lemma SquarePositive(n: real)
    requires n > 0.0
    ensures n * n > 0.0
  {
  }

  lemma SquareParts(x: real, y: real, z: real, w: real)
    ensures Square4(x, y, z, w) == Times(x, x) + Times(y, y) + Times(z, z) + Times(w, w)
  {
  }

  lemma CancelFactor(s: real, k: real)
    requires k > 0.0 && s * k == k
    ensures s == 1.0
  {
  }

  lemma CancelTimes(s: real, k: real)
    requires k > 0.0 && Times(s, k) == k
    ensures s == 1.0
  {
    CancelFactor(s, k);
  }

  lemma DividedByNorm(x: real, y: real, z: real, w: real, n: real, k: real, a: real, b: real, c: real, d: real)
    requires k > 0.0 && x == a * n && y == b * n && z == c * n && w == d * n
    requires k == n * n && k == Square4(x, y, z, w)
    ensures Square4(a, b, c, d) == 1.0
  {
    SquareParts(x, y, z, w);
    SquareParts(a, b, c, d);
    SquareScales(a, n, x, k, Times(a, a));
    SquareScales(b, n, y, k, Times(b, b));
    SquareScales(c, n, z, k, Times(c, c));
    SquareScales(d, n, w, k, Times(d, d));
    TimesAdds(Times(a, a), Times(b, b), k);
    TimesAdds(Times(a, a) + Times(b, b), Times(c, c), k);
    TimesAdds(Times(a, a) + Times(b, b) + Times(c, c), Times(d, d), k);
    CancelTimes(Square4(a, b, c, d), k);
  }

  lemma NormalizedIsUnit(q: Quat, norm: real)
    requires norm >= 0.0 && norm * norm == NormSquared(q)
    ensures Unit(Normalized(q, norm))
  {
    if norm > 0.000000001 {
      SquarePositive(norm);
      DividedByNorm(q.x, q.y, q.z, q.w, norm, norm * norm, q.x / norm, q.y / norm, q.z / norm, q.w / norm);
    }
  }

  /** The direction is kept: times its norm, the normalised quaternion is the original one. */
  lemma NormalizedDirection(q: Quat, norm: real)
    requires norm >= 0.0 && norm * norm == NormSquared(q)
    ensures var n := Normalized(q, norm);
            if norm > 0.000000001 then
              n.x * norm == q.x && n.y * norm == q.y && n.z * norm == q.z && n.w * norm == q.w
            else n == Quat(0.0, 0.0, 0.0, 1.0)
  {
  }

  /** The axes of `QuestNeutralFrame`. */
  datatype Axes = Axes(right: Vec, up: Vec, forward: Vec)

  /** The headset's right, up and forward directions under orientation `q`. */
  function AxesOf(q: Quat): (a: Axes) {
    Axes(Rotate(q, X), Rotate(q, Y), Rotate(q, BACK))
  }

  predicate Orthonormal(a: Axes) {
    && Dot(a.right, a.right) == 1.0 && Dot(a.up, a.up) == 1.0 && Dot(a.forward, a.forward) == 1.0
    && Dot(a.right, a.up) == 0.0 && Dot(a.up, a.forward) == 0.0 && Dot(a.right, a.forward) == 0.0
  }

  /** The components of a displacement along the axes. */
  function Local(a: Axes, v: Vec): (r: Vec) {
    Vec(Dot(v, a.right), Dot(v, a.up), Dot(v, a.forward))
  }

  lemma LocalStandard(v: Vec)
    ensures Local(Axes(X, Y, BACK), v) == Vec(v.x, v.y, -v.z)
  {
    DotAxis(v.x, v.y, v.z, X.y, X.x, BACK.z);
  }

  lemma StandardOrthonormal()
    ensures Orthonormal(Axes(X, Y, BACK))
  {
    LocalStandard(X);
    LocalStandard(Y);
    LocalStandard(BACK);
  }

  /** Headset axes are orthonormal. */
  lemma HeadsetOrthonormal(q: Quat)
    requires Unit(q)
    ensures Orthonormal(AxesOf(q))
  {
    StandardOrthonormal();
    RotateKeepsDot(q, X, X);
    RotateKeepsDot(q, Y, Y);
    RotateKeepsDot(q, BACK, BACK);
    RotateKeepsDot(q, X, Y);
    RotateKeepsDot(q, Y, BACK);
    RotateKeepsDot(q, X, BACK);
  }

  /** Components along headset axes are standard components of the displacement rotated back. */
  lemma LocalIsRotatedBack(q: Quat, v: Vec)
    requires Unit(q)
    ensures Local(AxesOf(q), v) == Local(Axes(X, Y, BACK), Rotate(Conjugate(q), v))
  {
    var u := Rotate(Conjugate(q), v);
    RotateBack(q, v);
    RotateKeepsDot(q, u, X);
    RotateKeepsDot(q, u, Y);
    RotateKeepsDot(q, u, BACK);
  }

  lemma StandardLocalKeepsDot(v: Vec, w: Vec)
    ensures Dot(Local(Axes(X, Y, BACK), v), Local(Axes(X, Y, BACK), w)) == Dot(v, w)
  {
    LocalStandard(v);
    LocalStandard(w);
    DotFlips(v.x, v.y, v.z, w.x, w.y, w.z, -v.z, -w.z, 0.0);
  }

  /** Components along headset axes keep dot products, hence lengths: no part of a displacement is lost. */
  lemma LocalKeepsDot(q: Quat, v: Vec, w: Vec)
    requires Unit(q)
    ensures Dot(Local(AxesOf(q), v), Local(AxesOf(q), w)) == Dot(v, w)
  {
    var c := Conjugate(q);
    LocalIsRotatedBack(q, v);
    LocalIsRotatedBack(q, w);
    StandardLocalKeepsDot(Rotate(c, v), Rotate(c, w));
    ConjugateInverts(q);
    RotateKeepsDot(c, v, w);
  }

  class QuestNeutralFrame {
    var axes: Axes

    constructor ()
      ensures axes == Axes(X, Y, BACK)
    {
      axes := Axes(X, Y, BACK);
    }

    method SetAxes(right: Vec, up: Vec, forward: Vec)
      modifies this
      ensures axes == Axes(right, up, forward)
    {
      axes := Axes(right, up, forward);
    }
  }

  /** A head pose: its orientation with the norm of it, and the reset buttons. */
  datatype HeadPose = HeadPose(quat: Quat, norm: real, resetRequested: bool)

  predicate NormKnown(p: HeadPose) { p.norm >= 0.0 && p.norm * p.norm == NormSquared(p.quat) }

  /** What the shared axes can be: the initial ones before a neutral pose is set, those of a unit neutral pose after. */
  predicate Tracks(axes: Axes, neutral: Option<Quat>) {
    match neutral
    case None => axes == Axes(X, Y, BACK)
    case Some(q) => Unit(q) && axes == AxesOf(q)
  }

  /** In every reachable state the axes are orthonormal and local components keep dot products. */
  lemma ReachableAxes(axes: Axes, neutral: Option<Quat>, v: Vec, w: Vec)
    requires Tracks(axes, neutral)
    ensures Orthonormal(axes) && Dot(Local(axes, v), Local(axes, w)) == Dot(v, w)
  {
    match neutral {
      case None =>
        StandardOrthonormal();
        StandardLocalKeepsDot(v, w);
      case Some(q) =>
        HeadsetOrthonormal(q);
        LocalKeepsDot(q, v, w);
    }
  }

  /** The neutral-setting part of `update_head_tracked_camera`. */
  class HeadTracker {
    const frame: QuestNeutralFrame
    var neutral: Option<Quat>
    var resetButtonWasDown: bool

    ghost predicate Valid() reads this, frame {
      Tracks(frame.axes, neutral)
    }

    constructor ()
      ensures Valid() && fresh(frame) && neutral == None && !resetButtonWasDown
    {
      frame := new QuestNeutralFrame();
      neutral, resetButtonWasDown := None, false;
    }

    method Update(pose: Option<HeadPose>) returns (neutralSet: bool)
      requires Valid() && (pose.Some? ==> NormKnown(pose.value))
      modifies this, frame
      ensures Valid()
      ensures pose == None ==> unchanged(this) && unchanged(frame) && !neutralSet
      ensures pose.Some? ==>
                && resetButtonWasDown == pose.value.resetRequested
                && (neutralSet <==> old(neutral) == None || (pose.value.resetRequested && !old(resetButtonWasDown)))
                && (neutralSet ==> neutral == Some(Normalized(pose.value.quat, pose.value.norm)))
                && (!neutralSet ==> neutral == old(neutral) && unchanged(frame))
    {
      if pose == None {
        return false;
      }
      var current := Normalized(pose.value.quat, pose.value.norm);
      NormalizedIsUnit(pose.value.quat, pose.value.norm);
      var resetPressed := pose.value.resetRequested && !resetButtonWasDown;
      resetButtonWasDown := pose.value.resetRequested;
      if neutral == None || resetPressed {
        neutral := Some(current);
        frame.SetAxes(Rotate(current, X), Rotate(current, Y), Rotate(current, BACK));
        return true;
      }
      return false;
    }
  }
}
