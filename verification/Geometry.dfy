/** Vectors, planes and boxes over the reals. */
module Geometry {
  datatype Vec3 = Vec3(x: real, y: real, z: real)

  /** `cplane_t`; `kind` is the axis for planes 0 to 2, and `signbits` has a bit for each negative
      component of the normal. */
  datatype Plane = Plane(normal: Vec3, dist: real, kind: nat, signbits: nat)

  function Dot(a: Vec3, b: Vec3): real {
    a.x * b.x + a.y * b.y + a.z * b.z
  }

  function Plus(a: Vec3, b: Vec3): Vec3 {
    Vec3(a.x + b.x, a.y + b.y, a.z + b.z)
  }

  function Lerp(a: Vec3, b: Vec3, t: real): Vec3 {
    Vec3(a.x + t * (b.x - a.x), a.y + t * (b.y - a.y), a.z + t * (b.z - a.z))
  }

  predicate Within(p: Vec3, mins: Vec3, maxs: Vec3) {
    mins.x <= p.x <= maxs.x && mins.y <= p.y <= maxs.y && mins.z <= p.z <= maxs.z
  }

  predicate BoxOk(mins: Vec3, maxs: Vec3) {
    mins.x <= maxs.x && mins.y <= maxs.y && mins.z <= maxs.z
  }

  /** The corner of a box that lies deepest behind planes with the given normal. */
  function BackCorner(n: Vec3, mins: Vec3, maxs: Vec3): Vec3 {
    Vec3(if n.x < 0.0 then maxs.x else mins.x,
         if n.y < 0.0 then maxs.y else mins.y,
         if n.z < 0.0 then maxs.z else mins.z)
  }

  function FrontCorner(n: Vec3, mins: Vec3, maxs: Vec3): Vec3 {
    BackCorner(n, maxs, mins)
  }

  lemma ProductOrder(n: real, a: real, b: real)
    requires n >= 0.0 && a <= b
    ensures n * a <= n * b
  {
    assert n * (b - a) >= 0.0;
  }

  lemma TermBounds(n: real, v: real, lo: real, hi: real, back: real, front: real)
    requires lo <= v <= hi
    requires back == (if n < 0.0 then hi else lo) && front == (if n < 0.0 then lo else hi)
    ensures n * back <= n * v <= n * front
  {
    if n < 0.0 {
      ProductOrder(-n, v, hi);
      ProductOrder(-n, lo, v);
    } else {
      ProductOrder(n, lo, v);
      ProductOrder(n, v, hi);
    }
  }

  lemma DotOrder(n: Vec3, a: Vec3, b: Vec3)
    requires n.x * a.x <= n.x * b.x && n.y * a.y <= n.y * b.y && n.z * a.z <= n.z * b.z
    ensures Dot(n, a) <= Dot(n, b)
  {
  }

  /** Every point of a box lies between its two extreme corners, as seen along a normal. */
  lemma CornersBound(n: Vec3, mins: Vec3, maxs: Vec3, p: Vec3)
    requires Within(p, mins, maxs)
    ensures Dot(n, BackCorner(n, mins, maxs)) <= Dot(n, p) <= Dot(n, FrontCorner(n, mins, maxs))
  {
    hide Dot;
    var b, f := BackCorner(n, mins, maxs), FrontCorner(n, mins, maxs);
    TermBounds(n.x, p.x, mins.x, maxs.x, b.x, f.x);
    TermBounds(n.y, p.y, mins.y, maxs.y, b.y, f.y);
    TermBounds(n.z, p.z, mins.z, maxs.z, b.z, f.z);
    DotOrder(n, b, p);
    DotOrder(n, p, f);
  }

  lemma CornersWithin(n: Vec3, mins: Vec3, maxs: Vec3)
    requires BoxOk(mins, maxs)
    ensures Within(BackCorner(n, mins, maxs), mins, maxs) && Within(FrontCorner(n, mins, maxs), mins, maxs)
  {
  }

  lemma DotPlus(n: Vec3, a: Vec3, b: Vec3)
    ensures Dot(n, Plus(a, b)) == Dot(n, a) + Dot(n, b)
  {
  }

  /** With DotPlus, this says what the product and the sum are. */
  lemma DotUnits(p: Vec3, x: real)
    ensures Dot(Vec3(x, 0.0, 0.0), p) == x * p.x && Dot(Vec3(0.0, x, 0.0), p) == x * p.y
    ensures Dot(Vec3(0.0, 0.0, x), p) == x * p.z
    ensures Dot(p, Vec3(x, 0.0, 0.0)) == p.x * x && Dot(p, Vec3(0.0, x, 0.0)) == p.y * x
    ensures Dot(p, Vec3(0.0, 0.0, x)) == p.z * x
  {
  }

  lemma Distribute(n: real, a: real, b: real, t: real)
    ensures n * (a + t * (b - a)) == n * a + t * (n * b - n * a)
  {
    assert n * (a + t * (b - a)) == n * a + n * (t * (b - a));
    assert n * (t * (b - a)) == t * (n * (b - a));
  }

  lemma SumProduct(a: real, b: real, c: real, t: real)
    ensures t * a + t * b + t * c == t * (a + b + c)
  {
  }

  lemma DotLerp(n: Vec3, a: Vec3, b: Vec3, t: real)
    ensures Dot(n, Lerp(a, b, t)) == Dot(n, a) + t * (Dot(n, b) - Dot(n, a))
  {
    Distribute(n.x, a.x, b.x, t);
    Distribute(n.y, a.y, b.y, t);
    Distribute(n.z, a.z, b.z, t);
    SumProduct(n.x * b.x - n.x * a.x, n.y * b.y - n.y * a.y, n.z * b.z - n.z * a.z, t);
  }
}
