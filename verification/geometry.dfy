/**
 * Integer vectors, inclusive boxes and the discrete transforms (quarter
 * turns, reflections and translations) that volume views are built from.
 */
module Geometry {

  datatype Vec3 = Vec3(x: int, y: int, z: int) {
    function Add(o: Vec3): Vec3 { Vec3(x + o.x, y + o.y, z + o.z) }
    function Sub(o: Vec3): Vec3 { Vec3(x - o.x, y - o.y, z - o.z) }
    function Negate(): Vec3 { Vec3(-x, -y, -z) }
  }

  datatype Vec2 = Vec2(x: int, y: int) {
    function Add(o: Vec2): Vec2 { Vec2(x + o.x, y + o.y) }
    function Negate(): Vec2 { Vec2(-x, -y) }
  }

  const ONE3: Vec3 := Vec3(1, 1, 1)
  const ZERO3: Vec3 := Vec3(0, 0, 0)

  /** `VecHelper.inBounds`: `p` lies in the inclusive box [lo, hi]. */
  predicate InBox3(p: Vec3, lo: Vec3, hi: Vec3) {
    lo.x <= p.x <= hi.x && lo.y <= p.y <= hi.y && lo.z <= p.z <= hi.z
  }

  predicate InBox2(p: Vec2, lo: Vec2, hi: Vec2) {
    lo.x <= p.x <= hi.x && lo.y <= p.y <= hi.y
  }

  function Min3(a: Vec3, b: Vec3): Vec3 {
    Vec3(if a.x <= b.x then a.x else b.x, if a.y <= b.y then a.y else b.y, if a.z <= b.z then a.z else b.z)
  }

  function Max3(a: Vec3, b: Vec3): Vec3 {
    Vec3(if a.x >= b.x then a.x else b.x, if a.y >= b.y then a.y else b.y, if a.z >= b.z then a.z else b.z)
  }

  function Min2(a: Vec2, b: Vec2): Vec2 {
    Vec2(if a.x <= b.x then a.x else b.x, if a.y <= b.y then a.y else b.y)
  }

  function Max2(a: Vec2, b: Vec2): Vec2 {
    Vec2(if a.x >= b.x then a.x else b.x, if a.y >= b.y then a.y else b.y)
  }

  function Sign(flip: bool, v: int): int { if flip then -v else v }

  /**
   * A `DiscreteTransform2` that is an isometry of the grid: optionally swap
   * the axes, then negate any of them, then translate.
   */
  datatype Transform2 = Transform2(swap: bool, flipX: bool, flipY: bool, offset: Vec2) {
    function Linear(p: Vec2): Vec2 {
      var q := if swap then Vec2(p.y, p.x) else p;
      Vec2(Sign(flipX, q.x), Sign(flipY, q.y))
    }

    function Apply(p: Vec2): Vec2 { Linear(p).Add(offset) }
  }

  const IDENTITY2: Transform2 := Transform2(false, false, false, Vec2(0, 0))

  /** `DiscreteTransform2.fromTranslation`. */
  function Translation2(v: Vec2): (t: Transform2)
    ensures forall p :: t.Apply(p) == p.Add(v)
  {
    Transform2(false, false, false, v)
  }

  /** `withTransformation`: first `t`, then `u`. */
  function Then(t: Transform2, u: Transform2): (r: Transform2)
    ensures forall p :: r.Apply(p) == u.Apply(t.Apply(p))
  {
    Transform2(
      t.swap != u.swap,
      u.flipX != (if u.swap then t.flipY else t.flipX),
      u.flipY != (if u.swap then t.flipX else t.flipY),
      u.Apply(t.offset))
  }

  /** The inverse transform: undoes `t` on every point. */
  function Inverse(t: Transform2): (r: Transform2)
    ensures forall p :: r.Apply(t.Apply(p)) == p
    ensures forall p :: t.Apply(r.Apply(p)) == p
  {
    var lin := Transform2(t.swap, if t.swap then t.flipY else t.flipX, if t.swap then t.flipX else t.flipY, Vec2(0, 0));
    Transform2(lin.swap, lin.flipX, lin.flipY, lin.Apply(t.offset).Negate())
  }

  /** The six orders in which three axes can be read. */
  datatype AxisOrder = XYZ | XZY | YXZ | YZX | ZXY | ZYX

  /** A `DiscreteTransform3` isometry: reorder axes, negate some, translate. */
  datatype Transform3 = Transform3(order: AxisOrder, flipX: bool, flipY: bool, flipZ: bool, offset: Vec3) {
    function Apply(p: Vec3): Vec3 {
      var q := match order
        case XYZ => p
        case XZY => Vec3(p.x, p.z, p.y)
        case YXZ => Vec3(p.y, p.x, p.z)
        case YZX => Vec3(p.y, p.z, p.x)
        case ZXY => Vec3(p.z, p.x, p.y)
        case ZYX => Vec3(p.z, p.y, p.x);
      Vec3(Sign(flipX, q.x), Sign(flipY, q.y), Sign(flipZ, q.z)).Add(offset)
    }

    /** The inverse transform: the one point `Apply` sends to `q`. */
    function Unapply(q: Vec3): (r: Vec3)
      ensures Apply(r) == q
      ensures forall p :: Apply(p) == q ==> p == r
    {
      var d := q.Sub(offset);
      var s := Vec3(Sign(flipX, d.x), Sign(flipY, d.y), Sign(flipZ, d.z));
      match order
      case XYZ => s
      case XZY => Vec3(s.x, s.z, s.y)
      case YXZ => Vec3(s.y, s.x, s.z)
      case YZX => Vec3(s.z, s.x, s.y)
      case ZXY => Vec3(s.y, s.z, s.x)
      case ZYX => Vec3(s.z, s.y, s.x)
    }
  }

  /** `DiscreteTransform3.fromTranslation`. */
  function Translation3(v: Vec3): (t: Transform3)
    ensures forall p :: t.Apply(p) == p.Add(v)
  {
    Transform3(XYZ, false, false, false, v)
  }
}
