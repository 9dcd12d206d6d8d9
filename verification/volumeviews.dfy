/**
 * Read-only three-dimensional volumes and the views built on them: the
 * backing extent, a downsized window onto another volume, and a volume seen
 * through a discrete transform. `T` is what a cell holds (a block state, a
 * biome). A downsized view checks its own bounds and reads through; a
 * transformed view reads the backing volume at the inverse-transformed
 * point; its bounds are the box spanned by the transformed corners.
 */
module VolumeViews {
  import opened Wrappers
  import opened Geometry

  datatype ViewError = OutOfBounds(position: Vec3, min: Vec3, max: Vec3)

  datatype View<T> =
    | Extent(lo: Vec3, hi: Vec3, cell: Vec3 -> T)
    | Downsize(volume: View<T>, lo: Vec3, hi: Vec3)
    | Transformed(volume: View<T>, transform: Transform3)

  function Min<T>(v: View<T>): Vec3 {
    match v
    case Extent(lo, _, _) => lo
    case Downsize(_, lo, _) => lo
    case Transformed(w, t) => Min3(t.Apply(Min(w)), t.Apply(Max(w)))
  }

  function Max<T>(v: View<T>): Vec3 {
    match v
    case Extent(_, hi, _) => hi
    case Downsize(_, _, hi) => hi
    case Transformed(w, t) => Max3(t.Apply(Min(w)), t.Apply(Max(w)))
  }

  /** `checkRange` of a view: the inclusive box [min, max]. */
  function CheckRange<T>(v: View<T>, p: Vec3): (r: Result<(), ViewError>)
    ensures r.Ok? <==> InBox3(p, Min(v), Max(v))
    ensures r.Err? ==> r.error == OutOfBounds(p, Min(v), Max(v))
  {
    if InBox3(p, Min(v), Max(v)) then Ok(()) else Err(OutOfBounds(p, Min(v), Max(v)))
  }

  /** Reading one cell. */
  function Read<T>(v: View<T>, p: Vec3): Result<T, ViewError> {
    match v
    case Extent(lo, hi, cell) => if InBox3(p, lo, hi) then Ok(cell(p)) else Err(OutOfBounds(p, lo, hi))
    case Downsize(w, lo, hi) => if InBox3(p, lo, hi) then Read(w, p) else Err(OutOfBounds(p, lo, hi))
    case Transformed(w, t) => Read(w, t.Unapply(p))
  }

  /** How many windows and transforms are stacked on the extent. */
  function Depth<T>(v: View<T>): nat {
    match v
    case Extent(_, _, _) => 0
    case Downsize(w, _, _) => 1 + Depth(w)
    case Transformed(w, _) => 1 + Depth(w)
  }

  /**
   * A window [a, b] with both corners inside the downsized view `v` onto
   * `v`'s backing volume reads exactly like `v` inside [a, b], and fails
   * everywhere else.
   */
  lemma SubWindowReads<T>(v: View<T>, a: Vec3, b: Vec3)
    requires v.Downsize? && InBox3(a, v.lo, v.hi) && InBox3(b, v.lo, v.hi)
    ensures forall p :: Read(Downsize(v.volume, a, b), p) == if InBox3(p, a, b) then Read(v, p) else Err(OutOfBounds(p, a, b))
  {
  }

  /**
   * A window [newMin, newMax] of a downsized view: both corners must lie in
   * `v`, and the window is taken on the backing volume, so windows never
   * nest, and reads exactly like `v` inside [newMin, newMax].
   */
  function SubView<T>(v: View<T>, newMin: Vec3, newMax: Vec3): (r: Result<View<T>, ViewError>)
    requires v.Downsize?
    ensures r.Ok? <==> InBox3(newMin, Min(v), Max(v)) && InBox3(newMax, Min(v), Max(v))
    ensures r.Err? ==> r.error == OutOfBounds(if InBox3(newMin, Min(v), Max(v)) then newMax else newMin, Min(v), Max(v))
    ensures r.Ok? ==> r.value.Downsize? && r.value.volume == v.volume && Depth(r.value) == Depth(v)
    ensures r.Ok? ==> Min(r.value) == newMin && Max(r.value) == newMax
    ensures r.Ok? ==> forall p :: Read(r.value, p) == if InBox3(p, newMin, newMax) then Read(v, p) else Err(OutOfBounds(p, newMin, newMax))
  {
    var minInRange :- CheckRange(v, newMin);
    var maxInRange :- CheckRange(v, newMax);
    SubWindowReads(v, newMin, newMax);
    Ok(Downsize(v.volume, newMin, newMax))
  }

  /** A view of `v` through `t`: it shows at `t(q)` what `v` shows at `q`. */
  function TransformView<T>(v: View<T>, t: Transform3): (r: View<T>)
    ensures r.Transformed? && r.volume == v && Depth(r) == Depth(v) + 1
    ensures forall q :: Read(r, t.Apply(q)) == Read(v, q)
  {
    TransformedReads(v, t);
    Transformed(v, t)
  }

  /** A view through `t` shows at `t(q)` what the wrapped view shows at `q`. */
  lemma TransformedReads<T>(v: View<T>, t: Transform3)
    ensures forall q :: Read(Transformed(v, t), t.Apply(q)) == Read(v, q)
  {
  }
}
