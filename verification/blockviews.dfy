/**
 * `UnmodifiableBlockViewDownsize`: a read-only window [min, max] onto a
 * block volume, and the views it hands out.
 */
module BlockViews {
  import opened Wrappers
  import opened Geometry
  import opened VolumeViews
  import BlockBuffer

  type BlockView = View<BlockBuffer.BlockState>

  /**
   * `getBlockView(newMin, newMax)`: both corners must lie in this window;
   * the new window is taken on the backing volume, so windows never nest,
   * and reads exactly like this one inside [newMin, newMax].
   */
  function GetBlockView(v: BlockView, newMin: Vec3, newMax: Vec3): (r: Result<BlockView, ViewError>)
    requires v.Downsize?
    ensures r.Ok? <==> InBox3(newMin, Min(v), Max(v)) && InBox3(newMax, Min(v), Max(v))
    ensures r.Err? ==> r.error == OutOfBounds(if InBox3(newMin, Min(v), Max(v)) then newMax else newMin, Min(v), Max(v))
    ensures r.Ok? ==> r.value.Downsize? && r.value.volume == v.volume && Depth(r.value) == Depth(v)
    ensures r.Ok? ==> Min(r.value) == newMin && Max(r.value) == newMax
    ensures r.Ok? ==> forall p :: Read(r.value, p) == if InBox3(p, newMin, newMax) then Read(v, p) else Err(OutOfBounds(p, newMin, newMax))
  {
    SubView(v, newMin, newMax)
  }

  /** No `newMin <= newMax` check: a window with swapped corners is accepted and holds no block. */
  lemma InvertedWindowAccepted(v: BlockView)
    requires v.Downsize? && v.lo.x < v.hi.x && v.lo.y <= v.hi.y && v.lo.z <= v.hi.z
    ensures GetBlockView(v, v.hi, v.lo).Ok?
    ensures forall p :: Read(GetBlockView(v, v.hi, v.lo).value, p).Err?
  {
  }

  /** `getBlockView(transform)`: wraps this window, showing at `t(q)` what it shows at `q`. */
  function GetBlockViewTransform(v: BlockView, t: Transform3): (r: BlockView)
    ensures r.Transformed? && r.volume == v && Depth(r) == Depth(v) + 1
    ensures forall q :: Read(r, t.Apply(q)) == Read(v, q)
  {
    TransformView(v, t)
  }

  /** `getRelativeBlockView`: the translation by `-min`, so the window starts at the origin. */
  function GetRelativeBlockView(v: BlockView): (r: BlockView)
    requires v.Downsize?
    ensures forall p :: Read(r, p) == Read(v, p.Add(Min(v)))
    ensures Min(v) == Min3(Min(v), Max(v)) ==> Min(r) == ZERO3 && Max(r) == Max(v).Sub(Min(v))
  {
    RelativeReads(v, Min(v));
    RelativeBounds(v, Min(v), Max(v));
    GetBlockViewTransform(v, Translation3(Min(v).Negate()))
  }

  lemma RelativeReads(v: BlockView, m: Vec3)
    ensures forall p :: Read(Transformed(v, Translation3(m.Negate())), p) == Read(v, p.Add(m))
  {
    var t := Translation3(m.Negate());
    forall p ensures Read(Transformed(v, t), p) == Read(v, p.Add(m)) {
      assert t.Apply(p.Add(m)) == p;
      TransformedReads(v, t);
    }
  }

  lemma RelativeBounds(v: BlockView, lo: Vec3, hi: Vec3)
    requires Min(v) == lo && Max(v) == hi
    ensures lo == Min3(lo, hi) ==> Min(Transformed(v, Translation3(lo.Negate()))) == ZERO3
    ensures lo == Min3(lo, hi) ==> Max(Transformed(v, Translation3(lo.Negate()))) == hi.Sub(lo)
  {
  }

  /** `getUnmodifiableBlockView`: this window is already read-only, so it is returned as is. */
  function GetUnmodifiableBlockView(v: BlockView): (r: BlockView)
    requires v.Downsize?
    ensures Min(r) == Min(v) && Max(r) == Max(v)
    ensures forall p :: Read(r, p) == Read(v, p)
  {
    v
  }

  /** Asking a read-only window for its read-only view again changes nothing. */
  lemma UnmodifiableIdempotent(v: BlockView)
    requires v.Downsize?
    ensures GetUnmodifiableBlockView(v).Downsize?
    ensures GetUnmodifiableBlockView(GetUnmodifiableBlockView(v)) == GetUnmodifiableBlockView(v)
  {
  }
}
