/**
 * `ImmutableBiomeViewDownsize`: a window [min, max] onto an immutable
 * biome volume, and the views and worker it hands out.
 */
module BiomeVolumeViews {
  import opened Wrappers
  import opened Geometry
  import opened VolumeViews

  datatype BiomeType = BiomeType(id: nat)

  type BiomeView = View<BiomeType>

  /** A biome volume worker, bound to the volume it iterates over. */
  datatype Worker = Worker(volume: BiomeView)

  /**
   * `getBiomeView(newMin, newMax)`: both corners must lie in this window;
   * the result is a fresh window on the backing volume with exactly the
   * requested corners (never a window of this window).
   */
  function GetBiomeView(v: BiomeView, newMin: Vec3, newMax: Vec3): (r: Result<BiomeView, ViewError>)
    requires v.Downsize?
    ensures r.Ok? <==> InBox3(newMin, Min(v), Max(v)) && InBox3(newMax, Min(v), Max(v))
    ensures r.Err? ==> r.error == OutOfBounds(if InBox3(newMin, Min(v), Max(v)) then newMax else newMin, Min(v), Max(v))
    ensures r.Ok? ==> r.value.Downsize? && r.value.volume == v.volume && Depth(r.value) == Depth(v)
    ensures r.Ok? ==> Min(r.value) == newMin && Max(r.value) == newMax
    ensures r.Ok? ==> forall p :: Read(r.value, p) == if InBox3(p, newMin, newMax) then Read(v, p) else Err(OutOfBounds(p, newMin, newMax))
  {
    SubView(v, newMin, newMax)
  }

  /** `getBiomeView(transform)`: wraps this window, showing at `t(q)` what it shows at `q`. */
  function GetBiomeViewTransform(v: BiomeView, t: Transform3): (r: BiomeView)
    ensures r.Transformed? && r.volume == v && Depth(r) == Depth(v) + 1
    ensures forall q :: Read(r, t.Apply(q)) == Read(v, q)
  {
    TransformView(v, t)
  }

  /** `getBiomeWorker`: a worker over this window, with its bounds and contents. */
  function GetBiomeWorker(v: BiomeView): (w: Worker)
    requires v.Downsize?
    ensures Min(w.volume) == Min(v) && Max(w.volume) == Max(v)
    ensures forall p :: Read(w.volume, p) == Read(v, p)
  {
    Worker(v)
  }
}
