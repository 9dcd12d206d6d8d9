/**
 * Two-dimensional biome areas and `MutableBiomeViewTransform`: a mutable
 * biome area seen through a discrete transform. Reading or writing the
 * view at `p` touches the backing area at `inverse(p)`.
 */
module BiomeAreaViews {
  import opened Wrappers
  import opened Geometry
  import opened BiomeVolumeViews

  datatype AreaError = AreaOutOfBounds(position: Vec2, min: Vec2, max: Vec2) | ReadOnly

  datatype Area =
    | AreaExtent(lo: Vec2, hi: Vec2, cell: Vec2 -> BiomeType)
    | AreaDownsize(area: Area, lo: Vec2, hi: Vec2)
    | AreaTransformed(area: Area, transform: Transform2)
    | ReadOnlyWrapper(area: Area)

  /** A `MutableBiomeArea`: no read-only wrapper anywhere in the stack. */
  predicate Mutable(a: Area) {
    match a
    case AreaExtent(_, _, _) => true
    case AreaDownsize(w, _, _) => Mutable(w)
    case AreaTransformed(w, _) => Mutable(w)
    case ReadOnlyWrapper(_) => false
  }

  function AreaMin(a: Area): Vec2 {
    match a
    case AreaExtent(lo, _, _) => lo
    case AreaDownsize(_, lo, _) => lo
    case AreaTransformed(w, t) => Min2(t.Apply(AreaMin(w)), t.Apply(AreaMax(w)))
    case ReadOnlyWrapper(w) => AreaMin(w)
  }

  function AreaMax(a: Area): Vec2 {
    match a
    case AreaExtent(_, hi, _) => hi
    case AreaDownsize(_, _, hi) => hi
    case AreaTransformed(w, t) => Max2(t.Apply(AreaMin(w)), t.Apply(AreaMax(w)))
    case ReadOnlyWrapper(w) => AreaMax(w)
  }

  function GetBiome(a: Area, p: Vec2): Result<BiomeType, AreaError> {
    match a
    case AreaExtent(lo, hi, cell) => if InBox2(p, lo, hi) then Ok(cell(p)) else Err(AreaOutOfBounds(p, lo, hi))
    case AreaDownsize(w, lo, hi) => if InBox2(p, lo, hi) then GetBiome(w, p) else Err(AreaOutOfBounds(p, lo, hi))
    case AreaTransformed(w, t) => GetBiome(w, Inverse(t).Apply(p))
    case ReadOnlyWrapper(w) => GetBiome(w, p)
  }

  /** Writing one biome: the stack is rebuilt around the updated extent. */
  function PutBiome(a: Area, p: Vec2, b: BiomeType): (r: Result<Area, AreaError>)
    ensures r.Ok? ==> AreaMin(r.value) == AreaMin(a) && AreaMax(r.value) == AreaMax(a) && Mutable(r.value) == Mutable(a)
  {
    match a
    case AreaExtent(lo, hi, cell) =>
      if InBox2(p, lo, hi) then Ok(AreaExtent(lo, hi, q => if q == p then b else cell(q)))
      else Err(AreaOutOfBounds(p, lo, hi))
    case AreaDownsize(w, lo, hi) =>
      if InBox2(p, lo, hi) then
        var w' :- PutBiome(w, p, b);
        Ok(AreaDownsize(w', lo, hi))
      else Err(AreaOutOfBounds(p, lo, hi))
    case AreaTransformed(w, t) =>
      var w' :- PutBiome(w, Inverse(t).Apply(p), b);
      Ok(AreaTransformed(w', t))
    case ReadOnlyWrapper(_) => Err(ReadOnly)
  }

  /** On a mutable area, a write succeeds exactly where a read does. */
  lemma {:induction false} PutWhereGet(a: Area, p: Vec2, b: BiomeType)
    requires Mutable(a)
    ensures PutBiome(a, p, b).Ok? <==> GetBiome(a, p).Ok?
  {
    match a
    case AreaExtent(_, _, _) =>
    case AreaDownsize(w, lo, hi) =>
      if InBox2(p, lo, hi) {
        PutWhereGet(w, p, b);
      }
    case AreaTransformed(w, t) =>
      PutWhereGet(w, Inverse(t).Apply(p), b);
  }

  /** After a successful write, `p` reads `b` and every other position reads as before. */
  lemma {:induction false} PutThenGet(a: Area, p: Vec2, b: BiomeType, q: Vec2)
    requires PutBiome(a, p, b).Ok?
    ensures GetBiome(PutBiome(a, p, b).value, q) == if q == p then Ok(b) else GetBiome(a, q)
  {
    match a
    case AreaExtent(_, _, _) =>
    case AreaDownsize(w, lo, hi) =>
      PutThenGet(w, p, b, q);
    case AreaTransformed(w, t) =>
      var u := Inverse(t);
      assert t.Apply(u.Apply(q)) == q && t.Apply(u.Apply(p)) == p;
      PutThenGet(w, u.Apply(p), b, u.Apply(q));
  }

  /** The image of a box under a grid isometry is the box spanned by the images of its corners. */
  lemma BoxImage(u: Transform2, a: Vec2, b: Vec2, p: Vec2)
    ensures InBox2(u.Apply(p), Min2(u.Apply(a), u.Apply(b)), Max2(u.Apply(a), u.Apply(b)))
        <==> InBox2(p, Min2(a, b), Max2(a, b))
  {
  }

  /** `setBiome(x, z, biome)`: writes the backing area at `inverse(x, z)` and nowhere else. */
  function SetBiome(v: Area, x: int, z: int, b: BiomeType): (r: Result<Area, AreaError>)
    requires v.AreaTransformed? && Mutable(v)
    ensures r.Ok? <==> GetBiome(v, Vec2(x, z)).Ok?
    ensures r.Ok? ==> r.value.AreaTransformed? && r.value.transform == v.transform
    ensures r.Ok? ==> forall u :: (GetBiome(r.value.area, u)
      == if u == Inverse(v.transform).Apply(Vec2(x, z)) then Ok(b) else GetBiome(v.area, u))
    ensures r.Ok? ==> forall q :: GetBiome(r.value, q) == if q == Vec2(x, z) then Ok(b) else GetBiome(v, q)
  {
    var target := Inverse(v.transform).Apply(Vec2(x, z));
    PutWhereGet(v.area, target, b);
    var area :- PutBiome(v.area, target, b);
    assert forall u :: GetBiome(area, u) == if u == target then Ok(b) else GetBiome(v.area, u) by {
      forall u
        ensures GetBiome(area, u) == if u == target then Ok(b) else GetBiome(v.area, u)
      {
        PutThenGet(v.area, target, b, u);
      }
    }
    assert forall q :: GetBiome(AreaTransformed(area, v.transform), q) == if q == Vec2(x, z) then Ok(b) else GetBiome(v, q) by {
      forall q
        ensures GetBiome(AreaTransformed(area, v.transform), q) == if q == Vec2(x, z) then Ok(b) else GetBiome(v, q)
      {
        assert v.transform.Apply(Inverse(v.transform).Apply(q)) == q;
      }
    }
    Ok(AreaTransformed(area, v.transform))
  }

  /** `setBiome(position, biome)`: the same write, at the position's two coordinates. */
  function SetBiomeAt(v: Area, position: Vec2, b: BiomeType): (r: Result<Area, AreaError>)
    requires v.AreaTransformed? && Mutable(v)
    ensures r.Ok? <==> GetBiome(v, position).Ok?
    ensures r.Ok? ==> forall q :: GetBiome(r.value, q) == if q == position then Ok(b) else GetBiome(v, q)
  {
    SetBiome(v, position.x, position.y, b)
  }

  /**
   * `getBiomeView(transform)`: one transform view over the same backing area
   * with the composed transform, showing at `T(p)` what this view shows at `p`.
   */
  function GetBiomeViewTransform(v: Area, t: Transform2): (r: Area)
    requires v.AreaTransformed?
    ensures r.AreaTransformed? && r.area == v.area
    ensures forall p :: GetBiome(r, t.Apply(p)) == GetBiome(v, p)
  {
    var c := Then(v.transform, t);
    assert forall p :: Inverse(c).Apply(t.Apply(p)) == Inverse(v.transform).Apply(p) by {
      forall p
        ensures Inverse(c).Apply(t.Apply(p)) == Inverse(v.transform).Apply(p)
      {
        var y := Inverse(v.transform).Apply(p);
        assert c.Apply(y) == t.Apply(p);
      }
    }
    AreaTransformed(v.area, c)
  }

  /**
   * `getBiomeView(newMin, newMax)` as written: the corners are mapped back
   * through the inverse transform and used unsorted, with no range check.
   */
  function GetBiomeViewAsWritten(v: Area, newMin: Vec2, newMax: Vec2): (r: Area)
    requires v.AreaTransformed?
    ensures r.AreaTransformed? && r.transform == v.transform && r.area.AreaDownsize? && r.area.area == v.area
    ensures r.area.lo == Inverse(v.transform).Apply(newMin) && r.area.hi == Inverse(v.transform).Apply(newMax)
  {
    var u := Inverse(v.transform);
    AreaTransformed(AreaDownsize(v.area, u.Apply(newMin), u.Apply(newMax)), v.transform)
  }

  /**
   * `getBiomeView(newMin, newMax)` as intended: the backing window spans the
   * mapped corners, so the view reads like this one inside the requested box
   * and fails outside it.
   */
  function GetBiomeView(v: Area, newMin: Vec2, newMax: Vec2): (r: Area)
    requires v.AreaTransformed?
    ensures r.AreaTransformed? && r.transform == v.transform && r.area.AreaDownsize? && r.area.area == v.area
    ensures forall p :: InBox2(p, Min2(newMin, newMax), Max2(newMin, newMax)) ==> GetBiome(r, p) == GetBiome(v, p)
    ensures forall p :: !InBox2(p, Min2(newMin, newMax), Max2(newMin, newMax)) ==> GetBiome(r, p).Err?
  {
    var u := Inverse(v.transform);
    var lo, hi := Min2(u.Apply(newMin), u.Apply(newMax)), Max2(u.Apply(newMin), u.Apply(newMax));
    assert forall p :: InBox2(u.Apply(p), lo, hi) <==> InBox2(p, Min2(newMin, newMax), Max2(newMin, newMax)) by {
      forall p
        ensures InBox2(u.Apply(p), lo, hi) <==> InBox2(p, Min2(newMin, newMax), Max2(newMin, newMax))
      {
        BoxImage(u, newMin, newMax, p);
      }
    }
    AreaTransformed(AreaDownsize(v.area, lo, hi), v.transform)
  }

  /**
   * Under a transform that reflects the x axis, the written corners come
   * back swapped on x: any requested box of nonzero width yields a view
   * that holds no biome at all, while the intended view reads the corner.
   */
  lemma AsWrittenReflectionEmpty(v: Area, newMin: Vec2, newMax: Vec2)
    requires v.AreaTransformed? && !v.transform.swap && v.transform.flipX
    requires newMin.x < newMax.x && newMin.y <= newMax.y
    ensures forall p :: GetBiome(GetBiomeViewAsWritten(v, newMin, newMax), p).Err?
    ensures GetBiome(GetBiomeView(v, newMin, newMax), newMin) == GetBiome(v, newMin)
  {
    var u := Inverse(v.transform);
    assert !u.swap && u.flipX;
    var written := GetBiomeViewAsWritten(v, newMin, newMax);
    assert written.area.lo.x > written.area.hi.x;
    assert InBox2(newMin, Min2(newMin, newMax), Max2(newMin, newMax));
  }

  /** For a transform that keeps both axes' direction, the written corners are already sorted. */
  lemma AsWrittenAgreesWithoutReflection(v: Area, newMin: Vec2, newMax: Vec2)
    requires v.AreaTransformed? && !v.transform.flipX && !v.transform.flipY && !v.transform.swap
    requires newMin.x <= newMax.x && newMin.y <= newMax.y
    ensures GetBiomeViewAsWritten(v, newMin, newMax) == GetBiomeView(v, newMin, newMax)
  {
  }

  /** `getRelativeBiomeView`: the translation by `-min`, showing at `p` what this view shows at `p + min`. */
  function GetRelativeBiomeView(v: Area): (r: Area)
    requires v.AreaTransformed?
    ensures r.AreaTransformed? && r.area == v.area
    ensures forall p :: GetBiome(r, p) == GetBiome(v, p.Add(AreaMin(v)))
  {
    var t := Translation2(AreaMin(v).Negate());
    var r := GetBiomeViewTransform(v, t);
    assert forall p: Vec2 :: t.Apply(p.Add(AreaMin(v))) == p;
    r
  }

  /** `getUnmodifiableBiomeView`: reads like this view, refuses every write. */
  function GetUnmodifiableBiomeView(v: Area): (r: Area)
    requires v.AreaTransformed?
    ensures AreaMin(r) == AreaMin(v) && AreaMax(r) == AreaMax(v)
    ensures forall p :: GetBiome(r, p) == GetBiome(v, p)
    ensures forall p: Vec2, b: BiomeType :: PutBiome(r, p, b) == Err(ReadOnly)
  {
    ReadOnlyWrapper(v)
  }
}
